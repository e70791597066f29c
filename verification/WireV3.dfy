/**
 * The third packet format: a 27-byte header, a wrapped content key, the ciphertext and a tag.
 * Variable-length fields sit in fixed-size arrays of which a prefix is used.
 */
module WireV3 {
  import opened Common
  import opened Bytes
  import opened Wire

  const VERSION: u32 := 0x0003_0000
  const TAG_SIZE: nat := 16
  const NONCE_SIZE: nat := 12
  const CEK_SIZE: nat := 32
  const CEK_MAX: nat := 256
  const PAYLOAD_MAX: nat := 512
  const BODY_FIXED: nat := 47
  const BODY_MAX: nat := BODY_FIXED + PAYLOAD_MAX
  const HEADER_SIZE: nat := 27
  const PACKET_MAX: nat := HEADER_SIZE + CEK_MAX + BODY_MAX + TAG_SIZE

  datatype V3Packet = V3Packet(
    magic: u32,
    version: u32,
    form: byte,
    wrappedLen: u16,
    nonce: seq<byte>,
    ciphertextLen: u32,
    wrapped: seq<byte>,
    ciphertext: seq<byte>,
    tag: seq<byte>)

  /** The arrays have their declared sizes. */
  predicate Shaped(p: V3Packet) {
    |p.nonce| == NONCE_SIZE && |p.wrapped| == CEK_MAX && |p.ciphertext| == BODY_MAX && |p.tag| == TAG_SIZE
  }

  predicate LengthsOk(wrappedLen: nat, ciphertextLen: nat) {
    0 < wrappedLen <= CEK_MAX && BODY_FIXED <= ciphertextLen <= BODY_MAX
  }

  predicate Packable(p: V3Packet) {
    Shaped(p) && LengthsOk(p.wrappedLen, p.ciphertextLen)
  }

  /** The packet with the unused ends of its arrays zeroed. */
  function Trimmed(p: V3Packet): (r: V3Packet)
    requires Packable(p)
  {
    p.(wrapped := Field(p.wrapped[..p.wrappedLen], CEK_MAX),
       ciphertext := Field(p.ciphertext[..p.ciphertextLen], BODY_MAX))
  }

  // ---- layout ----

  function Header(p: V3Packet): (h: seq<byte>)
    requires |p.nonce| == NONCE_SIZE
    ensures |h| == HEADER_SIZE
  {
    U32Bytes(p.magic) + U32Bytes(p.version) + [p.form] + U16Bytes(p.wrappedLen) + p.nonce + U32Bytes(p.ciphertextLen)
  }

  function WireBytes(p: V3Packet): (b: seq<byte>)
    requires Packable(p)
    ensures |b| == HEADER_SIZE + p.wrappedLen + p.ciphertextLen + TAG_SIZE
  {
    Header(p) + p.wrapped[..p.wrappedLen] + p.ciphertext[..p.ciphertextLen] + p.tag
  }

  /** The field writes shared by packing and by the authenticated data. */
  method WriteHeader(p: V3Packet, out: array<byte>)
    requires |p.nonce| == NONCE_SIZE && out.Length >= HEADER_SIZE
    modifies out
    ensures out[..HEADER_SIZE] == Header(p)
    ensures forall k :: HEADER_SIZE <= k < out.Length ==> out[k] == old(out[k])
  {
    assert out[..0] == [];
    CopyTo(out, 0, U32Bytes(p.magic));
    CopyTo(out, 4, U32Bytes(p.version));
    CopyTo(out, 8, [p.form]);
    CopyTo(out, 9, U16Bytes(p.wrappedLen));
    CopyTo(out, 11, p.nonce);
    CopyTo(out, 23, U32Bytes(p.ciphertextLen));
  }

  /** The data authenticated with the ciphertext; a buffer too small is left alone. */
  method BuildAad(p: V3Packet, aad: array<byte>) returns (ok: bool)
    requires |p.nonce| == NONCE_SIZE
    modifies aad
    ensures ok <==> aad.Length >= HEADER_SIZE
    ensures ok ==> aad[..HEADER_SIZE] == Header(p)
    ensures !ok ==> aad[..] == old(aad[..])
  {
    if aad.Length < HEADER_SIZE {
      return false;
    }
    WriteHeader(p, aad);
    return true;
  }

  /** Packs into a buffer; a refused packet or a short buffer leaves it untouched. */
  method Pack(p: V3Packet, out: array<byte>, maxLen: nat) returns (rc: int)
    requires Shaped(p) && maxLen <= out.Length
    modifies out
    ensures !LengthsOk(p.wrappedLen, p.ciphertextLen) ==> rc == ERR_OVERFLOW && out[..] == old(out[..])
    ensures Packable(p) && maxLen < |WireBytes(p)| ==> rc == ERR_UNPACK && out[..] == old(out[..])
    ensures Packable(p) && maxLen >= |WireBytes(p)| ==>
              rc == |WireBytes(p)| && out[..] == WireBytes(p) + old(out[rc..])
  {
    if p.wrappedLen == 0 || p.wrappedLen > CEK_MAX {
      return ERR_OVERFLOW;
    }
    if p.ciphertextLen < BODY_FIXED || p.ciphertextLen > BODY_MAX {
      return ERR_OVERFLOW;
    }
    var total := HEADER_SIZE + p.wrappedLen + p.ciphertextLen + TAG_SIZE;
    if maxLen < total {
      return ERR_UNPACK;
    }
    hide WireBytes;
    forall k | 0 <= k < total { out[k] := 0; }
    WriteFields(p, out);
    assert out[..] == out[..total] + out[total..];
    rc := total;
  }

  /** The fields of a packet, one behind the other. */
  method WriteFields(p: V3Packet, out: array<byte>)
    requires Packable(p) && |WireBytes(p)| <= out.Length
    modifies out
    ensures out[..|WireBytes(p)|] == WireBytes(p)
    ensures forall k :: |WireBytes(p)| <= k < out.Length ==> out[k] == old(out[k])
  {
    hide Header;
    WriteHeader(p, out);
    CopyTo(out, HEADER_SIZE, p.wrapped[..p.wrappedLen]);
    CopyTo(out, HEADER_SIZE + p.wrappedLen, p.ciphertext[..p.ciphertextLen]);
    CopyTo(out, HEADER_SIZE + p.wrappedLen + p.ciphertextLen, p.tag);
  }

  function UnpackWire(b: seq<byte>): (r: Unpacked<V3Packet>)
  {
    if |b| < HEADER_SIZE then Rejected(ERR_UNPACK)
    else
      var wl, cl := ReadU16(b, 9), ReadU32(b, 23);
      if wl == 0 || wl > CEK_MAX then Rejected(ERR_OVERFLOW)
      else if cl < BODY_FIXED || cl > BODY_MAX then Rejected(ERR_OVERFLOW)
      else if |b| != HEADER_SIZE + wl + cl + TAG_SIZE then Rejected(ERR_UNPACK)
      else
        var at := HEADER_SIZE + wl;
        Packet(V3Packet(ReadU32(b, 0), ReadU32(b, 4), b[8], wl, b[11..23], cl,
                        Field(b[HEADER_SIZE..at], CEK_MAX),
                        Field(b[at..at + cl], BODY_MAX),
                        b[at + cl..at + cl + TAG_SIZE]))
  }

  function ValidateWire(p: V3Packet): (rc: int) {
    if p.magic != MAGIC || p.version != VERSION || p.form != FORM1 then ERR_VALIDATE
    else if p.wrappedLen == 0 || p.wrappedLen > CEK_MAX then ERR_OVERFLOW
    else if p.ciphertextLen < BODY_FIXED || p.ciphertextLen > BODY_MAX then ERR_OVERFLOW
    else OK
  }

  function DeserializeWire(b: seq<byte>): (r: Unpacked<V3Packet>) {
    var r := UnpackWire(b);
    if r.Rejected? then r
    else if ValidateWire(r.packet) != OK then Rejected(ValidateWire(r.packet))
    else r
  }

  // ---- the two directions ----

  /** Where each field lies: the header, the wrapped key, the ciphertext and the tag. */
  lemma Layout(p: V3Packet)
    requires Packable(p)
    ensures var b, at := WireBytes(p), 27 + p.wrappedLen;
            && |b| == at + p.ciphertextLen + 16
            && ReadU32(b, 0) == p.magic && ReadU32(b, 4) == p.version && b[8] == p.form
            && ReadU16(b, 9) == p.wrappedLen && b[11..23] == p.nonce && ReadU32(b, 23) == p.ciphertextLen
            && b[27..at] == p.wrapped[..p.wrappedLen] && b[at..at + p.ciphertextLen] == p.ciphertext[..p.ciphertextLen]
            && b[at + p.ciphertextLen..] == p.tag
  {
    var b := WireBytes(p);
    assert b[..HEADER_SIZE] == Header(p);
    HeaderSlices(p, b);
  }

  /** Exactly which buffers are refused, and with which code. */
  lemma RefusesExactly(b: seq<byte>)
    ensures var r := DeserializeWire(b);
            if |b| < 27 then r == Rejected(-2)
            else
              var prefix := ReadU32(b, 0) == MAGIC && ReadU32(b, 4) == VERSION && b[8] == FORM1;
              var wrapped, cipher := ReadU16(b, 9), ReadU32(b, 23);
              var lengths := 1 <= wrapped <= 256 && 47 <= cipher <= 559;
              && (r == Rejected(-4) <==> !lengths)
              && (r == Rejected(-2) <==> lengths && |b| != 27 + wrapped + cipher + 16)
              && (r.Packet? <==> lengths && |b| == 27 + wrapped + cipher + 16 && prefix)
              && (r.Rejected? ==> r.code == -3 || r.code == -4 || r.code == -2)
  {
  }

  lemma HeaderSlices(p: V3Packet, b: seq<byte>)
    requires |p.nonce| == NONCE_SIZE && |b| >= HEADER_SIZE && b[..HEADER_SIZE] == Header(p)
    ensures ReadU32(b, 0) == p.magic && ReadU32(b, 4) == p.version && b[8] == p.form
    ensures ReadU16(b, 9) == p.wrappedLen && b[11..23] == p.nonce && ReadU32(b, 23) == p.ciphertextLen
  {
    var h := Header(p);
    assert b[0..4] == h[0..4] == U32Bytes(p.magic);
    assert b[4..8] == h[4..8] == U32Bytes(p.version);
    assert b[8] == h[8] == p.form;
    assert b[9..11] == h[9..11] == U16Bytes(p.wrappedLen);
    assert b[11..23] == h[11..23] == p.nonce;
    assert b[23..27] == h[23..27] == U32Bytes(p.ciphertextLen);
    ReadWritten32(b, 0, p.magic);
    ReadWritten32(b, 4, p.version);
    ReadWritten16(b, 9, p.wrappedLen);
    ReadWritten32(b, 23, p.ciphertextLen);
  }

  /** Every packable packet comes back on its used prefixes. */
  lemma UnpackInvertsPack(p: V3Packet)
    requires Packable(p)
    ensures UnpackWire(WireBytes(p)) == Packet(Trimmed(p))
  {
    var b := WireBytes(p);
    var at := HEADER_SIZE + p.wrappedLen;
    assert b[..HEADER_SIZE] == Header(p);
    HeaderSlices(p, b);
    assert b[HEADER_SIZE..at] == p.wrapped[..p.wrappedLen];
    assert b[at..at + p.ciphertextLen] == p.ciphertext[..p.ciphertextLen];
    assert b[at + p.ciphertextLen..at + p.ciphertextLen + TAG_SIZE] == p.tag;
  }

  /** Every accepted buffer is reproduced byte for byte. */
  lemma PackInvertsUnpack(b: seq<byte>)
    requires UnpackWire(b).Packet?
    ensures Packable(UnpackWire(b).packet) && WireBytes(UnpackWire(b).packet) == b
    ensures Trimmed(UnpackWire(b).packet) == UnpackWire(b).packet
  {
    hide Header;
    var p := UnpackWire(b).packet;
    HeaderIsFront(b, p);
    var at := HEADER_SIZE + p.wrappedLen;
    assert b == b[..HEADER_SIZE] + b[HEADER_SIZE..at] + b[at..at + p.ciphertextLen] + b[at + p.ciphertextLen..];
  }

  lemma HeaderIsFront(b: seq<byte>, p: V3Packet)
    requires |b| >= HEADER_SIZE && p.magic == ReadU32(b, 0) && p.version == ReadU32(b, 4) && p.form == b[8]
    requires p.wrappedLen == ReadU16(b, 9) && p.nonce == b[11..23] && p.ciphertextLen == ReadU32(b, 23)
    ensures Header(p) == b[..HEADER_SIZE]
  {
    WriteRead32(b, 0);
    WriteRead32(b, 4);
    WriteRead16(b, 9);
    WriteRead32(b, 23);
    assert b[..HEADER_SIZE] == b[0..4] + b[4..8] + [b[8]] + b[9..11] + b[11..23] + b[23..27];
  }

  lemma PackedLengthBound(p: V3Packet)
    requires Packable(p)
    ensures HEADER_SIZE + 1 + BODY_FIXED + TAG_SIZE <= |WireBytes(p)| <= PACKET_MAX == 858
  {
  }

  /** The buffers that deserialize are exactly the packed forms of valid packets. */
  lemma DeserializesExactly(b: seq<byte>)
    ensures DeserializeWire(b).Packet? <==>
            exists p :: Packable(p) && p.magic == MAGIC && p.version == VERSION && p.form == FORM1 && WireBytes(p) == b
  {
    if DeserializeWire(b).Packet? {
      PackInvertsUnpack(b);
    }
    forall p | Packable(p) && p.magic == MAGIC && p.version == VERSION && p.form == FORM1 && WireBytes(p) == b
      ensures DeserializeWire(b).Packet?
    {
      UnpackInvertsPack(p);
    }
  }

  // ---- plaintext body ----

  function PlainBytes(u: NormalizedUnit): (b: seq<byte>)
    requires |u.payload| <= PAYLOAD_MAX && IsDigest(u.hmac)
    ensures |b| == BODY_FIXED + |u.payload|
  {
    U32Bytes(u.timestamp) + U16Bytes(u.userId) + [u.actionId] + U32Bytes(u.challenge) + U32Bytes(|u.payload|)
    + u.payload + u.hmac
  }

  /** Where each field of the body lies. */
  lemma PlainLayout(u: NormalizedUnit)
    requires |u.payload| <= PAYLOAD_MAX && IsDigest(u.hmac)
    ensures var b, n := PlainBytes(u), |u.payload|;
            && |b| == 47 + n && b[0..4] == U32Bytes(u.timestamp) && b[4..6] == U16Bytes(u.userId) && b[6] == u.actionId
            && b[7..11] == U32Bytes(u.challenge) && b[11..15] == U32Bytes(n) && b[15..15 + n] == u.payload
            && b[15 + n..] == u.hmac
  {
  }

  predicate PlainPackable(u: NormalizedUnit, capacity: nat) {
    && |u.payload| <= PAYLOAD_MAX && u.wireVersion == VERSION && u.wireForm == FORM1
    && capacity >= BODY_FIXED + |u.payload|
  }

  /** Packs the body; nothing is written when it is refused. */
  method PackPlaintext(u: NormalizedUnit, out: array<byte>, capacity: nat) returns (ok: bool, len: nat)
    requires capacity <= out.Length && IsDigest(u.hmac)
    modifies out
    ensures ok <==> PlainPackable(u, capacity)
    ensures ok ==> len == |PlainBytes(u)| && out[..len] == PlainBytes(u)
    ensures !ok ==> len == capacity && out[..] == old(out[..])
  {
    if |u.payload| > PAYLOAD_MAX || u.wireVersion != VERSION || u.wireForm != FORM1 {
      return false, capacity;
    }
    var need := BODY_FIXED + |u.payload|;
    if capacity < need {
      return false, capacity;
    }
    assert out[..0] == [];
    CopyTo(out, 0, U32Bytes(u.timestamp));
    CopyTo(out, 4, U16Bytes(u.userId));
    CopyTo(out, 6, [u.actionId]);
    CopyTo(out, 7, U32Bytes(u.challenge));
    CopyTo(out, 11, U32Bytes(|u.payload|));
    CopyTo(out, 15, u.payload);
    CopyTo(out, 15 + |u.payload|, u.hmac);
    return true, need;
  }

  function UnpackPlaintext(b: seq<byte>, ip: string, port: u16): (r: Option<NormalizedUnit>)
  {
    if |b| < BODY_FIXED then None
    else
      var n := ReadU32(b, 11);
      if n > PAYLOAD_MAX || |b| != BODY_FIXED + n then None
      else
        Some(ZERO_UNIT.(timestamp := ReadU32(b, 0), userId := ReadU16(b, 4), actionId := b[6],
                        challenge := ReadU32(b, 7),
                        ip := Clip(ip, IP_SIZE), clientPort := port,
                        payload := b[15..15 + n], hmac := b[15 + n..15 + n + 32]))
  }

  lemma PlaintextRoundTrip(u: NormalizedUnit, ip: string, port: u16)
    requires |u.payload| <= PAYLOAD_MAX && IsDigest(u.hmac)
    ensures UnpackPlaintext(PlainBytes(u), ip, port).Some?
    ensures var v := UnpackPlaintext(PlainBytes(u), ip, port).value;
            v == ZERO_UNIT.(timestamp := u.timestamp, userId := u.userId, actionId := u.actionId,
                            challenge := u.challenge, hmac := u.hmac, ip := Clip(ip, 64), clientPort := port,
                            payload := u.payload)
  {
    PlainLayout(u);
    var b, n := PlainBytes(u), |u.payload|;
    assert b[0..4] == U32Bytes(u.timestamp);
    assert b[4..6] == U16Bytes(u.userId);
    assert b[6] == u.actionId;
    assert b[7..11] == U32Bytes(u.challenge);
    assert b[11..15] == U32Bytes(n);
    assert b[15..15 + n] == u.payload;
    assert b[15 + n..15 + n + 32] == u.hmac;
    ReadWritten32(b, 0, u.timestamp);
    ReadWritten16(b, 4, u.userId);
    ReadWritten32(b, 7, u.challenge);
    ReadWritten32(b, 11, n);
  }
}
