/** The second packet format: 245 bytes behind the shared routing prefix, with a zero-padded payload area. */
module WireV2 {
  import opened Common
  import opened Bytes
  import opened Wire

  const VERSION: u32 := 0x0002_0000
  const PREFIX_SIZE: nat := 9
  const PAYLOAD_AT: nat := 54
  const PAYLOAD_MAX: nat := 191
  const PACKET_SIZE: nat := PAYLOAD_AT + PAYLOAD_MAX

  datatype V2Packet = V2Packet(
    magic: u32,
    version: u32,
    form: byte,
    timestamp: u32,
    userId: u16,
    actionId: byte,
    challenge: u32,
    hmac: seq<byte>,
    payloadLen: u16,
    payload: seq<byte>)

  predicate Shaped(p: V2Packet) {
    IsDigest(p.hmac) && |p.payload| == PAYLOAD_MAX
  }

  predicate Packable(p: V2Packet) {
    Shaped(p) && p.payloadLen <= PAYLOAD_MAX
  }

  function Trimmed(p: V2Packet): (r: V2Packet)
    requires Packable(p)
  {
    p.(payload := Field(p.payload[..p.payloadLen], PAYLOAD_MAX))
  }

  function Front(p: V2Packet): (b: seq<byte>)
    requires Shaped(p)
    ensures |b| == PAYLOAD_AT
  {
    U32Bytes(p.magic) + U32Bytes(p.version) + [p.form] + U32Bytes(p.timestamp) + U16Bytes(p.userId)
    + [p.actionId] + U32Bytes(p.challenge) + p.hmac + U16Bytes(p.payloadLen)
  }

  function WireBytes(p: V2Packet): (b: seq<byte>)
    requires Packable(p)
    ensures |b| == PACKET_SIZE
  {
    Front(p) + Field(p.payload[..p.payloadLen], PAYLOAD_MAX)
  }

  method WriteFront(p: V2Packet, out: array<byte>)
    requires Shaped(p) && out.Length >= PAYLOAD_AT
    modifies out
    ensures out[..PAYLOAD_AT] == Front(p)
    ensures forall k :: PAYLOAD_AT <= k < out.Length ==> out[k] == old(out[k])
  {
    assert out[..0] == [];
    CopyTo(out, 0, U32Bytes(p.magic));
    CopyTo(out, 4, U32Bytes(p.version));
    CopyTo(out, 8, [p.form]);
    CopyTo(out, 9, U32Bytes(p.timestamp));
    CopyTo(out, 13, U16Bytes(p.userId));
    CopyTo(out, 15, [p.actionId]);
    CopyTo(out, 16, U32Bytes(p.challenge));
    CopyTo(out, 20, p.hmac);
    CopyTo(out, 52, U16Bytes(p.payloadLen));
  }

  /** Packs into a buffer; a refusal leaves it untouched. */
  method Pack(p: V2Packet, out: array<byte>, maxLen: nat) returns (rc: int)
    requires Shaped(p) && maxLen <= out.Length
    modifies out
    ensures maxLen < PACKET_SIZE ==> rc == ERR_UNPACK && out[..] == old(out[..])
    ensures maxLen >= PACKET_SIZE && !Packable(p) ==> rc == ERR_OVERFLOW && out[..] == old(out[..])
    ensures maxLen >= PACKET_SIZE && Packable(p) ==>
              rc == PACKET_SIZE && out[..] == WireBytes(p) + old(out[PACKET_SIZE..])
  {
    if maxLen < PACKET_SIZE {
      return ERR_UNPACK;
    }
    if p.payloadLen > PAYLOAD_MAX {
      return ERR_OVERFLOW;
    }
    forall k | 0 <= k < PACKET_SIZE { out[k] := 0; }
    WriteFront(p, out);
    CopyTo(out, PAYLOAD_AT, p.payload[..p.payloadLen]);
    var at := PAYLOAD_AT + p.payloadLen;
    assert out[at..PACKET_SIZE] == Zeros(PACKET_SIZE - at);
    assert out[..] == out[..at] + out[at..PACKET_SIZE] + out[PACKET_SIZE..];
    return PACKET_SIZE;
  }

  function UnpackWire(b: seq<byte>): (r: Unpacked<V2Packet>) {
    if |b| != PACKET_SIZE then Rejected(ERR_UNPACK)
    else Packet(V2Packet(ReadU32(b, 0), ReadU32(b, 4), b[8], ReadU32(b, 9), ReadU16(b, 13), b[15], ReadU32(b, 16),
                         b[20..52], ReadU16(b, 52), b[PAYLOAD_AT..PACKET_SIZE]))
  }

  function ValidateWire(p: V2Packet, now: int): (r: int) {
    if p.magic != MAGIC || p.version != VERSION || p.form != FORM1 then ERR_VALIDATE
    else if p.payloadLen > PAYLOAD_MAX then ERR_OVERFLOW
    else if !Timely(p.timestamp, now) then ERR_VALIDATE
    else OK
  }

  function DeserializeWire(b: seq<byte>, now: int): (r: Unpacked<V2Packet>) {
    var r := UnpackWire(b);
    if r.Packet? && ValidateWire(r.packet, now) != OK then Rejected(ValidateWire(r.packet, now)) else r
  }

  /** Exactly which buffers are refused, and with which code. */
  lemma RefusesExactly(b: seq<byte>, now: int)
    ensures var r := DeserializeWire(b, now);
            && (r == Rejected(-2) <==> |b| != 245)
            && (|b| == 245 ==>
                  var prefix := ReadU32(b, 0) == MAGIC && ReadU32(b, 4) == VERSION && b[8] == FORM1;
                  var timestamp, length := ReadU32(b, 9), ReadU16(b, 52);
                  && (r == Rejected(-4) <==> prefix && length > 191)
                  && (r.Packet? <==> prefix && length <= 191 && now - 300 <= timestamp <= now + 300)
                  && (r.Rejected? ==> r.code == -3 || r.code == -4))
  {
  }

  /** Where each field lies. */
  lemma FrontFields(p: V2Packet, b: seq<byte>)
    requires Shaped(p) && |b| >= PAYLOAD_AT && b[..PAYLOAD_AT] == Front(p)
    ensures ReadU32(b, 0) == p.magic && ReadU32(b, 4) == p.version && b[8] == p.form && ReadU32(b, 9) == p.timestamp
    ensures ReadU16(b, 13) == p.userId && b[15] == p.actionId && ReadU32(b, 16) == p.challenge
    ensures b[20..52] == p.hmac && ReadU16(b, 52) == p.payloadLen
  {
    var f := Front(p);
    assert b[0..4] == f[0..4] == U32Bytes(p.magic);
    assert b[4..8] == f[4..8] == U32Bytes(p.version);
    assert b[8] == f[8];
    assert b[9..13] == f[9..13] == U32Bytes(p.timestamp);
    assert b[13..15] == f[13..15] == U16Bytes(p.userId);
    assert b[15] == f[15];
    assert b[16..20] == f[16..20] == U32Bytes(p.challenge);
    assert b[20..52] == f[20..52];
    assert b[52..54] == f[52..54] == U16Bytes(p.payloadLen);
    ReadWritten32(b, 0, p.magic);
    ReadWritten32(b, 4, p.version);
    ReadWritten32(b, 9, p.timestamp);
    ReadWritten16(b, 13, p.userId);
    ReadWritten32(b, 16, p.challenge);
    ReadWritten16(b, 52, p.payloadLen);
  }

  /** Every packable packet comes back with the unused payload bytes zeroed. */
  lemma UnpackInvertsPack(p: V2Packet)
    requires Packable(p)
    ensures UnpackWire(WireBytes(p)) == Packet(Trimmed(p))
  {
    var b := WireBytes(p);
    assert b[..PAYLOAD_AT] == Front(p);
    assert b[PAYLOAD_AT..PACKET_SIZE] == Field(p.payload[..p.payloadLen], PAYLOAD_MAX);
    FrontFields(p, b);
  }

  /** A buffer is reproduced by packing exactly when it is zero behind its payload. */
  lemma PackInvertsUnpackIff(b: seq<byte>)
    requires UnpackWire(b).Packet? && UnpackWire(b).packet.payloadLen <= PAYLOAD_MAX
    ensures Packable(UnpackWire(b).packet)
    ensures WireBytes(UnpackWire(b).packet) == b <==>
            forall k :: PAYLOAD_AT + UnpackWire(b).packet.payloadLen <= k < PACKET_SIZE ==> b[k] == 0
  {
    var p := UnpackWire(b).packet;
    WriteRead32(b, 0);
    WriteRead32(b, 4);
    WriteRead32(b, 9);
    WriteRead16(b, 13);
    WriteRead32(b, 16);
    WriteRead16(b, 52);
    assert b[..PAYLOAD_AT] == b[0..4] + b[4..8] + [b[8]] + b[9..13] + b[13..15] + [b[15]] + b[16..20] + b[20..52]
      + b[52..54];
    assert Front(p) == b[..PAYLOAD_AT];
    ZeroTailIff(b, p.payloadLen);
  }

  lemma ZeroTailIff(b: seq<byte>, n: nat)
    requires |b| == PACKET_SIZE && n <= PAYLOAD_MAX
    ensures b[..PAYLOAD_AT] + Field(b[PAYLOAD_AT..][..n], PAYLOAD_MAX) == b <==>
            forall k :: PAYLOAD_AT + n <= k < PACKET_SIZE ==> b[k] == 0
  {
    var w := b[..PAYLOAD_AT] + Field(b[PAYLOAD_AT..][..n], PAYLOAD_MAX);
    assert |w| == PACKET_SIZE;
    assert forall k :: 0 <= k < PAYLOAD_AT + n ==> w[k] == b[k];
    assert forall k :: PAYLOAD_AT + n <= k < PACKET_SIZE ==> w[k] == 0;
  }

  // ---- units ----

  /** The packet an encoder builds. */
  function PacketOf(u: NormalizedUnit, hmac: seq<byte>): (p: V2Packet)
    requires |u.payload| <= PAYLOAD_MAX && IsDigest(hmac)
    ensures Packable(p)
  {
    V2Packet(MAGIC, VERSION, FORM1, u.timestamp, u.userId, u.actionId, u.challenge, hmac, |u.payload|,
             Field(u.payload, PAYLOAD_MAX))
  }

  function Normalize(b: seq<byte>, ip: string, port: u16, encrypted: bool, now: int): (r: Unpacked<NormalizedUnit>) {
    var r := DeserializeWire(b, now);
    if r.Rejected? then Rejected(r.code)
    else
      var p := r.packet;
      Packet(NormalizedUnit(true, VERSION, p.form, 1, p.timestamp, p.userId, p.actionId, p.challenge, p.hmac,
                            Clip(ip, IP_SIZE), port, encrypted, false, false, p.payload[..p.payloadLen]))
  }

  /** An encoded unit is normalised to the same message exactly while its timestamp is in the window. */
  lemma DeliversIffTimely(u: NormalizedUnit, hmac: seq<byte>, ip: string, port: u16, encrypted: bool, now: int)
    requires |u.payload| <= PAYLOAD_MAX && IsDigest(hmac)
    ensures var r := Normalize(WireBytes(PacketOf(u, hmac)), ip, port, encrypted, now);
            && (r.Packet? <==> now - 300 <= u.timestamp <= now + 300)
            && (r.Packet? ==>
                  r.packet == NormalizedUnit(true, VERSION, FORM1, 1, u.timestamp, u.userId, u.actionId, u.challenge,
                                             hmac, Clip(ip, 64), port, encrypted, false, false, u.payload))
            && (r.Rejected? ==> r.code == ERR_VALIDATE)
  {
    var p := PacketOf(u, hmac);
    UnpackInvertsPack(p);
    assert p.payload[..p.payloadLen] == u.payload;
    assert Trimmed(p) == p;
  }
}
