/**
 * Encoding and decoding with the third packet format. The cryptography is a suite of functions;
 * what it promises is stated as a law and appears as a hypothesis.
 */
module V3Codec {
  import opened Common
  import opened Wire
  import opened Bytes
  import opened WireV3

  datatype Sealed = Sealed(text: seq<byte>, tag: seq<byte>)

  /** The foreign operations: key wrapping, authenticated encryption, digest and signature. */
  datatype Suite = Suite(
    wrap: seq<byte> -> Option<seq<byte>>,
    unwrap: seq<byte> -> Option<seq<byte>>,
    seal: (seq<byte>, seq<byte>, seq<byte>, seq<byte>) -> Option<Sealed>,
    unseal: (seq<byte>, seq<byte>, seq<byte>, Sealed) -> Option<seq<byte>>,
    digest: NormalizedUnit -> Option<seq<byte>>,
    sign: seq<byte> -> Option<seq<byte>>)

  /** What is borrowed from the codec context: whether keys are set. */
  datatype Session = Session(hasPublicKey: bool, hmacKeyLen: nat)

  /** Undoing what was done gives it back, sealing keeps the length, and fixed-size outputs have their size. */
  ghost predicate Lawful(s: Suite) {
    && (forall k :: s.wrap(k).Some? ==> s.unwrap(s.wrap(k).value) == Some(k))
    && (forall k, n, a, p :: s.seal(k, n, a, p).Some? ==>
          && |s.seal(k, n, a, p).value.text| == |p| && |s.seal(k, n, a, p).value.tag| == TAG_SIZE
          && s.unseal(k, n, a, s.seal(k, n, a, p).value) == Some(p))
    && (forall h :: s.sign(h).Some? ==> IsDigest(s.sign(h).value))
  }

  /** Only what was sealed opens. */
  ghost predicate Authentic(s: Suite) {
    forall k, n, a, c :: s.unseal(k, n, a, c).Some? ==> s.seal(k, n, a, s.unseal(k, n, a, c).value) == Some(c)
  }

  // ---- encoding ----

  /** The unit with its signature, when one is asked for and can be made. */
  function Signed(s: Suite, session: Option<Session>, u: NormalizedUnit): (r: Option<NormalizedUnit>) {
    if !u.wireAuth then Some(u)
    else if session.None? || !session.value.hasPublicKey || session.value.hmacKeyLen < 32 then None
    else
      var h := s.digest(u);
      if h.None? then None
      else
        var m := s.sign(h.value);
        if m.None? then None else Some(u.(hmac := m.value))
  }

  /** The signature a sender makes over the unit: it needs both keys, the digest and the signing itself. */
  predicate SignedBy(s: Suite, session: Option<Session>, u: NormalizedUnit, mac: seq<byte>) {
    && session.Some? && session.value.hasPublicKey && session.value.hmacKeyLen >= 32
    && s.digest(u).Some? && s.sign(s.digest(u).value) == Some(mac)
  }

  predicate Signable(s: Suite, session: Option<Session>, u: NormalizedUnit) {
    && session.Some? && session.value.hasPublicKey && session.value.hmacKeyLen >= 32
    && s.digest(u).Some? && s.sign(s.digest(u).value).Some?
  }

  /** The bytes that go into the packet as its signature: the sender's where it is asked for, else the unit's own. */
  predicate SignatureOf(s: Suite, session: Option<Session>, u: NormalizedUnit, mac: seq<byte>) {
    if u.wireAuth then SignedBy(s, session, u, mac) else mac == u.hmac
  }

  lemma SignedExactly(s: Suite, session: Option<Session>, u: NormalizedUnit, v: NormalizedUnit)
    ensures Signed(s, session, u) == Some(v) <==> SignatureOf(s, session, u, v.hmac) && v == u.(hmac := v.hmac)
  {
  }

  /** Where neither digest nor signing has collisions, one signature signs one unit. */
  lemma SignatureIsOfOne(s: Suite, session: Option<Session>, u: NormalizedUnit, v: NormalizedUnit, mac: seq<byte>)
    requires forall x, y :: s.digest(x).Some? && s.digest(x) == s.digest(y) ==> x == y
    requires forall h, i :: s.sign(h).Some? && s.sign(h) == s.sign(i) ==> h == i
    requires SignedBy(s, session, u, mac) && SignedBy(s, session, v, mac)
    ensures u == v
  {
  }

  function WrapKey(s: Suite, session: Option<Session>, cek: seq<byte>): (w: Option<seq<byte>>)
    ensures w.Some? ==> 0 < |w.value| <= CEK_MAX
  {
    if session.None? then None
    else
      var w := s.wrap(cek);
      if w.None? || |w.value| == 0 || |w.value| > CEK_MAX then None else w
  }

  /** The packet before its body is sealed: the body's length already stands where the sealed length will. */
  function Envelope(wrapped: seq<byte>, nonce: seq<byte>, bodyLen: nat): (p: V3Packet)
    requires 0 < |wrapped| <= CEK_MAX && bodyLen <= BODY_MAX
    ensures |nonce| == NONCE_SIZE ==> Shaped(p)
  {
    V3Packet(MAGIC, VERSION, FORM1, |wrapped|, nonce, bodyLen, Field(wrapped, CEK_MAX), Zeros(BODY_MAX),
             Zeros(TAG_SIZE))
  }

  function Filled(p: V3Packet, c: Sealed): (r: V3Packet)
    requires |c.text| <= BODY_MAX
  {
    p.(ciphertextLen := |c.text|, ciphertext := Field(c.text, BODY_MAX), tag := c.tag)
  }

  /** The packet for a unit, given the random key and nonce, if every step succeeds. */
  ghost function EncodePacket(s: Suite, session: Option<Session>, u: NormalizedUnit,
                              cek: Option<seq<byte>>, nonce: Option<seq<byte>>): (p: Option<V3Packet>)
    requires Lawful(s) && IsDigest(u.hmac)
    requires cek.Some? ==> |cek.value| == CEK_SIZE
    requires nonce.Some? ==> |nonce.value| == NONCE_SIZE
    ensures p.Some? ==> Packable(p.value)
  {
    var signed := Signed(s, session, u);
    if u.wireVersion != VERSION || u.wireForm != FORM1 || |u.payload| > PAYLOAD_MAX
       || signed.None? || cek.None? || nonce.None? then None
    else SealPacket(s, session, PlainBytes(signed.value), cek.value, nonce.value)
  }

  /** The packet for a body of admissible size. */
  ghost function SealPacket(s: Suite, session: Option<Session>, body: seq<byte>, cek: seq<byte>, nonce: seq<byte>)
    : (p: Option<V3Packet>)
    requires Lawful(s) && BODY_FIXED <= |body| <= BODY_MAX && |nonce| == NONCE_SIZE
    ensures p.Some? ==> Packable(p.value)
  {
    var wrapped := WrapKey(s, session, cek);
    if wrapped.None? then None
    else
      var e := Envelope(wrapped.value, nonce, |body|);
      var c := s.seal(cek, nonce, Header(e), body);
      if c.None? then None else Some(Filled(e, c.value))
  }

  /**
   * Encodes into a buffer of the given capacity. Success is reported, with the length the packet
   * needs, even when the capacity is too small and nothing was written.
   */
  method Encode(s: Suite, session: Option<Session>, u: NormalizedUnit,
                cek: Option<seq<byte>>, nonce: Option<seq<byte>>, out: array<byte>, capacity: nat)
    returns (rc: int, len: nat)
    requires Lawful(s) && IsDigest(u.hmac) && capacity <= out.Length
    requires cek.Some? ==> |cek.value| == CEK_SIZE
    requires nonce.Some? ==> |nonce.value| == NONCE_SIZE
    modifies out
    ensures rc == if EncodePacket(s, session, u, cek, nonce).Some? then 1 else 0
    ensures rc == 0 ==> len == capacity && out[..] == old(out[..])
    ensures rc == 1 ==> len == |WireBytes(EncodePacket(s, session, u, cek, nonce).value)|
    ensures rc == 1 && len <= capacity ==>
              out[..] == WireBytes(EncodePacket(s, session, u, cek, nonce).value) + old(out[len..])
    ensures rc == 1 && len > capacity ==> out[..] == old(out[..])
    ensures u.wireAuth && !Signable(s, session, u) ==> rc == 0
  {
    hide WireBytes, Header, PlainBytes;
    if u.wireVersion != VERSION || u.wireForm != FORM1 || |u.payload| > PAYLOAD_MAX {
      return 0, capacity;
    }
    var signed := Signed(s, session, u);
    if signed.None? {
      return 0, capacity;
    }
    var plaintext := new byte[BODY_MAX](i => 0);
    var ok, bodyLen := PackPlaintext(signed.value, plaintext, BODY_MAX);
    if !ok || cek.None? {
      return 0, capacity;
    }
    var body := plaintext[..bodyLen];
    var wrapped := WrapKey(s, session, cek.value);
    if wrapped.None? || nonce.None? {
      return 0, capacity;
    }
    var pkt := Envelope(wrapped.value, nonce.value, bodyLen);
    var aad := new byte[HEADER_SIZE](i => 0);
    ok := BuildAad(pkt, aad);
    var c := s.seal(cek.value, nonce.value, aad[..], body);
    assert aad[..] == aad[..HEADER_SIZE];
    if c.None? {
      return 0, capacity;
    }
    pkt := Filled(pkt, c.value);
    var packed := Pack(pkt, out, capacity);
    if packed == 0 {
      return 0, capacity;
    }
    return 1, HEADER_SIZE + |wrapped.value| + |c.value.text| + TAG_SIZE;
  }

  /** The packet carries this key, and its body, the unit with this signature, is sealed with its header. */
  ghost predicate Carries(s: Suite, u: NormalizedUnit, cek: seq<byte>, nonce: seq<byte>, mac: seq<byte>,
                          key: seq<byte>, c: Sealed)
    requires |u.payload| <= 512 && |key| <= 256 && IsDigest(mac)
  {
    && s.wrap(cek) == Some(key) && 1 <= |key|
    && s.seal(cek, nonce,
              U32Bytes(MAGIC) + U32Bytes(VERSION) + [FORM1] + U16Bytes(|key|) + nonce + U32Bytes(47 + |u.payload|),
              PlainBytes(u.(hmac := mac))) == Some(c)
  }

  /** Exactly when there is a packet, and what is in it. */
  lemma EncodesExactly(s: Suite, session: Option<Session>, u: NormalizedUnit,
                       cek: Option<seq<byte>>, nonce: Option<seq<byte>>)
    requires Lawful(s) && IsDigest(u.hmac)
    requires cek.Some? ==> |cek.value| == CEK_SIZE
    requires nonce.Some? ==> |nonce.value| == NONCE_SIZE
    ensures EncodePacket(s, session, u, cek, nonce).Some? <==>
            && u.wireVersion == VERSION && u.wireForm == FORM1 && |u.payload| <= 512
            && cek.Some? && nonce.Some? && session.Some?
            && exists mac: seq<byte>, key: seq<byte>, c: Sealed ::
                 && IsDigest(mac) && |key| <= 256 && SignatureOf(s, session, u, mac)
                 && Carries(s, u, cek.value, nonce.value, mac, key, c)
    ensures EncodePacket(s, session, u, cek, nonce).Some? ==>
              var p := EncodePacket(s, session, u, cek, nonce).value;
              var key, c := p.wrapped[..p.wrappedLen], Sealed(p.ciphertext[..p.ciphertextLen], p.tag);
              && p.magic == MAGIC && p.version == VERSION && p.form == FORM1 && p.nonce == nonce.value
              && exists mac: seq<byte> ::
                   IsDigest(mac) && SignatureOf(s, session, u, mac)
                     && Carries(s, u, cek.value, nonce.value, mac, key, c)
  {
    hide Signed, SealPacket, PlainBytes, SignatureOf, Carries;
    if cek.Some? && nonce.Some? && |u.payload| <= 512 && u.wireVersion == VERSION && u.wireForm == FORM1 {
      if EncodePacket(s, session, u, cek, nonce).Some? {
        PacketCarries(s, session, u, cek.value, nonce.value);
      }
      if mac: seq<byte>, key: seq<byte>, c: Sealed :|
        session.Some? && IsDigest(mac) && |key| <= 256 && SignatureOf(s, session, u, mac)
        && Carries(s, u, cek.value, nonce.value, mac, key, c)
      {
        CarriedIsPacked(s, session, u, cek.value, nonce.value, mac, key, c);
      }
    }
  }

  lemma CarriedIsPacked(s: Suite, session: Option<Session>, u: NormalizedUnit, cek: seq<byte>, nonce: seq<byte>,
                        mac: seq<byte>, key: seq<byte>, c: Sealed)
    requires Lawful(s) && IsDigest(u.hmac) && |cek| == CEK_SIZE && |nonce| == NONCE_SIZE && session.Some?
    requires u.wireVersion == VERSION && u.wireForm == FORM1 && |u.payload| <= 512
    requires IsDigest(mac) && |key| <= 256 && SignatureOf(s, session, u, mac) && Carries(s, u, cek, nonce, mac, key, c)
    ensures EncodePacket(s, session, u, Some(cek), Some(nonce)).Some?
  {
    hide PlainBytes;
    SignedExactly(s, session, u, u.(hmac := mac));
    assert Header(Envelope(key, nonce, 47 + |u.payload|))
        == U32Bytes(MAGIC) + U32Bytes(VERSION) + [FORM1] + U16Bytes(|key|) + nonce + U32Bytes(47 + |u.payload|);
  }

  lemma PacketCarries(s: Suite, session: Option<Session>, u: NormalizedUnit, cek: seq<byte>, nonce: seq<byte>)
    requires Lawful(s) && IsDigest(u.hmac) && |cek| == CEK_SIZE && |nonce| == NONCE_SIZE
    requires EncodePacket(s, session, u, Some(cek), Some(nonce)).Some?
    ensures var p := EncodePacket(s, session, u, Some(cek), Some(nonce)).value;
            var mac := Signed(s, session, u).value.hmac;
            var key, c := p.wrapped[..p.wrappedLen], Sealed(p.ciphertext[..p.ciphertextLen], p.tag);
            && p.magic == MAGIC && p.version == VERSION && p.form == FORM1 && p.nonce == nonce
            && session.Some? && |u.payload| <= 512 && IsDigest(mac) && SignatureOf(s, session, u, mac)
            && Carries(s, u, cek, nonce, mac, key, c)
  {
    var p := EncodePacket(s, session, u, Some(cek), Some(nonce)).value;
    var signed := Signed(s, session, u).value;
    SignedExactly(s, session, u, signed);
    var key := WrapKey(s, session, cek).value;
    var e := Envelope(key, nonce, |PlainBytes(signed)|);
    var c := s.seal(cek, nonce, Header(e), PlainBytes(signed)).value;
    assert p == Filled(e, c) && p.wrapped[..p.wrappedLen] == key && p.ciphertext[..p.ciphertextLen] == c.text;
    assert c == Sealed(c.text, c.tag) && signed == u.(hmac := signed.hmac);
  }

  /** A suite that obeys the laws: nothing is hidden, and nothing is signed. */
  function PlainSuite(): (s: Suite)
    ensures Lawful(s)
  {
    Suite(k => Some(k), k => Some(k), (k, n, a, p) => Some(Sealed(p, Zeros(TAG_SIZE))),
          (k, n, a, c: Sealed) => Some(c.text),
          u => None, h => None)
  }

  const SHORT_UNIT := ZERO_UNIT.(wireVersion := VERSION, wireForm := FORM1, payload := [1])

  /** Success and a length are reported for a buffer of one byte less, and the buffer is as before. */
  method ReportsWhatItDidNotWrite() returns (rc: int, len: nat, out: array<byte>)
    ensures rc == 1 && len == out.Length + 1 && forall i :: 0 <= i < out.Length ==> out[i] == 0xFF
  {
    var session, key, nonce := Some(Session(true, 32)), Some(Zeros(CEK_SIZE)), Some(Zeros(NONCE_SIZE));
    ghost var packet := EncodePacket(PlainSuite(), session, SHORT_UNIT, key, nonce);
    ShortUnitIsPacked();
    var size := HEADER_SIZE + CEK_SIZE + BODY_FIXED + 1 + TAG_SIZE;
    out := new byte[size - 1](i => 0xFF);
    rc, len := Encode(PlainSuite(), session, SHORT_UNIT, key, nonce, out, out.Length);
  }

  lemma ShortUnitIsPacked()
    ensures var p := EncodePacket(PlainSuite(), Some(Session(true, 32)), SHORT_UNIT, Some(Zeros(CEK_SIZE)),
                                  Some(Zeros(NONCE_SIZE)));
            p.Some? && |WireBytes(p.value)| == HEADER_SIZE + CEK_SIZE + BODY_FIXED + 1 + TAG_SIZE
  {
  }

  // ---- decoding ----

  function UnwrapKey(s: Suite, session: Option<Session>, wrapped: seq<byte>): (r: Option<seq<byte>>) {
    if session.None? then None
    else
      var k := s.unwrap(wrapped);
      if k.None? || |k.value| != CEK_SIZE then None else k
  }

  /** The message inside a packet, if its key unwraps, its seal opens and its body is well formed. */
  function OpenPacket(s: Suite, session: Option<Session>, p: V3Packet, ip: string, port: u16)
    : (r: Option<NormalizedUnit>)
    requires Packable(p)
  {
    var k := UnwrapKey(s, session, p.wrapped[..p.wrappedLen]);
    if k.None? then None
    else
      var body := s.unseal(k.value, p.nonce, Header(p), Sealed(p.ciphertext[..p.ciphertextLen], p.tag));
      if body.None? then None else UnpackPlaintext(body.value, ip, port)
  }

  function Delivered(u: NormalizedUnit): (r: NormalizedUnit) {
    u.(complete := true, wireVersion := VERSION, wireForm := FORM1, fragmentCount := 1,
       encrypted := true, wireDecode := true, wireAuth := false)
  }

  datatype Outcome = Outcome(rc: int, unit: NormalizedUnit)

  /** The return code, and the caller's unit after the call. A malformed buffer is reported by a negative code. */
  function DecodeBytes(s: Suite, session: Option<Session>, b: seq<byte>, ip: string, port: u16, before: NormalizedUnit)
    : (r: Outcome)
  {
    var r := DeserializeWire(b);
    if r.Rejected? then Outcome(ERR_UNPACK, before)
    else
      PackInvertsUnpack(b);
      var u := OpenPacket(s, session, r.packet, ip, port);
      if u.None? then Outcome(0, before) else Outcome(1, Delivered(u.value))
  }

  /** Decoding with the authenticated data rebuilt in a buffer of its own. */
  method Decode(s: Suite, session: Option<Session>, b: seq<byte>, ip: string, port: u16, before: NormalizedUnit)
    returns (o: Outcome)
    ensures o == DecodeBytes(s, session, b, ip, port, before)
  {
    var r := DeserializeWire(b);
    if r.Rejected? {
      return Outcome(ERR_UNPACK, before);
    }
    PackInvertsUnpack(b);
    var p := r.packet;
    var k := UnwrapKey(s, session, p.wrapped[..p.wrappedLen]);
    if k.None? {
      return Outcome(0, before);
    }
    var aad := new byte[HEADER_SIZE](i => 0);
    var ok := BuildAad(p, aad);
    assert aad[..] == aad[..HEADER_SIZE];
    var body := s.unseal(k.value, p.nonce, aad[..], Sealed(p.ciphertext[..p.ciphertextLen], p.tag));
    if body.None? {
      return Outcome(0, before);
    }
    var u := UnpackPlaintext(body.value, ip, port);
    if u.None? {
      return Outcome(0, before);
    }
    return Outcome(1, Delivered(u.value));
  }

  /** The body that the seal of a well-formed buffer opens to: the first 27 bytes authenticate it. */
  function OpenedBody(s: Suite, session: Option<Session>, b: seq<byte>): (body: Option<seq<byte>>) {
    if session.None? || DeserializeWire(b).Rejected? then None
    else
      PackInvertsUnpack(b);
      var at := 27 + ReadU16(b, 9);
      var k := s.unwrap(b[27..at]);
      if k.None? || |k.value| != 32 then None
      else s.unseal(k.value, b[11..23], b[..27], Sealed(b[at..|b| - 16], b[|b| - 16..]))
  }

  /** The three outcomes and what each leaves in the caller's unit, told from the bytes of that body. */
  lemma DecodesExactly(s: Suite, session: Option<Session>, b: seq<byte>, ip: string, port: u16, before: NormalizedUnit)
    ensures var o, body := DecodeBytes(s, session, b, ip, port, before), OpenedBody(s, session, b);
            if DeserializeWire(b).Rejected? then o == Outcome(-2, before)
            else if body.Some? && Readable(body.value) then
              var t := body.value;
              o == Outcome(1, NormalizedUnit(true, VERSION, FORM1, 1, ReadU32(t, 0), ReadU16(t, 4), t[6], ReadU32(t, 7),
                                             t[|t| - 32..], Clip(ip, 64), port, true, true, false, t[15..|t| - 32]))
            else o == Outcome(0, before)
  {
    hide OpenedBody, OpenPacket, UnpackPlaintext, Delivered, Readable;
    if DeserializeWire(b).Packet? {
      OpensAsPacket(s, session, b, ip, port);
      var body := OpenedBody(s, session, b);
      if body.Some? {
        BodyRead(body.value, ip, port);
      }
    }
  }

  lemma OpensAsPacket(s: Suite, session: Option<Session>, b: seq<byte>, ip: string, port: u16)
    requires DeserializeWire(b).Packet?
    ensures Packable(DeserializeWire(b).packet)
    ensures var body := OpenedBody(s, session, b);
            OpenPacket(s, session, DeserializeWire(b).packet, ip, port) ==
            if body.None? then None else UnpackPlaintext(body.value, ip, port)
  {
    hide UnpackPlaintext, Header;
    PackInvertsUnpack(b);
    var p := DeserializeWire(b).packet;
    Layout(p);
    assert WireBytes(p)[..27] == Header(p);
    var at := 27 + p.wrappedLen;
    assert b[27..at] == p.wrapped[..p.wrappedLen] && |b| - 16 == at + p.ciphertextLen;
  }

  predicate Readable(body: seq<byte>) {
    47 <= |body| <= 559 && |body| == 47 + ReadU32(body, 11)
  }

  /** Which bodies are read, and what is delivered of them. */
  lemma BodyRead(body: seq<byte>, ip: string, port: u16)
    ensures UnpackPlaintext(body, ip, port).Some? <==> Readable(body)
    ensures UnpackPlaintext(body, ip, port).Some? ==>
              Delivered(UnpackPlaintext(body, ip, port).value) ==
              NormalizedUnit(true, VERSION, FORM1, 1, ReadU32(body, 0), ReadU16(body, 4), body[6], ReadU32(body, 7),
                             body[|body| - 32..], Clip(ip, 64), port, true, true, false, body[15..|body| - 32])
  {
    if |body| >= 47 && |body| == 47 + ReadU32(body, 11) {
      assert body[15 + ReadU32(body, 11)..15 + ReadU32(body, 11) + 32] == body[|body| - 32..];
    }
  }

  // ---- end to end ----

  /** Packing changes nothing a decoder looks at. */
  lemma TrimmedOpensAlike(s: Suite, session: Option<Session>, p: V3Packet, ip: string, port: u16)
    requires Packable(p)
    ensures Packable(Trimmed(p)) && Header(Trimmed(p)) == Header(p)
    ensures OpenPacket(s, session, Trimmed(p), ip, port) == OpenPacket(s, session, p, ip, port)
  {
    var t := Trimmed(p);
    assert t.wrapped[..t.wrappedLen] == p.wrapped[..p.wrappedLen];
    assert t.ciphertext[..t.ciphertextLen] == p.ciphertext[..p.ciphertextLen];
  }

  /**
   * Decoding what was encoded gives the message back. The authenticated data is the same at both
   * ends and is the front of the packet itself.
   */
  lemma EndToEnd(s: Suite, sender: Option<Session>, receiver: Option<Session>, u: NormalizedUnit,
                 cek: seq<byte>, nonce: seq<byte>, ip: string, port: u16, before: NormalizedUnit)
    requires Lawful(s) && IsDigest(u.hmac) && |cek| == CEK_SIZE && |nonce| == NONCE_SIZE && receiver.Some?
    requires EncodePacket(s, sender, u, Some(cek), Some(nonce)).Some?
    ensures var p := EncodePacket(s, sender, u, Some(cek), Some(nonce)).value;
            var o := DecodeBytes(s, receiver, WireBytes(p), ip, port, before);
            && o.rc == 1
            && o.unit == NormalizedUnit(true, VERSION, FORM1, 1, u.timestamp, u.userId, u.actionId, u.challenge,
                                        o.unit.hmac, Clip(ip, 64), port, true, true, false, u.payload)
            && IsDigest(o.unit.hmac)
            && (u.wireAuth ==> s.digest(u).Some? && s.sign(s.digest(u).value) == Some(o.unit.hmac))
            && (!u.wireAuth ==> o.unit.hmac == u.hmac)
            && DeserializeWire(WireBytes(p)).Packet?
            && Header(DeserializeWire(WireBytes(p)).packet) == Header(p) == WireBytes(p)[..HEADER_SIZE]
            && s.seal(cek, nonce, WireBytes(p)[..HEADER_SIZE], PlainBytes(u.(hmac := o.unit.hmac)))
               == Some(Sealed(p.ciphertext[..p.ciphertextLen], p.tag))
  {
    var p := EncodePacket(s, sender, u, Some(cek), Some(nonce)).value;
    var signed := Signed(s, sender, u).value;
    SignedExactly(s, sender, u, signed);
    var body := PlainBytes(signed);
    var wrapped := WrapKey(s, sender, cek).value;
    var e := Envelope(wrapped, nonce, |body|);
    var c := s.seal(cek, nonce, Header(e), body).value;
    assert p == Filled(e, c) && Header(p) == Header(e);
    assert p.wrapped[..p.wrappedLen] == wrapped && p.ciphertext[..p.ciphertextLen] == c.text;
    assert c == Sealed(c.text, c.tag);
    UnpackInvertsPack(p);
    TrimmedOpensAlike(s, receiver, p, ip, port);
    PlaintextRoundTrip(signed, ip, port);
    assert WireBytes(p)[..HEADER_SIZE] == Header(p);
  }

  lemma PlaintextExact(b: seq<byte>, ip: string, port: u16)
    requires UnpackPlaintext(b, ip, port).Some?
    ensures var u := UnpackPlaintext(b, ip, port).value;
            |u.payload| <= PAYLOAD_MAX && IsDigest(u.hmac) && PlainBytes(u) == b
  {
    var u := UnpackPlaintext(b, ip, port).value;
    var n := |u.payload|;
    WriteRead32(b, 0);
    WriteRead16(b, 4);
    WriteRead32(b, 7);
    WriteRead32(b, 11);
    assert b == b[0..4] + b[4..6] + [b[6]] + b[7..11] + b[11..15] + b[15..15 + n] + b[15 + n..];
  }

  /**
   * With a suite that opens only what was sealed, every accepted buffer is the packet of the message
   * it delivers: the front of the buffer authenticates the sealed body.
   */
  lemma AcceptedWasSealed(s: Suite, receiver: Option<Session>, b: seq<byte>, ip: string, port: u16,
                          before: NormalizedUnit)
    requires Authentic(s) && DecodeBytes(s, receiver, b, ip, port, before).rc == 1
    ensures DeserializeWire(b).Packet? && Packable(DeserializeWire(b).packet)
    ensures var p, u := DeserializeWire(b).packet, DecodeBytes(s, receiver, b, ip, port, before).unit;
            var k := s.unwrap(p.wrapped[..p.wrappedLen]);
            && WireBytes(p) == b && k.Some? && |u.payload| <= PAYLOAD_MAX && IsDigest(u.hmac)
            && s.seal(k.value, p.nonce, b[..HEADER_SIZE], PlainBytes(u))
               == Some(Sealed(p.ciphertext[..p.ciphertextLen], p.tag))
  {
    PackInvertsUnpack(b);
    var p := DeserializeWire(b).packet;
    var k := UnwrapKey(s, receiver, p.wrapped[..p.wrappedLen]).value;
    var c := Sealed(p.ciphertext[..p.ciphertextLen], p.tag);
    var body := s.unseal(k, p.nonce, Header(p), c).value;
    PlaintextExact(body, ip, port);
    assert b[..HEADER_SIZE] == Header(p);
    assert PlainBytes(DecodeBytes(s, receiver, b, ip, port, before).unit) == body;
  }

  // ---- the adapter ----

  const USER_PAYLOAD_MAX: nat := 199

  /** What the multiplexer is handed: any nonzero code counts as success. */
  function AdapterDecode(s: Suite, session: Option<Session>, b: seq<byte>, ip: string, port: u16)
    : (r: Option<NormalizedUnit>)
  {
    var o := DecodeBytes(s, session, b, ip, port, ZERO_UNIT);
    if o.rc == 0 || |o.unit.payload| > USER_PAYLOAD_MAX then None else Some(o.unit)
  }

  /** A malformed buffer is handed on as an all-zero message, which no well-formed buffer yields. */
  lemma AdapterAcceptsExactly(s: Suite, session: Option<Session>, b: seq<byte>, ip: string, port: u16)
    ensures var r := AdapterDecode(s, session, b, ip, port);
            && (r == Some(NormalizedUnit(false, 0, 0, 0, 0, 0, 0, 0, Zeros(32), "", 0, false, false, false, []))
                <==> DeserializeWire(b).Rejected?)
            && (r.Some? && r.value != ZERO_UNIT <==>
                  DecodeBytes(s, session, b, ip, port, ZERO_UNIT).rc == 1
                  && |DecodeBytes(s, session, b, ip, port, ZERO_UNIT).unit.payload| <= 199)
            && (r.Some? ==> r.value == DecodeBytes(s, session, b, ip, port, ZERO_UNIT).unit)
  {
    var o := DecodeBytes(s, session, b, ip, port, ZERO_UNIT);
    if o.rc == 1 {
      assert o.unit.complete && !ZERO_UNIT.complete;
    }
  }

  /** The adapter's own buffer always holds the packet. */
  method AdapterEncode(s: Suite, session: Option<Session>, u: NormalizedUnit,
                       cek: Option<seq<byte>>, nonce: Option<seq<byte>>)
    returns (r: Option<seq<byte>>)
    requires Lawful(s) && IsDigest(u.hmac)
    requires cek.Some? ==> |cek.value| == CEK_SIZE
    requires nonce.Some? ==> |nonce.value| == NONCE_SIZE
    ensures r.Some? <==> EncodePacket(s, session, u, cek, nonce).Some?
    ensures r.Some? ==> r.value == WireBytes(EncodePacket(s, session, u, cek, nonce).value) && |r.value| <= PACKET_MAX
  {
    var encoded := new byte[PACKET_MAX](i => 0);
    var rc, len := Encode(s, session, u, cek, nonce, encoded, PACKET_MAX);
    if rc == 0 {
      return None;
    }
    PackedLengthBound(EncodePacket(s, session, u, cek, nonce).value);
    return Some(encoded[..len]);
  }

  /** How long the encoded packet is, which is the capacity needed for it to be written. */
  lemma EncodedLength(s: Suite, session: Option<Session>, u: NormalizedUnit, cek: seq<byte>, nonce: seq<byte>)
    requires Lawful(s) && IsDigest(u.hmac) && |cek| == CEK_SIZE && |nonce| == NONCE_SIZE
    requires EncodePacket(s, session, u, Some(cek), Some(nonce)).Some?
    ensures |WireBytes(EncodePacket(s, session, u, Some(cek), Some(nonce)).value)|
            == 27 + |WrapKey(s, session, cek).value| + 47 + |u.payload| + 16
    ensures s.wrap(cek) == WrapKey(s, session, cek)
  {
    var signed := Signed(s, session, u).value;
    var e := Envelope(WrapKey(s, session, cek).value, nonce, |PlainBytes(signed)|);
    var c := s.seal(cek, nonce, Header(e), PlainBytes(signed)).value;
    assert EncodePacket(s, session, u, Some(cek), Some(nonce)).value == Filled(e, c);
  }
}
