/** Encoding and decoding with the second packet format, signed or not, in the clear or encrypted. */
module V2Codec {
  import opened Common
  import opened Transport
  import opened Wire
  import opened WireV2

  /** The signature covers the packet with its signature field still zero. */
  function MacFor(s: Signer<V2Packet>, session: Option<Session>, u: NormalizedUnit): (mac: Option<seq<byte>>)
    requires |u.payload| <= PAYLOAD_MAX
  {
    if !u.wireAuth then Some(u.hmac)
    else if session.None? then None
    else Signature(s, session.value.hmacKey, PacketOf(u, Zeros(32)))
  }

  /** The bytes an encoder writes, if every step succeeds and they fit. */
  ghost function Encoded(s: Signer<V2Packet>, session: Option<Session>, u: NormalizedUnit, capacity: nat)
    : (r: Option<seq<byte>>)
    requires MacIsDigest(s) && IsDigest(u.hmac)
  {
    if capacity < PACKET_SIZE || |u.payload| > PAYLOAD_MAX || MacFor(s, session, u).None? then None
    else Sent(WireBytes(PacketOf(u, MacFor(s, session, u).value)), u.encrypted, PairOf(session), capacity)
  }

  method Encode(s: Signer<V2Packet>, session: Option<Session>, u: NormalizedUnit, out: array<byte>, capacity: nat)
    returns (ok: bool, len: nat)
    requires MacIsDigest(s) && IsDigest(u.hmac) && capacity <= out.Length
    modifies out
    ensures ok <==> Encoded(s, session, u, capacity).Some?
    ensures ok ==> len == |Encoded(s, session, u, capacity).value|
    ensures ok ==> out[..] == Encoded(s, session, u, capacity).value + old(out[len..])
    ensures !ok && !u.encrypted ==> out[..] == old(out[..])
  {
    if capacity < PACKET_SIZE || |u.payload| > PAYLOAD_MAX {
      return false, capacity;
    }
    var mac := MacFor(s, session, u);
    if mac.None? {
      return false, capacity;
    }
    var packed := new byte[PACKET_SIZE](i => 0);
    var rc := Pack(PacketOf(u, mac.value), packed, PACKET_SIZE);
    assert packed[..] == WireBytes(PacketOf(u, mac.value));
    ok, len := Send(packed[..], u.encrypted, PairOf(session), out, capacity);
  }

  /** The message as signed, field by field: the packet with 32 zero bytes where the signature will be. */
  predicate SignedAs(s: Signer<V2Packet>, key: seq<byte>, u: NormalizedUnit, mac: seq<byte>) {
    && |key| >= 32 && |u.payload| <= 191
    && var h := s.digest(V2Packet(MAGIC, VERSION, FORM1, u.timestamp, u.userId, u.actionId, u.challenge, Zeros(32),
                                  |u.payload|, Field(u.payload, 191)));
    && h.Some? && s.mac(key[..32], h.value) == Some(mac)
  }

  lemma MacIsAsked(s: Signer<V2Packet>, session: Option<Session>, u: NormalizedUnit, mac: seq<byte>)
    requires |u.payload| <= 191
    ensures MacFor(s, session, u) == Some(mac) <==>
            if u.wireAuth then session.Some? && SignedAs(s, session.value.hmacKey, u, mac) else mac == u.hmac
  {
    if session.Some? {
      SignatureExactly(s, session.value.hmacKey, PacketOf(u, Zeros(32)), mac);
    }
  }

  /** Exactly when something is sent, and with which signature: the sender's own where it is asked for. */
  lemma EncodesExactly(s: Signer<V2Packet>, session: Option<Session>, u: NormalizedUnit, capacity: nat, b: seq<byte>)
    requires MacIsDigest(s) && IsDigest(u.hmac)
    ensures Encoded(s, session, u, capacity) == Some(b) <==>
            && capacity >= 245 && |u.payload| <= 191
            && exists mac: seq<byte> ::
                 && IsDigest(mac)
                 && (if u.wireAuth then session.Some? && SignedAs(s, session.value.hmacKey, u, mac) else mac == u.hmac)
                 && Sent(WireBytes(PacketOf(u, mac)), u.encrypted,
                         if session.Some? then session.value.pair else None, capacity) == Some(b)
  {
    hide WireBytes, PacketOf, Sent, MacFor, SignedAs;
    if capacity >= 245 && |u.payload| <= 191 {
      if MacFor(s, session, u).Some? {
        MacIsThere(s, session, u);
        MacIsAsked(s, session, u, MacFor(s, session, u).value);
      }
      forall mac: seq<byte> | IsDigest(mac)
        ensures MacFor(s, session, u) == Some(mac) <==>
                if u.wireAuth then session.Some? && SignedAs(s, session.value.hmacKey, u, mac) else mac == u.hmac
      {
        MacIsAsked(s, session, u, mac);
      }
    }
  }

  lemma MacIsThere(s: Signer<V2Packet>, session: Option<Session>, u: NormalizedUnit)
    requires MacIsDigest(s) && IsDigest(u.hmac) && |u.payload| <= 191 && MacFor(s, session, u).Some?
    ensures IsDigest(MacFor(s, session, u).value)
  {
  }

  /** Where neither digest nor keyed hash has collisions, one signature under one key signs one message. */
  lemma SignatureIsOfOne(s: Signer<V2Packet>, key: seq<byte>, u: NormalizedUnit, v: NormalizedUnit, mac: seq<byte>)
    requires CollisionFree(s) && SignedAs(s, key, u, mac) && SignedAs(s, key, v, mac)
    ensures u.timestamp == v.timestamp && u.userId == v.userId && u.actionId == v.actionId && u.challenge == v.challenge
    ensures u.payload == v.payload
  {
    assert u.payload == Field(u.payload, 191)[..|u.payload|] && v.payload == Field(v.payload, 191)[..|v.payload|];
  }

  function Decoded(ctx: Option<Receiver>, b: seq<byte>, encrypted: bool, ip: string, port: u16, now: int)
    : (r: Option<NormalizedUnit>)
  {
    var plain := Opened(ctx, b, encrypted);
    if plain.None? then None
    else
      var r := Normalize(plain.value, ip, port, encrypted, now);
      if r.Packet? then Some(r.packet) else None
  }

  /** What is encoded decodes to the same message, with the signature it was given, exactly while it is timely. */
  lemma Delivery(s: Signer<V2Packet>, session: Option<Session>, u: NormalizedUnit, capacity: nat,
                 receiver: Receiver, ip: string, port: u16, now: int)
    requires MacIsDigest(s) && IsDigest(u.hmac) && Encoded(s, session, u, capacity).Some?
    requires Compatible(PairOf(session), receiver, u.encrypted)
    ensures var b := Encoded(s, session, u, capacity).value;
            var r := Decoded(Some(receiver), b, u.encrypted, ip, port, now);
            && (r.Some? <==> now - 300 <= u.timestamp <= now + 300)
            && (r.Some? ==>
                  && r.value == NormalizedUnit(true, VERSION, FORM1, 1, u.timestamp, u.userId, u.actionId, u.challenge,
                                               r.value.hmac, Clip(ip, 64), port, u.encrypted, false, false, u.payload)
                  && (u.wireAuth ==> session.Some? && SignedAs(s, session.value.hmacKey, u, r.value.hmac))
                  && (!u.wireAuth ==> r.value.hmac == u.hmac))
  {
    var mac := MacFor(s, session, u).value;
    MacIsAsked(s, session, u, mac);
    MacIsThere(s, session, u);
    hide SignedAs;
    var packed := WireBytes(PacketOf(u, mac));
    SentIsOpened(packed, u.encrypted, PairOf(session), capacity, receiver);
    DeliversIffTimely(u, mac, ip, port, u.encrypted, now);
  }
}
