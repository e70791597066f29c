/**
 * Encoding, decoding and authorising with the first packet format: a message signed with a user's
 * key, delivered in the clear or under the server's key, and let through once.
 */
module V1Codec {
  import opened Common
  import opened CodecContext
  import opened CodecSync
  import opened Config
  import opened ReplayGate
  import opened Transport
  import opened Wire
  import WireV1

  /** The fields a signature covers. */
  datatype Content = Content(timestamp: u32, userId: u16, actionId: byte, challenge: u32, payload: seq<byte>)

  function ContentOf(u: NormalizedUnit): (r: Content) {
    Content(u.timestamp, u.userId, u.actionId, u.challenge, u.payload)
  }

  /** A signature covers exactly the fields of the message. */
  lemma ContentIsMessage(u: NormalizedUnit, v: NormalizedUnit)
    ensures ContentOf(u) == ContentOf(v) <==>
            && u.timestamp == v.timestamp && u.userId == v.userId && u.actionId == v.actionId
            && u.challenge == v.challenge && u.payload == v.payload
  {
  }

  // ---- encoding ----

  function MacFor(s: Signer<Content>, session: Option<Session>, u: NormalizedUnit): (r: Option<seq<byte>>) {
    if !u.wireAuth then Some(u.hmac)
    else if session.None? then None
    else Signature(s, session.value.hmacKey, ContentOf(u))
  }

  /** The bytes an encoder writes, if every step succeeds and they fit. */
  ghost function Encoded(little: bool, s: Signer<Content>, session: Option<Session>, u: NormalizedUnit, capacity: nat)
    : (r: Option<seq<byte>>)
    requires MacIsDigest(s) && IsDigest(u.hmac)
  {
    var mac := MacFor(s, session, u);
    if capacity < WireV1.PACKET_SIZE || |u.payload| > WireV1.PAYLOAD_MAX || mac.None? then None
    else Sent(WireV1.Image(little, WireV1.PacketOf(u, mac.value)), u.encrypted, PairOf(session), capacity)
  }

  method Encode(little: bool, s: Signer<Content>, session: Option<Session>, u: NormalizedUnit, out: array<byte>,
                capacity: nat)
    returns (ok: bool, len: nat)
    requires MacIsDigest(s) && IsDigest(u.hmac) && capacity <= out.Length
    modifies out
    ensures ok <==> Encoded(little, s, session, u, capacity).Some?
    ensures ok ==> len == |Encoded(little, s, session, u, capacity).value|
    ensures ok ==> out[..] == Encoded(little, s, session, u, capacity).value + old(out[len..])
    ensures !ok && !u.encrypted ==> out[..] == old(out[..])
  {
    if capacity < WireV1.PACKET_SIZE || |u.payload| > WireV1.PAYLOAD_MAX {
      return false, capacity;
    }
    var mac := MacFor(s, session, u);
    if mac.None? {
      return false, capacity;
    }
    var packed := WireV1.Image(little, WireV1.PacketOf(u, mac.value));
    ok, len := Send(packed, u.encrypted, PairOf(session), out, capacity);
  }

  /** The message as signed, field by field. */
  predicate SignedAs(s: Signer<Content>, key: seq<byte>, u: NormalizedUnit, mac: seq<byte>) {
    && |key| >= 32
    && var h := s.digest(Content(u.timestamp, u.userId, u.actionId, u.challenge, u.payload));
    && h.Some? && s.mac(key[..32], h.value) == Some(mac)
  }

  /** Exactly when something is sent, and with which signature: the sender's own where it is asked for. */
  lemma EncodesExactly(little: bool, s: Signer<Content>, session: Option<Session>, u: NormalizedUnit, capacity: nat,
                       b: seq<byte>)
    requires MacIsDigest(s) && IsDigest(u.hmac)
    ensures Encoded(little, s, session, u, capacity) == Some(b) <==>
            && capacity >= 245 && |u.payload| <= 199
            && exists mac: seq<byte> ::
                 && IsDigest(mac)
                 && (if u.wireAuth then session.Some? && SignedAs(s, session.value.hmacKey, u, mac) else mac == u.hmac)
                 && Sent(WireV1.Image(little, WireV1.PacketOf(u, mac)), u.encrypted,
                         if session.Some? then session.value.pair else None, capacity) == Some(b)
  {
    hide WireV1.Image, WireV1.PacketOf, Sent;
    var m := MacFor(s, session, u);
    forall mac: seq<byte> ensures m == Some(mac) <==>
                                  if u.wireAuth then session.Some? && SignedAs(s, session.value.hmacKey, u, mac)
                                  else mac == u.hmac
    {
      if session.Some? {
        SignatureExactly(s, session.value.hmacKey, ContentOf(u), mac);
      }
    }
    if m.Some? && |u.payload| <= 199 {
      assert IsDigest(m.value);
    }
  }

  // ---- decoding ----

  function Decoded(little: bool, ctx: Option<Receiver>, b: seq<byte>, encrypted: bool, ip: string, port: u16, now: int)
    : (r: Option<NormalizedUnit>)
  {
    var plain := Opened(ctx, b, encrypted);
    if plain.None? then None else Accepted(WireV1.Normalize(little, plain.value, ip, port, encrypted, now))
  }

  function Accepted(r: Unpacked<NormalizedUnit>): (result: Option<NormalizedUnit>) {
    if r.Packet? then Some(r.packet) else None
  }

  // ---- authorising ----

  /** The signature is the one the keychain's entry for the user makes over the same fields. */
  predicate Authorized(s: Signer<Content>, es: seq<KeyEntry>, u: NormalizedUnit) {
    var i := EntryIndex(es, u.userId);
    && |u.payload| <= WireV1.PAYLOAD_MAX && i < |es|
    && es[i].hmac.Some? && es[i].hmacLen >= MAC_KEY_SIZE
    && Signature(s, es[i].hmac.value, ContentOf(u)) == Some(u.hmac)
  }

  method Authorize(s: Signer<Content>, ctx: Context?, u: NormalizedUnit) returns (ok: bool)
    requires ctx != null ==> ctx.Valid()
    ensures ok <==> ctx != null && Authorized(s, ctx.Entries(), u)
    ensures ok <==>
            && ctx != null && |u.payload| <= 199
            && var es := ctx.Entries();
            && var i := EntryIndex(es, u.userId);
            && i < |es| && es[i].hmac.Some? && es[i].hmacLen >= 32 && SignedAs(s, es[i].hmac.value, u, u.hmac)
  {
    if ctx == null || |u.payload| > WireV1.PAYLOAD_MAX {
      return false;
    }
    var i := KeychainEntryForUserId(ctx, u.userId);
    if i == ctx.len {
      return false;
    }
    var e := ctx.keychain[i];
    if e.hmac.None? || e.hmacLen < MAC_KEY_SIZE {
      return false;
    }
    return Signature(s, e.hmac.value, ContentOf(u)) == Some(u.hmac);
  }

  /**
   * Where neither digest nor keyed hash has collisions, a signature authorises one message only: no field of it can be
   * replaced, payload included.
   */
  lemma TamperedIsRefused(s: Signer<Content>, es: seq<KeyEntry>, u: NormalizedUnit, v: NormalizedUnit)
    requires CollisionFree(s) && Authorized(s, es, u) && Authorized(s, es, v) && u.userId == v.userId
               && u.hmac == v.hmac
    ensures u.timestamp == v.timestamp && u.actionId == v.actionId && u.challenge == v.challenge
    ensures u.payload == v.payload
  {
    var i := EntryIndex(es, u.userId);
    SignatureBinds(s, es[i].hmac.value, ContentOf(u), ContentOf(v));
    ContentIsMessage(u, v);
  }

  function WindowOf(ctx: Context?): (r: Option<nat>)
    reads ctx
  {
    if ctx == null then None else Some(ctx.nonceWindowMs)
  }

  /**
   * Marks a unit as authentic when its signature holds and its pair is new; an unauthorised unit
   * leaves the replay memory alone.
   */
  method WireAuth(s: Signer<Content>, ctx: Context?, gate: Gate, u: NormalizedUnit, now: int, granted: bool)
    returns (r: NormalizedUnit)
    requires (ctx != null ==> ctx.Valid()) && gate.Valid()
    modifies gate, gate.nonce, if gate.nonce == null then {} else {gate.nonce.entries, gate.nonce.storage}
    ensures gate.Valid() && r == u.(wireAuth := r.wireAuth)
    ensures !(ctx != null && Authorized(s, ctx.Entries(), u)) ==>
              !r.wireAuth && gate.accepted == old(gate.accepted) && gate.nonce == old(gate.nonce)
    ensures var ttl := Ttl(WindowOf(ctx));
            var kept := if old(gate.Serves(ttl)) then old(gate.accepted) else [];
            var authorized := ctx != null && Authorized(s, ctx.Entries(), u);
            var replayed := Replayed(kept, ttl, u.timestamp, u.challenge, now);
            && (r.wireAuth ==> authorized && gate.accepted == kept + [Accept(u.timestamp, u.challenge, now)])
            && (authorized && !r.wireAuth ==> gate.accepted == kept)
            && (r.wireAuth && old(gate.NotBefore(now)) ==> !replayed)
            && (authorized && !replayed && (old(gate.Serves(ttl)) || granted) ==> r.wireAuth)
    ensures r.wireAuth ==>
              && ctx != null && gate.nonce != null
              && (ctx.nonceWindowMs >= 1000 ==>
                    gate.nonce.ttl * 1000 <= ctx.nonceWindowMs < (gate.nonce.ttl + 1) * 1000)
              && (ctx.nonceWindowMs < 1000 ==> gate.nonce.ttl == 60)
    ensures old(gate.NotBefore(now)) ==> forall later: int :: later >= now ==> gate.NotBefore(later)
    ensures old(gate.Serves(Ttl(WindowOf(ctx)))) ==> gate.Kept()
  {
    hide Authorized, SignedAs, Replayed, Gate.Valid, Context.Valid, Ttl;
    r := u.(wireAuth := false);
    var ok := Authorize(s, ctx, u);
    if ok {
      var window := WindowOf(ctx);
      var isNew := gate.PacketNonceAccept(u.timestamp, u.challenge, now, window, granted);
      r := u.(wireAuth := isNew);
    }
  }

  // ---- runs ----

  datatype Incoming = Incoming(unit: NormalizedUnit, now: int)

  /** The requests of a run that reach the replay gate. */
  function Requests(s: Signer<Content>, es: seq<KeyEntry>, qs: seq<Incoming>): (r: seq<Request>) {
    if qs == [] then []
    else
      var q := qs[|qs| - 1];
      Requests(s, es, qs[..|qs| - 1])
      + if Authorized(s, es, q.unit) then [Request(q.unit.timestamp, q.unit.challenge, q.now)] else []
  }

  /** What a run of messages has let through under one lifetime. */
  ghost function Admitted(s: Signer<Content>, es: seq<KeyEntry>, qs: seq<Incoming>, ttl: int): (r: seq<Accept>) {
    Served(Requests(s, es, qs), ttl)
  }

  /** A message is let through when it is authorised and its pair is not among the recent ones. */
  ghost predicate LetThrough(s: Signer<Content>, es: seq<KeyEntry>, qs: seq<Incoming>, ttl: int, i: nat)
    requires i < |qs|
  {
    var u := qs[i].unit;
    Authorized(s, es, u) && !Replayed(Admitted(s, es, qs[..i], ttl), ttl, u.timestamp, u.challenge, qs[i].now)
  }

  ghost predicate InOrder(qs: seq<Incoming>) {
    forall i, j :: 0 <= i < j < |qs| ==> qs[i].now <= qs[j].now
  }

  lemma AdmittedStep(s: Signer<Content>, es: seq<KeyEntry>, qs: seq<Incoming>, ttl: int, i: nat)
    requires i < |qs|
    ensures var u := qs[i].unit;
            Admitted(s, es, qs[..i + 1], ttl) == Admitted(s, es, qs[..i], ttl)
            + if LetThrough(s, es, qs, ttl, i) then [Accept(u.timestamp, u.challenge, qs[i].now)] else []
  {
    assert qs[..i + 1][..i] == qs[..i];
    var rs := Requests(s, es, qs[..i + 1]);
    if Authorized(s, es, qs[i].unit) {
      assert rs[..|rs| - 1] == Requests(s, es, qs[..i]);
    } else {
      assert rs == Requests(s, es, qs[..i]);
    }
  }

  /** The gate serves the lifetime and remembers what this run has let through. */
  ghost predicate Remembers(gate: Gate, s: Signer<Content>, es: seq<KeyEntry>, qs: seq<Incoming>, ttl: int)
    reads gate, gate.nonce, if gate.nonce == null then {} else {gate.nonce.entries, gate.nonce.storage}
  {
    gate.Valid() && gate.Serves(ttl) && gate.accepted == Admitted(s, es, qs, ttl)
  }

  /** One message of a run: its answer, and what has been let through after it. */
  method WireAuthNext(s: Signer<Content>, ctx: Context, gate: Gate, ghost qs: seq<Incoming>, ghost i: nat, q: Incoming)
    returns (answer: bool)
    requires ctx.Valid() && i < |qs| && qs[i] == q && gate.NotBefore(q.now)
    requires Remembers(gate, s, ctx.Entries(), qs[..i], Ttl(WindowOf(ctx)))
    modifies gate, gate.nonce, if gate.nonce == null then {} else {gate.nonce.entries, gate.nonce.storage}
    ensures gate.Kept() && Remembers(gate, s, ctx.Entries(), qs[..i + 1], Ttl(WindowOf(ctx)))
    ensures answer == LetThrough(s, ctx.Entries(), qs, Ttl(WindowOf(ctx)), i)
    ensures forall later: int :: later >= q.now ==> gate.NotBefore(later)
  {
    hide Authorized, Replayed, Admitted;
    var u := WireAuth(s, ctx, gate, q.unit, q.now, true);
    AdmittedStep(s, ctx.Entries(), qs, Ttl(WindowOf(ctx)), i);
    return u.wireAuth;
  }

  /** Authorises a run of messages under one context, as the receiving side does. */
  method WireAuthAll(s: Signer<Content>, ctx: Context, gate: Gate, qs: seq<Incoming>) returns (answers: seq<bool>)
    requires ctx.Valid() && gate.Valid() && gate.Serves(Ttl(WindowOf(ctx))) && gate.accepted == []
    requires InOrder(qs) && forall i :: 0 <= i < |qs| ==> gate.NotBefore(qs[i].now)
    modifies gate, gate.nonce, if gate.nonce == null then {} else {gate.nonce.entries, gate.nonce.storage}
    ensures gate.Valid() && |answers| == |qs|
    ensures gate.accepted == Admitted(s, ctx.Entries(), qs, Ttl(WindowOf(ctx)))
    ensures forall i :: 0 <= i < |qs| ==> answers[i] == LetThrough(s, ctx.Entries(), qs, Ttl(WindowOf(ctx)), i)
  {
    hide Remembers, Admitted, LetThrough;
    answers := [];
    ghost var es, ttl := ctx.Entries(), Ttl(WindowOf(ctx));
    RemembersNone(gate, s, es, qs, ttl);
    for i := 0 to |qs|
      invariant gate.Kept() && |answers| == i
      invariant ctx.Valid() && ctx.Entries() == es && Ttl(WindowOf(ctx)) == ttl
      invariant Remembers(gate, s, es, qs[..i], ttl)
      invariant forall j :: i <= j < |qs| ==> gate.NotBefore(qs[j].now)
      invariant forall j :: 0 <= j < i ==> answers[j] == LetThrough(s, es, qs, ttl, j)
    {
      var answer := WireAuthNext(s, ctx, gate, qs, i, qs[i]);
      answers := answers + [answer];
    }
    assert qs[..|qs|] == qs;
    RemembersAll(gate, s, es, qs, ttl);
  }

  lemma RemembersNone(gate: Gate, s: Signer<Content>, es: seq<KeyEntry>, qs: seq<Incoming>, ttl: int)
    requires gate.Valid() && gate.Serves(ttl) && gate.accepted == []
    ensures Remembers(gate, s, es, qs[..0], ttl)
  {
  }

  lemma RemembersAll(gate: Gate, s: Signer<Content>, es: seq<KeyEntry>, qs: seq<Incoming>, ttl: int)
    requires Remembers(gate, s, es, qs, ttl)
    ensures gate.Valid() && gate.accepted == Admitted(s, es, qs, ttl)
  {
  }

  lemma {:induction false} RequestsGrow(s: Signer<Content>, es: seq<KeyEntry>, qs: seq<Incoming>, i: nat)
    requires i <= |qs|
    ensures Requests(s, es, qs[..i]) <= Requests(s, es, qs)
  {
    if i < |qs| {
      RequestsGrow(s, es, qs[..|qs| - 1], i);
      assert qs[..|qs| - 1][..i] == qs[..i];
    } else {
      assert qs[..i] == qs;
    }
  }

  /**
   * Over any run, once a message has been let through, every message with the same timestamp and challenge is
   * refused within its lifetime, as long as at most 128 messages, the first included, have been let through since.
   */
  lemma SecondIsRefused(s: Signer<Content>, es: seq<KeyEntry>, qs: seq<Incoming>, ttl: int, i: nat, j: nat)
    requires i < j < |qs| && LetThrough(s, es, qs, ttl, i)
    requires qs[i].unit.timestamp == qs[j].unit.timestamp && qs[i].unit.challenge == qs[j].unit.challenge
    requires qs[j].now - qs[i].now <= ttl
    requires |Admitted(s, es, qs[..j], ttl)| - |Admitted(s, es, qs[..i], ttl)| <= CAPACITY
    ensures !LetThrough(s, es, qs, ttl, j)
  {
    var u, acc := qs[i].unit, Admitted(s, es, qs[..i], ttl);
    var a := Accept(u.timestamp, u.challenge, qs[i].now);
    var rs := Requests(s, es, qs[..i + 1]);
    assert qs[..j][..i + 1] == qs[..i + 1];
    AdmittedStep(s, es, qs, ttl, i);
    RequestsGrow(s, es, qs[..j], i + 1);
    var all := Requests(s, es, qs[..j]);
    ServedGrows(all, ttl, |rs|);
    assert all[..|rs|] == rs;
    var later := Admitted(s, es, qs[..j], ttl);
    assert later == acc + [a] + later[|acc| + 1..];
    AcceptedStaysReplayed(acc, a, later[|acc| + 1..], ttl, qs[j].now);
  }

  // ---- signed delivery ----

  /** What is encoded decodes to the same message, with the signature asked for, exactly while it is timely. */
  lemma Delivery(little: bool, s: Signer<Content>, session: Option<Session>, u: NormalizedUnit, capacity: nat,
                 receiver: Receiver, ip: string, port: u16, now: int)
    requires MacIsDigest(s) && IsDigest(u.hmac) && Encoded(little, s, session, u, capacity).Some?
    requires Compatible(PairOf(session), receiver, u.encrypted)
    ensures var b := Encoded(little, s, session, u, capacity).value;
            var r := Decoded(little, Some(receiver), b, u.encrypted, ip, port, now);
            && (r.Some? <==> now - 300 <= u.timestamp <= now + 300)
            && (r.Some? ==>
                  && r.value == NormalizedUnit(true, 1, 0, 1, u.timestamp, u.userId, u.actionId, u.challenge,
                                               r.value.hmac, Clip(ip, 64), port, u.encrypted, false, false, u.payload)
                  && (u.wireAuth ==> session.Some? && SignedAs(s, session.value.hmacKey, u, r.value.hmac))
                  && (!u.wireAuth ==> r.value.hmac == u.hmac))
  {
    var mac := MacFor(s, session, u).value;
    var packed := WireV1.Image(little, WireV1.PacketOf(u, mac));
    assert packed + [] == packed;
    SentIsOpened(packed, u.encrypted, PairOf(session), capacity, receiver);
    WireV1.DeliversIffTimely(little, u, mac, [], ip, port, u.encrypted, now);
    if u.wireAuth {
      SignatureExactly(s, session.value.hmacKey, ContentOf(u), mac);
    }
  }

  /**
   * A message signed by an enabled user decodes to the same message exactly while it is timely, in
   * the clear or encrypted, and the receiver's keychain, built from its config, authorises it.
   */
  lemma SignedDelivery(little: bool, s: Signer<Content>, session: Session, us: seq<User>, u: NormalizedUnit,
                       capacity: nat,
                       receiver: Receiver, ip: string, port: u16, now: int)
    requires MacIsDigest(s) && IsDigest(u.hmac) && u.wireAuth
    requires Encoded(little, s, Some(session), u, capacity).Some?
    requires UserIndex(us, u.userId) < |us| && |us[UserIndex(us, u.userId)].hmacKey| == MAC_KEY_SIZE
    requires us[UserIndex(us, u.userId)].hmacKey == session.hmacKey[..MAC_KEY_SIZE]
    requires Compatible(session.pair, receiver, u.encrypted)
    ensures var b := Encoded(little, s, Some(session), u, capacity).value;
            var r := Decoded(little, Some(receiver), b, u.encrypted, ip, port, now);
            && (r.Some? <==> now - 300 <= u.timestamp <= now + 300)
            && (r.Some? ==> SameMessage(u, r.value) && SignedAs(s, session.hmacKey, u, r.value.hmac))
            && (r.Some? ==> Authorized(s, Index(us), r.value))
  {
    var mac := MacFor(s, Some(session), u).value;
    Delivery(little, s, Some(session), u, capacity, receiver, ip, port, now);
    var key := us[UserIndex(us, u.userId)].hmacKey;
    assert key[..MAC_KEY_SIZE] == key;
    LookupAgrees(us, u.userId);
  }
}
