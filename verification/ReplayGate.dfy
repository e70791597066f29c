/** The per-packet replay gate the codecs share: a (timestamp, challenge) pair is let through once per window. */
module ReplayGate {
  import opened Common
  import opened Decimals
  import opened NonceCache

  const CAPACITY: nat := 128
  const SLOT_SIZE: nat := 32
  const DEFAULT_TTL := 60

  datatype Accept = Accept(timestamp: u32, challenge: u32, time: int)

  // ---- the text of a pair ----

  function PairText(timestamp: u32, challenge: u32): (s: cstring)
  {
    var s := Decimal(timestamp) + "-" + Decimal(challenge);
    s
  }

  /** The text always fits a slot with room for its terminator. */
  lemma PairTextFits(timestamp: u32, challenge: u32)
    ensures 3 <= |PairText(timestamp, challenge)| <= 21 < SLOT_SIZE
  {
    assert Power10(10) == 10_000_000_000;
    DecimalLength(timestamp, 10);
    DecimalLength(challenge, 10);
  }

  lemma SplitAtDash(a: string, b: string, c: string, d: string)
    requires '-' !in a && '-' !in c && a + "-" + b == c + "-" + d
    ensures a == c && b == d
  {
    var s := a + "-" + b;
    assert s[|a|] == '-' && s[|c|] == '-';
    assert forall i :: 0 <= i < |a| ==> s[i] == a[i] && a[i] in a;
    assert forall i :: 0 <= i < |c| ==> s[i] == c[i] && c[i] in c;
    assert a == s[..|a|] && c == s[..|c|];
    assert b == s[|a| + 1..] && d == s[|c| + 1..];
  }

  /** Different pairs have different texts. */
  lemma PairTextInjective(t1: u32, c1: u32, t2: u32, c2: u32)
    requires PairText(t1, c1) == PairText(t2, c2)
    ensures t1 == t2 && c1 == c2
  {
    SplitAtDash(Decimal(t1), Decimal(c1), Decimal(t2), Decimal(c2));
    DecimalInverts(t1);
    DecimalInverts(t2);
    DecimalInverts(c1);
    DecimalInverts(c2);
  }

  // ---- the gate ----

  /** The lifetime of a nonce for a context's window, if there is a context. */
  function Ttl(windowMs: Option<nat>): (t: int)
    ensures t > 0
    ensures windowMs.Some? && windowMs.value >= 1000 ==> t * 1000 <= windowMs.value < (t + 1) * 1000
    ensures windowMs.None? || windowMs.value < 1000 ==> t == 60
  {
    if windowMs.Some? && windowMs.value / 1000 > 0 then windowMs.value / 1000 else DEFAULT_TTL
  }

  /** The pair is among the last 128 accepted ones and still within its lifetime. */
  ghost predicate Replayed(acc: seq<Accept>, ttl: int, timestamp: u32, challenge: u32, now: int) {
    exists j :: 0 <= j < |acc| && |acc| - CAPACITY <= j
      && acc[j].timestamp == timestamp && acc[j].challenge == challenge && now - acc[j].time <= ttl
  }

  function AsEntry(a: Accept): (r: Entry) {
    Entry(PairText(a.timestamp, a.challenge), a.time)
  }

  ghost predicate Logs(log: seq<Entry>, acc: seq<Accept>) {
    |log| == |acc| && forall j :: 0 <= j < |acc| ==> log[j] == AsEntry(acc[j])
  }

  /** The cache's textual answer and the answer about pairs are the same. */
  lemma SeenIsReplayed(log: seq<Entry>, acc: seq<Accept>, ttl: int, timestamp: u32, challenge: u32, now: int)
    requires Logs(log, acc)
    ensures Seen(log, CAPACITY, SLOT_SIZE, ttl, PairText(timestamp, challenge), now) <==>
            Replayed(acc, ttl, timestamp, challenge, now)
  {
    var text := PairText(timestamp, challenge);
    forall j | 0 <= j < |acc|
      ensures Clip(log[j].nonce, SLOT_SIZE) == text <==> acc[j].timestamp == timestamp && acc[j].challenge == challenge
    {
      PairTextFits(acc[j].timestamp, acc[j].challenge);
      assert log[j] == AsEntry(acc[j]);
      if PairText(acc[j].timestamp, acc[j].challenge) == text {
        PairTextInjective(acc[j].timestamp, acc[j].challenge, timestamp, challenge);
      }
    }
    if Replayed(acc, ttl, timestamp, challenge, now) {
      PairTextFits(timestamp, challenge);
      var j :| 0 <= j < |acc| && |acc| - CAPACITY <= j
        && acc[j].timestamp == timestamp && acc[j].challenge == challenge && now - acc[j].time <= ttl;
      assert Clip(log[j].nonce, SLOT_SIZE) == text && now - log[j].time <= ttl;
    }
  }

  /** A pair just accepted counts as replayed until its lifetime or 127 further acceptances have passed. */
  lemma AcceptedStaysReplayed(acc: seq<Accept>, a: Accept, more: seq<Accept>, ttl: int, now: int)
    ensures now - a.time <= ttl && |more| < CAPACITY ==> Replayed(acc + [a] + more, ttl, a.timestamp, a.challenge, now)
  {
    assert (acc + [a] + more)[|acc|] == a;
  }

  class Gate {
    var nonce: NonceCache?
    /** The pairs accepted since the cache was last set up. */
    ghost var accepted: seq<Accept>

    ghost predicate Valid()
      reads this, nonce, if nonce == null then {} else {nonce.entries, nonce.storage}
    {
      if nonce == null then accepted == []
      else
        && nonce.Valid() && nonce.capacity == CAPACITY && nonce.size == SLOT_SIZE
        && Logs(nonce.log, accepted)
    }

    constructor ()
      ensures Valid() && nonce == null
    {
      nonce, accepted := null, [];
    }

    /** Whether the present cache serves this lifetime. */
    predicate Serves(ttl: int)
      reads this, nonce
    {
      nonce != null && nonce.ttl == ttl
    }

    /** Check times so far are not later than this one. */
    ghost predicate NotBefore(now: int)
      reads this, nonce
    {
      nonce == null || nonce.clock.None? || nonce.clock.value <= now
    }

    /** The same cache, in the same memory. */
    twostate predicate Kept()
      reads this, nonce
    {
      nonce != null && nonce == old(nonce) && nonce.entries == old(nonce.entries)
      && nonce.storage == old(nonce.storage) && nonce.ttl == old(nonce.ttl)
    }

    /** The same cache, or none, or one in new memory. */
    twostate predicate Framed()
      reads this, nonce
    {
      nonce == null || Kept() || (fresh(nonce) && fresh(nonce.entries) && fresh(nonce.storage))
    }

    /** Keeps the cache if it fits the lifetime, otherwise starts an empty one. */
    method SyncNonceCache(windowMs: Option<nat>, granted: bool) returns (ok: bool)
      requires Valid()
      modifies this
      ensures Valid()
      ensures ok <==> old(Serves(Ttl(windowMs))) || granted
      ensures ok ==> nonce != null && nonce.ttl == Ttl(windowMs)
      ensures old(Serves(Ttl(windowMs))) ==> nonce == old(nonce) && accepted == old(accepted)
      ensures !old(Serves(Ttl(windowMs))) ==>
                accepted == [] && (nonce == null || (fresh(nonce) && fresh(nonce.entries) && fresh(nonce.storage)))
      ensures forall now: int :: old(NotBefore(now)) ==> NotBefore(now)
    {
      var ttl := Ttl(windowMs);
      if nonce != null && nonce.capacity == CAPACITY && nonce.size == SLOT_SIZE && nonce.ttl == ttl {
        return true;
      }
      nonce, accepted := null, [];
      if !granted {
        return false;
      }
      nonce := new NonceCache(CAPACITY, SLOT_SIZE, ttl);
      return true;
    }

    /** Accepts a pair not seen lately, and remembers it. */
    method PacketNonceAccept(timestamp: u32, challenge: u32, now: int, windowMs: Option<nat>, granted: bool)
      returns (ok: bool)
      requires Valid()
      modifies this, nonce, if nonce == null then {} else {nonce.entries, nonce.storage}
      ensures Valid()
      ensures var kept := if old(Serves(Ttl(windowMs))) then old(accepted) else [];
              && (ok ==> accepted == kept + [Accept(timestamp, challenge, now)])
              && (ok ==> nonce != null && nonce.ttl == Ttl(windowMs))
              && (!ok ==> accepted == kept)
              && (!Replayed(kept, Ttl(windowMs), timestamp, challenge, now) ==>
                    (ok <==> old(Serves(Ttl(windowMs))) || granted))
              && (ok && old(NotBefore(now)) ==> !Replayed(kept, Ttl(windowMs), timestamp, challenge, now))
      ensures old(NotBefore(now)) ==> forall later: int :: later >= now ==> NotBefore(later)
      ensures old(Serves(Ttl(windowMs))) ==> Kept()
      ensures Framed()
      ensures old(Serves(Ttl(windowMs))) || granted ==> Serves(Ttl(windowMs))
    {
      ok := SyncNonceCache(windowMs, granted);
      if !ok {
        return;
      }
      var text := PairText(timestamp, challenge);
      SeenIsReplayed(nonce.log, accepted, nonce.ttl, timestamp, challenge, now);
      var seen := nonce.Check(text, now);
      if seen {
        return false;
      }
      nonce.Add(text, now);
      accepted := accepted + [Accept(timestamp, challenge, now)];
    }
  }

  // ---- runs ----

  datatype Request = Request(timestamp: u32, challenge: u32, now: int)

  function AcceptOf(q: Request): (r: Accept) {
    Accept(q.timestamp, q.challenge, q.now)
  }

  /** The accepted pairs after a run of requests under one lifetime, as the gate's contract determines them. */
  ghost function Served(qs: seq<Request>, ttl: int): (r: seq<Accept>) {
    if qs == [] then []
    else
      var acc := Served(qs[..|qs| - 1], ttl);
      if IsNew(acc, ttl, qs[|qs| - 1]) then acc + [AcceptOf(qs[|qs| - 1])] else acc
  }

  ghost predicate IsNew(acc: seq<Accept>, ttl: int, q: Request) {
    !Replayed(acc, ttl, q.timestamp, q.challenge, q.now)
  }

  /** Serving more requests only adds to what was accepted. */
  lemma {:induction false} ServedGrows(qs: seq<Request>, ttl: int, i: nat)
    requires i <= |qs|
    ensures Served(qs[..i], ttl) <= Served(qs, ttl)
  {
    if i < |qs| {
      ServedGrows(qs[..|qs| - 1], ttl, i);
      assert qs[..|qs| - 1][..i] == qs[..i];
    } else {
      assert qs[..i] == qs;
    }
  }

  /** Each request was answered by what had been accepted before it. */
  ghost predicate Answered(qs: seq<Request>, answers: seq<bool>, ttl: int) {
    |answers| == |qs| && forall i :: 0 <= i < |qs| ==> (answers[i] <==> IsNew(Served(qs[..i], ttl), ttl, qs[i]))
  }

  /** How many answers are yes. */
  function Accepts(answers: seq<bool>): (r: nat) {
    if answers == [] then 0 else Accepts(answers[..|answers| - 1]) + if answers[|answers| - 1] then 1 else 0
  }

  /** How many requests before this one were accepted. */
  function Rank(answers: seq<bool>, i: nat): (r: nat)
    requires i <= |answers|
  {
    Accepts(answers[..i])
  }

  lemma {:induction false} RankSplit(answers: seq<bool>, i: nat, j: nat)
    requires i <= j <= |answers|
    ensures Rank(answers, j) == Rank(answers, i) + Accepts(answers[i..j])
  {
    if i < j {
      RankSplit(answers, i, j - 1);
      assert answers[..j][..j - 1] == answers[..j - 1] && answers[i..j][..j - i - 1] == answers[i..j - 1];
    }
  }

  /** One request more: the accepted pairs grow exactly when it is answered yes. */
  lemma ServedNext(qs: seq<Request>, answers: seq<bool>, ttl: int, n: nat)
    requires Answered(qs, answers, ttl) && n < |qs|
    ensures Served(qs[..n + 1], ttl) == Served(qs[..n], ttl) + if answers[n] then [AcceptOf(qs[n])] else []
    ensures Rank(answers, n + 1) == Rank(answers, n) + if answers[n] then 1 else 0
  {
    hide IsNew;
    assert qs[..n + 1][..n] == qs[..n] && answers[..n + 1][..n] == answers[..n];
  }

  /** The accepted pairs are those of the requests answered yes, in order. */
  lemma {:induction false} ServedAt(qs: seq<Request>, answers: seq<bool>, ttl: int, n: nat)
    requires Answered(qs, answers, ttl) && n <= |qs|
    ensures |Served(qs[..n], ttl)| == Rank(answers, n)
    ensures forall i :: 0 <= i < n && answers[i] ==>
              Rank(answers, i) < |Served(qs[..n], ttl)| && Served(qs[..n], ttl)[Rank(answers, i)] == AcceptOf(qs[i])
  {
    hide Answered, Rank;
    if n > 0 {
      ServedAt(qs, answers, ttl, n - 1);
      ServedNext(qs, answers, ttl, n - 1);
    } else {
      assert answers[..0] == [] && qs[..0] == [];
      assert Rank(answers, 0) == 0 by { RankNone(answers); }
    }
  }

  lemma RankNone(answers: seq<bool>)
    ensures Rank(answers, 0) == 0
  {
  }

  /** Each accepted pair is that of a request answered yes. */
  lemma {:induction false} SourceOf(qs: seq<Request>, answers: seq<bool>, ttl: int, n: nat, x: nat) returns (i: nat)
    requires Answered(qs, answers, ttl) && n <= |qs| && x < |Served(qs[..n], ttl)|
    ensures i < n && answers[i] && Rank(answers, i) == x
  {
    hide Answered, Rank;
    ServedNext(qs, answers, ttl, n - 1);
    ServedAt(qs, answers, ttl, n - 1);
    if x < |Served(qs[..n - 1], ttl)| {
      i := SourceOf(qs, answers, ttl, n - 1, x);
    } else {
      i := n - 1;
    }
  }

  /**
   * Request `j` repeats the pair of an accepted one within its lifetime and at most 128 acceptances, that one
   * included.
   */
  predicate Repeats(qs: seq<Request>, answers: seq<bool>, ttl: int, i: nat, j: nat)
    requires i <= j < |qs| == |answers|
  {
    && answers[i] && qs[i].timestamp == qs[j].timestamp && qs[i].challenge == qs[j].challenge
    && qs[j].now - qs[i].now <= ttl && Accepts(answers[i..j]) <= 128
  }

  /**
   * Over any run, told by its answers alone: a request is refused exactly when it repeats an accepted one. So a pair
   * is accepted twice only after its lifetime has passed or after 128 acceptances have pushed it out, and nothing
   * else is ever refused.
   */
  lemma RefusedIffRepeated(qs: seq<Request>, answers: seq<bool>, ttl: int, j: nat)
    requires Answered(qs, answers, ttl) && j < |qs|
    ensures !answers[j] <==> exists i :: 0 <= i < j && Repeats(qs, answers, ttl, i, j)
  {
    ServedAt(qs, answers, ttl, j);
    if !answers[j] {
      RefusedRepeats(qs, answers, ttl, j);
    }
    if i :| 0 <= i < j && Repeats(qs, answers, ttl, i, j) {
      RankSplit(answers, i, j);
      var acc := Served(qs[..j], ttl);
      assert acc[Rank(answers, i)] == AcceptOf(qs[i]);
    }
  }

  lemma RefusedRepeats(qs: seq<Request>, answers: seq<bool>, ttl: int, j: nat)
    requires Answered(qs, answers, ttl) && j < |qs| && !answers[j]
    ensures exists i :: 0 <= i < j && Repeats(qs, answers, ttl, i, j)
  {
    var acc, q := Served(qs[..j], ttl), qs[j];
    assert !IsNew(acc, ttl, q);
    var x :| 0 <= x < |acc| && |acc| - CAPACITY <= x
      && acc[x].timestamp == q.timestamp && acc[x].challenge == q.challenge && q.now - acc[x].time <= ttl;
    hide Answered, IsNew, Rank;
    var i := SourceOf(qs, answers, ttl, j, x);
    ServedAt(qs, answers, ttl, j);
    RankSplit(answers, i, j);
    assert Repeats(qs, answers, ttl, i, j);
  }

  /** One pair is accepted twice only after its lifetime, or after 128 acceptances from the first on. */
  lemma NoDoubleAccept(qs: seq<Request>, answers: seq<bool>, ttl: int, i: nat, j: nat)
    requires Answered(qs, answers, ttl) && i < j < |qs| && answers[i] && answers[j]
    requires qs[i].timestamp == qs[j].timestamp && qs[i].challenge == qs[j].challenge
    ensures qs[j].now - qs[i].now > ttl || Accepts(answers[i..j]) > 128
  {
    RefusedIffRepeated(qs, answers, ttl, j);
    assert !Repeats(qs, answers, ttl, i, j);
  }

  ghost predicate InTime(qs: seq<Request>) {
    forall i, j :: 0 <= i < j < |qs| ==> qs[i].now <= qs[j].now
  }

  /**
   * Puts a run of requests to the gate, in order of time, as a receiver does under one window. A cache that served
   * another lifetime before has been given up with everything in it.
   */
  method AcceptAll(gate: Gate, qs: seq<Request>, windowMs: Option<nat>) returns (answers: seq<bool>)
    requires gate.Valid() && (gate.Serves(Ttl(windowMs)) ==> gate.accepted == [])
    requires InTime(qs) && forall i :: 0 <= i < |qs| ==> gate.NotBefore(qs[i].now)
    modifies gate, gate.nonce, if gate.nonce == null then {} else {gate.nonce.entries, gate.nonce.storage}
    ensures gate.Valid() && Answered(qs, answers, Ttl(windowMs))
    ensures qs != [] ==> gate.accepted == Served(qs, Ttl(windowMs))
    ensures forall j :: 0 <= j < |qs| ==>
              (!answers[j] <==> exists i :: 0 <= i < j && Repeats(qs, answers, Ttl(windowMs), i, j))
  {
    hide Keeps, IsNew, Served, Repeats;
    ghost var ttl := Ttl(windowMs);
    answers := [];
    KeepsAtFirst(gate, qs, ttl);
    for i := 0 to |qs|
      invariant gate.Framed() && |answers| == i
      invariant Keeps(gate, qs[..i], ttl) && (i > 0 ==> gate.Serves(ttl))
      invariant forall j :: i <= j < |qs| ==> gate.NotBefore(qs[j].now)
      invariant forall j :: 0 <= j < i ==> (answers[j] <==> IsNew(Served(qs[..j], ttl), ttl, qs[j]))
    {
      var answer := AcceptNext(gate, qs, i, windowMs);
      answers := answers + [answer];
    }
    assert qs[..|qs|] == qs;
    KeepsInTheEnd(gate, qs, ttl);
    EachRefusal(qs, answers, ttl);
  }

  lemma KeepsAtFirst(gate: Gate, qs: seq<Request>, ttl: int)
    requires gate.Valid() && (gate.Serves(ttl) ==> gate.accepted == [])
    ensures Keeps(gate, qs[..0], ttl)
  {
  }

  lemma KeepsInTheEnd(gate: Gate, qs: seq<Request>, ttl: int)
    requires Keeps(gate, qs, ttl)
    ensures gate.Valid() && (gate.Serves(ttl) ==> gate.accepted == Served(qs, ttl))
  {
  }

  lemma EachRefusal(qs: seq<Request>, answers: seq<bool>, ttl: int)
    requires Answered(qs, answers, ttl)
    ensures forall j :: 0 <= j < |qs| ==> (!answers[j] <==> exists i :: 0 <= i < j && Repeats(qs, answers, ttl, i, j))
  {
    forall j | 0 <= j < |qs| ensures !answers[j] <==> exists i :: 0 <= i < j && Repeats(qs, answers, ttl, i, j) {
      RefusedIffRepeated(qs, answers, ttl, j);
    }
  }

  /** The gate remembers what these requests left, or has not been set up for the lifetime. */
  ghost predicate Keeps(gate: Gate, qs: seq<Request>, ttl: int)
    reads gate, gate.nonce, if gate.nonce == null then {} else {gate.nonce.entries, gate.nonce.storage}
  {
    gate.Valid() && if gate.Serves(ttl) then gate.accepted == Served(qs, ttl) else Served(qs, ttl) == []
  }

  method AcceptNext(gate: Gate, qs: seq<Request>, i: nat, windowMs: Option<nat>) returns (answer: bool)
    requires i < |qs| && Keeps(gate, qs[..i], Ttl(windowMs)) && gate.NotBefore(qs[i].now)
    modifies gate, gate.nonce, if gate.nonce == null then {} else {gate.nonce.entries, gate.nonce.storage}
    ensures Keeps(gate, qs[..i + 1], Ttl(windowMs)) && gate.Serves(Ttl(windowMs)) && gate.Framed()
    ensures answer <==> IsNew(Served(qs[..i], Ttl(windowMs)), Ttl(windowMs), qs[i])
    ensures forall later: int :: later >= qs[i].now ==> gate.NotBefore(later)
  {
    assert qs[..i + 1][..i] == qs[..i];
    hide Replayed;
    answer := gate.PacketNonceAccept(qs[i].timestamp, qs[i].challenge, qs[i].now, windowMs, true);
  }
}
