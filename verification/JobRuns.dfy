/**
 * The job queue over whole runs: who holds every allocation, and what every job shows, after any calls in any
 * order.
 */
module JobRuns {
  import opened Common
  import opened JobQueue

  /** One call, with the outcome of the allocation it may make. Callers keep jobs in numbered variables. */
  datatype Call =
    | Enqueue(p: Packet, fill: Option<byte>)
    | Drain(v: nat)
    | Reserve(v: nat, minCap: nat, fill: Option<byte>)
    | Dispose(v: nat)
    | Reset

  /** What can be asked of the queue: sizes are within a size_t. */
  predicate Possible(c: Call) {
    && (c.Enqueue? ==> Sized(c.p))
    && (c.Reserve? ==> c.minCap <= SIZE_MAX)
  }

  // ---- what a run comes to, without buffers ----

  /**
   * The messages queued, oldest first, those shown by the callers' variables that are not blank, and all that were
   * accepted since the last reset.
   */
  datatype Picture = Picture(queued: seq<Message>, held: map<nat, Message>, accepted: seq<Message>)

  const NOTHING := Picture([], map[], [])

  const BLANK := Message(ZERO_META, ZERO_REQUEST, [])

  function Shown(p: Picture, v: nat): (m: Message) {
    if v in p.held then p.held[v] else BLANK
  }

  function After(p: Picture, c: Call): (r: Picture) {
    match c
    case Enqueue(packet, fill) =>
      if |p.queued| < CAPACITY && Loadable(packet, fill) then
        var m := MessageOf(packet).value;
        p.(queued := p.queued + [m], accepted := p.accepted + [m])
      else p
    case Drain(v) =>
      if p.queued == [] then p.(held := p.held - {v})
      else p.(queued := p.queued[1..], held := p.held[v := p.queued[0]])
    case Reserve(v, _, _) => p.(held := p.held[v := Shown(p, v)])
    case Dispose(v) => p.(held := p.held - {v})
    case Reset => p.(queued := [], accepted := [])
  }

  function AfterAll(p: Picture, cs: seq<Call>): (r: Picture) {
    if cs == [] then p else After(AfterAll(p, cs[..|cs| - 1]), cs[|cs| - 1])
  }

  /** The packet is taken in: it has content, and the content is empty or can be copied. */
  ghost predicate TakenIn(packet: Packet, fill: Option<byte>) {
    exists payload: seq<byte> ::
      HasContent(packet, payload) && (payload == [] || (NextCap(0, |payload|) <= SIZE_MAX && fill.Some?))
  }

  /** The packets accepted by a run since its last reset, in order. */
  ghost function Arrived(cs: seq<Call>): (ps: seq<Packet>) {
    if cs == [] then []
    else
      var before, c := cs[..|cs| - 1], cs[|cs| - 1];
      match c
      case Enqueue(packet, fill) =>
        if |AfterAll(NOTHING, before).queued| < 64 && TakenIn(packet, fill) then Arrived(before) + [packet]
        else Arrived(before)
      case Reset => []
      case _ => Arrived(before)
  }

  /** The messages accepted show the packets that arrived, one by one and field by field. */
  lemma {:induction false} AcceptedShow(cs: seq<Call>)
    ensures |AfterAll(NOTHING, cs).accepted| == |Arrived(cs)|
    ensures forall k :: 0 <= k < |Arrived(cs)| ==> ShowsPacket(AfterAll(NOTHING, cs).accepted[k], Arrived(cs)[k])
  {
    if cs != [] {
      AcceptedShow(cs[..|cs| - 1]);
      var c := cs[|cs| - 1];
      if c.Enqueue? {
        LoadableExactly(c.p, c.fill);
      }
    }
  }

  /** What is queued is what was accepted last. */
  lemma {:induction false} QueuedAreLast(cs: seq<Call>)
    ensures var p := AfterAll(NOTHING, cs);
            |p.queued| <= |p.accepted| && p.queued == p.accepted[|p.accepted| - |p.queued|..]
  {
    hide Loadable, MessageOf;
    if cs != [] {
      QueuedAreLast(cs[..|cs| - 1]);
      var p, c := AfterAll(NOTHING, cs[..|cs| - 1]), cs[|cs| - 1];
      LastStillLast(p, c);
    }
  }

  lemma LastStillLast(p: Picture, c: Call)
    requires |p.queued| <= |p.accepted| && p.queued == p.accepted[|p.accepted| - |p.queued|..]
    ensures var r := After(p, c); |r.queued| <= |r.accepted| && r.queued == r.accepted[|r.accepted| - |r.queued|..]
  {
    hide Loadable, MessageOf;
  }

  /** Everything shown is blank or shows a packet of the run. */
  ghost predicate AllStem(p: Picture, cs: seq<Call>) {
    && (forall k :: 0 <= k < |p.queued| ==> Stems(p.queued[k], cs))
    && (forall v: nat :: v in p.held ==> p.held[v] == BLANK || Stems(p.held[v], cs))
  }

  lemma {:induction false} EveryMessageStems(cs: seq<Call>)
    ensures AllStem(AfterAll(NOTHING, cs), cs)
  {
    if cs != [] {
      var before, c := cs[..|cs| - 1], cs[|cs| - 1];
      EveryMessageStems(before);
      StemsStill(AfterAll(NOTHING, before), before, cs);
      AfterStems(AfterAll(NOTHING, before), c, cs);
    }
  }

  lemma StemsStill(p: Picture, before: seq<Call>, cs: seq<Call>)
    requires AllStem(p, before) && before <= cs
    ensures AllStem(p, cs)
  {
    forall m: Message | Stems(m, before) ensures Stems(m, cs) {
      var i :| 0 <= i < |before| && before[i].Enqueue? && ShowsPacket(m, before[i].p);
      assert cs[i] == before[i];
    }
  }

  lemma AfterStems(p: Picture, c: Call, cs: seq<Call>)
    requires AllStem(p, cs) && cs != [] && c == cs[|cs| - 1]
    ensures AllStem(After(p, c), cs)
  {
    hide ShowsPacket, Loadable, MessageOf, Stems;
    if c.Enqueue? && Loadable(c.p, c.fill) {
      LoadableExactly(c.p, c.fill);
      LastStems(MessageOf(c.p).value, cs);
    }
  }

  lemma LastStems(m: Message, cs: seq<Call>)
    requires cs != [] && cs[|cs| - 1].Enqueue? && ShowsPacket(m, cs[|cs| - 1].p)
    ensures Stems(m, cs)
  {
  }

  predicate Stems(m: Message, cs: seq<Call>) {
    exists i :: 0 <= i < |cs| && cs[i].Enqueue? && ShowsPacket(m, cs[i].p)
  }

  // ---- the queue and the callers' variables ----

  function JobIn(jobs: map<nat, Job>, v: nat): (j: Job) {
    if v in jobs then jobs[v] else ZERO_JOB
  }

  /** Every variable owns the buffers of its job and shows its message; a variable that is not listed is blank. */
  ghost predicate Held(heap: Heap, jobs: map<nat, Job>, held: map<nat, Message>) {
    && jobs.Keys == held.Keys
    && (forall v: nat :: Owns(heap, JobIn(jobs, v), Caller(v)))
    && (forall v: nat :: v in held ==> View(heap, jobs[v]) == held[v])
  }

  /** The queue and the variables show this picture. */
  ghost predicate Pictures(q: Queue, jobs: map<nat, Job>, p: Picture)
    reads q, q.slots
  {
    q.Valid() && q.contents == p.queued && q.accepted == p.accepted && Held(q.heap, jobs, p.held)
  }

  lemma CallerKept(before: Heap, after: Heap, j: Job, v: nat, vs: set<nat>)
    requires CallersKept(before, after, vs) && v !in vs && Owns(before, j, Caller(v))
    ensures Owns(after, j, Caller(v)) && View(after, j) == View(before, j)
  {
    assert forall b: BufId :: (j.payload.id == Some(b) || j.response.id == Some(b)) ==>
      b in before && before[b].holder == Caller(v);
  }

  /** A call that touches no variable leaves all as they were. */
  lemma HeldStill(before: Heap, after: Heap, jobs: map<nat, Job>, held: map<nat, Message>)
    requires Held(before, jobs, held) && CallersKept(before, after, {})
    ensures Held(after, jobs, held)
  {
    hide Owns, View, CallersKept;
    forall v: nat ensures Owns(after, JobIn(jobs, v), Caller(v)) && (v in held ==> View(after, jobs[v]) == held[v]) {
      CallerKept(before, after, JobIn(jobs, v), v, {});
    }
  }

  /** A call that touches one variable puts a job there, and leaves the others as they were. */
  lemma HeldWith(before: Heap, after: Heap, jobs: map<nat, Job>, held: map<nat, Message>, v: nat, j: Job)
    requires Held(before, jobs, held) && CallersKept(before, after, {v}) && Owns(after, j, Caller(v))
    ensures Held(after, jobs[v := j], held[v := View(after, j)])
    ensures j == ZERO_JOB ==> Held(after, jobs - {v}, held - {v})
  {
    hide Owns, View, CallersKept;
    forall w: nat | w != v
      ensures Owns(after, JobIn(jobs, w), Caller(w)) && (w in held ==> View(after, jobs[w]) == held[w])
    {
      CallerKept(before, after, JobIn(jobs, w), w, {v});
    }
  }

  /** One call on the queue, for the callers' variables. */
  method Perform(q: Queue, jobs: map<nat, Job>, c: Call, ghost p: Picture) returns (r: map<nat, Job>)
    requires Pictures(q, jobs, p) && Possible(c)
    modifies q, q.slots
    ensures Pictures(q, r, After(p, c))
  {
    hide Owns, View, CallersKept, OthersKept, Held, Sized;
    ghost var before := q.heap;
    match c
    case Enqueue(packet, fill) =>
      var ok := q.Enqueue(packet, fill);
      HeldStill(before, q.heap, jobs, p.held);
      return jobs;
    case Drain(v) =>
      JobIsOwned(before, jobs, p.held, v);
      var ok, j := q.Drain(JobIn(jobs, v), v);
      HeldWith(before, q.heap, jobs, p.held, v, j);
      return if ok then jobs[v := j] else jobs - {v};
    case Reserve(v, minCap, fill) =>
      JobIsOwned(before, jobs, p.held, v);
      ShownIs(before, jobs, p, v);
      var ok, j := q.ReserveResponse(JobIn(jobs, v), minCap, fill, v);
      OnlyCaller(before, q.heap, v);
      HeldWith(before, q.heap, jobs, p.held, v, j);
      return jobs[v := j];
    case Dispose(v) =>
      JobIsOwned(before, jobs, p.held, v);
      var j := q.Dispose(JobIn(jobs, v), v);
      HeldWith(before, q.heap, jobs, p.held, v, j);
      return jobs - {v};
    case Reset =>
      q.Reset();
      HeldStill(before, q.heap, jobs, p.held);
      return jobs;
  }

  lemma JobIsOwned(heap: Heap, jobs: map<nat, Job>, held: map<nat, Message>, v: nat)
    requires Held(heap, jobs, held)
    ensures Owns(heap, JobIn(jobs, v), Caller(v))
  {
  }

  lemma ShownIs(heap: Heap, jobs: map<nat, Job>, p: Picture, v: nat)
    requires Held(heap, jobs, p.held)
    ensures View(heap, JobIn(jobs, v)) == Shown(p, v)
  {
  }

  lemma OnlyCaller(before: Heap, after: Heap, v: nat)
    requires OthersKept(before, after, {Caller(v)})
    ensures CallersKept(before, after, {v})
  {
  }

  /**
   * Any calls in any order, each with its own failing allocation, from an empty queue: queue and variables always show
   * what the calls come to without buffers, every live block belongs to one queued job or to one caller's variable,
   * and the messages handed out since the last reset are the accepted ones in order.
   */
  method PerformAll(q: Queue, cs: seq<Call>) returns (jobs: map<nat, Job>)
    requires q.Valid() && q.heap == map[] && q.accepted == []
    requires forall i :: 0 <= i < |cs| ==> Possible(cs[i])
    modifies q, q.slots
    ensures Pictures(q, jobs, AfterAll(NOTHING, cs))
    ensures q.accepted == q.drained + q.contents && |q.accepted| == |Arrived(cs)|
    ensures forall k :: 0 <= k < |q.accepted| ==> ShowsPacket(q.accepted[k], Arrived(cs)[k])
    ensures forall v: nat :: v in jobs ==> View(q.heap, jobs[v]) == BLANK || Stems(View(q.heap, jobs[v]), cs)
    ensures forall b: BufId :: b in q.heap ==> InQueue(q, b) || InVariable(q.heap, jobs, b)
    ensures AfterAll(NOTHING, cs).queued == [] && AfterAll(NOTHING, cs).held == map[] ==> q.heap == map[]
  {
    hide Owns, View;
    jobs := map[];
    NothingHeld();
    assert cs[..0] == [];
    for i := 0 to |cs|
      invariant Pictures(q, jobs, AfterAll(NOTHING, cs[..i]))
    {
      assert cs[..i + 1][..i] == cs[..i];
      jobs := Perform(q, jobs, cs[i], AfterAll(NOTHING, cs[..i]));
    }
    assert cs[..|cs|] == cs;
    NothingLeaks(q, jobs, AfterAll(NOTHING, cs));
    AcceptedShow(cs);
    EveryMessageStems(cs);
  }

  /** A packet put into an empty queue comes out as it was. */
  method PassThrough(q: Queue, packet: Packet, fill: Option<byte>, v: nat) returns (ok: bool, j: Job)
    requires q.Valid() && q.contents == [] && Sized(packet) && Owns(q.heap, ZERO_JOB, Caller(v))
    modifies q, q.slots
    ensures q.Valid() && Owns(q.heap, j, Caller(v)) && (ok <==> TakenIn(packet, fill))
    ensures ok ==> ShowsPacket(View(q.heap, j), packet)
  {
    hide Owns, View;
    ghost var before := q.heap;
    ok := q.Enqueue(packet, fill);
    CallerKept(before, q.heap, ZERO_JOB, v, {});
    j := ZERO_JOB;
    if ok {
      var drained;
      drained, j := q.Drain(ZERO_JOB, v);
    }
  }

  lemma NothingHeld()
    ensures Held(map[], map[], map[])
  {
  }

  /** The block is the payload of a queued job. */
  ghost predicate InQueue(q: Queue, b: BufId)
    reads q, q.slots
  {
    exists k: nat :: k < q.count && At(q.head, k) < q.slots.Length && q.slots[At(q.head, k)].payload.id == Some(b)
  }

  /** The block is the payload or the response of the job in one caller's variable. */
  ghost predicate InVariable(heap: Heap, jobs: map<nat, Job>, b: BufId) {
    exists v: nat :: v in jobs && b in heap && heap[b].holder == Caller(v)
                     && (jobs[v].payload.id == Some(b) || jobs[v].response.id == Some(b))
  }

  /** Every live block belongs to a queued job or a caller's variable. With none of either nothing is allocated. */
  lemma NothingLeaks(q: Queue, jobs: map<nat, Job>, p: Picture)
    requires Pictures(q, jobs, p)
    ensures forall b: BufId :: b in q.heap ==> InQueue(q, b) || InVariable(q.heap, jobs, b)
    ensures p.queued == [] && p.held == map[] ==> q.heap == map[]
  {
    forall b: BufId | b in q.heap ensures InQueue(q, b) || InVariable(q.heap, jobs, b) {
      if q.heap[b].holder.Slot? {
        var i := q.heap[b].holder.index;
        assert SlotOk(q.heap, q.slots[..][i], i, InWindow(q.head, q.count, i));
        var k := if q.head <= i then i - q.head else i + CAPACITY - q.head;
        assert At(q.head, k) == i;
      } else {
        var v := q.heap[b].holder.variable;
        assert Owns(q.heap, JobIn(jobs, v), Caller(v));
      }
    }
  }
}
