/**
 * The daemon's queue of delivered packets: a 64-slot ring whose jobs own heap buffers, and jobs
 * handed out to callers. The heap is explicit, so that what is allocated and what is owned can be
 * compared.
 */
module JobQueue {
  import opened Common

  const CAPACITY: nat := 64
  const BLOCK_SIZE: nat := 1280
  const IP_SIZE: nat := 64

  // ---- growth ----

  /** The least doubling is at most any other doubling that is large enough. */
  lemma {:induction false} LeastDoublingIsLeast(v: nat, min: nat, k: nat)
    requires v > 0 && Doubled(v, k) >= min
    ensures LeastDoubling(v, min) <= Doubled(v, k)
    decreases k
  {
    if v < min && k > 0 {
      LeastDoublingIsLeast(2 * v, min, k - 1);
    } else if v >= min {
      DoubledGrows(v, k);
    }
  }

  function Doubled(v: nat, k: nat): (r: nat)
    decreases k
  {
    if k == 0 then v else Doubled(2 * v, k - 1)
  }

  lemma {:induction false} DoubledGrows(v: nat, k: nat)
    ensures Doubled(v, k) >= v
    decreases k
  {
    if k > 0 {
      DoubledGrows(2 * v, k - 1);
    }
  }

  /**
   * The next capacity: the least doubling that suffices, or zero when it does not fit a size_t.
   * The loop ends because it does not start from zero, which a positive block size ensures.
   */
  method NextBufferCap(currentCap: nat, minCap: nat, blockSize: nat) returns (next: nat)
    requires currentCap <= SIZE_MAX && minCap <= SIZE_MAX && blockSize <= SIZE_MAX
    requires blockSize > 0 || currentCap > 0
    ensures var least := LeastDoubling(if currentCap < blockSize then blockSize else currentCap, minCap);
            next == if least <= SIZE_MAX then least else 0
    ensures next == 0 || (minCap <= next <= SIZE_MAX && currentCap <= next)
  {
    next := currentCap;
    if next < blockSize {
      next := blockSize;
    }
    if next == 0 {
      next := blockSize;
    }
    ghost var least := LeastDoubling(next, minCap);
    while next < minCap
      invariant 0 < next <= SIZE_MAX && currentCap <= next && LeastDoubling(next, minCap) == least
      decreases minCap - next
    {
      if next > SIZE_MAX / 2 {
        return 0;
      }
      next := next * 2;
    }
  }

  // ---- jobs ----

  type BufId = nat

  /** A buffer pointer with its length and capacity fields. */
  datatype Buffer = Buffer(id: Option<BufId>, len: nat, cap: nat)

  const NO_BUFFER := Buffer(None, 0, 0)

  /** The transport fields copied from packet to job. */
  datatype Meta = Meta(
    shouldReply: bool,
    syntheticSession: bool,
    wireVersion: u32,
    wireForm: byte,
    sessionId: nat,
    messageId: nat,
    streamId: u32,
    fragmentIndex: u32,
    fragmentCount: u32,
    timestamp: u32,
    ip: string,
    clientPort: u16,
    encrypted: bool,
    wireAuth: bool)

  const ZERO_META := Meta(false, false, 0, 0, 0, 0, 0, 0, 0, 0, "", 0, false, false)

  datatype Request = Request(userId: u16, actionId: byte, challenge: u32, hmac: seq<byte>)

  const ZERO_REQUEST := Request(0, 0, 0, Zeros(32))

  datatype Job = Job(available: bool, meta: Meta, request: Request, payload: Buffer, response: Buffer)

  const ZERO_JOB := Job(false, ZERO_META, ZERO_REQUEST, NO_BUFFER, NO_BUFFER)

  datatype UserData = UserData(request: Request, payload: seq<byte>)

  /** A delivered packet; without a wire version it carries raw bytes, otherwise user data if it was decoded. */
  datatype Packet = Packet(meta: Meta, raw: seq<byte>, user: Option<UserData>)

  /** A packet's content, as the application is to see it. */
  datatype Message = Message(meta: Meta, request: Request, payload: seq<byte>)

  function MessageOf(p: Packet): (r: Option<Message>) {
    var meta := p.meta.(ip := Clip(p.meta.ip, IP_SIZE));
    if p.meta.wireVersion == 0 then Some(Message(meta, ZERO_REQUEST, p.raw))
    else if p.user.None? then None
    else Some(Message(meta, p.user.value.request, p.user.value.payload))
  }

  /** The message shows the packet, field by field: request and bytes of the user data, or no request and raw bytes. */
  predicate ShowsPacket(m: Message, p: Packet) {
    && m.meta == p.meta.(ip := m.meta.ip)
    && m.meta.ip == (if |p.meta.ip| < 64 then p.meta.ip else p.meta.ip[..63])
    && (p.meta.wireVersion == 0 ==> m.request == Request(0, 0, 0, Zeros(32)) && m.payload == p.raw)
    && (p.meta.wireVersion != 0 ==>
          p.user.Some? && m.request == p.user.value.request && m.payload == p.user.value.payload)
  }

  /** The bytes a job has to copy; there is no content exactly with a wire version and no user data. */
  predicate HasContent(p: Packet, payload: seq<byte>) {
    if p.meta.wireVersion == 0 then payload == p.raw else p.user.Some? && payload == p.user.value.payload
  }

  // ---- the heap ----

  /** Who owns a live buffer: a slot of the ring, or the job variable of some caller. */
  datatype Holder = Slot(index: nat) | Caller(variable: nat)

  predicate IsHolder(h: Holder) {
    h.Slot? ==> h.index < CAPACITY
  }

  datatype Block = Block(bytes: seq<byte>, holder: Holder)

  /** The live allocations. */
  type Heap = map<BufId, Block>

  ghost predicate BufferOk(heap: Heap, b: Buffer) {
    if b.id.None? then b.len == 0 && b.cap == 0
    else b.id.value in heap && b.len <= b.cap == |heap[b.id.value].bytes| <= SIZE_MAX
  }

  /** A job's buffers belong to `h`, they are different, and `h` owns nothing else. */
  ghost predicate Owns(heap: Heap, j: Job, h: Holder) {
    && BufferOk(heap, j.payload) && BufferOk(heap, j.response)
    && (j.payload.id.Some? ==> j.payload.id != j.response.id)
    && forall b: BufId :: (b in heap && heap[b].holder == h) <==> (j.payload.id == Some(b) || j.response.id == Some(b))
  }

  function Payload(heap: Heap, j: Job): (r: seq<byte>) {
    var b := j.payload;
    if b.id.Some? && b.id.value in heap && b.len <= |heap[b.id.value].bytes| then heap[b.id.value].bytes[..b.len]
    else []
  }

  function View(heap: Heap, j: Job): (r: Message) {
    Message(j.meta, j.request, Payload(heap, j))
  }

  /** The blocks of every holder outside `hs` are the same before and after. */
  ghost predicate OthersKept(before: Heap, after: Heap, hs: set<Holder>) {
    && (forall b: BufId :: b in before && before[b].holder !in hs ==> b in after && after[b] == before[b])
    && (forall b: BufId :: b in after && after[b].holder !in hs ==> b in before && before[b] == after[b])
  }

  /** The blocks of the callers' variables outside `vs` are the same before and after. */
  ghost predicate CallersKept(before: Heap, after: Heap, vs: set<nat>) {
    && (forall b: BufId :: b in before && before[b].holder.Caller? && before[b].holder.variable !in vs ==>
          b in after && after[b] == before[b])
    && (forall b: BufId :: b in after && after[b].holder.Caller? && after[b].holder.variable !in vs ==>
          b in before && before[b] == after[b])
  }

  lemma OwnsKept(before: Heap, after: Heap, j: Job, g: Holder, hs: set<Holder>)
    requires OthersKept(before, after, hs) && g !in hs && Owns(before, j, g)
    ensures Owns(after, j, g) && View(after, j) == View(before, j)
  {
    assert forall b: BufId :: (j.payload.id == Some(b) || j.response.id == Some(b)) ==>
      b in before && before[b].holder == g;
  }

  // ---- the ring ----

  /** The ring position of the k-th queued job. */
  function At(head: nat, k: nat): (i: nat)
    ensures i < CAPACITY
  {
    (head + k) % CAPACITY
  }

  /** Position `i` is in the live window. */
  predicate InWindow(head: nat, count: nat, i: nat) {
    if head <= i then i < head + count else i + CAPACITY < head + count
  }

  /** A slot owns what it points to; outside the window it points to nothing. */
  ghost predicate SlotOk(heap: Heap, j: Job, i: nat, queued: bool) {
    Owns(heap, j, Slot(i)) && j.response == NO_BUFFER && if queued then j.available else j.payload == NO_BUFFER
  }

  ghost predicate SlotsOk(heap: Heap, slots: seq<Job>, head: nat, count: nat) {
    |slots| == CAPACITY && forall i: nat :: i < CAPACITY ==> SlotOk(heap, slots[i], i, InWindow(head, count, i))
  }

  /** The live window shows these messages in order. */
  ghost predicate Shows(heap: Heap, slots: seq<Job>, head: nat, contents: seq<Message>) {
    |slots| == CAPACITY && forall k: nat :: k < |contents| ==> View(heap, slots[At(head, k)]) == contents[k]
  }

  /** The ring is as good after a change confined to a holder outside it. */
  lemma RingKept(before: Heap, after: Heap, slots: seq<Job>, head: nat, contents: seq<Message>, hs: set<Holder>)
    requires OthersKept(before, after, hs) && forall h :: h in hs ==> h.Caller?
    requires SlotsOk(before, slots, head, |contents|) && Shows(before, slots, head, contents)
    ensures SlotsOk(after, slots, head, |contents|) && Shows(after, slots, head, contents)
  {
    forall i: nat | i < CAPACITY
      ensures SlotOk(after, slots[i], i, InWindow(head, |contents|, i))
                && View(after, slots[i]) == View(before, slots[i])
    {
      assert SlotOk(before, slots[i], i, InWindow(head, |contents|, i));
      OwnsKept(before, after, slots[i], Slot(i), hs);
    }
  }

  /** A change confined to one slot leaves the others as good, whether or not the window moves past it. */
  lemma OtherSlotsKept(before: Heap, after: Heap, slots: seq<Job>, t: nat, hs: set<Holder>, head: nat, count: nat)
    requires t < CAPACITY && SlotsOk(before, slots, head, count) && OthersKept(before, after, hs)
    requires forall h :: h in hs ==> h.Caller? || h == Slot(t)
    ensures forall i: nat :: i < CAPACITY && i != t ==>
              SlotOk(after, slots[i], i, InWindow(head, count, i)) && View(after, slots[i]) == View(before, slots[i])
  {
    forall i: nat | i < CAPACITY && i != t
      ensures SlotOk(after, slots[i], i, InWindow(head, count, i)) && View(after, slots[i]) == View(before, slots[i])
    {
      assert SlotOk(before, slots[i], i, InWindow(head, count, i));
      OwnsKept(before, after, slots[i], Slot(i), hs);
    }
  }

  /** A job put behind the window extends it. */
  lemma TailAdded(before: Heap, after: Heap, slots: seq<Job>, j: Job, head: nat, contents: seq<Message>, t: nat)
    requires head < CAPACITY && |contents| < CAPACITY && t == At(head, |contents|)
    requires SlotsOk(before, slots, head, |contents|) && Shows(before, slots, head, contents)
    requires OthersKept(before, after, {Slot(t)}) && SlotOk(after, j, t, true)
    ensures SlotsOk(after, slots[t := j], head, |contents| + 1)
    ensures Shows(after, slots[t := j], head, contents + [View(after, j)])
  {
    hide At, InWindow, Owns, View, OthersKept;
    OtherSlotsKept(before, after, slots, t, {Slot(t)}, head, |contents|);
    forall i: nat | i < CAPACITY && i != t ensures InWindow(head, |contents| + 1, i) == InWindow(head, |contents|, i) {
      Grew(head, |contents|, i);
    }
    assert InWindow(head, |contents| + 1, t) by { TailJoins(head, |contents|); }
    forall k: nat | k < |contents| ensures At(head, k) != t {
      InFront(head, |contents|, k);
    }
  }

  lemma Grew(head: nat, count: nat, i: nat)
    requires head < CAPACITY && count < CAPACITY && i < CAPACITY && i != At(head, count)
    ensures InWindow(head, count + 1, i) == InWindow(head, count, i)
  {
  }

  lemma TailJoins(head: nat, count: nat)
    requires head < CAPACITY && count < CAPACITY
    ensures InWindow(head, count + 1, At(head, count))
  {
  }

  lemma InFront(head: nat, count: nat, k: nat)
    requires head < CAPACITY && k < count < CAPACITY
    ensures At(head, k) != At(head, count)
  {
  }

  /** A slot behind the window that points to nothing may be anything else. */
  lemma TailUnused(before: Heap, after: Heap, slots: seq<Job>, j: Job, head: nat, contents: seq<Message>, t: nat)
    requires head < CAPACITY && |contents| < CAPACITY && t == At(head, |contents|)
    requires SlotsOk(before, slots, head, |contents|) && Shows(before, slots, head, contents)
    requires OthersKept(before, after, {Slot(t)}) && SlotOk(after, j, t, false)
    ensures SlotsOk(after, slots[t := j], head, |contents|)
    ensures Shows(after, slots[t := j], head, contents)
  {
    OtherSlotsKept(before, after, slots, t, {Slot(t)}, head, |contents|);
    assert forall k: nat :: k < |contents| ==> At(head, k) != t;
  }

  lemma Shrunk(head: nat, count: nat, i: nat)
    requires head < CAPACITY && 0 < count <= CAPACITY && i < CAPACITY && i != head
    ensures InWindow(At(head, 1), count - 1, i) == InWindow(head, count, i)
  {
  }

  lemma Next(head: nat, k: nat)
    requires head < CAPACITY && k + 1 < CAPACITY
    ensures At(At(head, 1), k) == At(head, k + 1) != head
  {
  }

  /** Blanking the first slot of the window shrinks it from the front. */
  lemma HeadTaken(before: Heap, after: Heap, slots: seq<Job>, head: nat, contents: seq<Message>, variable: nat)
    requires head < CAPACITY && 0 < |contents| <= CAPACITY
    requires SlotsOk(before, slots, head, |contents|) && Shows(before, slots, head, contents)
    requires OthersKept(before, after, {Slot(head), Caller(variable)}) && SlotOk(after, ZERO_JOB, head, false)
    ensures SlotsOk(after, slots[head := ZERO_JOB], At(head, 1), |contents| - 1)
    ensures Shows(after, slots[head := ZERO_JOB], At(head, 1), contents[1..])
  {
    OtherSlotsKept(before, after, slots, head, {Slot(head), Caller(variable)}, head, |contents|);
    forall i: nat | i < CAPACITY && i != head
      ensures InWindow(At(head, 1), |contents| - 1, i) == InWindow(head, |contents|, i)
    {
      Shrunk(head, |contents|, i);
    }
    forall k: nat | k < |contents| - 1 ensures At(At(head, 1), k) == At(head, k + 1) != head {
      Next(head, k);
    }
  }

  lemma Moved(head: nat, count: nat)
    requires head < CAPACITY && count <= CAPACITY
    ensures count > 0 ==> At(At(head, 1), count - 1) == At(head, count)
    ensures At(At(head, count), 1) == At(head, count + 1)
  {
    if count > 0 {
      AtAt(head, 1, count - 1);
    }
    AtAt(head, count, 1);
  }

  lemma AtAt(head: nat, j: nat, k: nat)
    ensures At(At(head, j), k) == At(head, j + k)
  {
    var q := (head + j) / CAPACITY;
    assert head + j == q * CAPACITY + At(head, j);
    assert head + j + k == q * CAPACITY + (At(head, j) + k);
  }

  lemma FirstMoved<T>(all: seq<T>, done: seq<T>, rest: seq<T>)
    requires all == done + rest && rest != []
    ensures all == (done + [rest[0]]) + rest[1..]
  {
    assert rest == [rest[0]] + rest[1..];
  }

  lemma Extended<T>(all: seq<T>, done: seq<T>, rest: seq<T>, x: T)
    requires all == done + rest
    ensures all + [x] == done + (rest + [x])
  {
  }

  ghost predicate RingOk(heap: Heap, slots: seq<Job>, head: nat, tail: nat, count: nat,
                         contents: seq<Message>, accepted: seq<Message>, drained: seq<Message>) {
    && |slots| == CAPACITY && head < CAPACITY && count <= CAPACITY && tail == At(head, count)
    && |contents| == count && accepted == drained + contents
    && SlotsOk(heap, slots, head, count) && Shows(heap, slots, head, contents)
  }

  lemma RingShrinks(before: Heap, after: Heap, slots: seq<Job>, head: nat, tail: nat, count: nat,
                    contents: seq<Message>, accepted: seq<Message>, drained: seq<Message>, variable: nat)
    requires RingOk(before, slots, head, tail, count, contents, accepted, drained) && count > 0
    requires OthersKept(before, after, {Slot(head), Caller(variable)}) && SlotOk(after, ZERO_JOB, head, false)
    ensures RingOk(after, slots[head := ZERO_JOB], (head + 1) % CAPACITY, tail, count - 1,
                   contents[1..], accepted, drained + [contents[0]])
  {
    assert (head + 1) % CAPACITY == At(head, 1);
    hide At, Owns, View, OthersKept, InWindow, SlotsOk, Shows;
    HeadTaken(before, after, slots, head, contents, variable);
    Moved(head, count);
    FirstMoved(accepted, drained, contents);
  }

  lemma RingGrows(before: Heap, after: Heap, slots: seq<Job>, head: nat, tail: nat, count: nat,
                  contents: seq<Message>, accepted: seq<Message>, drained: seq<Message>, j: Job)
    requires RingOk(before, slots, head, tail, count, contents, accepted, drained) && count < CAPACITY
    requires OthersKept(before, after, {Slot(tail)}) && SlotOk(after, j, tail, true)
    ensures RingOk(after, slots[tail := j], head, (tail + 1) % CAPACITY, count + 1,
                   contents + [View(after, j)], accepted + [View(after, j)], drained)
  {
    assert (tail + 1) % CAPACITY == At(tail, 1);
    hide At, Owns, View, OthersKept, InWindow, SlotsOk, Shows;
    TailAdded(before, after, slots, j, head, contents, tail);
    Moved(head, count);
    Extended(accepted, drained, contents, View(after, j));
  }

  class Queue {
    var heap: Heap
    var nextId: BufId
    const slots: array<Job>
    var head: nat
    var tail: nat
    var count: nat
    /** The queued messages, oldest first. */
    ghost var contents: seq<Message>
    /** What was enqueued and what was drained since the last reset. */
    ghost var accepted: seq<Message>
    ghost var drained: seq<Message>

    /** Identifiers at or above `nextId` are unused, and only the slots there are own anything. */
    predicate Fresh()
      reads this
    {
      forall b: BufId :: b in heap ==> b < nextId && IsHolder(heap[b].holder)
    }

    ghost predicate Valid()
      reads this, slots
    {
      && Fresh() && slots.Length == CAPACITY
      && RingOk(heap, slots[..], head, tail, count, contents, accepted, drained)
    }

    constructor ()
      ensures Valid() && heap == map[] && accepted == [] && fresh(slots)
    {
      slots := new Job[CAPACITY](i => ZERO_JOB);
      heap, nextId, head, tail, count := map[], 0, 0, 0, 0;
      contents, accepted, drained := [], [], [];
    }

    // ---- buffers ----

    /** free(): the buffer must be live. */
    method Free(b: Buffer)
      requires Fresh() && (b.id.Some? ==> b.id.value in heap)
      modifies this`heap
      ensures Fresh() && heap == if b.id.Some? then old(heap) - {b.id.value} else old(heap)
    {
      if b.id.Some? {
        heap := heap - {b.id.value};
      }
    }

    /** Releases both buffers of a job; its holder owns nothing afterwards. */
    method ReleaseJob(j: Job, ghost h: Holder)
      requires Fresh() && Owns(heap, j, h)
      modifies this`heap
      ensures Fresh() && OthersKept(old(heap), heap, {h}) && Owns(heap, ZERO_JOB, h)
    {
      Free(j.payload);
      Free(j.response);
    }

    /** malloc(): `fill` stands for what fresh memory holds; without it the allocator refuses. */
    method Allocate(kept: seq<byte>, size: nat, fill: byte, h: Holder) returns (id: BufId)
      requires Fresh() && |kept| <= size && IsHolder(h)
      modifies this`heap, this`nextId
      ensures Fresh() && id == old(nextId) && id !in old(heap) && heap.Keys == old(heap).Keys + {id}
                && heap == old(heap)[id := heap[id]]
      ensures heap[id].holder == h && |heap[id].bytes| == size && kept <= heap[id].bytes
    {
      id := nextId;
      heap := heap[id := Block(kept + seq(size - |kept|, i => fill), h)];
      nextId := nextId + 1;
    }

    /** Makes room for `minCap` bytes in a buffer, keeping what is there; a refusal changes nothing. */
    method ReserveBuffer(b: Buffer, minCap: nat, fill: Option<byte>, h: Holder) returns (ok: bool, r: Buffer)
      requires Fresh() && BufferOk(heap, b) && minCap <= SIZE_MAX && IsHolder(h)
      requires b.id.Some? ==> heap[b.id.value].holder == h
      modifies this`heap, this`nextId
      ensures Fresh()
      ensures ok <==> b.cap >= minCap || (NextCap(b.cap, minCap) <= SIZE_MAX && fill.Some?)
      ensures !ok || b.cap >= minCap ==> r == b && heap == old(heap)
      ensures ok && b.cap < minCap ==>
                && r.id.Some? && r.id.value !in old(heap) && r.len == b.len && r.cap == NextCap(b.cap, minCap)
                && r.id.value in heap && heap[r.id.value].holder == h && |heap[r.id.value].bytes| == r.cap
                && heap == (if b.id.Some? then old(heap) - {b.id.value} else old(heap))[r.id.value := heap[r.id.value]]
                && (b.id.Some? ==> old(heap)[b.id.value].bytes <= heap[r.id.value].bytes)
    {
      if minCap == 0 {
        return true, b;
      }
      if b.id.Some? && b.cap >= minCap {
        return true, b;
      }
      var next := NextBufferCap(b.cap, minCap, BLOCK_SIZE);
      if next == 0 || fill.None? {
        return false, b;
      }
      var kept := if b.id.Some? then heap[b.id.value].bytes else [];
      Free(b);
      var id := Allocate(kept, next, fill.value, h);
      return true, Buffer(Some(id), b.len, next);
    }

    /** Copies a payload for a holder that owns nothing yet. */
    method CopyPayload(payload: seq<byte>, fill: Option<byte>, h: Holder) returns (ok: bool, r: Buffer)
      requires Fresh() && Owns(heap, ZERO_JOB, h) && |payload| <= SIZE_MAX && IsHolder(h)
      modifies this`heap, this`nextId
      ensures Fresh() && OthersKept(old(heap), heap, {h}) && Owns(heap, ZERO_JOB.(payload := r), h)
      ensures ok <==> payload == [] || (NextCap(0, |payload|) <= SIZE_MAX && fill.Some?)
      ensures ok ==> Payload(heap, ZERO_JOB.(payload := r)) == payload
      ensures !ok || payload == [] ==> r == NO_BUFFER
    {
      if payload == [] {
        return true, NO_BUFFER;
      }
      ok, r := ReserveBuffer(NO_BUFFER, |payload|, fill, h);
      if ok {
        var id := r.id.value;
        heap := heap[id := Block(payload + heap[id].bytes[|payload|..], h)];
        r := r.(len := |payload|);
      }
    }

    /** Room for a reply in a handed-out job; the message and the reply bytes already there are kept. */
    method ReserveResponse(j: Job, minCap: nat, fill: Option<byte>, variable: nat) returns (ok: bool, r: Job)
      requires Valid() && Owns(heap, j, Caller(variable)) && minCap <= SIZE_MAX
      modifies this`heap, this`nextId
      ensures Valid() && OthersKept(old(heap), heap, {Caller(variable)}) && Owns(heap, r, Caller(variable))
      ensures View(heap, r) == View(old(heap), j)
      ensures ok <==> j.response.cap >= minCap || (NextCap(j.response.cap, minCap) <= SIZE_MAX && fill.Some?)
      ensures r == j.(response := r.response) && r.response.len == j.response.len && (ok ==> r.response.cap >= minCap)
      ensures j.response.id.Some? ==>
                r.response.id.Some? && old(heap)[j.response.id.value].bytes <= heap[r.response.id.value].bytes
      ensures !ok ==> r == j && heap == old(heap)
    {
      var b;
      ok, b := ReserveBuffer(j.response, minCap, fill, Caller(variable));
      r := j.(response := b);
      RingKept(old(heap), heap, slots[..], head, contents, {Caller(variable)});
    }

    /** A slot's buffer now belongs to a caller's variable, which owned nothing. */
    method HandOver(j: Job, i: nat, variable: nat)
      requires Fresh() && Owns(heap, j, Slot(i)) && j.response == NO_BUFFER && Owns(heap, ZERO_JOB, Caller(variable))
      modifies this`heap
      ensures Fresh() && Owns(heap, j, Caller(variable)) && Owns(heap, ZERO_JOB, Slot(i))
                && View(heap, j) == View(old(heap), j)
      ensures OthersKept(old(heap), heap, {Slot(i), Caller(variable)})
    {
      if j.payload.id.Some? {
        var id := j.payload.id.value;
        heap := heap[id := heap[id].(holder := Caller(variable))];
      }
    }

    // ---- the queue ----

    /** Builds the job of a packet; a refusal leaves no buffer behind. */
    method LoadFromNormal(p: Packet, fill: Option<byte>, h: Holder) returns (ok: bool, j: Job)
      requires Fresh() && Owns(heap, ZERO_JOB, h) && Sized(p) && IsHolder(h)
      modifies this`heap, this`nextId
      ensures Fresh() && OthersKept(old(heap), heap, {h}) && Owns(heap, j, h) && j.response == NO_BUFFER
      ensures ok <==> Loadable(p, fill)
      ensures ok ==> View(heap, j) == MessageOf(p).value && j.available
      ensures ok ==> ShowsPacket(View(heap, j), p)
      ensures ok <==> exists payload: seq<byte> ::
                        HasContent(p, payload) && (payload == [] || (NextCap(0, |payload|) <= SIZE_MAX && fill.Some?))
      ensures !ok ==> j.payload == NO_BUFFER
    {
      j := ZERO_JOB.(available := true, meta := p.meta.(ip := Clip(p.meta.ip, IP_SIZE)));
      var payload := p.raw;
      LoadableExactly(p, fill);
      if p.meta.wireVersion != 0 {
        if p.user.None? {
          return false, j;
        }
        j := j.(request := p.user.value.request);
        payload := p.user.value.payload;
      }
      var b;
      ok, b := CopyPayload(payload, fill, h);
      j := if ok then j.(payload := b) else ZERO_JOB;
    }

    /** Loads a packet into the slot behind the window, which owns nothing before and is not queued yet after. */
    method LoadTail(p: Packet, fill: Option<byte>) returns (ok: bool)
      requires Valid() && Sized(p) && count < CAPACITY
      modifies this`heap, this`nextId, slots
      ensures Fresh() && OthersKept(old(heap), heap, {Slot(tail)}) && slots[..] == old(slots[..])[tail := slots[tail]]
      ensures SlotOk(heap, slots[tail], tail, ok) && (ok <==> Loadable(p, fill))
      ensures ok ==> View(heap, slots[tail]) == MessageOf(p).value
    {
      assert SlotOk(heap, slots[tail], tail, InWindow(head, count, tail));
      ReleaseJob(slots[tail], Slot(tail));
      var j;
      ok, j := LoadFromNormal(p, fill, Slot(tail));
      slots[tail] := j;
    }

    /** Appends the packet's message, or changes nothing queued; handed-out jobs are untouched. */
    method Enqueue(p: Packet, fill: Option<byte>) returns (ok: bool)
      requires Valid() && Sized(p)
      modifies this, slots
      ensures Valid() && drained == old(drained)
      ensures ok <==> old(count) < CAPACITY && Loadable(p, fill)
      ensures contents == old(contents) + if ok then [MessageOf(p).value] else []
      ensures ok <==> old(count) < 64 && exists payload: seq<byte> ::
                        HasContent(p, payload) && (payload == [] || (NextCap(0, |payload|) <= SIZE_MAX && fill.Some?))
      ensures ok ==> |contents| == |old(contents)| + 1 && contents[..|old(contents)|] == old(contents)
      ensures ok ==> ShowsPacket(contents[|old(contents)|], p)
      ensures CallersKept(old(heap), heap, {})
    {
      LoadableExactly(p, fill);
      if count >= CAPACITY {
        return false;
      }
      ghost var before, was := heap, slots[..];
      ok := LoadTail(p, fill);
      if !ok {
        TailUnused(before, heap, was, slots[tail], head, contents, tail);
      } else {
        AdvanceTail(MessageOf(p).value, before, was);
      }
    }

    /** The loaded slot joins the window. */
    method AdvanceTail(ghost m: Message, ghost before: Heap, ghost was: seq<Job>)
      requires Fresh() && slots.Length == CAPACITY && count < CAPACITY
      requires RingOk(before, was, head, tail, count, contents, accepted, drained)
      requires OthersKept(before, heap, {Slot(tail)}) && slots[..] == was[tail := slots[tail]]
      requires SlotOk(heap, slots[tail], tail, true) && View(heap, slots[tail]) == m
      modifies this`tail, this`count, this`accepted, this`contents
      ensures Valid() && contents == old(contents) + [m] && count == old(count) + 1
    {
      RingGrows(before, heap, was, head, tail, count, contents, accepted, drained, slots[tail]);
      hide RingOk, SlotOk, OthersKept, View;
      accepted, contents := accepted + [m], contents + [m];
      tail, count := (tail + 1) % CAPACITY, count + 1;
    }

    /**
     * Hands the oldest job to a caller's variable, whose previous job is released. With nothing
     * queued the variable is released and blanked all the same.
     */
    method Drain(out: Job, variable: nat) returns (ok: bool, job: Job)
      requires Valid() && Owns(heap, out, Caller(variable))
      modifies this, slots
      ensures Valid() && Owns(heap, job, Caller(variable)) && accepted == old(accepted)
      ensures ok <==> old(contents) != []
      ensures ok ==> contents == old(contents)[1..] && View(heap, job) == old(contents)[0]
      ensures ok ==> job.available && job.response == NO_BUFFER
      ensures ok ==> drained == old(drained) + [old(contents)[0]]
      ensures !ok ==> job == ZERO_JOB && contents == old(contents) && drained == old(drained)
      ensures CallersKept(old(heap), heap, {variable})
    {
      ReleaseJob(out, Caller(variable));
      RingKept(old(heap), heap, slots[..], head, contents, {Caller(variable)});
      if count == 0 {
        return false, ZERO_JOB;
      }
      job := TakeHead(variable);
      return true, job;
    }

    method TakeHead(variable: nat) returns (job: Job)
      requires Valid() && contents != [] && Owns(heap, ZERO_JOB, Caller(variable))
      modifies this, slots
      ensures Valid() && Owns(heap, job, Caller(variable)) && accepted == old(accepted)
      ensures contents == old(contents)[1..] && View(heap, job) == old(contents)[0]
      ensures job.available && job.response == NO_BUFFER
      ensures drained == old(drained) + [old(contents)[0]]
      ensures OthersKept(old(heap), heap, {Slot(old(head)), Caller(variable)})
    {
      job := slots[head];
      assert SlotOk(heap, job, head, InWindow(head, count, head)) && At(head, 0) == head;
      HandOver(job, head, variable);
      slots[head] := ZERO_JOB;
      assert slots[..] == old(slots[..])[head := ZERO_JOB];
      AdvanceHead(old(heap), old(slots[..]), variable);
    }

    /** The slot handed out leaves the window. */
    method AdvanceHead(ghost before: Heap, ghost was: seq<Job>, variable: nat)
      requires Fresh() && slots.Length == CAPACITY && count > 0
      requires RingOk(before, was, head, tail, count, contents, accepted, drained)
      requires OthersKept(before, heap, {Slot(head), Caller(variable)}) && slots[..] == was[head := ZERO_JOB]
      requires SlotOk(heap, ZERO_JOB, head, false)
      modifies this`head, this`count, this`drained, this`contents
      ensures Valid() && contents == old(contents)[1..] && drained == old(drained) + [old(contents)[0]]
    {
      RingShrinks(before, heap, was, head, tail, count, contents, accepted, drained, variable);
      ghost var first, rest := contents[0], contents[1..];
      hide RingOk, SlotOk, OthersKept;
      head, count := (head + 1) % CAPACITY, count - 1;
      drained, contents := drained + [first], rest;
    }

    /** Frees what a handed-out job owns and blanks it. */
    method Dispose(j: Job, variable: nat) returns (r: Job)
      requires Valid() && Owns(heap, j, Caller(variable))
      modifies this`heap
      ensures Valid() && r == ZERO_JOB && Owns(heap, r, Caller(variable)) && CallersKept(old(heap), heap, {variable})
      ensures forall b: BufId :: b in heap ==> b in old(heap) && heap[b].holder != Caller(variable)
    {
      ReleaseJob(j, Caller(variable));
      RingKept(old(heap), heap, slots[..], head, contents, {Caller(variable)});
      return ZERO_JOB;
    }

    /** Releases every slot and starts over; whatever is left allocated belongs to callers. */
    method Reset()
      requires Valid()
      modifies this, slots
      ensures Valid() && contents == [] && accepted == [] && drained == []
      ensures CallersKept(old(heap), heap, {})
      ensures forall b: BufId :: b in heap ==> heap[b].holder.Caller?
    {
      ReleaseSlots();
      forall s | 0 <= s < CAPACITY { slots[s] := ZERO_JOB; }
      head, tail, count := 0, 0, 0;
      contents, accepted, drained := [], [], [];
    }

    method ReleaseSlots()
      requires Valid()
      modifies this`heap
      ensures Fresh() && CallersKept(old(heap), heap, {})
                && forall s: nat :: s < CAPACITY ==> Owns(heap, ZERO_JOB, Slot(s))
    {
      forall s: nat | s < CAPACITY ensures Owns(heap, slots[s], Slot(s)) {
        assert SlotOk(heap, slots[..][s], s, InWindow(head, count, s));
      }
      var i := 0;
      while i < CAPACITY
        invariant i <= CAPACITY && Fresh() && CallersKept(old(heap), heap, {}) && ReleasedUpTo(i)
      {
        ghost var before := heap;
        ReleaseSlot(i);
        CallersKeptTwice(old(heap), before, heap);
        i := i + 1;
      }
    }

    /** The slots before this one own nothing any more, the others what they point to. */
    ghost predicate ReleasedUpTo(i: nat)
      reads this, slots
    {
      slots.Length == CAPACITY
        && forall s: nat :: s < CAPACITY ==> Owns(heap, if s < i then ZERO_JOB else slots[s], Slot(s))
    }

    method ReleaseSlot(i: nat)
      requires Fresh() && i < CAPACITY && ReleasedUpTo(i)
      modifies this`heap
      ensures Fresh() && CallersKept(old(heap), heap, {}) && ReleasedUpTo(i + 1)
    {
      hide Owns;
      ghost var before := heap;
      ReleaseJob(slots[i], Slot(i));
      forall s: nat | s < CAPACITY && s != i ensures Owns(heap, if s < i then ZERO_JOB else slots[s], Slot(s)) {
        OwnsKept(before, heap, if s < i then ZERO_JOB else slots[s], Slot(s), {Slot(i)});
      }
    }
  }

  lemma CallersKeptTwice(a: Heap, b: Heap, c: Heap)
    requires CallersKept(a, b, {}) && CallersKept(b, c, {})
    ensures CallersKept(a, c, {})
  {
  }

  function NextCap(cap: nat, minCap: nat): (r: nat) {
    LeastDoubling(if cap < BLOCK_SIZE then BLOCK_SIZE else cap, minCap)
  }

  predicate Sized(p: Packet) {
    MessageOf(p).Some? ==> |MessageOf(p).value.payload| <= SIZE_MAX
  }

  lemma LoadableExactly(p: Packet, fill: Option<byte>)
    ensures Loadable(p, fill) <==>
            exists payload: seq<byte> ::
              HasContent(p, payload) && (payload == [] || (NextCap(0, |payload|) <= SIZE_MAX && fill.Some?))
    ensures Loadable(p, fill) ==> ShowsPacket(MessageOf(p).value, p)
    ensures MessageOf(p).None? <==> p.meta.wireVersion != 0 && p.user.None?
  {
    if MessageOf(p).Some? {
      assert HasContent(p, MessageOf(p).value.payload);
    }
  }

  /** The packet has content, and its payload can be copied. */
  predicate Loadable(p: Packet, fill: Option<byte>) {
    && MessageOf(p).Some?
    && var payload := MessageOf(p).value.payload;
       payload == [] || (NextCap(0, |payload|) <= SIZE_MAX && fill.Some?)
  }
}
