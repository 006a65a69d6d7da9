/** The event queue (code/logic/event.c): 256 slots filled from the front,
    shifted down on every poll, with payloads copied to heap blocks on post.

    `World` is the queue together with everything its blocks can be in the hands
    of; `Step` says what each operation does to it. The class below is the array
    program, and each of its methods is proved to take exactly that step. */
module EventQueue {
  import opened CStrings
  import opened EventTimeout

  const MAX_EVENTS: nat := 256

  datatype Kind = NoEvent | Io | Timer | Signal | Custom

  /** `id` and `payload` are addresses; 0 is NULL. */
  datatype Event = Event(id: nat, kind: Kind, payload: nat, size: nat)

  const ZERO_EVENT := Event(0, NoEvent, 0, 0)

  /** What a post hands over: the id as the caller's pointer, the payload by value. */
  datatype Message = Message(id: nat, size: nat, bytes: Option<seq<byte>>)

  /** Who has which block, and what has happened so far. */
  datatype Books = Books(
    handed: set<nat>,
    dropped: set<nat>,
    accepted: seq<Message>,
    polled: seq<Message>,
    mallocs: multiset<nat>,
    frees: multiset<nat>)

  datatype World = World(pending: seq<Event>, heap: map<nat, seq<byte>>, books: Books)

  /** `addr` is what malloc answers if the post asks it. The two client steps
      are what the receiver of a polled event may do with its payload. */
  datatype Op =
    | Init
    | Post(id: nat, payload: Option<seq<byte>>, size: nat, addr: nat)
    | Poll(hasOut: bool)
    | Wait(hasOut: bool)
    | Shutdown
    | ClientWrite(block: nat, data: seq<byte>)
    | ClientFree(block: nat)

  function Once(p: nat): multiset<nat> {
    if p == 0 then multiset{} else multiset{p}
  }

  /** How often each block is the payload of one of `events`. */
  function Payloads(events: seq<Event>): multiset<nat> {
    if events == [] then multiset{} else Once(events[0].payload) + Payloads(events[1..])
  }

  function Queued(events: seq<Event>): set<nat> {
    if events == [] then {}
    else (if events[0].payload == 0 then {} else {events[0].payload}) + Queued(events[1..])
  }

  function MessageOf(e: Event, heap: map<nat, seq<byte>>): Message {
    Message(e.id, e.size, if e.payload in heap then Some(heap[e.payload]) else None)
  }

  function Messages(events: seq<Event>, heap: map<nat, seq<byte>>): (ms: seq<Message>)
    ensures |ms| == |events|
    ensures forall k :: 0 <= k < |events| ==> ms[k] == MessageOf(events[k], heap)
  {
    if events == [] then [] else [MessageOf(events[0], heap)] + Messages(events[1..], heap)
  }

  predicate Copies(op: Op) requires op.Post? {
    op.payload.Some? && op.size > 0
  }

  function Posted(op: Op): Message
    requires op.Post? && (op.payload.Some? ==> op.size <= |op.payload.value|)
  {
    Message(op.id, op.size, if Copies(op) then Some(op.payload.value[..op.size]) else None)
  }

  /** What the surroundings guarantee: buffers are as long as announced, malloc
      answers NULL or a block that is not live, and clients touch only blocks
      that were handed to them. */
  predicate Legal(w: World, op: Op) {
    match op
    case Post(_, payload, size, addr) =>
      && (payload.Some? ==> size <= |payload.value|)
      && addr !in w.heap
    case ClientWrite(block, data) => block in w.books.handed && block in w.heap && |data| == |w.heap[block]|
    case ClientFree(block) => block in w.books.handed
    case _ => true
  }

  function BooksAfterPoll(b: Books, e: Event, heap: map<nat, seq<byte>>): Books {
    b.(handed := b.handed + (if e.payload == 0 then {} else {e.payload}),
       polled := b.polled + [MessageOf(e, heap)])
  }

  function StepPoll(w: World): (World, int) {
    if w.pending == [] then (w, 0)
    else
      var e := w.pending[0];
      (World(w.pending[1..], w.heap, BooksAfterPoll(w.books, e, w.heap)), 1)
  }

  function StepPost(w: World, op: Op): (World, int)
    requires op.Post? && Legal(w, op)
  {
    if |w.pending| >= MAX_EVENTS || (Copies(op) && op.addr == 0) then (w, -1)
    else if Copies(op) then
      (World(w.pending + [Event(op.id, Custom, op.addr, op.size)],
             w.heap[op.addr := op.payload.value[..op.size]],
             w.books.(accepted := w.books.accepted + [Posted(op)],
                      mallocs := w.books.mallocs + multiset{op.addr})),
       0)
    else
      (World(w.pending + [Event(op.id, Custom, 0, op.size)],
             w.heap,
             w.books.(accepted := w.books.accepted + [Posted(op)])),
       0)
  }

  function BooksAfterInit(b: Books, lost: seq<Event>): Books {
    b.(dropped := b.dropped + Queued(lost), accepted := [], polled := [])
  }

  function Step(w: World, op: Op): (World, int)
    requires Legal(w, op)
  {
    match op
    case Init => (World([], w.heap, BooksAfterInit(w.books, w.pending)), 0)
    case Post(_, _, _, _) => StepPost(w, op)
    case Poll(hasOut) => if hasOut then StepPoll(w) else (w, -1)
    case Wait(hasOut) => if hasOut then StepPoll(w) else (w, -1)
    case Shutdown =>
      (World([], w.heap - Queued(w.pending),
             w.books.(frees := w.books.frees + Payloads(w.pending), accepted := [], polled := [])),
       0)
    case ClientWrite(block, data) => (w.(heap := w.heap[block := data]), 0)
    case ClientFree(block) =>
      (w.(heap := w.heap - {block},
          books := w.books.(handed := w.books.handed - {block}, frees := w.books.frees + multiset{block})),
       0)
  }

  // ---------------------------------------------------------------------
  // Ownership
  // ---------------------------------------------------------------------

  ghost predicate Differ(events: seq<Event>, j: int, k: int)
    requires 0 <= j < k < |events|
  {
    events[j].payload != 0 ==> events[j].payload != events[k].payload
  }

  ghost predicate Distinct(events: seq<Event>) {
    forall j, k :: 0 <= j < k < |events| ==> Differ(events, j, k)
  }

  /** Queued payloads are live, of the announced size, and pairwise distinct.
      This speaks of the first `event_count` slots only. */
  ghost predicate PrefixOwned(w: World) {
    && (forall k :: 0 <= k < |w.pending| ==>
          var e := w.pending[k];
          e.kind == Custom && (e.payload != 0 ==> e.payload in w.heap && |w.heap[e.payload]| == e.size))
    && Distinct(w.pending)
  }

  lemma {:induction false} QueuedMembers(events: seq<Event>, p: nat)
    ensures p in Queued(events) <==> p != 0 && exists k :: 0 <= k < |events| && events[k].payload == p
  {
    if events != [] {
      QueuedMembers(events[1..], p);
      if p != 0 && exists k :: 0 <= k < |events| && events[k].payload == p {
        var k :| 0 <= k < |events| && events[k].payload == p;
        assert k > 0 ==> events[1..][k - 1] == events[k];
      }
    }
  }

  lemma DistinctTail(events: seq<Event>)
    requires Distinct(events) && events != []
    ensures Distinct(events[1..])
    ensures events[0].payload != 0 ==> events[0].payload !in Queued(events[1..])
  {
    forall j, k | 0 <= j < k < |events[1..]|
      ensures Differ(events[1..], j, k)
    {
      assert Differ(events, j + 1, k + 1);
    }
    forall k | 0 <= k < |events[1..]|
      ensures events[0].payload != 0 ==> events[1..][k].payload != events[0].payload
    {
      assert Differ(events, 0, k + 1);
    }
    QueuedMembers(events[1..], events[0].payload);
  }

  lemma DistinctSnoc(events: seq<Event>, e: Event)
    requires Distinct(events)
    requires forall k :: 0 <= k < |events| && events[k].payload != 0 ==> events[k].payload != e.payload
    ensures Distinct(events + [e])
  {
    forall j, k | 0 <= j < k < |events| + 1
      ensures Differ(events + [e], j, k)
    {
      assert k < |events| ==> Differ(events, j, k);
    }
  }

  /** Every live block is queued, handed out, or dropped by a re-init, and only
      one of these. */
  ghost predicate Partitioned(w: World) {
    && 0 !in w.heap
    && w.heap.Keys == Queued(w.pending) + w.books.handed + w.books.dropped
    && Queued(w.pending) !! w.books.handed !! w.books.dropped
  }

  /** Allocations are the frees plus one for each live block: nothing is freed
      twice, nothing is freed that was not allocated. */
  ghost predicate Balanced(w: World) {
    w.books.mallocs == w.books.frees + multiset(w.heap.Keys)
  }

  /** Accepted posts are what was polled followed by what is pending. */
  ghost predicate Fifo(w: World) {
    w.books.accepted == w.books.polled + Messages(w.pending, w.heap)
  }

  ghost predicate Inv(w: World) {
    |w.pending| <= MAX_EVENTS && PrefixOwned(w) && Partitioned(w) && Balanced(w) && Fifo(w)
  }

  lemma {:induction false} PayloadsSnoc(events: seq<Event>, e: Event)
    ensures Payloads(events + [e]) == Payloads(events) + Once(e.payload)
  {
    if events == [] {
      assert [e][1..] == [];
    } else {
      assert (events + [e])[1..] == events[1..] + [e];
      PayloadsSnoc(events[1..], e);
    }
  }

  lemma MultisetInsert(s: set<nat>, x: nat)
    requires x !in s
    ensures multiset(s + {x}) == multiset(s) + multiset{x}
    ensures multiset({x} + s) == multiset{x} + multiset(s)
  {
  }

  /** Distinct payloads occur once each in the list of payloads. */
  lemma {:induction false} PayloadsOnce(events: seq<Event>)
    requires Distinct(events)
    ensures Payloads(events) == multiset(Queued(events))
  {
    if events == [] {
      assert Queued(events) == {};
    } else {
      DistinctTail(events);
      PayloadsOnce(events[1..]);
      if events[0].payload == 0 {
        assert Queued(events) == Queued(events[1..]);
      } else {
        MultisetInsert(Queued(events[1..]), events[0].payload);
      }
    }
  }

  lemma MultisetRemove(s: set<nat>, t: set<nat>)
    requires t <= s
    ensures multiset(s) == multiset(s - t) + multiset(t)
  {
  }

  lemma MessagesSameHeap(events: seq<Event>, h1: map<nat, seq<byte>>, h2: map<nat, seq<byte>>)
    requires forall k :: 0 <= k < |events| ==> MessageOf(events[k], h1) == MessageOf(events[k], h2)
    ensures Messages(events, h1) == Messages(events, h2)
  {
  }

  // ---------------------------------------------------------------------
  // Every step keeps ownership
  // ---------------------------------------------------------------------

  lemma PollKeepsPartition(w: World)
    requires PrefixOwned(w) && Partitioned(w) && w.pending != []
    ensures Partitioned(StepPoll(w).0)
  {
    DistinctTail(w.pending);
  }

  lemma PollKeepsPrefix(w: World)
    requires PrefixOwned(w) && w.pending != []
    ensures PrefixOwned(StepPoll(w).0)
  {
    var w' := StepPoll(w).0;
    assert forall k :: 0 <= k < |w'.pending| ==> w'.pending[k] == w.pending[k + 1];
    DistinctTail(w.pending);
  }

  lemma PollKeepsFifo(w: World)
    requires Fifo(w) && w.pending != []
    ensures Fifo(StepPoll(w).0)
  {
  }

  lemma PollKeepsInv(w: World)
    requires Inv(w)
    ensures Inv(StepPoll(w).0)
  {
    if w.pending != [] {
      PollKeepsPrefix(w);
      PollKeepsPartition(w);
      PollKeepsFifo(w);
    }
  }

  lemma {:induction false} QueuedSnoc(events: seq<Event>, e: Event)
    ensures Queued(events + [e]) == Queued(events) + (if e.payload == 0 then {} else {e.payload})
  {
    if events == [] {
      assert [e][1..] == [];
    } else {
      assert (events + [e])[1..] == events[1..] + [e];
      QueuedSnoc(events[1..], e);
    }
  }

  lemma MessagesSnoc(events: seq<Event>, e: Event, heap: map<nat, seq<byte>>)
    ensures Messages(events + [e], heap) == Messages(events, heap) + [MessageOf(e, heap)]
  {
  }

  lemma PostKeepsPrefix(w: World, op: Op)
    requires PrefixOwned(w) && op.Post? && Legal(w, op) && StepPost(w, op).1 == 0
    ensures PrefixOwned(StepPost(w, op).0)
    ensures Messages(w.pending, StepPost(w, op).0.heap) == Messages(w.pending, w.heap)
  {
    var w' := StepPost(w, op).0;
    MessagesSameHeap(w.pending, w.heap, w'.heap);
    DistinctSnoc(w.pending, w'.pending[|w.pending|]);
  }

  lemma PostKeepsPartition(w: World, op: Op)
    requires Partitioned(w) && op.Post? && Legal(w, op) && StepPost(w, op).1 == 0
    ensures Partitioned(StepPost(w, op).0)
  {
    var w' := StepPost(w, op).0;
    QueuedSnoc(w.pending, w'.pending[|w.pending|]);
    if Copies(op) {
      assert w'.heap.Keys == w.heap.Keys + {op.addr};
    }
  }

  lemma PostKeepsBalance(w: World, op: Op)
    requires Balanced(w) && op.Post? && Legal(w, op) && StepPost(w, op).1 == 0
    ensures Balanced(StepPost(w, op).0)
  {
  }

  lemma PostKeepsFifo(w: World, op: Op)
    requires PrefixOwned(w) && Fifo(w) && 0 !in w.heap && op.Post? && Legal(w, op) && StepPost(w, op).1 == 0
    ensures Fifo(StepPost(w, op).0)
    ensures var w' := StepPost(w, op).0;
            Messages(w'.pending, w'.heap) == Messages(w.pending, w.heap) + [Posted(op)]
  {
    var w' := StepPost(w, op).0;
    PostKeepsPrefix(w, op);
    MessagesSnoc(w.pending, w'.pending[|w.pending|], w'.heap);
  }

  lemma PostKeepsInv(w: World, op: Op)
    requires Inv(w) && op.Post? && Legal(w, op)
    ensures Inv(StepPost(w, op).0)
  {
    if StepPost(w, op).1 == 0 {
      PostKeepsPrefix(w, op);
      PostKeepsPartition(w, op);
      PostKeepsBalance(w, op);
      PostKeepsFifo(w, op);
    }
  }

  lemma ShutdownParts(w: World, w': World)
    requires Partitioned(w) && w'.pending == []
    requires w'.books.handed == w.books.handed && w'.books.dropped == w.books.dropped
    requires w'.heap.Keys == w.heap.Keys - Queued(w.pending)
    ensures Partitioned(w') && w'.heap.Keys == w.books.handed + w.books.dropped
  {
  }

  lemma ShutdownKeepsBalance(w: World)
    requires Balanced(w) && Distinct(w.pending) && Queued(w.pending) <= w.heap.Keys
    ensures Balanced(Step(w, Shutdown).0)
    ensures Step(w, Shutdown).0.heap.Keys == w.heap.Keys - Queued(w.pending)
  {
    PayloadsOnce(w.pending);
    MultisetRemove(w.heap.Keys, Queued(w.pending));
    assert Step(w, Shutdown).0.heap.Keys == w.heap.Keys - Queued(w.pending);
  }

  lemma ShutdownKeepsInv(w: World)
    requires Inv(w)
    ensures Inv(Step(w, Shutdown).0)
    ensures Step(w, Shutdown).0.heap.Keys == w.books.handed + w.books.dropped
  {
    ShutdownKeepsBalance(w);
    ShutdownParts(w, Step(w, Shutdown).0);
  }

  /** The block a client uses is nobody's queued payload. */
  lemma HandedIsNotQueued(w: World, block: nat)
    requires Partitioned(w) && block in w.books.handed
    ensures forall k :: 0 <= k < |w.pending| ==> w.pending[k].payload != block
  {
    assert block in w.heap && block != 0;
    QueuedMembers(w.pending, block);
  }

  lemma ClientWriteKeepsInv(w: World, op: Op)
    requires Inv(w) && Legal(w, op) && op.ClientWrite?
    ensures Inv(Step(w, op).0)
    ensures Messages(Step(w, op).0.pending, Step(w, op).0.heap) == Messages(w.pending, w.heap)
  {
    HandedIsNotQueued(w, op.block);
    MessagesSameHeap(w.pending, w.heap, Step(w, op).0.heap);
    assert Step(w, op).0.heap.Keys == w.heap.Keys;
  }

  lemma ClientFreeKeepsBalance(w: World, op: Op)
    requires Balanced(w) && Legal(w, op) && op.ClientFree? && op.block in w.heap
    ensures Balanced(Step(w, op).0)
  {
  }

  lemma ClientFreeKeepsPartition(w: World, op: Op)
    requires Partitioned(w) && op.ClientFree? && op.block in w.books.handed
    ensures Partitioned(Step(w, op).0)
  {
  }

  lemma ClientFreeKeepsInv(w: World, op: Op)
    requires Inv(w) && Legal(w, op) && op.ClientFree?
    ensures Inv(Step(w, op).0)
    ensures Messages(Step(w, op).0.pending, Step(w, op).0.heap) == Messages(w.pending, w.heap)
  {
    HandedIsNotQueued(w, op.block);
    MessagesSameHeap(w.pending, w.heap, Step(w, op).0.heap);
    ClientFreeKeepsPartition(w, op);
    ClientFreeKeepsBalance(w, op);
  }

  lemma {:induction false} StepKeepsInv(w: World, op: Op)
    requires Inv(w) && Legal(w, op)
    ensures Inv(Step(w, op).0)
  {
    match op
    case Init =>
    case Post(_, _, _, _) => PostKeepsInv(w, op);
    case Poll(_) => PollKeepsInv(w);
    case Wait(_) => PollKeepsInv(w);
    case Shutdown => ShutdownKeepsInv(w);
    case ClientWrite(_, _) => ClientWriteKeepsInv(w, op);
    case ClientFree(_) => ClientFreeKeepsInv(w, op);
  }

  // ---------------------------------------------------------------------
  // Whole runs
  // ---------------------------------------------------------------------

  /** The static state before the first call. */
  const BOOT := World([], map[], Books({}, {}, [], [], multiset{}, multiset{}))

  ghost predicate LegalRun(w: World, ops: seq<Op>)
    decreases |ops|
  {
    ops == [] || (Legal(w, ops[0]) && LegalRun(Step(w, ops[0]).0, ops[1..]))
  }

  ghost function Run(w: World, ops: seq<Op>): World
    requires LegalRun(w, ops)
    decreases |ops|
  {
    if ops == [] then w else Run(Step(w, ops[0]).0, ops[1..])
  }

  /** Over every run: the prefix owns its payloads, live blocks are partitioned,
      allocations balance frees, and the queue is first in, first out. */
  lemma {:induction false} RunKeepsInv(w: World, ops: seq<Op>)
    requires Inv(w) && LegalRun(w, ops)
    ensures Inv(Run(w, ops))
    decreases |ops|
  {
    if ops != [] {
      StepKeepsInv(w, ops[0]);
      RunKeepsInv(Step(w, ops[0]).0, ops[1..]);
    }
  }

  lemma BootIsSafe()
    ensures Inv(BOOT)
  {
  }

  /** No re-init of the run finds an event with a payload pending. */
  ghost predicate InitsDropNothing(w: World, ops: seq<Op>)
    requires LegalRun(w, ops)
    decreases |ops|
  {
    ops != [] ==>
      && (ops[0].Init? ==> Queued(w.pending) == {})
      && InitsDropNothing(Step(w, ops[0]).0, ops[1..])
  }

  /** Every block that was ever dropped stays dropped. */
  lemma {:induction false} DroppedStays(w: World, ops: seq<Op>)
    requires LegalRun(w, ops)
    ensures w.books.dropped <= Run(w, ops).books.dropped
    decreases |ops|
  {
    if ops != [] {
      DroppedStays(Step(w, ops[0]).0, ops[1..]);
    }
  }

  lemma {:induction false} NothingDroppedExactly(w: World, ops: seq<Op>)
    requires LegalRun(w, ops) && w.books.dropped == {}
    ensures Run(w, ops).books.dropped == {} <==> InitsDropNothing(w, ops)
    decreases |ops|
  {
    if ops != [] {
      var w' := Step(w, ops[0]).0;
      if w'.books.dropped == {} {
        NothingDroppedExactly(w', ops[1..]);
      } else {
        DroppedStays(w', ops[1..]);
      }
    }
  }

  lemma HandedAloneExactly(w: World)
    requires Inv(w)
    ensures Step(w, Shutdown).0.heap.Keys == w.books.handed <==> w.books.dropped == {}
  {
    ShutdownKeepsInv(w);
    assert w.books.handed !! w.books.dropped;
  }

  /** No leak: after a run and a shutdown the only live blocks are those in a
      receiver's hands, exactly if nothing had been dropped at the start and no
      re-init of the run finds an event with a payload pending. */
  lemma {:induction false} ShutdownLeavesOnlyHandedBlocks(start: World, ops: seq<Op>)
    requires Inv(start) && LegalRun(start, ops)
    ensures Step(Run(start, ops), Shutdown).0.heap.Keys == Run(start, ops).books.handed <==>
            start.books.dropped == {} && InitsDropNothing(start, ops)
  {
    RunKeepsInv(start, ops);
    HandedAloneExactly(Run(start, ops));
    DroppedStays(start, ops);
    if start.books.dropped == {} {
      NothingDroppedExactly(start, ops);
    }
  }

  /** The same for a whole process, from the static state on. */
  lemma {:induction false} NoLeakFromBoot(ops: seq<Op>)
    requires LegalRun(BOOT, ops)
    ensures Inv(Run(BOOT, ops))
    ensures Step(Run(BOOT, ops), Shutdown).0.heap.Keys == Run(BOOT, ops).books.handed <==>
            InitsDropNothing(BOOT, ops)
  {
    BootIsSafe();
    RunKeepsInv(BOOT, ops);
    ShutdownLeavesOnlyHandedBlocks(BOOT, ops);
  }

  lemma RunOfOne(w: World, op: Op)
    requires Legal(w, op)
    ensures LegalRun(w, [op]) && Run(w, [op]) == Step(w, op).0
  {
    var ops, w' := [op], Step(w, op).0;
    assert ops[1..] == [];
    assert LegalRun(w', []) && Run(w', []) == w';
    assert LegalRun(w', ops[1..]) && Run(w', ops[1..]) == w';
  }

  /** The shortest leak: a post with a payload, and a re-init. */
  lemma ReinitLeaks()
    ensures var ops := [Op.Post(1, Some([7]), 1, 8), Op.Init];
            && LegalRun(BOOT, ops)
            && !InitsDropNothing(BOOT, ops)
            && Run(BOOT, ops).books.handed == {}
            && Step(Run(BOOT, ops), Shutdown).0.heap.Keys == {8}
  {
    var post := Op.Post(1, Some([7]), 1, 8);
    var ops := [post, Op.Init];
    var w := Step(BOOT, post).0;
    RunOfOne(w, Op.Init);
    assert ops[1..] == [Op.Init];
    assert LegalRun(w, ops[1..]) && Run(w, ops[1..]) == Step(w, Op.Init).0;
    assert w.pending == [Event(1, Custom, 8, 1)] && Queued(w.pending[1..]) == {};
  }

  // ---------------------------------------------------------------------
  // Refinement of a bounded first-in first-out queue
  // ---------------------------------------------------------------------

  ghost function Contents(w: World): seq<Message> {
    Messages(w.pending, w.heap)
  }

  ghost predicate TakesOldest(w: World, w': World, r: int, hasOut: bool) {
    if !hasOut then w' == w && r == -1
    else if Contents(w) == [] then w' == w && r == 0
    else
      && r == 1
      && Contents(w') == Contents(w)[1..]
      && w'.books.polled == w.books.polled + [Contents(w)[0]]
  }

  /** The queue as its users see it: a post appends unless 256 messages wait or
      the copy cannot be allocated, a poll takes the oldest, the client's own
      use of its blocks is invisible. */
  lemma StepRefinesFifo(w: World, op: Op)
    requires Inv(w) && Legal(w, op)
    ensures var (w', r) := Step(w, op);
            match op
            case Init => Contents(w') == [] && r == 0
            case Shutdown => Contents(w') == [] && r == 0
            case Post(_, _, _, _) =>
              if |Contents(w)| == MAX_EVENTS || (Copies(op) && op.addr == 0)
              then Contents(w') == Contents(w) && r == -1
              else Contents(w') == Contents(w) + [Posted(op)] && r == 0
            case Poll(hasOut) => TakesOldest(w, w', r, hasOut)
            case Wait(hasOut) => TakesOldest(w, w', r, hasOut)
            case ClientWrite(_, _) => Contents(w') == Contents(w)
            case ClientFree(_) => Contents(w') == Contents(w)
  {
    match op
    case Post(_, _, _, _) =>
      if StepPost(w, op).1 == 0 {
        PostKeepsFifo(w, op);
      }
    case ClientWrite(_, _) => ClientWriteKeepsInv(w, op);
    case ClientFree(_) => ClientFreeKeepsInv(w, op);
    case _ =>
  }

  /** What a poller finds behind the pointer is what the poster's buffer held
      when the post was accepted. */
  lemma PolledPayloadIsPostedBytes(w: World)
    requires Inv(w) && w.pending != []
    ensures |w.books.polled| < |w.books.accepted|
    ensures var e := w.pending[0];
            var posted := w.books.accepted[|w.books.polled|];
            && e.id == posted.id && e.size == posted.size
            && (e.payload == 0 <==> posted.bytes == None)
            && (e.payload != 0 ==> StepPoll(w).0.heap[e.payload] == posted.bytes.value)
  {
  }

  /** A post is refused exactly if 256 events wait, or its payload has to be copied
      and malloc answers NULL; and then nothing changes. */
  lemma PostRefusedExactly(w: World, op: Op)
    requires op.Post? && Legal(w, op) && |w.pending| <= 256
    ensures var (w', r) := Step(w, op);
            && (r == -1 <==> |w.pending| == 256 || (op.payload.Some? && op.size > 0 && op.addr == 0))
            && (r == -1 || r == 0)
            && (r == -1 ==> w' == w)
  {
  }

  /** An accepted post adds one event, of the caller's id and size: with a block of
      its own that holds the caller's bytes if there are any, without one else. */
  lemma PostAppendsExactly(w: World, op: Op)
    requires op.Post? && Legal(w, op) && Step(w, op).1 == 0
    ensures var w' := Step(w, op).0;
            && |w'.pending| == |w.pending| + 1
            && w'.pending[..|w.pending|] == w.pending
            && var e := w'.pending[|w.pending|];
               && e.id == op.id && e.size == op.size && e.kind == Custom
               && (if op.payload.Some? && op.size > 0
                   then e.payload == op.addr != 0 && w'.heap == w.heap[op.addr := op.payload.value[..op.size]]
                   else e.payload == 0 && w'.heap == w.heap)
  {
  }

  /** The state after `n` polls. */
  ghost function AfterPolls(w: World, n: nat): World {
    if n == 0 then w else StepPoll(AfterPolls(w, n - 1)).0
  }

  lemma {:induction false} PollsTakeFromTheFront(w: World, n: nat)
    requires n <= |w.pending|
    ensures AfterPolls(w, n).pending == w.pending[n..] && AfterPolls(w, n).heap == w.heap
  {
    if n > 0 {
      PollsTakeFromTheFront(w, n - 1);
      assert w.pending[n - 1..][1..] == w.pending[n..];
    }
  }

  /** First in, first out, seen from outside: after as many polls as events waited
      when a post was accepted, the next poll delivers that post. */
  lemma PostedIsPolledInTurn(w: World, op: Op)
    requires op.Post? && Legal(w, op) && Step(w, op).1 == 0
    ensures var now := AfterPolls(Step(w, op).0, |w.pending|);
            && now.pending != [] && StepPoll(now).1 == 1
            && var e := now.pending[0];
               && e.id == op.id && e.size == op.size
               && (if op.payload.Some? && op.size > 0
                   then e.payload in now.heap && now.heap[e.payload] == op.payload.value[..op.size]
                   else e.payload == 0)
  {
    PostAppendsExactly(w, op);
    PollsTakeFromTheFront(Step(w, op).0, |w.pending|);
  }

  function BooksWithFree(b: Books, p: nat): Books {
    b.(frees := b.frees + Once(p))
  }

  function HeapWithout(heap: map<nat, seq<byte>>, p: nat): map<nat, seq<byte>> {
    if p == 0 then heap else heap - {p}
  }

  // ---------------------------------------------------------------------
  // The array program
  // ---------------------------------------------------------------------

  /** `w` is where the legal run `ops` from the static state leads. */
  ghost predicate IsRun(ops: seq<Op>, w: World) {
    LegalRun(BOOT, ops) && Run(BOOT, ops) == w
  }

  lemma {:induction false} RunSnoc(w: World, ops: seq<Op>, op: Op)
    requires LegalRun(w, ops) && Legal(Run(w, ops), op)
    ensures LegalRun(w, ops + [op]) && Run(w, ops + [op]) == Step(Run(w, ops), op).0
    decreases |ops|
  {
    var all := ops + [op];
    if ops == [] {
      assert all[1..] == [];
    } else {
      assert all[1..] == ops[1..] + [op];
      RunSnoc(Step(w, ops[0]).0, ops[1..], op);
    }
  }

  lemma {:induction false} RunIsSafe(ops: seq<Op>, w: World)
    requires IsRun(ops, w)
    ensures Inv(w)
  {
    BootIsSafe();
    RunKeepsInv(BOOT, ops);
  }

  lemma {:induction false} OneMoreStep(ops: seq<Op>, w: World, op: Op)
    requires IsRun(ops, w) && Legal(w, op)
    ensures IsRun(ops + [op], Step(w, op).0) && Inv(Step(w, op).0)
  {
    RunSnoc(BOOT, ops, op);
    RunIsSafe(ops + [op], Step(w, op).0);
  }

  /** The receiver's `*out_event`. */
  class EventCell {
    var event: Event

    constructor ()
      ensures event == ZERO_EVENT
    {
      event := ZERO_EVENT;
    }
  }

  /** The heap once the payloads of the first `i` events have been freed in order. */
  function HeapAfter(heap: map<nat, seq<byte>>, events: seq<Event>, i: nat): map<nat, seq<byte>>
    requires i <= |events|
  {
    if i == 0 then heap else HeapWithout(HeapAfter(heap, events, i - 1), events[i - 1].payload)
  }

  function BooksAfter(b: Books, events: seq<Event>, i: nat): Books
    requires i <= |events|
  {
    if i == 0 then b else BooksWithFree(BooksAfter(b, events, i - 1), events[i - 1].payload)
  }

  ghost predicate Freeable(heap: map<nat, seq<byte>>, events: seq<Event>, i: nat)
    requires i < |events|
  {
    events[i].payload == 0 || events[i].payload in HeapAfter(heap, events, i)
  }

  lemma {:induction false} HeapAfterIsDifference(heap: map<nat, seq<byte>>, events: seq<Event>, i: nat)
    requires i <= |events|
    ensures HeapAfter(heap, events, i) == heap - Queued(events[..i])
  {
    if i == 0 {
      assert events[..i] == [];
    } else {
      HeapAfterIsDifference(heap, events, i - 1);
      assert events[..i] == events[..i - 1] + [events[i - 1]];
      QueuedSnoc(events[..i - 1], events[i - 1]);
    }
  }

  function BooksWithFrees(b: Books, m: multiset<nat>): Books {
    b.(frees := b.frees + m)
  }

  lemma OneMoreFree(b: Books, events: seq<Event>, i: nat, m: multiset<nat>)
    requires 0 < i <= |events| && BooksAfter(b, events, i - 1) == BooksWithFrees(b, m)
    ensures BooksAfter(b, events, i) == BooksWithFrees(b, m + Once(events[i - 1].payload))
  {
  }

  lemma NoFrees(b: Books)
    ensures BooksWithFrees(b, multiset{}) == b
  {
  }

  lemma PayloadsStep(events: seq<Event>, i: nat)
    requires 0 < i <= |events|
    ensures Payloads(events[..i]) == Payloads(events[..i - 1]) + Once(events[i - 1].payload)
  {
    assert events[..i] == events[..i - 1] + [events[i - 1]];
    PayloadsSnoc(events[..i - 1], events[i - 1]);
  }

  lemma {:induction false} BooksAfterIsSum(b: Books, events: seq<Event>, i: nat)
    requires i <= |events|
    ensures BooksAfter(b, events, i) == BooksWithFrees(b, Payloads(events[..i]))
  {
    if i == 0 {
      assert events[..i] == [];
      NoFrees(b);
    } else {
      BooksAfterIsSum(b, events, i - 1);
      OneMoreFree(b, events, i, Payloads(events[..i - 1]));
      PayloadsStep(events, i);
    }
  }

  lemma AllFreed(w: World)
    ensures HeapAfter(w.heap, w.pending, |w.pending|) == w.heap - Queued(w.pending)
    ensures BooksAfter(w.books, w.pending, |w.pending|) == BooksWithFrees(w.books, Payloads(w.pending))
  {
    assert w.pending[..|w.pending|] == w.pending;
    HeapAfterIsDifference(w.heap, w.pending, |w.pending|);
    BooksAfterIsSum(w.books, w.pending, |w.pending|);
  }

  /** The next payload to be freed has not been freed by the loop already. */
  lemma NextIsStillLive(w: World, i: nat)
    requires PrefixOwned(w) && i < |w.pending|
    ensures Freeable(w.heap, w.pending, i)
  {
    var front, p := w.pending[..i], w.pending[i].payload;
    forall j | 0 <= j < i
      ensures p != 0 ==> front[j].payload != p
    {
      assert Differ(w.pending, j, i);
    }
    QueuedMembers(front, p);
    HeapAfterIsDifference(w.heap, w.pending, i);
  }

  /** The post a call with these arguments is. */
  ghost function PostOf(id: nat, payload: array?<byte>, size: nat, addr: nat): Op
    reads payload
  {
    Op.Post(id, if payload == null then None else Some(payload[..]), size, addr)
  }

  /** The static state of event.c. `history` lists the calls made so far, those of
      receivers on their blocks included. */
  class EventSystem {
    const slots: array<Event>
    var count: nat
    var heap: map<nat, seq<byte>>
    ghost var books: Books
    ghost var history: seq<Op>

    ghost predicate Shaped()
      reads `count
    {
      slots.Length == MAX_EVENTS && count <= MAX_EVENTS
    }

    /** Only the slots below `count` are part of the queue. */
    ghost function View(): World
      requires Shaped()
      reads `count, `heap, `books, slots
    {
      World(slots[..count], heap, books)
    }

    /** The state is where the run of all calls so far leads. */
    ghost predicate Valid()
      reads this, slots
    {
      Shaped() && IsRun(history, View())
    }

    /** Hence all that is proved of runs holds of the program between any two calls. */
    lemma Safe()
      requires Valid()
      ensures Inv(View()) && PrefixOwned(View())
    {
      RunIsSafe(history, View());
    }

    /** After a shutdown from here only blocks in a receiver's hands are live, exactly
        if no re-init among the calls so far found a payload pending. */
    lemma CleanExactly()
      requires Valid()
      ensures Step(View(), Op.Shutdown).0.heap.Keys == books.handed <==> InitsDropNothing(BOOT, history)
    {
      NoLeakFromBoot(history);
    }

    constructor ()
      ensures Valid() && View() == BOOT && history == [] && fresh(slots)
    {
      slots := new Event[MAX_EVENTS](_ => ZERO_EVENT);
      count, heap, books, history := 0, map[], BOOT.books, [];
      new;
      assert View() == BOOT;
    }

    /** A call has taken its step from `w`. */
    ghost method Record(w: World, op: Op)
      requires Shaped() && IsRun(history, w) && Legal(w, op) && View() == Step(w, op).0
      modifies `history
      ensures history == old(history) + [op]
      ensures Valid() && Inv(View())
    {
      OneMoreStep(history, w, op);
      history := history + [op];
    }

    /** free: NULL is ignored, anything else has to be a live block. */
    method Free(p: nat)
      requires p == 0 || p in heap
      modifies `heap, `books
      ensures heap == HeapWithout(old(heap), p)
      ensures books == BooksWithFree(old(books), p)
    {
      if p != 0 {
        heap := heap - {p};
      }
      books := BooksWithFree(books, p);
    }

    method Init() returns (r: int)
      requires Valid()
      modifies this, slots
      ensures Valid() && Inv(View()) && history == old(history) + [Op.Init]
      ensures (View(), r) == Step(old(View()), Op.Init)
      ensures count == 0 && slots.Length == 256
      ensures forall k :: 0 <= k < slots.Length ==> slots[k] == Event(0, NoEvent, 0, 0)
    {
      ghost var w := View();
      books := BooksAfterInit(books, slots[..count]);
      count := 0;
      forall k | 0 <= k < slots.Length {
        slots[k] := ZERO_EVENT;
      }
      r := 0;
      Record(w, Op.Init);
    }

    /** All events but the first move down by one slot. */
    method ShiftDown()
      requires 0 < count <= slots.Length
      modifies slots
      ensures forall k :: 0 <= k < count - 1 ==> slots[k] == old(slots[k + 1])
      ensures forall k :: count - 1 <= k < slots.Length ==> slots[k] == old(slots[k])
    {
      forall k | 0 <= k < count - 1 {
        slots[k] := slots[k + 1];
      }
    }

    /** The shift leaves the old last event in place behind the new count: its
        payload address is then held twice. */
    method TakeFirst() returns (e: Event)
      requires Shaped() && count > 0
      modifies `count, `books, slots
      ensures Shaped() && View() == StepPoll(old(View())).0
      ensures e == old(slots[0]) && count == old(count) - 1
      ensures forall k :: count <= k < MAX_EVENTS ==> slots[k] == old(slots[k])
    {
      ghost var was := slots[..count];
      e := slots[0];
      books := BooksAfterPoll(books, e, heap);
      ShiftDown();
      count := count - 1;
      assert slots[..count] == was[1..];
    }

    /** What poll does, and wait after its loop. */
    method PollOrNone(out: EventCell?) returns (r: int)
      requires Shaped()
      modifies `count, `books, slots, out
      ensures Shaped() && (View(), r) == if out == null then (old(View()), -1) else StepPoll(old(View()))
      ensures out != null ==> out.event == if r == 1 then old(slots[0]) else old(out.event)
    {
      if out == null {
        return -1;
      }
      if count == 0 {
        return 0;
      }
      var e := TakeFirst();
      out.event := e;
      return 1;
    }

    method Poll(out: EventCell?) returns (r: int)
      requires Valid()
      modifies this, slots, out
      ensures Valid() && Inv(View()) && history == old(history) + [Op.Poll(out != null)]
      ensures (View(), r) == Step(old(View()), Op.Poll(out != null))
      ensures out != null ==> out.event == if r == 1 then old(slots[0]) else old(out.event)
    {
      ghost var w := View();
      r := PollOrNone(out);
      Record(w, Op.Poll(out != null));
    }

    /** With nobody else to post, an empty queue can only time out: at the first
        reading of the clock, number `last`, at which the time has expired. The
        result is None if the loop still spins after `patience` readings. */
    method Wait(out: EventCell?, timeoutMs: nat, ticks: Clock, patience: nat)
      returns (r: Option<int>, ghost last: nat)
      requires Valid() && timeoutMs < UINT32_LIMIT
      modifies this, slots, out
      ensures r.Some? ==>
                && Valid() && Inv(View()) && history == old(history) + [Op.Wait(out != null)]
                && (View(), r.value) == Step(old(View()), Op.Wait(out != null))
      ensures r.None? ==>
                && Valid() && View() == old(View()) && history == old(history)
                && out != null && old(count) == 0 && NotExpiredBefore(ticks, timeoutMs, patience)
      ensures out != null ==> out.event == if r == Some(1) then old(slots[0]) else old(out.event)
      ensures r.Some? && out != null && old(count) == 0 ==>
                last < patience && FirstExpired(ticks, timeoutMs, last)
    {
      ghost var w := View();
      last := 0;
      if out != null && count == 0 {
        var ended;
        ended, last := Spin(timeoutMs, ticks, patience);
        if !ended {
          return None, last;
        }
      }
      var code := PollOrNone(out);
      r := Some(code);
      Record(w, Op.Wait(out != null));
    }

    /** `addr` is malloc's answer. On both failing paths the queue is what it
        was, although the slot behind the last event may be overwritten. */
    method Append(id: nat, payload: array?<byte>, size: nat, addr: nat) returns (r: int)
      requires Shaped()
      requires payload != null ==> size <= payload.Length
      requires addr !in heap
      modifies `count, `heap, `books, slots
      ensures Shaped()
      ensures (View(), r) == StepPost(old(View()), PostOf(id, payload, size, addr))
    {
      ghost var op := PostOf(id, payload, size, addr);
      if count >= MAX_EVENTS {
        return -1;
      }
      ghost var was := slots[..count];
      slots[count] := slots[count].(id := id, kind := Custom, size := size);
      if payload != null && size > 0 {
        slots[count] := slots[count].(payload := addr);
        if addr == 0 {
          assert slots[..count] == was;
          return -1;
        }
        heap := heap[addr := payload[..size]];
        books := books.(mallocs := books.mallocs + multiset{addr});
      } else {
        slots[count] := slots[count].(payload := 0);
      }
      books := books.(accepted := books.accepted + [Posted(op)]);
      count := count + 1;
      assert slots[..count] == was + [slots[count - 1]];
      return 0;
    }

    method Post(id: nat, payload: array?<byte>, size: nat, addr: nat) returns (r: int)
      requires Valid()
      requires payload != null ==> size <= payload.Length
      requires addr !in heap
      modifies this, slots
      ensures Valid() && Inv(View()) && history == old(history) + [PostOf(id, payload, size, addr)]
      ensures (View(), r) == Step(old(View()), PostOf(id, payload, size, addr))
    {
      ghost var w := View();
      r := Append(id, payload, size, addr);
      Record(w, PostOf(id, payload, size, addr));
    }

    /** The loop of shutdown: ownership of the prefix makes every free in it valid. */
    method FreeQueued()
      requires Shaped() && PrefixOwned(View())
      modifies slots, `heap, `books
      ensures heap == HeapAfter(old(heap), old(slots[..count]), count)
      ensures books == BooksAfter(old(books), old(slots[..count]), count)
    {
      ghost var w := View();
      assert forall k :: 0 <= k < count ==> Freeable(w.heap, w.pending, k) by {
        forall k | 0 <= k < count
          ensures Freeable(w.heap, w.pending, k)
        {
          NextIsStillLive(w, k);
        }
      }
      FreeEach(w.pending);
    }

    /** One round of the shutdown loop: the block is freed and the slot's pointer
        to it cleared. */
    method FreeSlot(i: nat)
      requires i < slots.Length
      requires slots[i].payload == 0 || slots[i].payload in heap
      modifies slots, `heap, `books
      ensures heap == HeapWithout(old(heap), old(slots[i]).payload)
      ensures books == BooksWithFree(old(books), old(slots[i]).payload)
      ensures slots[i] == old(slots[i]).(payload := 0)
      ensures forall k :: 0 <= k < slots.Length && k != i ==> slots[k] == old(slots[k])
    {
      Free(slots[i].payload);
      slots[i] := slots[i].(payload := 0);
    }

    method FreeEach(ghost events: seq<Event>)
      requires count == |events| <= slots.Length
      requires forall k :: 0 <= k < count ==> slots[k] == events[k]
      requires forall k :: 0 <= k < count ==> Freeable(heap, events, k)
      modifies slots, `heap, `books
      ensures heap == HeapAfter(old(heap), events, count)
      ensures books == BooksAfter(old(books), events, count)
    {
      ghost var heapBefore, booksBefore := heap, books;
      var i := 0;
      while i < count
        invariant i <= count
        invariant forall k :: i <= k < count ==> slots[k] == events[k]
        invariant heap == HeapAfter(heapBefore, events, i)
        invariant books == BooksAfter(booksBefore, events, i)
      {
        assert Freeable(heapBefore, events, i);
        FreeSlot(i);
        i := i + 1;
      }
    }

    /** All of shutdown. */
    method Empty()
      requires Shaped() && PrefixOwned(View())
      modifies `count, `heap, `books, slots
      ensures Shaped() && View() == Step(old(View()), Op.Shutdown).0
    {
      AllFreed(View());
      FreeQueued();
      count := 0;
      books := books.(accepted := [], polled := []);
    }

    method Shutdown()
      requires Valid()
      modifies this, slots
      ensures Valid() && Inv(View()) && history == old(history) + [Op.Shutdown]
      ensures View() == Step(old(View()), Op.Shutdown).0
    {
      ghost var w := View();
      assert PrefixOwned(View()) by {
        Safe();
      }
      Empty();
      Record(w, Op.Shutdown);
    }

    /** The receiver of a polled event writes to its payload. */
    method ReceiverWrite(block: nat, data: seq<byte>)
      requires Valid() && Legal(View(), Op.ClientWrite(block, data))
      modifies this
      ensures Valid() && Inv(View()) && history == old(history) + [Op.ClientWrite(block, data)]
      ensures View() == Step(old(View()), Op.ClientWrite(block, data)).0
    {
      ghost var w := View();
      heap := heap[block := data];
      Record(w, Op.ClientWrite(block, data));
    }

    /** The receiver of a polled event frees its payload. */
    method ReceiverFree(block: nat)
      requires Valid() && block in books.handed
      modifies this
      ensures Valid() && Inv(View()) && history == old(history) + [Op.ClientFree(block)]
      ensures View() == Step(old(View()), Op.ClientFree(block)).0
    {
      ghost var w := View();
      assert block in heap && block != 0 by {
        Safe();
      }
      Free(block);
      books := books.(handed := books.handed - {block});
      Record(w, Op.ClientFree(block));
    }
  }
}
