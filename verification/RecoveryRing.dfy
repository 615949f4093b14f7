/**
 Injection of recovered packets: a ring of packet slots whose indices travel through a queue.

 The slot is chosen by a 16-bit counter of the producer's own, filled, and only then offered to
 the queue; the queue is checked for room before the slot is touched.  The merger pops the index
 and passes it on; the parser reads the slot at some later moment, when the index no longer
 counts as queued.
 */
module RecoveryRing {
  import opened Words
  import opened SpscQueue

  const DEPTH: nat := 1024
  const WORD16: nat := 0x1_0000

  /** Where the recovery thread stands inside `inject_recovered_packet`. */
  datatype Injector<P> = Ready | FillSlot(packet: P) | Offer(packet: P) | Pushing(packet: P) | Count

  datatype Ring<P> = Ring(queue: Queue<nat>, slots: seq<P>, writes: nat, pc: Injector<P>, dropped: nat)

  /** The queue's history, and the packets whose indices were pushed. */
  datatype Log<P> = Log(queue: History<nat>, injected: seq<P>)

  /** `Fetch` is the parser reading the slot of an index that was popped earlier. */
  datatype Move<P> = Inject(packet: P) | InjectStep | Consume | ConsumeStep | Fetch(idx: nat)

  datatype Reply<P> = Heard(result: Result<nat>) | Fetched(packet: P)

  /** The slot that the counter selects. */
  function Target<P>(g: Ring<P>): (i: nat) {
    g.writes % DEPTH
  }

  /** The number of queued indices, from the two positions as they stand. */
  function SizeApprox<T>(q: Queue<T>): (n: nat) {
    SpscQueue.Fill(q.write, q.read)
  }

  ghost predicate Sized<P>(g: Ring<P>) {
    |g.queue.buffer| == DEPTH && |g.slots| == DEPTH && WfRing(DEPTH)
  }

  /** One atomic step of one thread. */
  function RingStep<P>(g: Ring<P>, v: Move<P>): (r: (Ring<P>, Reply<P>))
    requires Sized(g)
    ensures Sized(r.0)
  {
    match (v, g.pc)
    case (Inject(packet), Ready) =>
      if SizeApprox(g.queue) >= DEPTH then (g.(dropped := g.dropped + 1), Heard(Full))
      else (g.(pc := FillSlot(packet)), Heard(Nothing))
    case (InjectStep, FillSlot(packet)) =>
      (g.(slots := g.slots[Target(g) := packet], pc := Offer(packet)), Heard(Nothing))
    case (InjectStep, Offer(packet)) =>
      (g.(queue := Step(g.queue, BeginPush(Target(g))).0, pc := Pushing(packet)), Heard(Nothing))
    case (InjectStep, Pushing(packet)) =>
      var (q, res) := Step(g.queue, PushStep);
      if res.Pushed? then (g.(queue := q, pc := Count), Heard(res))
      else if res.Full? then (g.(queue := q, pc := Ready, dropped := g.dropped + 1), Heard(res))
      else (g.(queue := q), Heard(res))
    case (InjectStep, Count) => (g.(writes := (g.writes + 1) % WORD16, pc := Ready), Heard(Nothing))
    case (Consume, _) => var (q, res) := Step(g.queue, BeginPop); (g.(queue := q), Heard(res))
    case (ConsumeStep, _) => var (q, res) := Step(g.queue, PopStep); (g.(queue := q), Heard(res))
    case (Fetch(idx), _) => (g, Fetched(g.slots[idx % DEPTH]))
    case _ => (g, Heard(Nothing))
  }

  /** The queue action that a move of the ring performs, if any. */
  function QueueAction<P>(g: Ring<P>, v: Move<P>): (a: seq<Action<nat>>) {
    match (v, g.pc)
    case (InjectStep, Offer(_)) => [BeginPush(Target(g))]
    case (InjectStep, Pushing(_)) => [PushStep]
    case (Consume, _) => [BeginPop]
    case (ConsumeStep, _) => [PopStep]
    case _ => []
  }

  function LogStep<P>(l: Log<P>, g: Ring<P>, v: Move<P>): (r: Log<P>)
    requires Sized(g)
  {
    var a := QueueAction(g, v);
    if a == [] then l
    else
      var res := Step(g.queue, a[0]).1;
      Log(Record(l.queue, g.queue, a[0], res),
          if res.Pushed? && g.pc.Pushing? then l.injected + [g.pc.packet] else l.injected)
  }

  // ----- The invariant -----

  /** How many slots have been filled so far: one more than pushed while a filled slot waits to be. */
  function Fills<P>(g: Ring<P>, l: Log<P>): (n: nat) {
    |l.injected| + if g.pc.Offer? || g.pc.Pushing? then 1 else 0
  }

  /** The packet of the fill at position `j`. */
  function FillAt<P>(g: Ring<P>, l: Log<P>, j: nat): (p: P)
    requires j < Fills(g, l)
  {
    if j < |l.injected| then l.injected[j] else g.pc.packet
  }

  ghost predicate Filling<P>(g: Ring<P>, l: Log<P>)
    requires Sized(g)
  {
    var w, r := |l.queue.pushed|, |l.queue.popped|;
    match g.pc
    case Ready => g.queue.prod.PIdle? && g.writes == w % WORD16
    case FillSlot(_) => g.queue.prod.PIdle? && g.writes == w % WORD16 && w < r + DEPTH
    case Offer(_) => g.queue.prod.PIdle? && g.writes == w % WORD16 && w < r + DEPTH
    case Pushing(_) =>
      && !g.queue.prod.PIdle? && g.queue.prod.item == Slot(w, DEPTH)
      && g.writes == w % WORD16 && w < r + DEPTH
    case Count => g.queue.prod.PIdle? && w > 0 && g.writes == (w - 1) % WORD16
  }

  /**
   The counter selects the slot of the queue's next position, through its 16-bit wrap, and the
   slots hold the packets of the last fills, one ring of them.
   */
  ghost predicate RingInv<P>(g: Ring<P>, l: Log<P>) {
    var w := |l.queue.pushed|;
    && Sized(g) && Inv(g.queue, l.queue)
    && |l.injected| == w
    && (forall k {:trigger l.queue.pushed[k]} :: 0 <= k < w ==> l.queue.pushed[k] == Slot(k, DEPTH))
    && (forall j {:trigger FillAt(g, l, j)} :: 0 <= j < Fills(g, l) <= j + DEPTH ==> g.slots[Slot(j, DEPTH)] == FillAt(g, l, j))
    && Filling(g, l)
  }

  lemma TargetSlot(w: nat)
    ensures (w % WORD16) % DEPTH == Slot(w, DEPTH)
  {
    SlotIsMod(w, DEPTH);
    ModOfMod(w, 64, DEPTH);
  }

  /** The slot about to be filled is not among those whose index is queued. */
  lemma FillsUnqueuedSlot<P>(g: Ring<P>, l: Log<P>, k: nat)
    requires RingInv(g, l) && g.pc.FillSlot? && |l.queue.popped| <= k < |l.queue.pushed|
    ensures Target(g) == Slot(|l.queue.pushed|, DEPTH) != l.queue.pushed[k]
  {
    TargetSlot(|l.queue.pushed|);
    SlotsApart(k, |l.queue.pushed|, DEPTH);
  }

  /** The last fill of the slot of position `k`, of `n` fills in all. */
  function Latest(k: nat, n: nat): (j: nat)
    requires k < n
    ensures k <= j < n <= j + DEPTH && Slot(j, DEPTH) == Slot(k, DEPTH)
    ensures j == k <==> n <= k + DEPTH
    decreases n - k
  {
    if n <= k + DEPTH then k else Latest(k + DEPTH, n)
  }

  /** What the parser reads for the index popped at position `k`: the packet of the last fill of its slot. */
  lemma FetchIsLatest<P>(g: Ring<P>, l: Log<P>, k: nat)
    requires RingInv(g, l) && k < |l.queue.popped|
    ensures k < |l.injected| <= Fills(g, l)
    ensures RingStep(g, Fetch(l.queue.popped[k])).1 == Fetched(FillAt(g, l, Latest(k, Fills(g, l))))
  {
    assert l.queue.popped[k] == l.queue.pushed[k] == Slot(k, DEPTH);
    assert Slot(k, DEPTH) % DEPTH == Slot(k, DEPTH);
    var p := FillAt(g, l, Latest(k, Fills(g, l)));
  }

  /**
   The parser's read of the index popped at position `k` gives the packet that was injected there
   for as long as no fill has reached position `k + DEPTH`, and a later packet from then on.
   */
  ghost predicate FetchKept<P>(g: Ring<P>, l: Log<P>, k: nat)
    requires Sized(g) && k < |l.queue.popped| && k < |l.injected|
  {
    var reply := RingStep(g, Fetch(l.queue.popped[k])).1;
    if Fills(g, l) <= k + DEPTH then reply == Fetched(l.injected[k])
    else exists j :: k < j < Fills(g, l) && reply == Fetched(FillAt(g, l, j))
  }

  /** The step keeps the invariant, never finds the queue full after the check, and pops the next index. */
  ghost predicate RingKept<P>(g: Ring<P>, l: Log<P>, v: Move<P>)
    requires Sized(g)
  {
    var (g', reply) := RingStep(g, v);
    && RingInv(g', LogStep(l, g, v))
    && (reply == Heard(Full) ==> v.Inject? && g'.slots == g.slots && |l.queue.pushed| == |l.queue.popped| + DEPTH)
    && (reply.Heard? && reply.result.Popped? ==>
          |l.queue.popped| < |l.injected| && reply.result.item == Slot(|l.queue.popped|, DEPTH))
  }

  lemma CheckRoom<P>(g: Ring<P>, l: Log<P>, packet: P)
    requires RingInv(g, l)
    ensures RingKept(g, l, Inject(packet))
  {
    FillIsDistance(g.queue, l.queue);
    SameFills(g, l, RingStep(g, Inject(packet)).0, l);
  }

  /** What the slots hold, after a step that neither fills nor injects. */
  lemma SameFills<P>(g: Ring<P>, l: Log<P>, g': Ring<P>, l': Log<P>)
    requires RingInv(g, l) && Sized(g') && g'.slots == g.slots && l'.injected == l.injected && Fills(g', l') == Fills(g, l)
    requires g.pc.Offer? || g.pc.Pushing? ==> g'.pc.packet == g.pc.packet
    ensures forall j {:trigger FillAt(g', l', j)} :: 0 <= j < Fills(g', l') <= j + DEPTH ==>
      g'.slots[Slot(j, DEPTH)] == FillAt(g', l', j)
  {
    forall j | 0 <= j < Fills(g', l') <= j + DEPTH ensures g'.slots[Slot(j, DEPTH)] == FillAt(g', l', j) {
      assert FillAt(g', l', j) == FillAt(g, l, j);
    }
  }

  lemma FillKept<P>(g: Ring<P>, l: Log<P>)
    requires RingInv(g, l) && g.pc.FillSlot?
    ensures RingKept(g, l, InjectStep)
  {
    var w, g' := |l.queue.pushed|, RingStep(g, InjectStep).0;
    TargetSlot(w);
    forall j | 0 <= j < Fills(g', l) <= j + DEPTH ensures g'.slots[Slot(j, DEPTH)] == FillAt(g', l, j) {
      if j < w {
        SlotsApart(j, w, DEPTH);
        assert FillAt(g', l, j) == FillAt(g, l, j);
      }
    }
  }

  lemma OfferKept<P>(g: Ring<P>, l: Log<P>)
    requires RingInv(g, l) && g.pc.Offer?
    ensures RingKept(g, l, InjectStep)
  {
    TargetSlot(|l.queue.pushed|);
    StepKeeps(g.queue, l.queue, BeginPush(Target(g)));
    SameFills(g, l, RingStep(g, InjectStep).0, LogStep(l, g, InjectStep));
  }

  /** With room checked first and one producer, a push under way goes on or succeeds. */
  lemma PushGoesOn<T>(q: Queue<T>, h: History<T>)
    requires Inv(q, h) && !q.prod.PIdle? && |h.pushed| < |h.popped| + |q.buffer|
    ensures var (q', res) := Step(q, PushStep);
            var h' := Record(h, q, PushStep, res);
            && Inv(q', h') && h'.popped == h.popped && |q'.buffer| == |q.buffer|
            && if res.Pushed? then res.item == q.prod.item && q'.prod.PIdle? && h'.pushed == h.pushed + [res.item]
               else res.Nothing? && !q'.prod.PIdle? && q'.prod.item == q.prod.item && h'.pushed == h.pushed
  {
    StepKeeps(q, h, PushStep);
    FillIsDistance(q, h);
  }

  /** The packet of the pending fill becomes the last injected one. */
  lemma PushedFills<P>(g: Ring<P>, l: Log<P>, g': Ring<P>, l': Log<P>)
    requires RingInv(g, l) && g.pc.Pushing? && Sized(g') && g'.pc.Count? && g'.slots == g.slots
    requires l'.injected == l.injected + [g.pc.packet]
    ensures forall j {:trigger FillAt(g', l', j)} :: 0 <= j < Fills(g', l') <= j + DEPTH ==>
      g'.slots[Slot(j, DEPTH)] == FillAt(g', l', j)
  {
    forall j | 0 <= j < Fills(g', l') <= j + DEPTH ensures g'.slots[Slot(j, DEPTH)] == FillAt(g', l', j) {
      assert FillAt(g', l', j) == FillAt(g, l, j);
    }
  }

  lemma PushedKept<P>(g: Ring<P>, l: Log<P>, g': Ring<P>, l': Log<P>)
    requires RingInv(g, l) && g.pc.Pushing? && g' == g.(queue := g'.queue, pc := Count) && Sized(g')
    requires Inv(g'.queue, l'.queue) && g'.queue.prod.PIdle?
    requires l'.queue.pushed == l.queue.pushed + [g.queue.prod.item] && l'.injected == l.injected + [g.pc.packet]
    ensures RingInv(g', l')
  {
    PushedFills(g, l, g', l');
    forall k | 0 <= k < |l'.queue.pushed| ensures l'.queue.pushed[k] == Slot(k, DEPTH) {
      assert k < |l.queue.pushed| ==> l'.queue.pushed[k] == l.queue.pushed[k];
    }
  }

  lemma PushingKept<P>(g: Ring<P>, l: Log<P>)
    requires RingInv(g, l) && g.pc.Pushing?
    ensures RingKept(g, l, InjectStep)
    ensures RingStep(g, InjectStep).1 != Heard(Full)
  {
    PushGoesOn(g.queue, l.queue);
    var g', l' := RingStep(g, InjectStep).0, LogStep(l, g, InjectStep);
    if g'.pc.Count? {
      PushedKept(g, l, g', l');
    } else {
      SameFills(g, l, g', l');
    }
  }

  lemma Wrapped16(w: nat)
    requires w > 0
    ensures ((w - 1) % WORD16 + 1) % WORD16 == w % WORD16
  {
  }

  lemma CountKept<P>(g: Ring<P>, l: Log<P>)
    requires RingInv(g, l) && g.pc.Count?
    ensures RingKept(g, l, InjectStep)
  {
    Wrapped16(|l.queue.pushed|);
    SameFills(g, l, RingStep(g, InjectStep).0, LogStep(l, g, InjectStep));
  }

  /** The consumer's steps touch neither the producer nor what was pushed. */
  lemma PopGoesOn<T>(q: Queue<T>, h: History<T>, a: Action<T>)
    requires Inv(q, h) && (a.BeginPop? || a.PopStep?)
    ensures var (q', res) := Step(q, a);
            var h' := Record(h, q, a, res);
            && Inv(q', h') && h'.pushed == h.pushed && |h'.popped| >= |h.popped|
            && q'.prod == q.prod && |q'.buffer| == |q.buffer| && !res.Full? && !res.Pushed?
            && (res.Popped? ==> |h.popped| < |h.pushed| && res.item == h.pushed[|h.popped|])
  {
    StepKeeps(q, h, a);
  }

  lemma ConsumeKept<P>(g: Ring<P>, l: Log<P>, v: Move<P>)
    requires RingInv(g, l) && (v.Consume? || v.ConsumeStep?)
    ensures RingKept(g, l, v)
  {
    PopGoesOn(g.queue, l.queue, if v.Consume? then BeginPop else PopStep);
    SameFills(g, l, RingStep(g, v).0, LogStep(l, g, v));
  }

  lemma MoveKept<P>(g: Ring<P>, l: Log<P>, v: Move<P>)
    requires RingInv(g, l)
    ensures RingKept(g, l, v)
  {
    match v {
      case Inject(packet) => CheckRoom(g, l, packet);
      case Consume => ConsumeKept(g, l, v);
      case ConsumeStep => ConsumeKept(g, l, v);
      case Fetch(_) =>
      case InjectStep =>
        match g.pc {
          case Ready =>
          case FillSlot(_) => FillKept(g, l);
          case Offer(_) => OfferKept(g, l);
          case Pushing(_) => PushingKept(g, l);
          case Count => CountKept(g, l);
        }
    }
  }

  // ----- Runs -----

  datatype Past<P> = Past(ring: Ring<P>, log: Log<P>)

  function RunRing<P>(g: Ring<P>, l: Log<P>, vs: seq<Move<P>>): (r: Past<P>)
    requires Sized(g)
    ensures Sized(r.ring)
  {
    if vs == [] then Past(g, l)
    else
      var p := RunRing(g, l, vs[..|vs| - 1]);
      var v := vs[|vs| - 1];
      Past(RingStep(p.ring, v).0, LogStep(p.log, p.ring, v))
  }

  function NewRing<P>(buffer: seq<nat>, slots: seq<P>): (g: Ring<P>) {
    Ring(NewQueue(buffer), slots, 0, Ready, 0)
  }

  /**
   In every interleaving of recovery thread, merger and parser, a filled slot is never one whose
   index is queued, a packet is dropped only when the ring is full, and indices are popped in the
   order of injection.
   */
  lemma {:induction false} EveryRingRun<P>(buffer: seq<nat>, slots: seq<P>, vs: seq<Move<P>>, next: Move<P>)
    requires |buffer| == |slots| == DEPTH
    ensures Sized(NewRing(buffer, slots))
    ensures var p := RunRing(NewRing(buffer, slots), Log(NoHistory(), []), vs);
            RingInv(p.ring, p.log) && RingKept(p.ring, p.log, next)
  {
    SlotIsMod(WORD64, DEPTH);
    if vs != [] {
      EveryRingRun(buffer, slots, vs[..|vs| - 1], vs[|vs| - 1]);
    }
    var p := RunRing(NewRing(buffer, slots), Log(NoHistory(), []), vs);
    MoveKept(p.ring, p.log, next);
  }

  // ----- Progress -----

  /** How many more steps of its own an injection can take. */
  function InjectLeft<P>(g: Ring<P>): (n: nat) {
    match g.pc
    case Ready => 0
    case Count => 1
    case Pushing(_) => 1 + PushLeft(g.queue)
    case Offer(_) => 5
    case FillSlot(_) => 6
  }

  /** An injection begins if and only if fewer than 1024 indices are queued, and is counted as dropped otherwise. */
  lemma InjectBegins<P>(g: Ring<P>, l: Log<P>, packet: P)
    requires RingInv(g, l) && g.pc.Ready?
    ensures var g' := RingStep(g, Inject(packet)).0;
            if |l.queue.pushed| - |l.queue.popped| < 1024 then g' == g.(pc := FillSlot(packet))
            else g' == g.(dropped := g.dropped + 1)
  {
    FillIsDistance(g.queue, l.queue);
  }

  /** It ends after at most six more steps of its own, whatever the consumer and the parser do in between. */
  lemma InjectWaitFree<P>(g: Ring<P>, l: Log<P>, v: Move<P>)
    requires RingInv(g, l) && !g.pc.Ready?
    ensures var g' := RingStep(g, v).0;
            if v.InjectStep? then InjectLeft(g') < InjectLeft(g) else InjectLeft(g') == InjectLeft(g)
    ensures InjectLeft(g) > 0 && (v.InjectStep? ==> RingStep(g, v).0.dropped == g.dropped)
  {
    MoveKept(g, l, v);
    if g.pc.Pushing? {
      WaitFree(g.queue, PushStep);
      PushGoesOn(g.queue, l.queue);
    }
    if v.Consume? {
      WaitFree(g.queue, BeginPop);
    } else if v.ConsumeStep? {
      WaitFree(g.queue, PopStep);
    }
  }

  // ----- What the parser reads -----

  /** No two fills carry the same packet. */
  ghost predicate DistinctFills<P>(g: Ring<P>, l: Log<P>) {
    forall i, j {:trigger FillAt(g, l, i), FillAt(g, l, j)} ::
      0 <= i < j < Fills(g, l) ==> FillAt(g, l, i) != FillAt(g, l, j)
  }

  /**
   After every run, the index popped at position `k` leads to the packet that was injected there if
   no fill has reached position `k + DEPTH`, and to a later one otherwise.  So with packets that can be
   told apart it leads to its own packet if and only if no fill has reached that position.
   */
  lemma EveryFetch<P>(buffer: seq<nat>, slots: seq<P>, vs: seq<Move<P>>, k: nat)
    requires |buffer| == |slots| == DEPTH && Sized(NewRing(buffer, slots))
    requires k < |RunRing(NewRing(buffer, slots), Log(NoHistory(), []), vs).log.queue.popped|
    ensures var p := RunRing(NewRing(buffer, slots), Log(NoHistory(), []), vs);
            var reply := RingStep(p.ring, Fetch(p.log.queue.popped[k])).1;
            && k < |p.log.injected| && FetchKept(p.ring, p.log, k)
            && (DistinctFills(p.ring, p.log) ==>
                  (reply == Fetched(p.log.injected[k]) <==> Fills(p.ring, p.log) <= k + 1024))
  {
    EveryRingRun(buffer, slots, vs, InjectStep);
    var p := RunRing(NewRing(buffer, slots), Log(NoHistory(), []), vs);
    FetchIsLatest(p.ring, p.log, k);
    assert FillAt(p.ring, p.log, k) == p.log.injected[k];
  }

  // ----- A run that overwrites -----

  function Then<P>(p: Past<P>, v: Move<P>): (r: Past<P>)
    requires Sized(p.ring)
  {
    Past(RingStep(p.ring, v).0, LogStep(p.log, p.ring, v))
  }

  lemma OneMore<P>(g: Ring<P>, l: Log<P>, vs: seq<Move<P>>, v: Move<P>)
    requires Sized(g)
    ensures RunRing(g, l, vs + [v]) == Then(RunRing(g, l, vs), v)
  {
    assert (vs + [v])[..|vs|] == vs;
  }

  /** No pop so far, and `n` packets injected, `first` the first of them. */
  ghost predicate Loaded<P>(p: Past<P>, first: P, n: nat) {
    && RingInv(p.ring, p.log) && p.ring.queue.cons.CIdle?
    && |p.log.injected| == n && (n > 0 ==> p.log.injected[0] == first)
    && p.log.queue.popped == [] && p.log.queue.seenRead == 0 && p.log.queue.seenWrite == 0
  }

  lemma CheckStage<P>(p: Past<P>, first: P, n: nat, packet: P)
    requires Loaded(p, first, n) && n < DEPTH && p.ring.pc.Ready?
    ensures var q := Then(p, Inject(packet)); Loaded(q, first, n) && q.ring.pc == FillSlot(packet)
  {
    MoveKept(p.ring, p.log, Inject(packet));
    FillIsDistance(p.ring.queue, p.log.queue);
  }

  /** Filling, offering and storing. */
  lemma FillStages<P>(p: Past<P>, first: P, n: nat, packet: P)
    requires Loaded(p, first, n) && n < DEPTH && p.ring.pc == FillSlot(packet)
    ensures var q := Then(Then(Then(p, InjectStep), InjectStep), InjectStep);
            Loaded(q, first, n) && q.ring.pc == Pushing(packet) && q.ring.queue.prod.PPublish?
  {
    var q := Then(p, InjectStep);
    MoveKept(p.ring, p.log, InjectStep);
    FillIsDistance(q.ring.queue, q.log.queue);
    var r := Then(q, InjectStep);
    MoveKept(q.ring, q.log, InjectStep);
    assert r.ring.queue.prod.PStore?;
    MoveKept(r.ring, r.log, InjectStep);
  }

  lemma PublishStages<P>(p: Past<P>, first: P, n: nat, packet: P)
    requires Loaded(p, first, n) && p.ring.pc == Pushing(packet) && p.ring.queue.prod.PPublish? && (n == 0 ==> packet == first)
    ensures var q := Then(Then(p, InjectStep), InjectStep); Loaded(q, first, n + 1) && q.ring.pc.Ready?
  {
    MoveKept(p.ring, p.log, InjectStep);
    var q := Then(p, InjectStep);
    assert q.ring.pc.Count? && q.log.injected == p.log.injected + [packet];
    MoveKept(q.ring, q.log, InjectStep);
  }

  /** One more packet into a ring that nobody reads. */
  lemma InjectsOne<P>(g: Ring<P>, l: Log<P>, vs: seq<Move<P>>, first: P, n: nat, packet: P) returns (ws: seq<Move<P>>)
    requires Sized(g) && Loaded(RunRing(g, l, vs), first, n) && RunRing(g, l, vs).ring.pc.Ready?
    requires n < DEPTH && (n == 0 ==> packet == first)
    ensures Loaded(RunRing(g, l, ws), first, n + 1) && RunRing(g, l, ws).ring.pc.Ready?
  {
    CheckStage(RunRing(g, l, vs), first, n, packet);
    OneMore(g, l, vs, Inject(packet));
    var v1 := vs + [Inject(packet)];
    FillStages(RunRing(g, l, v1), first, n, packet);
    OneMore(g, l, v1, InjectStep);
    OneMore(g, l, v1 + [InjectStep], InjectStep);
    OneMore(g, l, v1 + [InjectStep] + [InjectStep], InjectStep);
    var v4 := v1 + [InjectStep] + [InjectStep] + [InjectStep];
    PublishStages(RunRing(g, l, v4), first, n, packet);
    OneMore(g, l, v4, InjectStep);
    OneMore(g, l, v4 + [InjectStep], InjectStep);
    ws := v4 + [InjectStep] + [InjectStep];
  }

  lemma {:induction false} FillsRing<P>(g: Ring<P>, l: Log<P>, first: P, other: P, n: nat) returns (vs: seq<Move<P>>)
    requires Sized(g) && n <= DEPTH && Loaded(Past(g, l), first, 0) && g.pc.Ready?
    ensures Loaded(RunRing(g, l, vs), first, n) && RunRing(g, l, vs).ring.pc.Ready?
  {
    if n == 0 {
      vs := [];
    } else {
      vs := FillsRing(g, l, first, other, n - 1);
      vs := InjectsOne(g, l, vs, first, n - 1, if n == 1 then first else other);
    }
  }

  /** The merger pops the first index: reload, take, advance. */
  lemma PopStages<P>(p: Past<P>, first: P, n: nat)
    requires Loaded(p, first, n) && n > 0 && p.ring.pc.Ready?
    ensures var q := Then(Then(Then(Then(p, Consume), ConsumeStep), ConsumeStep), ConsumeStep);
            && RingInv(q.ring, q.log) && q.ring.pc.Ready? && q.log.injected == p.log.injected
            && q.log.queue.popped == [0] && |q.log.queue.pushed| == n
  {
    FillIsDistance(p.ring.queue, p.log.queue);
    MoveKept(p.ring, p.log, Consume);
    var q := Then(p, Consume);
    assert q.ring.queue.cons.CReload?;
    FillIsDistance(q.ring.queue, q.log.queue);
    MoveKept(q.ring, q.log, ConsumeStep);
    var r := Then(q, ConsumeStep);
    assert r.ring.queue.cons.CTake?;
    MoveKept(r.ring, r.log, ConsumeStep);
    var t := Then(r, ConsumeStep);
    assert t.ring.queue.cons.CAdvance? && t.ring.queue.cons.item == t.log.queue.pushed[0] == 0;
    MoveKept(t.ring, t.log, ConsumeStep);
  }

  lemma PopsFirst<P>(g: Ring<P>, l: Log<P>, v0: seq<Move<P>>, first: P, n: nat) returns (vs: seq<Move<P>>)
    requires Sized(g) && Loaded(RunRing(g, l, v0), first, n) && n > 0 && RunRing(g, l, v0).ring.pc.Ready?
    ensures var p, q := RunRing(g, l, v0), RunRing(g, l, vs);
            && RingInv(q.ring, q.log) && q.ring.pc.Ready? && q.log.injected == p.log.injected
            && q.log.queue.popped == [0] && |q.log.queue.pushed| == n
  {
    PopStages(RunRing(g, l, v0), first, n);
    OneMore(g, l, v0, Consume);
    var v1 := v0 + [Consume];
    OneMore(g, l, v1, ConsumeStep);
    var v2 := v1 + [ConsumeStep];
    OneMore(g, l, v2, ConsumeStep);
    var v3 := v2 + [ConsumeStep];
    OneMore(g, l, v3, ConsumeStep);
    vs := v3 + [ConsumeStep];
  }

  /** The next injection fills the slot of the index that was popped. */
  lemma RefillStages<P>(p: Past<P>, other: P)
    requires RingInv(p.ring, p.log) && p.ring.pc.Ready? && p.log.queue.popped == [0] && |p.log.queue.pushed| == DEPTH
    ensures var q := Then(Then(p, Inject(other)), InjectStep);
            q.log == p.log && q.ring.slots[0] == other
  {
    FillIsDistance(p.ring.queue, p.log.queue);
    TargetSlot(DEPTH);
    assert Slot(DEPTH, DEPTH) == 0;
  }

  /**
   A ring of packets goes in, the first index is popped, and one more packet is injected before the
   parser reads: for every two packets the parser then finds the second where the first was injected.
   */
  lemma Overwritten<P>(buffer: seq<nat>, slots: seq<P>, first: P, other: P) returns (vs: seq<Move<P>>)
    requires |buffer| == |slots| == DEPTH
    ensures Sized(NewRing(buffer, slots))
    ensures var p := RunRing(NewRing(buffer, slots), Log(NoHistory(), []), vs);
            && p.log.queue.popped == [0] && |p.log.injected| == DEPTH && p.log.injected[0] == first
            && RingStep(p.ring, Fetch(0)).1 == Fetched(other)
  {
    EveryRingRun(buffer, slots, [], Consume);
    var g, l := NewRing(buffer, slots), Log(NoHistory(), []);
    var v0 := FillsRing(g, l, first, other, DEPTH);
    var v1 := PopsFirst(g, l, v0, first, DEPTH);
    RefillStages(RunRing(g, l, v1), other);
    var v2 := v1 + [Inject(other)];
    OneMore(g, l, v1, Inject(other));
    OneMore(g, l, v2, InjectStep);
    vs := v2 + [InjectStep];
  }
}
