/**
 The single-producer single-consumer ring, as interleaved atomic steps of its two threads.

 Positions are 64-bit words that wrap.  Each side keeps a cached copy of the other's position and
 reloads it only when the copy says full (or empty).
 */
module SpscQueue {
  import opened Words

  /** Where the producer stands inside `try_push`. */
  datatype Producer<T> = PIdle | PReload(item: T) | PStore(item: T) | PPublish(item: T)

  /** Where the consumer stands inside `try_pop`. */
  datatype Consumer<T> = CIdle | CReload | CTake | CAdvance(item: T)

  datatype Queue<T> = Queue(write: nat, cachedRead: nat, buffer: seq<T>, cachedWrite: nat, read: nat,
                            prod: Producer<T>, cons: Consumer<T>)

  /** What has been pushed and popped, and what each side last saw of the other, uncounted by any word. */
  datatype History<T> = History(pushed: seq<T>, popped: seq<T>, seenRead: nat, seenWrite: nat)

  datatype Action<T> = BeginPush(item: T) | PushStep | BeginPop | PopStep

  /** What a step returns to its caller. */
  datatype Result<T> = Nothing | Pushed(item: T) | Full | Popped(item: T) | Empty

  function Capacity<T>(q: Queue<T>): (c: nat) {
    |q.buffer|
  }

  /** Capacities are powers of two below the word size, so they divide it. */
  ghost predicate WfRing(c: nat) {
    0 < c < WORD64 && Slot(WORD64, c) == 0
  }

  function Next(x: nat): (r: nat) {
    (x + 1) % WORD64
  }

  /** One side's count of the items between the two positions. */
  function Fill(write: nat, read: nat): (r: nat) {
    (write - read) % WORD64
  }

  // ----- Steps -----

  /** One atomic step of one thread; an action that the thread is not ready for changes nothing. */
  function Step<T>(q: Queue<T>, a: Action<T>): (r: (Queue<T>, Result<T>))
    requires WfRing(|q.buffer|)
    ensures |r.0.buffer| == |q.buffer|
  {
    match (a, q.prod, q.cons)
    case (BeginPush(item), PIdle, _) =>
      if Fill(q.write, q.cachedRead) >= Capacity(q) then (q.(prod := PReload(item)), Nothing)
      else (q.(prod := PStore(item)), Nothing)
    case (PushStep, PReload(item), _) =>
      var q' := q.(cachedRead := q.read);
      if Fill(q'.write, q'.cachedRead) >= Capacity(q) then (q'.(prod := PIdle), Full)
      else (q'.(prod := PStore(item)), Nothing)
    case (PushStep, PStore(item), _) =>
      (q.(buffer := q.buffer[Slot(q.write, Capacity(q)) := item], prod := PPublish(item)), Nothing)
    case (PushStep, PPublish(item), _) =>
      (q.(write := Next(q.write), prod := PIdle), Pushed(item))
    case (BeginPop, _, CIdle) =>
      if q.read == q.cachedWrite then (q.(cons := CReload), Nothing) else (q.(cons := CTake), Nothing)
    case (PopStep, _, CReload) =>
      var q' := q.(cachedWrite := q.write);
      if q'.read == q'.cachedWrite then (q'.(cons := CIdle), Empty) else (q'.(cons := CTake), Nothing)
    case (PopStep, _, CTake) =>
      (q.(cons := CAdvance(q.buffer[Slot(q.read, Capacity(q))])), Nothing)
    case (PopStep, _, CAdvance(item)) =>
      (q.(read := Next(q.read), cons := CIdle), Popped(item))
    case _ => (q, Nothing)
  }

  /** The history after a step. */
  function Record<T>(h: History<T>, q: Queue<T>, a: Action<T>, res: Result<T>): (r: History<T>) {
    var h' := match res
      case Pushed(item) => h.(pushed := h.pushed + [item])
      case Popped(item) => h.(popped := h.popped + [item])
      case _ => h;
    if a.PushStep? && q.prod.PReload? then h'.(seenRead := |h.popped|)
    else if a.PopStep? && q.cons.CReload? then h'.(seenWrite := |h.pushed|)
    else h'
  }

  // ----- The invariant -----

  /**
   Positions are the true counts on 64 bits, cached positions are past values of them, at most one
   ring of items is outstanding, and the ring holds exactly those.
   */
  ghost predicate Inv<T>(q: Queue<T>, h: History<T>) {
    var c, w, r := |q.buffer|, |h.pushed|, |h.popped|;
    && WfRing(c)
    && q.write == w % WORD64 && q.read == r % WORD64
    && q.cachedRead == h.seenRead % WORD64 && q.cachedWrite == h.seenWrite % WORD64
    && h.seenRead <= r <= h.seenWrite <= w <= h.seenRead + c
    && h.popped == h.pushed[..r]
    && (forall k {:trigger h.pushed[k]} :: r <= k < w ==> q.buffer[Slot(k, c)] == h.pushed[k])
    && (q.prod.PStore? || q.prod.PPublish? ==> w < h.seenRead + c)
    && (q.prod.PPublish? ==> q.buffer[Slot(w, c)] == q.prod.item)
    && (q.cons.CTake? || q.cons.CAdvance? ==> r < h.seenWrite)
    && (q.cons.CAdvance? ==> q.cons.item == h.pushed[r])
  }

  /** What waits in the queue, oldest first. */
  function Contents<T>(h: History<T>): (s: seq<T>)
    requires |h.popped| <= |h.pushed|
  {
    h.pushed[|h.popped|..]
  }

  /** Each kind of result, as a bounded first-in first-out queue would give it. */
  ghost predicate Explained<T>(h: History<T>, h': History<T>, c: nat, res: Result<T>)
    requires |h.popped| <= |h.pushed| && |h'.popped| <= |h'.pushed|
  {
    match res
    case Nothing => Contents(h') == Contents(h)
    case Pushed(item) => |Contents(h)| < c && Contents(h') == Contents(h) + [item]
    case Full => |Contents(h)| == c && Contents(h') == Contents(h)
    case Popped(item) => Contents(h) != [] && item == Contents(h)[0] && Contents(h') == Contents(h)[1..]
    case Empty => Contents(h) == [] && Contents(h') == []
  }

  // ----- Preservation -----

  /** The full check on wrapped words decides the true distance. */
  lemma FillIsDistance<T>(q: Queue<T>, h: History<T>)
    requires Inv(q, h)
    ensures Fill(q.write, q.cachedRead) == |h.pushed| - h.seenRead
    ensures Fill(q.write, q.read) == |h.pushed| - |h.popped|
    ensures q.read == q.cachedWrite <==> |h.popped| == h.seenWrite
    ensures q.read == q.write <==> |h.popped| == |h.pushed|
  {
    WrappedDistance(|h.pushed|, h.seenRead);
    WrappedDistance(|h.pushed|, |h.popped|);
    WrappedEqual(h.seenWrite, |h.popped|);
    WrappedEqual(|h.pushed|, |h.popped|);
  }

  /** The store of the next item spares every item that is still waiting. */
  lemma StoreSpares<T>(q: Queue<T>, h: History<T>, k: nat)
    requires Inv(q, h) && q.prod.PStore? && |h.popped| <= k < |h.pushed|
    ensures Slot(q.write, |q.buffer|) == Slot(|h.pushed|, |q.buffer|) != Slot(k, |q.buffer|)
  {
    SlotOfWord(|h.pushed|, |q.buffer|);
    SlotsApart(k, |h.pushed|, |q.buffer|);
  }

  /** The step and its record keep the invariant and are explained by the contents. */
  ghost predicate Kept<T>(q: Queue<T>, h: History<T>, a: Action<T>)
    requires WfRing(|q.buffer|)
  {
    var (q', res) := Step(q, a);
    var h' := Record(h, q, a, res);
    Inv(q', h') && |h.popped| <= |h.pushed| && Explained(h, h', |q.buffer|, res)
  }

  lemma CheckKeeps<T>(q: Queue<T>, h: History<T>, a: Action<T>)
    requires Inv(q, h) && (a.BeginPush? || a.BeginPop?)
    ensures Kept(q, h, a)
  {
    FillIsDistance(q, h);
  }

  lemma ReloadKeeps<T>(q: Queue<T>, h: History<T>, a: Action<T>)
    requires Inv(q, h) && ((a.PushStep? && q.prod.PReload?) || (a.PopStep? && q.cons.CReload?))
    ensures Kept(q, h, a)
  {
    FillIsDistance(q, h);
  }

  lemma StoreKeeps<T>(q: Queue<T>, h: History<T>)
    requires Inv(q, h) && q.prod.PStore?
    ensures Kept(q, h, PushStep)
  {
    var q' := Step(q, PushStep).0;
    SlotOfWord(|h.pushed|, |q.buffer|);
    forall k | |h.popped| <= k < |h.pushed| ensures q'.buffer[Slot(k, |q.buffer|)] == h.pushed[k] {
      StoreSpares(q, h, k);
    }
  }

  lemma PublishInv<T>(q: Queue<T>, h: History<T>, q': Queue<T>, h': History<T>)
    requires Inv(q, h) && q.prod.PPublish?
    requires q' == q.(write := Next(q.write), prod := PIdle) && h' == h.(pushed := h.pushed + [q.prod.item])
    ensures Inv(q', h')
  {
    WrappedNext(|h.pushed|);
    assert h'.pushed[..|h.popped|] == h.pushed[..|h.popped|];
    forall k | |h.popped| <= k < |h'.pushed| ensures q'.buffer[Slot(k, |q.buffer|)] == h'.pushed[k] {
      assert k < |h.pushed| ==> h'.pushed[k] == h.pushed[k];
    }
  }

  lemma PublishKeeps<T>(q: Queue<T>, h: History<T>)
    requires Inv(q, h) && q.prod.PPublish?
    ensures Kept(q, h, PushStep)
  {
    var h' := h.(pushed := h.pushed + [q.prod.item]);
    PublishInv(q, h, Step(q, PushStep).0, h');
    assert Contents(h') == Contents(h) + [q.prod.item];
  }

  lemma TakeKeeps<T>(q: Queue<T>, h: History<T>)
    requires Inv(q, h) && q.cons.CTake?
    ensures Kept(q, h, PopStep)
  {
    SlotOfWord(|h.popped|, |q.buffer|);
  }

  lemma AdvanceKeeps<T>(q: Queue<T>, h: History<T>)
    requires Inv(q, h) && q.cons.CAdvance?
    ensures Kept(q, h, PopStep)
  {
    WrappedNext(|h.popped|);
    assert h.pushed[..|h.popped| + 1] == h.popped + [q.cons.item];
  }

  lemma StepKeeps<T>(q: Queue<T>, h: History<T>, a: Action<T>)
    requires Inv(q, h)
    ensures Kept(q, h, a)
  {
    match a {
      case BeginPush(_) => CheckKeeps(q, h, a);
      case BeginPop => CheckKeeps(q, h, a);
      case PushStep =>
        match q.prod {
          case PIdle =>
          case PReload(_) => ReloadKeeps(q, h, a);
          case PStore(_) => StoreKeeps(q, h);
          case PPublish(_) => PublishKeeps(q, h);
        }
      case PopStep =>
        match q.cons {
          case CIdle =>
          case CReload => ReloadKeeps(q, h, a);
          case CTake => TakeKeeps(q, h);
          case CAdvance(_) => AdvanceKeeps(q, h);
        }
    }
  }

  // ----- Runs -----

  datatype Run<T> = Run(queue: Queue<T>, history: History<T>)

  function RunQueue<T>(q: Queue<T>, h: History<T>, steps: seq<Action<T>>): (r: Run<T>)
    requires WfRing(|q.buffer|)
    ensures |r.queue.buffer| == |q.buffer|
  {
    if steps == [] then Run(q, h)
    else
      var p := RunQueue(q, h, steps[..|steps| - 1]);
      var a := steps[|steps| - 1];
      var (q', res) := Step(p.queue, a);
      Run(q', Record(p.history, p.queue, a, res))
  }

  /** A new queue; its ring may hold anything. */
  function NewQueue<T>(buffer: seq<T>): (q: Queue<T>) {
    Queue(0, 0, buffer, 0, 0, PIdle, CIdle)
  }

  function NoHistory<T>(): (h: History<T>) {
    History([], [], 0, 0)
  }

  /**
   In every interleaving, what was popped is a prefix of what was pushed and at most one ring of
   items is outstanding.  The next step, of either thread, is explained by the contents: a push
   that fails finds the queue full and a pop that fails finds it empty.
   */
  lemma {:induction false} EveryInterleaving<T>(buffer: seq<T>, steps: seq<Action<T>>, next: Action<T>)
    requires WfRing(|buffer|)
    ensures var p := RunQueue(NewQueue(buffer), NoHistory(), steps);
            var q, h := p.queue, p.history;
            var (q', res) := Step(q, next);
            && Inv(q, h)
            && h.popped <= h.pushed && |h.pushed| - |h.popped| <= |buffer|
            && |Record(h, q, next, res).popped| <= |Record(h, q, next, res).pushed|
            && Explained(h, Record(h, q, next, res), |buffer|, res)
  {
    if steps != [] {
      EveryInterleaving(buffer, steps[..|steps| - 1], steps[|steps| - 1]);
      var p := RunQueue(NewQueue(buffer), NoHistory(), steps[..|steps| - 1]);
      StepKeeps(p.queue, p.history, steps[|steps| - 1]);
    }
    var p := RunQueue(NewQueue(buffer), NoHistory(), steps);
    StepKeeps(p.queue, p.history, next);
  }

  // ----- Progress -----

  /** How many more steps of its own the producer, or the consumer, can take. */
  function PushLeft<T>(q: Queue<T>): (n: nat) {
    match q.prod case PIdle => 0 case PPublish(_) => 1 case PStore(_) => 2 case PReload(_) => 3
  }

  function PopLeft<T>(q: Queue<T>): (n: nat) {
    match q.cons case CIdle => 0 case CAdvance(_) => 1 case CTake => 2 case CReload => 3
  }

  /**
   Each call ends after at most three more steps of its own thread, with a result on the last one and
   on no other, whatever the other thread does in between.
   */
  lemma WaitFree<T>(q: Queue<T>, a: Action<T>)
    requires WfRing(|q.buffer|)
    ensures var (q', res) := Step(q, a);
            match a
            case BeginPush(item) => q'.cons == q.cons && (q.prod.PIdle? ==> PushLeft(q') > 0 && q'.prod.item == item)
            case BeginPop => q'.prod == q.prod && (q.cons.CIdle? ==> PopLeft(q') > 0)
            case PushStep =>
              q'.cons == q.cons && (PushLeft(q) > 0 ==> PushLeft(q') < PushLeft(q) && (res.Nothing? <==> PushLeft(q') > 0))
            case PopStep =>
              q'.prod == q.prod && (PopLeft(q) > 0 ==> PopLeft(q') < PopLeft(q) && (res.Nothing? <==> PopLeft(q') > 0))
  {
  }

  /** A call under way, to its result, with the other thread at rest wherever it is. */
  function Finish<T>(q: Queue<T>, a: Action<T>): (res: Result<T>)
    requires WfRing(|q.buffer|) && (a.PushStep? || a.PopStep?)
    decreases PushLeft(q) + PopLeft(q)
  {
    var (q', res) := Step(q, a);
    if res.Nothing? && PushLeft(q') + PopLeft(q') < PushLeft(q) + PopLeft(q) then Finish(q', a) else res
  }

  lemma PushFinishes<T>(q: Queue<T>, item: T)
    requires WfRing(|q.buffer|) && (q.prod == PStore(item) || q.prod == PPublish(item))
    ensures Finish(q, PushStep) == Pushed(item)
  {
    var q1 := Step(q, PushStep).0;
    assert q.prod.PStore? ==> Finish(q, PushStep) == Finish(q1, PushStep);
  }

  /** An undisturbed push succeeds if and only if the queue has room. */
  lemma PushAlone<T>(q: Queue<T>, h: History<T>, item: T)
    requires Inv(q, h) && q.prod.PIdle?
    ensures Finish(Step(q, BeginPush(item)).0, PushStep)
         == if |h.pushed| - |h.popped| < |q.buffer| then Pushed(item) else Full
  {
    CheckKeeps(q, h, BeginPush(item));
    FillIsDistance(q, h);
    var q1 := Step(q, BeginPush(item)).0;
    if q1.prod.PStore? {
      PushFinishes(q1, item);
    } else {
      var (q2, res) := Step(q1, PushStep);
      if res.Nothing? {
        PushFinishes(q2, item);
      }
    }
  }

  lemma PopFinishes<T>(q: Queue<T>, h: History<T>)
    requires Inv(q, h) && q.cons.CTake?
    ensures |h.popped| < |h.pushed| && Finish(q, PopStep) == Popped(h.pushed[|h.popped|])
  {
    TakeKeeps(q, h);
    var q1 := Step(q, PopStep).0;
    assert Finish(q, PopStep) == Finish(q1, PopStep) == Popped(q1.cons.item);
  }

  /** An undisturbed pop gives the oldest item if there is one. */
  lemma PopAlone<T>(q: Queue<T>, h: History<T>)
    requires Inv(q, h) && q.cons.CIdle?
    ensures Finish(Step(q, BeginPop).0, PopStep)
         == if |h.popped| < |h.pushed| then Popped(h.pushed[|h.popped|]) else Empty
  {
    CheckKeeps(q, h, BeginPop);
    var q1 := Step(q, BeginPop).0;
    if q1.cons.CTake? {
      PopFinishes(q1, h);
    } else {
      ReloadKeeps(q1, h, PopStep);
      FillIsDistance(q, h);
      var (q2, res) := Step(q1, PopStep);
      if res.Nothing? {
        PopFinishes(q2, Record(h, q1, PopStep, res));
      }
    }
  }
}
