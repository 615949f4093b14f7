/**
 The sequence lock: one writer that stores a value of several words word by word, and any number
 of readers that copy it word by word and keep the copy only if the sequence did not move.

 Steps are atomic and sequentially consistent; words are written and read in any order.
 */
module SeqLock {
  import opened Words

  /** The stores that bring the sequence round. */
  const HALF: nat := 0x8000_0000

  datatype Writer<W> = Resting | Writing(value: seq<W>, seen: nat, left: set<nat>)

  datatype Reader<W> = Looking | Copying(seen: nat, got: map<nat, W>)

  datatype Lock<W> = Lock(seq_: nat, data: seq<W>, writer: Writer<W>, readers: seq<Reader<W>>)

  /**
   The value of every completed store, the initial value first, and for each reader the number of
   stores that were complete when it read the sequence.
   */
  datatype Log<W> = Log(stores: seq<seq<W>>, since: seq<nat>)

  datatype Action<W> =
    | BeginStore(value: seq<W>)
    | StoreWord(k: nat)
    | EndStore
    | BeginLoad(i: nat)
    | LoadWord(i: nat, k: nat)
    | EndLoad(i: nat)

  datatype Result<W> = Nothing | Loaded(i: nat, value: map<nat, W>)

  function Indices(n: nat): (s: set<nat>)
    ensures forall k: nat :: k in s <==> k < n
  {
    if n == 0 then {} else Indices(n - 1) + {n - 1}
  }

  // ----- Steps -----

  function Step<W>(l: Lock<W>, a: Action<W>): (r: (Lock<W>, Result<W>)) {
    match a
    case BeginStore(value) =>
      if l.writer.Resting? && |value| == |l.data|
      then (l.(seq_ := (l.seq_ + 1) % WORD32, writer := Writing(value, l.seq_, Indices(|value|))), Nothing)
      else (l, Nothing)
    case StoreWord(k) =>
      if l.writer.Writing? && k in l.writer.left && k < |l.data| && k < |l.writer.value|
      then (l.(data := l.data[k := l.writer.value[k]], writer := l.writer.(left := l.writer.left - {k})), Nothing)
      else (l, Nothing)
    case EndStore =>
      if l.writer.Writing? && l.writer.left == {}
      then (l.(seq_ := (l.writer.seen + 2) % WORD32, writer := Resting), Nothing)
      else (l, Nothing)
    case BeginLoad(i) =>
      if i < |l.readers| && l.readers[i].Looking? && l.seq_ % 2 == 0
      then (l.(readers := l.readers[i := Copying(l.seq_, map[])]), Nothing)
      else (l, Nothing)
    case LoadWord(i, k) =>
      if i < |l.readers| && l.readers[i].Copying? && k < |l.data| && k !in l.readers[i].got
      then (l.(readers := l.readers[i := l.readers[i].(got := l.readers[i].got[k := l.data[k]])]), Nothing)
      else (l, Nothing)
    case EndLoad(i) =>
      if i < |l.readers| && l.readers[i].Copying? && l.readers[i].got.Keys == Indices(|l.data|)
      then
        var l' := l.(readers := l.readers[i := Looking]);
        if l.seq_ == l.readers[i].seen then (l', Loaded(i, l.readers[i].got)) else (l', Nothing)
      else (l, Nothing)
  }

  function Record<W>(g: Log<W>, l: Lock<W>, a: Action<W>): (r: Log<W>)
    requires |g.stores| > 0 && |g.since| == |l.readers|
    ensures |r.stores| > 0 && |r.since| == |l.readers|
  {
    match a
    case EndStore =>
      if l.writer.Writing? && l.writer.left == {} then g.(stores := g.stores + [l.writer.value]) else g
    case BeginLoad(i) =>
      if i < |l.readers| && l.readers[i].Looking? && l.seq_ % 2 == 0
      then g.(since := g.since[i := |g.stores| - 1]) else g
    case _ => g
  }

  // ----- The invariant -----

  /** The sequence as it would be on unbounded integers. */
  function Ticks<W>(l: Lock<W>, g: Log<W>): (n: int) {
    2 * (|g.stores| - 1) + if l.writer.Writing? then 1 else 0
  }

  ghost predicate ReaderOk<W>(l: Lock<W>, g: Log<W>, i: nat)
    requires |g.stores| > 0 && |g.since| == |l.readers| && i < |l.readers|
  {
    l.readers[i].Copying? ==>
      var m := g.since[i];
      && m < |g.stores|
      && l.readers[i].seen == (2 * m) % WORD32
      && (forall k :: k in l.readers[i].got ==> k < |l.data| && k < |g.stores[m]|)
      && (Ticks(l, g) == 2 * m ==> forall k :: k in l.readers[i].got ==> l.readers[i].got[k] == g.stores[m][k])
  }

  /**
   An even sequence means that the data is the last complete store; a copy begun at the present
   sequence holds words of that store only.
   */
  ghost predicate Inv<W>(l: Lock<W>, g: Log<W>) {
    && |g.stores| > 0 && |g.since| == |l.readers|
    && l.seq_ == Ticks(l, g) % WORD32
    && (forall n :: 0 <= n < |g.stores| ==> |g.stores[n]| == |l.data|)
    && (l.writer.Resting? ==> l.data == g.stores[|g.stores| - 1])
    && (l.writer.Writing? ==>
          && |l.writer.value| == |l.data| && l.writer.seen == (2 * (|g.stores| - 1)) % WORD32
          && forall k :: 0 <= k < |l.data| && k !in l.writer.left ==> l.data[k] == l.writer.value[k])
    && (forall i {:trigger ReaderOk(l, g, i)} :: 0 <= i < |l.readers| ==> ReaderOk(l, g, i))
  }

  lemma TwoMore(n: nat)
    ensures ((2 * n) % WORD32 + 2) % WORD32 == (2 * (n + 1)) % WORD32
  {
  }

  lemma BeginStoreKeeps<W>(l: Lock<W>, g: Log<W>, value: seq<W>)
    requires Inv(l, g)
    ensures Inv(Step(l, BeginStore(value)).0, g)
  {
    var l' := Step(l, BeginStore(value)).0;
    forall i | 0 <= i < |l'.readers| ensures ReaderOk(l', g, i) {
      assert ReaderOk(l, g, i);
    }
  }

  lemma StoreWordKeeps<W>(l: Lock<W>, g: Log<W>, k: nat)
    requires Inv(l, g)
    ensures Inv(Step(l, StoreWord(k)).0, g)
  {
    var l' := Step(l, StoreWord(k)).0;
    forall i | 0 <= i < |l'.readers| ensures ReaderOk(l', g, i) {
      assert ReaderOk(l, g, i);
    }
  }

  lemma EndStoreKeeps<W>(l: Lock<W>, g: Log<W>)
    requires Inv(l, g)
    ensures Inv(Step(l, EndStore).0, Record(g, l, EndStore))
  {
    var l', g' := Step(l, EndStore).0, Record(g, l, EndStore);
    TwoMore(|g.stores| - 1);
    forall i | 0 <= i < |l'.readers| ensures ReaderOk(l', g', i) {
      assert ReaderOk(l, g, i);
    }
  }

  lemma ReaderKeeps<W>(l: Lock<W>, g: Log<W>, a: Action<W>)
    requires Inv(l, g) && (a.BeginLoad? || a.LoadWord? || a.EndLoad?)
    ensures Inv(Step(l, a).0, Record(g, l, a))
  {
    var l', g' := Step(l, a).0, Record(g, l, a);
    forall i | 0 <= i < |l'.readers| ensures ReaderOk(l', g', i) {
      assert ReaderOk(l, g, i);
    }
  }

  lemma StepKeeps<W>(l: Lock<W>, g: Log<W>, a: Action<W>)
    requires Inv(l, g)
    ensures Inv(Step(l, a).0, Record(g, l, a))
  {
    match a {
      case BeginStore(value) => BeginStoreKeeps(l, g, value);
      case StoreWord(k) => StoreWordKeeps(l, g, k);
      case EndStore => EndStoreKeeps(l, g);
      case _ => ReaderKeeps(l, g, a);
    }
  }

  /** The number of stores that completed since reader `i` began its copy. */
  function Missed<W>(l: Lock<W>, g: Log<W>, i: nat): (n: int)
    requires |g.since| == |l.readers| && i < |l.readers|
  {
    |g.stores| - 1 - g.since[i]
  }

  /** The sequence has not come round since reader `i` began its copy: a positive multiple of 2^31 stores does that. */
  ghost predicate NoWrap<W>(l: Lock<W>, g: Log<W>, i: nat)
    requires |g.since| == |l.readers|
  {
    i < |g.since| ==> Missed(l, g, i) == 0 || Missed(l, g, i) % HALF != 0
  }

  /** The copy that reader `i` is about to return is exactly the store that was latest when it began. */
  ghost predicate Whole<W>(l: Lock<W>, g: Log<W>, i: nat) {
    var r := Step(l, EndLoad(i)).1;
    && r.Loaded? && i < |g.since| && g.since[i] < |g.stores|
    && r.value.Keys == Indices(|l.data|) && |g.stores[g.since[i]]| == |l.data|
    && forall k :: 0 <= k < |l.data| ==> k in r.value && r.value[k] == g.stores[g.since[i]][k]
  }

  /** A load returns only when a multiple of 2^31 stores completed under it, and none is being made. */
  lemma ReturnsOnMultiple<W>(l: Lock<W>, g: Log<W>, i: nat)
    requires Inv(l, g) && Step(l, EndLoad(i)).1.Loaded?
    ensures i < |l.readers| && Missed(l, g, i) >= 0 && Missed(l, g, i) % HALF == 0 && l.writer.Resting?
  {
    assert ReaderOk(l, g, i);
    SameTicks(g.since[i], Missed(l, g, i), if l.writer.Writing? then 1 else 0);
  }

  lemma SameTicks(m: nat, n: nat, odd: nat)
    requires odd <= 1 && (2 * (m + n) + odd) % WORD32 == (2 * m) % WORD32
    ensures odd == 0 && n % HALF == 0
  {
    var q := (2 * (m + n) + odd) / WORD32 - (2 * m) / WORD32;
    assert 2 * n + odd == q * WORD32;
    assert n == q * HALF;
  }

  lemma SameTicksBack(m: nat, n: nat)
    requires n % HALF == 0
    ensures (2 * (m + n)) % WORD32 == (2 * m) % WORD32
  {
    var q := n / HALF;
    assert 2 * n == q * WORD32;
  }

  /**
   A reader that has all its words returns them if and only if no store is being made and the number
   of stores that completed under it is a multiple of 2^31; otherwise it starts over.
   */
  lemma ReturnsIff<W>(l: Lock<W>, g: Log<W>, i: nat)
    requires Inv(l, g) && i < |l.readers| && l.readers[i].Copying?
    requires forall k: nat :: k in l.readers[i].got <==> k < |l.data|
    ensures Step(l, EndLoad(i)).1.Loaded? <==> l.writer.Resting? && Missed(l, g, i) % 0x8000_0000 == 0
    ensures Step(l, EndLoad(i)).0 == l.(readers := l.readers[i := Looking])
  {
    assert l.readers[i].got.Keys == Indices(|l.data|);
    if Step(l, EndLoad(i)).1.Loaded? {
      ReturnsOnMultiple(l, g, i);
    } else if l.writer.Resting? && Missed(l, g, i) % HALF == 0 {
      assert ReaderOk(l, g, i);
      SameTicksBack(g.since[i], Missed(l, g, i));
    }
  }

  /** A reader begins a copy, with the latest store as the one it copies, whenever no store is being made. */
  lemma BeginsIff<W>(l: Lock<W>, g: Log<W>, i: nat)
    requires Inv(l, g) && i < |l.readers| && l.readers[i].Looking?
    ensures Step(l, BeginLoad(i)).0.readers[i].Copying? <==> l.writer.Resting?
    ensures l.writer.Resting? ==> Record(g, l, BeginLoad(i)).since[i] == |g.stores| - 1
  {
    TicksParity(|g.stores| - 1, if l.writer.Writing? then 1 else 0);
  }

  lemma TicksParity(n: nat, odd: nat)
    requires odd <= 1
    ensures ((2 * n + odd) % WORD32) % 2 == odd
  {
    var q := (2 * n + odd) / WORD32;
    assert (2 * n + odd) % WORD32 == 2 * (n - q * HALF) + odd;
  }

  // ----- Undisturbed -----

  /** The beginning of a store of `value` and its first `k` words, nobody else moving. */
  function StoreUpTo<W>(l: Lock<W>, value: seq<W>, k: nat): (r: Lock<W>) {
    if k == 0 then Step(l, BeginStore(value)).0 else Step(StoreUpTo(l, value, k - 1), StoreWord(k - 1)).0
  }

  /** The same of a load by reader `i`. */
  function LoadUpTo<W>(l: Lock<W>, i: nat, k: nat): (r: Lock<W>) {
    if k == 0 then Step(l, BeginLoad(i)).0 else Step(LoadUpTo(l, i, k - 1), LoadWord(i, k - 1)).0
  }

  /** The first `k` words of an undisturbed store are written. */
  lemma {:induction false} StoreGoesOn<W>(l: Lock<W>, value: seq<W>, k: nat)
    requires l.writer.Resting? && |value| == |l.data| && k <= |value|
    ensures var s := StoreUpTo(l, value, k);
            && s.readers == l.readers && |s.data| == |l.data|
            && s.writer == Writing(value, l.seq_, Indices(|value|) - Indices(k))
            && forall j :: 0 <= j < k ==> s.data[j] == value[j]
  {
    if k == 0 {
      assert Indices(|value|) - {} == Indices(|value|);
    } else {
      StoreGoesOn(l, value, k - 1);
      assert Indices(|value|) - Indices(k - 1) - {k - 1} == Indices(|value|) - Indices(k);
    }
  }

  /** The reader of an undisturbed load has its first `k` words. */
  lemma {:induction false} LoadGoesOn<W>(l: Lock<W>, i: nat, k: nat)
    requires i < |l.readers| && l.readers[i].Looking? && l.seq_ % 2 == 0 && k <= |l.data|
    ensures var s := LoadUpTo(l, i, k);
            && s == l.(readers := s.readers) && |s.readers| == |l.readers|
            && s.readers[i := Looking] == l.readers
            && s.readers[i].Copying? && s.readers[i].seen == l.seq_
            && forall j: nat :: (j in s.readers[i].got <==> j < k) && (j < k ==> s.readers[i].got[j] == l.data[j])
  {
    if k > 0 {
      LoadGoesOn(l, i, k - 1);
    }
  }

  /** An undisturbed store leaves its value, the lock resting and the sequence two further. */
  lemma StoreAlone<W>(l: Lock<W>, value: seq<W>)
    requires l.writer.Resting? && |value| == |l.data|
    ensures Step(StoreUpTo(l, value, |value|), EndStore).0 == l.(seq_ := (l.seq_ + 2) % WORD32, data := value)
  {
    StoreGoesOn(l, value, |value|);
    StoreEnds(StoreUpTo(l, value, |value|), l, value);
  }

  lemma StoreEnds<W>(s: Lock<W>, l: Lock<W>, value: seq<W>)
    requires l.writer.Resting? && s.readers == l.readers && |s.data| == |value|
    requires s.writer.Writing? && s.writer.seen == l.seq_ && s.writer.left == {}
    requires forall j :: 0 <= j < |value| ==> s.data[j] == value[j]
    ensures Step(s, EndStore).0 == l.(seq_ := (l.seq_ + 2) % WORD32, data := value)
  {
    assert s.data == value;
  }

  /** An undisturbed load returns every word of the latest store. */
  lemma LoadAlone<W>(l: Lock<W>, g: Log<W>, i: nat)
    requires Inv(l, g) && l.writer.Resting? && i < |l.readers| && l.readers[i].Looking?
    ensures var latest := g.stores[|g.stores| - 1];
            var (s, r) := Step(LoadUpTo(l, i, |latest|), EndLoad(i));
            && s == l && r.Loaded? && r.i == i
            && forall k: nat :: (k in r.value <==> k < |latest|) && (k < |latest| ==> r.value[k] == latest[k])
  {
    TicksParity(|g.stores| - 1, 0);
    LoadGoesOn(l, i, |l.data|);
    assert LoadUpTo(l, i, |l.data|).readers[i].got.Keys == Indices(|l.data|);
  }

  /** A load that returns gives the whole value of the store that was latest when it began. */
  lemma LoadIsWhole<W>(l: Lock<W>, g: Log<W>, i: nat)
    requires Inv(l, g) && NoWrap(l, g, i) && Step(l, EndLoad(i)).1.Loaded?
    ensures Whole(l, g, i)
  {
    ReturnsOnMultiple(l, g, i);
    assert ReaderOk(l, g, i);
  }

  // ----- Runs -----

  datatype Past<W> = Past(lock: Lock<W>, log: Log<W>)

  function After<W>(p: Past<W>, a: Action<W>): (r: Past<W>)
    requires |p.log.stores| > 0 && |p.log.since| == |p.lock.readers|
    ensures |r.log.stores| > 0 && |r.log.since| == |r.lock.readers|
  {
    Past(Step(p.lock, a).0, Record(p.log, p.lock, a))
  }

  function RunLock<W>(value: seq<W>, readers: nat, steps: seq<Action<W>>): (p: Past<W>)
    ensures |p.log.stores| > 0 && |p.log.since| == |p.lock.readers|
  {
    if steps == [] then
      Past(Lock(0, value, Resting, AllLooking(readers)), Log([value], Zeros(readers)))
    else
      After(RunLock(value, readers, steps[..|steps| - 1]), steps[|steps| - 1])
  }

  function AllLooking<W>(n: nat): (r: seq<Reader<W>>)
    ensures |r| == n && forall i :: 0 <= i < n ==> r[i] == Looking
  {
    if n == 0 then [] else AllLooking(n - 1) + [Looking]
  }

  function Zeros(n: nat): (r: seq<nat>)
    ensures |r| == n
  {
    if n == 0 then [] else Zeros(n - 1) + [0]
  }

  lemma {:induction false} RunInv<W>(value: seq<W>, readers: nat, steps: seq<Action<W>>)
    ensures var p := RunLock(value, readers, steps); Inv(p.lock, p.log)
  {
    if steps == [] {
      var p := RunLock(value, readers, []);
      forall i | 0 <= i < readers ensures ReaderOk(p.lock, p.log, i) {
      }
    } else {
      RunInv(value, readers, steps[..|steps| - 1]);
      var p := RunLock(value, readers, steps[..|steps| - 1]);
      StepKeeps(p.lock, p.log, steps[|steps| - 1]);
    }
  }

  /**
   In every interleaving of one writer and any number of readers, a load that returns gives exactly
   the value of one store, the latest that was complete when the load read the sequence, unless the
   number of stores that completed in between is a positive multiple of 2^31.
   */
  lemma NeverTorn<W>(value: seq<W>, readers: nat, steps: seq<Action<W>>, i: nat)
    requires var p := RunLock(value, readers, steps);
             NoWrap(p.lock, p.log, i) && Step(p.lock, EndLoad(i)).1.Loaded?
    ensures var p := RunLock(value, readers, steps); Whole(p.lock, p.log, i)
  {
    RunInv(value, readers, steps);
    var p := RunLock(value, readers, steps);
    LoadIsWhole(p.lock, p.log, i);
  }

  // ----- The bound is tight -----

  lemma RunAppend<W>(value: seq<W>, readers: nat, steps: seq<Action<W>>, a: Action<W>)
    ensures RunLock(value, readers, steps + [a]) == After(RunLock(value, readers, steps), a)
  {
    assert (steps + [a])[..|steps|] == steps;
  }

  /** A reader begins to copy [0, 0] and has its first word; then [1, 1] is stored `n` times. */
  function Stores(n: nat): (r: seq<Action<int>>) {
    if n == 0 then [BeginLoad(0), LoadWord(0, 0)]
    else Stores(n - 1) + [BeginStore([1, 1])] + [StoreWord(0)] + [StoreWord(1)] + [EndStore]
  }

  lemma StoresBegin()
    ensures var p := RunLock([0, 0], 1, Stores(0));
            && p.lock == Lock(0, [0, 0], Resting, [Copying(0, map[0 := 0])])
            && p.log == Log([[0, 0]], [0])
  {
    var first: seq<Action<int>> := [BeginLoad(0)];
    RunAppend([0, 0], 1, [], BeginLoad(0));
    RunAppend([0, 0], 1, first, LoadWord(0, 0));
    assert [] + first == first;
    assert first + [LoadWord(0, 0)] == Stores(0);
    assert AllLooking<int>(1) == [Looking];
    assert Zeros(1) == [0];
  }

  /** One whole store, from a resting lock to a resting lock. */
  lemma OneStore(p: Past<int>)
    requires |p.log.stores| > 0 && |p.log.since| == |p.lock.readers|
    requires p.lock.writer.Resting? && |p.lock.data| == 2
    ensures After(After(After(After(p, BeginStore([1, 1])), StoreWord(0)), StoreWord(1)), EndStore)
         == Past(Lock((p.lock.seq_ + 2) % WORD32, [1, 1], Resting, p.lock.readers),
                 p.log.(stores := p.log.stores + [[1, 1]]))
  {
    assert Indices(2) - {0} - {1} == {};
  }

  lemma StoresStep(n: nat)
    ensures RunLock([0, 0], 1, Stores(n + 1)) ==
            After(After(After(After(RunLock([0, 0], 1, Stores(n)), BeginStore([1, 1])), StoreWord(0)), StoreWord(1)), EndStore)
  {
    var s := Stores(n);
    RunAppend([0, 0], 1, s, BeginStore([1, 1]));
    RunAppend([0, 0], 1, s + [BeginStore([1, 1])], StoreWord(0));
    RunAppend([0, 0], 1, s + [BeginStore([1, 1])] + [StoreWord(0)], StoreWord(1));
    RunAppend([0, 0], 1, s + [BeginStore([1, 1])] + [StoreWord(0)] + [StoreWord(1)], EndStore);
  }

  function Ones(n: nat): (r: seq<seq<int>>)
    ensures |r| == n && forall k :: 0 <= k < n ==> r[k] == [1, 1]
  {
    if n == 0 then [] else Ones(n - 1) + [[1, 1]]
  }

  /** The lock and its log after `n` stores under the reader's eyes. */
  function Watched(n: nat): (p: Past<int>)
    ensures |p.log.stores| > 0 && |p.log.since| == |p.lock.readers|
  {
    Past(Lock((2 * n) % WORD32, if n == 0 then [0, 0] else [1, 1], Resting, [Copying(0, map[0 := 0])]),
         Log([[0, 0]] + Ones(n), [0]))
  }

  lemma WatchedStep(n: nat)
    ensures After(After(After(After(Watched(n), BeginStore([1, 1])), StoreWord(0)), StoreWord(1)), EndStore)
         == Watched(n + 1)
  {
    OneStore(Watched(n));
    TwoMore(n);
    assert [[0, 0]] + Ones(n) + [[1, 1]] == [[0, 0]] + Ones(n + 1);
  }

  lemma {:induction false} WatchedIsRun(n: nat)
    ensures RunLock([0, 0], 1, Stores(n)) == Watched(n)
  {
    if n == 0 {
      StoresBegin();
      assert [[0, 0]] + Ones(0) == [[0, 0]];
    } else {
      WatchedIsRun(n - 1);
      StoresStep(n - 1);
      WatchedStep(n - 1);
    }
  }

  lemma Doubled(n: nat)
    requires n % HALF == 0
    ensures (2 * n) % WORD32 == 0
  {
  }

  lemma TornFrom(n: nat)
    requires n > 0 && n % HALF == 0
    ensures var q := After(Watched(n), LoadWord(0, 1));
            && q.log == Watched(n).log && Step(q.lock, EndLoad(0)).1 == Loaded(0, map[0 := 0, 1 := 1])
  {
    Doubled(n);
    assert Indices(2) == {0, 1};
    assert map[0 := 0, 1 := 1].Keys == {0, 1};
  }

  /**
   When a multiple of 2^31 stores completes during one copy the sequence has come round, and the
   load returns a mixture that no store ever wrote.
   */
  lemma TornAfterWrap(n: nat)
    requires n > 0 && n % HALF == 0
    ensures var p := RunLock([0, 0], 1, Stores(n) + [LoadWord(0, 1)]);
            && |p.log.stores| == n + 1 && p.log.since == [0]
            && Step(p.lock, EndLoad(0)).1 == Loaded(0, map[0 := 0, 1 := 1])
            && forall k :: 0 <= k <= n ==> p.log.stores[k] == [0, 0] || p.log.stores[k] == [1, 1]
  {
    WatchedIsRun(n);
    RunAppend([0, 0], 1, Stores(n), LoadWord(0, 1));
    TornFrom(n);
  }

  // ----- Exactly when -----

  /** In this run reader `i` is about to return, `n` stores after it began. */
  ghost predicate Returns(value: seq<int>, readers: nat, steps: seq<Action<int>>, i: nat, n: nat) {
    var p := RunLock(value, readers, steps);
    Step(p.lock, EndLoad(i)).1.Loaded? && i < |p.lock.readers| && Missed(p.lock, p.log, i) == n
  }

  ghost predicate AlwaysWhole(n: nat) {
    forall value: seq<int>, readers, steps, i {:trigger Returns(value, readers, steps, i, n)} ::
      Returns(value, readers, steps, i, n) ==> var p := RunLock(value, readers, steps); Whole(p.lock, p.log, i)
  }

  /** Every load under which `n` stores complete is whole if and only if `n` is no positive multiple of 2^31. */
  lemma AlwaysWholeIff(n: nat)
    ensures AlwaysWhole(n) <==> n == 0 || n % 0x8000_0000 != 0
  {
    if n == 0 || n % HALF != 0 {
      forall value: seq<int>, readers, steps, i | Returns(value, readers, steps, i, n)
        ensures var p := RunLock(value, readers, steps); Whole(p.lock, p.log, i)
      {
        NeverTorn(value, readers, steps, i);
      }
    } else {
      TornAfterWrap(n);
      var steps := Stores(n) + [LoadWord(0, 1)];
      var p := RunLock([0, 0], 1, steps);
      RunInv([0, 0], 1, steps);
      assert Returns([0, 0], 1, steps, 0, n);
      assert !Whole(p.lock, p.log, 0);
    }
  }
}
