/**
 Whole runs of a shard: thousands of books over one pool and one index, any interleaving of their
 messages, session changes and resets.
 */
module ShardTheorems {
  import opened BookModel
  import opened BookSafety
  import opened BookCharges
  import opened BookRefinement
  import opened BookTheorems
  import opened SharedPool
  import opened ShardModel
  import opened ShardReset
  import opened ShardRange

  // ----- Pool and index -----

  /** No slot is indexed twice, or both indexed and free, and the pool bounds the index. */
  ghost predicate SoundStore(s: Shard) {
    && 0 < |s.orders| <= POOL_LIMIT && Distinct(s.free)
    && (forall r, t :: r in s.index && t in s.index && s.index[r] == s.index[t] ==> r == t)
    && (forall r :: r in s.index ==> s.index[r] < |s.orders| && s.index[r] !in s.free)
    && |s.index| + |s.free| <= |s.orders|
    && 0 !in s.index
  }

  lemma DeliverSound(s: Shard, e: Event)
    requires WfShard(s) && SoundStore(s) && WfEvent(e) && e.body.OrderFlow?
    ensures SoundStore(Deliver(s, e).0)
  {
    var b := BookAt(s, e.locate / NUM_SHARDS);
    assert Sound(b);
    ApplySound(b, e.body.msg, 0);
  }

  lemma NewStoreSound(orders: seq<Order>, s: Shard)
    requires 0 < |orders| <= POOL_LIMIT && WfOrders(orders)
    requires s.orders == orders && s.free == InitialFree(|orders|) && s.index == map[]
    ensures SoundStore(s)
  {
    InitialGuarded(orders);
  }

  lemma DispatchSound(s: Shard, e: Event)
    requires WfShard(s) && SoundStore(s) && WfEvent(e)
    ensures SoundStore(Dispatch(s, e).0)
  {
    var i := e.locate / NUM_SHARDS;
    if e.body.SessionReset? {
      assert Wf(BookAt(s, 0));
      NewStoreSound(s.orders, ResetShard(s));
    } else if e.body.OrderFlow? && e.session.Open? {
      if s.active[i] {
        DeliverSound(s, e);
      } else if e.body.msg.Add? {
        SameBooksWf(s, Activate(s, i));
        DeliverSound(Activate(s, i), e);
      }
    }
  }

  /**
   Pool and index agree after every run, whatever references its messages carry and to whichever
   book; and while fewer than 2^32 events follow each other without a reset, no event removes a level
   that is not in use.
   */
  lemma EveryShardRunSound(id: nat, orders: seq<Order>, es: seq<Event>)
    requires id < NUM_SHARDS && 0 < |orders| <= POOL_LIMIT && WfOrders(orders) && WfShard(NewShard(id, orders))
    requires forall i :: 0 <= i < |es| ==> WfEvent(es[i])
    ensures SoundStore(RunShard(NewShard(id, orders), es).0)
    ensures Young(es) ==> RunInRange(NewShard(id, orders), es)
  {
    RunSound(id, orders, es);
    if Young(es) {
      EveryRemovalInRange(id, orders, es);
    }
  }

  lemma {:induction false} RunSound(id: nat, orders: seq<Order>, es: seq<Event>)
    requires id < NUM_SHARDS && 0 < |orders| <= POOL_LIMIT && WfOrders(orders) && WfShard(NewShard(id, orders))
    requires forall i :: 0 <= i < |es| ==> WfEvent(es[i])
    ensures SoundStore(RunShard(NewShard(id, orders), es).0)
  {
    var s := NewShard(id, orders);
    if es == [] {
      NewStoreSound(orders, s);
    } else {
      RunSound(id, orders, es[..|es| - 1]);
      DispatchSound(RunShard(s, es[..|es| - 1]).0, es[|es| - 1]);
    }
  }

  // ----- Session reset -----

  /**
   After any run and a session reset, any later run publishes exactly what it would publish on a
   new worker, whatever well-formed pool memory that worker starts with.  With fewer than 2^32 events between
   resets, none of the three runs removes a level that is not in use.
   */
  lemma ResetErasesHistory(id: nat, orders: seq<Order>, before: seq<Event>, reset: Event,
                           orders': seq<Order>, after: seq<Event>)
    requires id < NUM_SHARDS && |orders| == |orders'| < NONE && WfOrders(orders) && WfOrders(orders')
    requires WfShard(NewShard(id, orders)) && WfShard(NewShard(id, orders'))
    requires forall i :: 0 <= i < |before| ==> WfEvent(before[i])
    requires forall i :: 0 <= i < |after| ==> WfEvent(after[i])
    requires WfEvent(reset) && reset.body.SessionReset?
    ensures var s := Dispatch(RunShard(NewShard(id, orders), before).0, reset).0;
            && s == NewShard(id, s.orders)
            && RunShard(s, after).1 == RunShard(NewShard(id, orders'), after).1
            && (Young(before) ==> RunInRange(NewShard(id, orders), before))
            && (Young(after) ==> RunInRange(s, after) && RunInRange(NewShard(id, orders'), after))
  {
    var u := RunShard(NewShard(id, orders), before).0;
    RunIdle(NewShard(id, orders), before);
    ResetIsNew(u);
    RunSame(Dispatch(u, reset).0, NewShard(id, orders'), after);
    if Young(before) {
      EveryRemovalInRange(id, orders, before);
    }
    if Young(after) {
      assert Wf(BookAt(u, 0));
      EveryRemovalInRange(id, u.orders, after);
      EveryRemovalInRange(id, orders', after);
    }
  }

  // ----- The reference shard -----

  /** One reference book per symbol, and the number of slots of the pool that they share. */
  datatype RefShard = RefShard(active: seq<bool>, markets: seq<Market>, capacity: nat)

  function NoOrders(n: nat): (ms: seq<Market>)
    ensures |ms| == n && forall i :: 0 <= i < n ==> ms[i] == NO_ORDERS
  {
    if n == 0 then [] else NoOrders(n - 1) + [NO_ORDERS]
  }

  /** The orders that rest in all books together. */
  function Live(ms: seq<Market>): (n: nat) {
    if ms == [] then 0 else Live(ms[..|ms| - 1]) + |ms[|ms| - 1].home|
  }

  predicate WfRef(r: RefShard) {
    |r.active| == |r.markets| == BOOKS_PER_SHARD
  }

  function RefDispatch(r: RefShard, e: Event): (r': RefShard)
    requires WfRef(r) && WfEvent(e)
    ensures WfRef(r') && r'.capacity == r.capacity
  {
    var i := e.locate / NUM_SHARDS;
    if e.body.SessionReset? then RefShard(Inactive(BOOKS_PER_SHARD), NoOrders(BOOKS_PER_SHARD), r.capacity)
    else if e.body.StockDirectory? && (e.session.Open? || (e.session.PreOpen? && e.warmup)) then
      r.(active := r.active[i := true])
    else if Reaches(r.active, e) then
      r.(active := r.active[i := true],
         markets := r.markets[i := MarketApply(r.markets[i], e.body.msg, Live(r.markets) < r.capacity)])
    else r
  }

  /** The reference run depends on the messages and the size of the pool alone. */
  function RefRun(es: seq<Event>, capacity: nat): (r: RefShard)
    requires forall i :: 0 <= i < |es| ==> WfEvent(es[i])
    ensures WfRef(r) && r.capacity == capacity
  {
    if es == [] then RefShard(Inactive(BOOKS_PER_SHARD), NoOrders(BOOKS_PER_SHARD), capacity)
    else RefDispatch(RefRun(es[..|es| - 1], capacity), es[|es| - 1])
  }

  // ----- How a shard stands for a reference shard -----

  /** Symbol `i` stands for its own reference book. */
  ghost predicate Stands(s: Shard, ms: seq<Market>, ss: seq<Slots>, i: nat)
    requires i < |s.symbols| && i < |ms| && i < |ss|
  {
    Rep(BookAt(s, i), ms[i], ss[i])
  }

  predicate Apart(ms: seq<Market>, i: nat, j: nat)
    requires i < |ms| && j < |ms|
  {
    ms[i].home.Keys !! ms[j].home.Keys
  }

  /** Every symbol stands for its own reference book, and no two of them share a reference. */
  ghost predicate Books(s: Shard, ms: seq<Market>, ss: seq<Slots>) {
    && WfShard(s) && |ms| == |ss| == BOOKS_PER_SHARD
    && (forall i {:trigger Stands(s, ms, ss, i)} :: 0 <= i < BOOKS_PER_SHARD ==> Stands(s, ms, ss, i))
    && (forall i, j {:trigger Apart(ms, i, j)} :: 0 <= i < BOOKS_PER_SHARD && 0 <= j < BOOKS_PER_SHARD && i != j ==> Apart(ms, i, j))
  }

  /** Every slot of the pool is free or indexed, and every indexed order rests in some book. */
  ghost predicate Full(s: Shard, ms: seq<Market>) {
    |s.index| == Live(ms) && |s.index| + |s.free| == |s.orders|
  }

  ghost predicate Follows(s: Shard, r: RefShard, ss: seq<Slots>) {
    && Books(s, r.markets, ss) && Full(s, r.markets)
    && r.active == s.active && r.capacity == |s.orders|
  }

  /** What a message that reaches a book must meet. */
  predicate AdmissibleEvent(s: Shard, r: RefShard, e: Event)
    requires |s.active| == |s.symbols| == BOOKS_PER_SHARD && WfRef(r) && WfEvent(e)
  {
    var i := e.locate / NUM_SHARDS;
    Reaches(s.active, e) ==> Owned(BookAt(s, i), r.markets[i], e.body.msg) && Admissible(BookAt(s, i), e.body.msg)
  }

  ghost predicate AdmissibleShardRun(s: Shard, es: seq<Event>)
    requires WfShard(s) && forall i :: 0 <= i < |es| ==> WfEvent(es[i])
  {
    es == [] || (&& AdmissibleShardRun(s, es[..|es| - 1])
                 && AdmissibleEvent(RunShard(s, es[..|es| - 1]).0, RefRun(es[..|es| - 1], |s.orders|), es[|es| - 1]))
  }

  // ----- Counting -----

  lemma {:induction false} LiveChange(ms: seq<Market>, i: nat, m: Market)
    requires i < |ms|
    ensures Live(ms[i := m]) == Live(ms) - |ms[i].home| + |m.home|
  {
    var last, ms' := |ms| - 1, ms[i := m];
    if i == last {
      assert ms'[..last] == ms[..last];
    } else {
      LiveChange(ms[..last], i, m);
      assert ms'[..last] == ms[..last][i := m];
    }
  }

  lemma {:induction false} NoneLive(n: nat)
    ensures Live(NoOrders(n)) == 0
  {
    if n > 0 {
      NoneLive(n - 1);
      assert NoOrders(n)[..n - 1] == NoOrders(n - 1);
    }
  }

  lemma SharesCount(b: Book, m: Market, others: set<nat>)
    requires Shares(b, m, others)
    ensures |b.index| == |m.home| + |others|
  {
    assert |b.index| == |b.index.Keys| && |m.home| == |m.home.Keys|;
  }

  lemma HomesIndexed(b: Book, m: Market, s: Slots)
    requires Rep(b, m, s)
    ensures m.home.Keys <= b.index.Keys
  {
    forall r | r in m.home ensures r in b.index {
      assert Homed(b, m, s, r);
    }
  }

  lemma TheOthers(b: Book, m: Market) returns (others: set<nat>)
    requires m.home.Keys <= b.index.Keys
    ensures Shares(b, m, others)
  {
    others := b.index.Keys - m.home.Keys;
  }

  lemma StepCount(b: Book, m: Market, s: Slots, msg: Message)
    requires Rep(b, m, s) && WfMessage(msg) && Owned(b, m, msg) && Admissible(b, msg)
    ensures |Apply(b, msg).index| == |b.index| - |m.home| + |MarketApply(m, msg, b.free != []).home|
  {
    HomesIndexed(b, m, s);
    var others := TheOthers(b, m);
    StepKeys(b, m, s, msg, others);
    SharesCount(b, m, others);
    SharesCount(Apply(b, msg), MarketApply(m, msg, b.free != []), others);
  }

  // ----- One message -----

  /** A reference enters a reference book only when no book of the shard has it. */
  lemma HomeGrows(b: Book, m: Market, msg: Message, room: bool, r: nat)
    requires Admissible(b, msg) && r in MarketApply(m, msg, room).home
    ensures r in m.home || r !in b.index
  {
  }

  lemma StillApart(b: Book, m: Market, msg: Message, room: bool, d: Book, n: Market, t: Slots)
    requires Admissible(b, msg) && Rep(d, n, t) && d.index == b.index && m.home.Keys !! n.home.Keys
    ensures MarketApply(m, msg, room).home.Keys !! n.home.Keys
  {
    forall r | r in n.home ensures r !in MarketApply(m, msg, room).home {
      assert Homed(d, n, t, r);
      if r in MarketApply(m, msg, room).home {
        HomeGrows(b, m, msg, room, r);
      }
    }
  }

  /** Delivery to one symbol, seen from another. */
  lemma DeliverStands(s: Shard, ms: seq<Market>, ss: seq<Slots>, e: Event, c: Book, j: nat)
    requires Books(s, ms, ss) && WfEvent(e) && e.body.OrderFlow? && j < BOOKS_PER_SHARD && j != e.locate / NUM_SHARDS
    requires var i := e.locate / NUM_SHARDS;
             && Owned(BookAt(s, i), ms[i], e.body.msg) && Admissible(BookAt(s, i), e.body.msg)
             && c == Apply(BookAt(s, i), e.body.msg)
    ensures Rep(BookAt(WithBook(s, e.locate / NUM_SHARDS, c), j), ms[j], ss[j])
    ensures MarketApply(ms[e.locate / NUM_SHARDS], e.body.msg, s.free != []).home.Keys !! ms[j].home.Keys
  {
    var i := e.locate / NUM_SHARDS;
    assert Stands(s, ms, ss, i) && Stands(s, ms, ss, j) && Apart(ms, i, j);
    NeighbourKept(BookAt(s, i), ms[i], ss[i], e.body.msg, BookAt(s, j), ms[j], ss[j]);
    StillApart(BookAt(s, i), ms[i], e.body.msg, s.free != [], BookAt(s, j), ms[j], ss[j]);
    assert BookAt(WithBook(s, i, c), j) == Over(BookAt(s, j), c);
  }

  lemma AllApart(ms: seq<Market>, i: nat, m: Market, ms': seq<Market>)
    requires i < |ms| && ms' == ms[i := m]
    requires forall j, k {:trigger Apart(ms, j, k)} :: 0 <= j < |ms| && 0 <= k < |ms| && j != k ==> Apart(ms, j, k)
    requires forall j :: 0 <= j < |ms| && j != i ==> m.home.Keys !! ms[j].home.Keys
    ensures forall j, k {:trigger Apart(ms', j, k)} :: 0 <= j < |ms| && 0 <= k < |ms| && j != k ==> Apart(ms', j, k)
  {
    forall j, k | 0 <= j < |ms| && 0 <= k < |ms| && j != k ensures Apart(ms', j, k) {
      assert Apart(ms, j, k);
    }
  }

  lemma DeliverBooks(s: Shard, ms: seq<Market>, ss: seq<Slots>, e: Event, c: Book, m: Market, t: Slots)
    requires Books(s, ms, ss) && WfEvent(e) && e.body.OrderFlow?
    requires var i := e.locate / NUM_SHARDS;
             && Owned(BookAt(s, i), ms[i], e.body.msg) && Admissible(BookAt(s, i), e.body.msg)
             && c == Apply(BookAt(s, i), e.body.msg) && m == MarketApply(ms[i], e.body.msg, s.free != [])
    requires Rep(c, m, t) && WfShard(WithBook(s, e.locate / NUM_SHARDS, c))
    ensures var i := e.locate / NUM_SHARDS; Books(WithBook(s, i, c), ms[i := m], ss[i := t])
  {
    var i := e.locate / NUM_SHARDS;
    var s', ms', ss' := WithBook(s, i, c), ms[i := m], ss[i := t];
    forall j | 0 <= j < BOOKS_PER_SHARD ensures Stands(s', ms', ss', j) && (j != i ==> m.home.Keys !! ms[j].home.Keys) {
      if j != i {
        DeliverStands(s, ms, ss, e, c, j);
      } else {
        assert BookAt(s', i) == c;
      }
    }
    AllApart(ms, i, m, ms');
  }

  /** What is published goes to the slot of the message, with its time and the best of its reference book. */
  ghost predicate BestQuotes(ms: seq<Market>, out: seq<Published>, e: Event)
    requires |ms| == BOOKS_PER_SHARD && WfEvent(e)
  {
    var m := ms[e.locate / NUM_SHARDS];
    forall k :: 0 <= k < |out| ==>
      && out[k].slot == e.locate && out[k].timestamp == e.timestamp
      && HighestBid(m.bids, out[k].bbo.bid) && LowestAsk(m.asks, out[k].bbo.ask)
  }

  lemma DeliverQuotes(s: Shard, ms: seq<Market>, e: Event, c: Book, m: Market, t: Slots)
    requires WfShard(s) && |ms| == BOOKS_PER_SHARD && WfEvent(e) && e.body.OrderFlow?
    requires c == Apply(BookAt(s, e.locate / NUM_SHARDS), e.body.msg) && Rep(c, m, t)
    ensures BestQuotes(ms[e.locate / NUM_SHARDS := m], Deliver(s, e).1, e)
  {
    BboIsBest(c, m, t);
  }

  lemma DeliverFollows(s: Shard, ms: seq<Market>, ss: seq<Slots>, e: Event) returns (ss': seq<Slots>)
    requires Books(s, ms, ss) && WfEvent(e) && e.body.OrderFlow?
    requires var i := e.locate / NUM_SHARDS; Owned(BookAt(s, i), ms[i], e.body.msg) && Admissible(BookAt(s, i), e.body.msg)
    ensures var i := e.locate / NUM_SHARDS;
            var ms' := ms[i := MarketApply(ms[i], e.body.msg, s.free != [])];
            Books(Deliver(s, e).0, ms', ss') && BestQuotes(ms', Deliver(s, e).1, e)
  {
    var i := e.locate / NUM_SHARDS;
    assert Stands(s, ms, ss, i);
    var t := StepRefines(BookAt(s, i), ms[i], ss[i], e.body.msg);
    var c, m := Apply(BookAt(s, i), e.body.msg), MarketApply(ms[i], e.body.msg, s.free != []);
    WithBookWf(s, i, c);
    DeliverBooks(s, ms, ss, e, c, m, t);
    DeliverQuotes(s, ms, e, c, m, t);
    ss' := ss[i := t];
  }

  lemma DeliverFull(s: Shard, ms: seq<Market>, ss: seq<Slots>, e: Event)
    requires Books(s, ms, ss) && Full(s, ms) && WfEvent(e) && e.body.OrderFlow?
    requires var i := e.locate / NUM_SHARDS; Owned(BookAt(s, i), ms[i], e.body.msg) && Admissible(BookAt(s, i), e.body.msg)
    ensures var i := e.locate / NUM_SHARDS;
            Full(Deliver(s, e).0, ms[i := MarketApply(ms[i], e.body.msg, s.free != [])])
  {
    var i := e.locate / NUM_SHARDS;
    assert Stands(s, ms, ss, i);
    StepCount(BookAt(s, i), ms[i], ss[i], e.body.msg);
    StepNoLeak(BookAt(s, i), e.body.msg);
    LiveChange(ms, i, MarketApply(ms[i], e.body.msg, s.free != []));
  }

  lemma NewBooks(id: nat, orders: seq<Order>, ms: seq<Market>, ss: seq<Slots>)
    requires id < NUM_SHARDS && 0 < |orders| <= POOL_LIMIT && WfOrders(orders)
    requires |ms| == BOOKS_PER_SHARD && forall i :: 0 <= i < |ms| ==> ms[i] == NO_ORDERS
    requires |ss| == BOOKS_PER_SHARD && forall i :: 0 <= i < |ss| ==> ss[i] == Slots([], [])
    ensures Books(NewShard(id, orders), ms, ss)
  {
    NewShardWf(id, orders);
    InitialRefines(orders);
    var s := NewShard(id, orders);
    forall i | 0 <= i < BOOKS_PER_SHARD ensures Stands(s, ms, ss, i) {
      assert s.symbols[i] == FreshSymbol(LocateAt(id, i));
      assert BookAt(s, i) == Initial(orders);
    }
    forall i, j | 0 <= i < BOOKS_PER_SHARD && 0 <= j < BOOKS_PER_SHARD && i != j ensures Apart(ms, i, j) {
    }
  }

  lemma NewFollows(id: nat, orders: seq<Order>)
    requires id < NUM_SHARDS && 0 < |orders| <= POOL_LIMIT && WfOrders(orders)
    ensures Follows(NewShard(id, orders), RefRun([], |orders|), seq(BOOKS_PER_SHARD, _ => Slots([], [])))
  {
    NewShardWf(id, orders);
    NoneLive(BOOKS_PER_SHARD);
    var r := RefRun([], |orders|);
    NewBooks(id, orders, r.markets, seq(BOOKS_PER_SHARD, _ => Slots([], [])));
  }

  /** The same books under other activity flags and trading states. */
  lemma SameBooksStand(s: Shard, t: Shard, ms: seq<Market>, ss: seq<Slots>)
    requires Books(s, ms, ss) && WfShard(t)
    requires forall i :: 0 <= i < BOOKS_PER_SHARD ==> BookAt(t, i) == BookAt(s, i)
    ensures Books(t, ms, ss)
  {
    forall i | 0 <= i < BOOKS_PER_SHARD ensures Stands(t, ms, ss, i) {
      assert Stands(s, ms, ss, i);
    }
  }

  lemma ReachFollows(s: Shard, r: RefShard, ss: seq<Slots>, e: Event) returns (ss': seq<Slots>)
    requires Follows(s, r, ss) && WfEvent(e) && Reaches(s.active, e) && AdmissibleEvent(s, r, e)
    ensures Follows(Dispatch(s, e).0, RefDispatch(r, e), ss')
    ensures BestQuotes(RefDispatch(r, e).markets, Dispatch(s, e).1, e) && |Dispatch(s, e).1| == 1
  {
    var i := e.locate / NUM_SHARDS;
    var t := Activate(s, i);
    SameBooksWf(s, t);
    SameBooksStand(s, t, r.markets, ss);
    assert BookAt(t, i) == BookAt(s, i);
    assert s.active[i] ==> t.active == s.active;
    ss' := DeliverFollows(t, r.markets, ss, e);
    DeliverFull(t, r.markets, ss, e);
  }

  /** One event of any kind. */
  lemma DispatchFollows(s: Shard, r: RefShard, ss: seq<Slots>, e: Event) returns (ss': seq<Slots>)
    requires Follows(s, r, ss) && WfEvent(e) && AdmissibleEvent(s, r, e) && Idle(s)
    requires 0 < |s.orders| <= POOL_LIMIT
    ensures Follows(Dispatch(s, e).0, RefDispatch(r, e), ss')
    ensures BestQuotes(RefDispatch(r, e).markets, Dispatch(s, e).1, e)
    ensures |Dispatch(s, e).1| == if Reaches(s.active, e) then 1 else 0
  {
    if e.body.SessionReset? {
      ResetIsNew(s);
      assert Wf(BookAt(s, 0));
      NewFollows(s.id, s.orders);
      ss' := seq(BOOKS_PER_SHARD, _ => Slots([], []));
    } else if Reaches(s.active, e) {
      ss' := ReachFollows(s, r, ss, e);
    } else {
      SameBooksStand(s, Dispatch(s, e).0, r.markets, ss);
      ss' := ss;
    }
  }

  /**
   Over every admissible run of a new shard, each symbol follows its own reference book, and an
   event that reaches a book publishes one pair of quotes, the best of that reference book.
   */
  lemma EveryShardRun(id: nat, orders: seq<Order>, es: seq<Event>, next: Event) returns (ss: seq<Slots>)
    requires id < NUM_SHARDS && 0 < |orders| <= 2_000_000 && WfOrders(orders) && WfShard(NewShard(id, orders))
    requires (forall i :: 0 <= i < |es| ==> WfEvent(es[i])) && WfEvent(next)
    requires AdmissibleShardRun(NewShard(id, orders), es)
    requires AdmissibleEvent(RunShard(NewShard(id, orders), es).0, RefRun(es, |orders|), next)
    ensures var s, r := RunShard(NewShard(id, orders), es).0, RefRun(es, |orders|);
            && Follows(s, r, ss) && BestQuotes(RefDispatch(r, next).markets, Dispatch(s, next).1, next)
            && |Dispatch(s, next).1| == if Reaches(s.active, next) then 1 else 0
  {
    ss := RunFollows(id, orders, es);
    RunIdle(NewShard(id, orders), es);
    var ss' := DispatchFollows(RunShard(NewShard(id, orders), es).0, RefRun(es, |orders|), ss, next);
  }

  lemma {:induction false} RunFollows(id: nat, orders: seq<Order>, es: seq<Event>) returns (ss: seq<Slots>)
    requires id < NUM_SHARDS && 0 < |orders| <= POOL_LIMIT && WfOrders(orders) && WfShard(NewShard(id, orders))
    requires forall i :: 0 <= i < |es| ==> WfEvent(es[i])
    requires AdmissibleShardRun(NewShard(id, orders), es)
    ensures Follows(RunShard(NewShard(id, orders), es).0, RefRun(es, |orders|), ss)
  {
    var s0 := NewShard(id, orders);
    if es == [] {
      NewFollows(id, orders);
      ss := seq(BOOKS_PER_SHARD, _ => Slots([], []));
    } else {
      var p := es[..|es| - 1];
      ss := RunFollows(id, orders, p);
      RunIdle(s0, p);
      ss := DispatchFollows(RunShard(s0, p).0, RefRun(p, |orders|), ss, es[|es| - 1]);
    }
  }
}
