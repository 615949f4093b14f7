/**
 Whole-book results: the best bid and offer, which runs are faithful, when the level field of an
 order survives a shift of the ladder, and a run on which it does not.
 */
module BookTheorems {
  import opened Words
  import opened BookModel
  import opened BookSafety
  import opened PriceQueues
  import opened LadderView
  import opened BookRefinement
  import opened HandlerRefinement
  import opened AmendRefinement
  import opened StaleLevels

  // ----- Best bid and offer -----

  datatype Quote = Quote(price: int, qty: nat)

  datatype Bbo = Bbo(bid: Quote, ask: Quote)

  function TopOf(l: Ladder): (q: Quote)
    requires l.depth <= |l.levels|
  {
    if l.depth > 0 then Quote(l.levels[0].price, l.levels[0].total) else Quote(0, 0)
  }

  function GetBbo(b: Book): (r: Bbo)
    requires b.bids.depth <= |b.bids.levels| && b.asks.depth <= |b.asks.levels|
  {
    Bbo(TopOf(b.bids), TopOf(b.asks))
  }

  /** The quote is the best price that has a queue, with the queue's total on 32 bits, or nothing. */
  ghost predicate BestOf(side: Side, a: Queues, q: Quote) {
    if a == map[] then q == Quote(0, 0)
    else
      && q.price in a && q.qty == Total(a[q.price]) % WORD32
      && forall p :: p in a && p != q.price ==> Better(side, q.price, p)
  }

  lemma TopIsBest(b: Book, m: Market, s: Slots, side: Side)
    requires Rep(b, m, s)
    ensures b.On(side).depth <= |b.On(side).levels| && BestOf(side, m.On(side), TopOf(b.On(side)))
  {
    var l, a := b.On(side), m.On(side);
    ShownOn(b, m, s, side);
    if l.depth == 0 {
      assert a.Keys == {};
    } else {
      LevelTells(b, m, s, side, 0);
      forall p | p in a && p != l.levels[0].price ensures Better(side, l.levels[0].price, p) {
        assert HasPrice(l, p);
        var i :| 0 <= i < l.depth && l.levels[i].price == p;
        assert Better(side, l.levels[0].price, l.levels[i].price);
      }
    }
  }

  /** The highest price that has a queue, with the queue's total on 32 bits, or nothing. */
  ghost predicate HighestBid(a: Queues, q: Quote) {
    if a == map[] then q == Quote(0, 0)
    else q.price in a && (forall p :: p in a ==> p <= q.price) && q.qty == Total(a[q.price]) % 0x1_0000_0000
  }

  /** The lowest price that has a queue, with the queue's total on 32 bits, or nothing. */
  ghost predicate LowestAsk(a: Queues, q: Quote) {
    if a == map[] then q == Quote(0, 0)
    else q.price in a && (forall p :: p in a ==> p >= q.price) && q.qty == Total(a[q.price]) % 0x1_0000_0000
  }

  /** The published quotes are the highest bid and the lowest ask of the abstract book. */
  lemma BboIsBest(b: Book, m: Market, s: Slots)
    requires Rep(b, m, s)
    ensures b.bids.depth <= |b.bids.levels| && b.asks.depth <= |b.asks.levels|
    ensures HighestBid(m.bids, GetBbo(b).bid) && LowestAsk(m.asks, GetBbo(b).ask)
  {
    TopIsBest(b, m, s, Buy);
    TopIsBest(b, m, s, Sell);
  }

  /** Bids fall and asks rise from the first level on. */
  lemma LaddersOrdered(b: Book, m: Market, s: Slots, i: nat, j: nat)
    requires Rep(b, m, s) && i < j
    ensures j < b.bids.depth ==> j < |b.bids.levels| && b.bids.levels[i].price > b.bids.levels[j].price
    ensures j < b.asks.depth ==> j < |b.asks.levels| && b.asks.levels[i].price < b.asks.levels[j].price
  {
    ShownOn(b, m, s, Buy);
    ShownOn(b, m, s, Sell);
  }

  // ----- Shifts -----

  /** A level keeps its index through an insertion if and only if it lies before the new level. */
  lemma InsertShift(l: Ladder, side: Side, price: int, k: nat)
    requires |l.levels| == MAX_LEVELS && k < l.depth < MAX_LEVELS && Sorted(l, side) && !HasPrice(l, price)
    ensures var pos := InsertPos(l, price, side);
            InsertLevel(l, pos, price).levels[k].price == l.levels[k].price <==> k < pos
  {
    var pos := InsertPos(l, price, side);
    InsertedLevels(l, pos, price);
    assert l.levels[k].price != price;
    if k > pos {
      assert Better(side, l.levels[k - 1].price, l.levels[k].price);
    }
  }

  /** A surviving level keeps its index through a removal if and only if it lies before the removed one. */
  lemma RemoveShift(l: Ladder, side: Side, gone: nat, k: nat)
    requires |l.levels| == MAX_LEVELS && k < l.depth <= MAX_LEVELS && gone < l.depth && k != gone && Sorted(l, side)
    ensures var r := RemoveLevel(l, gone);
            k < r.depth && r.levels[k].price == l.levels[k].price <==> k < gone
  {
    RemoveSorted(l, side, gone);
    if gone < k < l.depth - 1 {
      assert Better(side, l.levels[k].price, l.levels[k + 1].price);
    }
  }

  // ----- Runs -----

  function MarketApply(m: Market, msg: Message, room: bool): (r: Market) {
    match msg
    case Add(ref, side, price, qty) => MarketAdd(m, ref, side, price, qty, room)
    case Reduce(ref, shares) => MarketReduce(m, ref, shares)
    case Delete(ref) => MarketDelete(m, ref)
    case Replace(orig, ref, qty, price) => MarketReplace(m, orig, ref, qty, price)
  }

  function RefPrice(b: Book, ref: nat): (p: int) {
    if ref in b.index && b.index[ref] < |b.orders| then b.orders[b.index[ref]].price else 0
  }

  /**
   What a caller may check before a message: new references are unused, and the order that is
   touched names its own level, or the message changes nothing.
   */
  predicate Admissible(b: Book, msg: Message) {
    match msg
    case Add(ref, _, _, _) => ref !in b.index
    case Reduce(ref, shares) => ref in b.index ==> RefCurrent(b, ref) || (shares == 0 && RefQty(b, ref) != 0)
    case Delete(ref) => ref in b.index ==> RefCurrent(b, ref)
    case Replace(orig, ref, qty, price) =>
      && (ref !in b.index || ref == orig)
      && (orig in b.index ==> RefCurrent(b, orig) || (price == RefPrice(b, orig) && qty == RefQty(b, orig)))
  }

  /** The references that a message touches are of this book, or of none. */
  predicate Owned(b: Book, m: Market, msg: Message) {
    match msg
    case Add(_, _, _, _) => true
    case Reduce(ref, _) => ref in b.index ==> ref in m.home
    case Delete(ref) => ref in b.index ==> ref in m.home
    case Replace(orig, _, _, _) => orig in b.index ==> orig in m.home
  }

  /** One admissible message, on a pool and an index that other books may share. */
  lemma {:induction false} StepRefines(b: Book, m: Market, s: Slots, msg: Message) returns (s': Slots)
    requires Rep(b, m, s) && WfMessage(msg) && Owned(b, m, msg) && Admissible(b, msg)
    ensures Rep(Apply(b, msg), MarketApply(m, msg, b.free != []), s')
  {
    match msg {
      case Add(ref, side, price, qty) =>
        UnusedHere(b, m, s, ref);
        s' := AddRefines(b, m, s, ref, side, price, qty);
      case Reduce(ref, shares) =>
        if ref in m.home {
          assert Homed(b, m, s, ref);
        }
        s' := ReduceRefines(b, m, s, ref, shares);
      case Delete(ref) =>
        s' := s;
        if ref in m.home {
          assert Homed(b, m, s, ref);
          s' := DropRefines(b, m, s, ref);
        }
      case Replace(orig, ref, qty, price) =>
        if orig in m.home {
          assert Homed(b, m, s, orig);
        }
        if ref !in b.index {
          UnusedHere(b, m, s, ref);
        }
        s' := ReplaceRefines(b, m, s, orig, ref, qty, price);
    }
  }

  // ----- Which references are live -----

  /** The index holds the references of this book and those of its neighbours. */
  ghost predicate Shares(b: Book, m: Market, others: set<nat>) {
    b.index.Keys == m.home.Keys + others && m.home.Keys !! others
  }

  /** `keys` with or without `r` when `yes`, and as they are otherwise. */
  function Gain(keys: set<nat>, r: nat, yes: bool): (k: set<nat>) {
    if yes then keys + {r} else keys
  }

  function Lose(keys: set<nat>, r: nat, yes: bool): (k: set<nat>) {
    if yes then keys - {r} else keys
  }

  lemma SharesGain(b: Book, m: Market, c: Book, n: Market, r: nat, yes: bool, others: set<nat>)
    requires Shares(b, m, others) && r !in others
    requires c.index.Keys == Gain(b.index.Keys, r, yes) && n.home.Keys == Gain(m.home.Keys, r, yes)
    ensures Shares(c, n, others)
  {
  }

  lemma SharesLose(b: Book, m: Market, c: Book, n: Market, r: nat, yes: bool, others: set<nat>)
    requires Shares(b, m, others) && r !in others
    requires c.index.Keys == Lose(b.index.Keys, r, yes) && n.home.Keys == Lose(m.home.Keys, r, yes)
    ensures Shares(c, n, others)
  {
  }

  /** The addition is listed, and not dropped for want of a slot or a level. */
  predicate Taken(b: Book, side: Side, price: int)
    requires Wf(b)
  {
    b.free != [] && (FindLevel(b.On(side), price) < b.On(side).depth || b.On(side).depth < MAX_LEVELS)
  }

  lemma AddIndex(b: Book, ref: nat, side: Side, price: int, qty: nat)
    requires Wf(b) && qty < WORD32
    ensures OnAdd(b, ref, side, price, qty).index.Keys == Gain(b.index.Keys, ref, Taken(b, side, price))
  {
    if Taken(b, side, price) {
      AddStore(b, ref, side, price, qty);
    }
  }

  predicate MarketTaken(m: Market, side: Side, price: int, room: bool) {
    room && !(price !in m.On(side) && |m.On(side)| == MAX_LEVELS)
  }

  lemma MarketAddKeys(m: Market, ref: nat, side: Side, price: int, qty: nat, room: bool)
    ensures MarketAdd(m, ref, side, price, qty, room).home.Keys == Gain(m.home.Keys, ref, MarketTaken(m, side, price, room))
  {
  }

  lemma TakenAlike(b: Book, m: Market, s: Slots, side: Side, price: int)
    requires Rep(b, m, s)
    ensures Taken(b, side, price) == MarketTaken(m, side, price, b.free != [])
  {
    ShownOn(b, m, s, side);
    AbsentPrice(b.On(side), b.orders, side, s.On(side), m.On(side), price);
  }

  lemma AddKeys(b: Book, m: Market, s: Slots, ref: nat, side: Side, price: int, qty: nat, others: set<nat>)
    requires Rep(b, m, s) && Shares(b, m, others) && qty < WORD32 && ref !in others
    ensures Shares(OnAdd(b, ref, side, price, qty), MarketAdd(m, ref, side, price, qty, b.free != []), others)
  {
    var c, n := OnAdd(b, ref, side, price, qty), MarketAdd(m, ref, side, price, qty, b.free != []);
    AddIndex(b, ref, side, price, qty);
    TakenAlike(b, m, s, side, price);
    MarketAddKeys(m, ref, side, price, qty, b.free != []);
    SharesGain(b, m, c, n, ref, Taken(b, side, price), others);
  }

  lemma DeleteKeys(b: Book, m: Market, ref: nat, others: set<nat>)
    requires Wf(b) && Shares(b, m, others) && ref !in others
    ensures Shares(OnDelete(b, ref), MarketDelete(m, ref), others)
  {
  }

  lemma ReduceIndex(b: Book, ref: nat, shares: nat)
    requires Wf(b) && shares < WORD32 && ref in b.index
    ensures OnReduce(b, ref, shares).index.Keys == Lose(b.index.Keys, ref, Sub32(b.orders[b.index[ref]].qty, shares) == 0)
  {
  }

  lemma MarketReduceKeys(m: Market, ref: nat, shares: nat, qty: nat)
    requires ref in m.home && QtyOf(m.On(m.home[ref].side), m.home[ref].price, ref) == qty
    ensures MarketReduce(m, ref, shares).home.Keys == Lose(m.home.Keys, ref, Sub32(qty, shares) == 0)
  {
  }

  lemma SameQty(b: Book, m: Market, s: Slots, ref: nat)
    requires Rep(b, m, s) && ref in m.home
    ensures ref in b.index && b.index[ref] < |b.orders|
    ensures var o, at := b.orders[b.index[ref]], m.home[ref];
            at == Spot(o.side, o.price) && QtyOf(m.On(at.side), at.price, ref) == o.qty
  {
    var i, k := Whereabouts(b, m, s, ref);
    FirstInQueue(b, m, s, ref, i, k);
  }

  lemma ReduceKeys(b: Book, m: Market, s: Slots, ref: nat, shares: nat, others: set<nat>)
    requires Rep(b, m, s) && Shares(b, m, others) && shares < WORD32 && ref !in others
    ensures Shares(OnReduce(b, ref, shares), MarketReduce(m, ref, shares), others)
  {
    if ref in m.home {
      SameQty(b, m, s, ref);
      var qty := b.orders[b.index[ref]].qty;
      ReduceIndex(b, ref, shares);
      MarketReduceKeys(m, ref, shares, qty);
      SharesLose(b, m, OnReduce(b, ref, shares), MarketReduce(m, ref, shares), ref, Sub32(qty, shares) == 0, others);
    }
  }

  lemma AmendKeys(b: Book, m: Market, orig: nat, ref: nat, qty: nat, a: Queues, others: set<nat>)
    requires Wf(b) && Shares(b, m, others) && orig in m.home && ref !in others && qty < WORD32
    ensures Shares(Amend(b, orig, ref, qty),
                   m.With(m.home[orig].side, a).(home := (m.home - {orig})[ref := m.home[orig]]), others)
  {
  }

  lemma MoveKeys(b: Book, m: Market, s: Slots, orig: nat, ref: nat, qty: nat, side: Side, price: int, others: set<nat>)
    requires Rep(b, m, s) && Shares(b, m, others) && orig in m.home && RefCurrent(b, orig)
    requires orig !in others && ref !in others && qty < WORD32
    ensures Shares(OnAdd(OnDelete(b, orig), ref, side, price, qty),
                   MarketAdd(MarketDelete(m, orig), ref, side, price, qty, true), others)
  {
    var t := DropRefines(b, m, s, orig);
    DeleteKeys(b, m, orig, others);
    assert OnDelete(b, orig).free != [];
    AddKeys(OnDelete(b, orig), MarketDelete(m, orig), t, ref, side, price, qty, others);
  }

  lemma OthersIndexed(b: Book, m: Market, r: nat, others: set<nat>)
    requires Shares(b, m, others)
    ensures r !in b.index || r in m.home ==> r !in others
  {
  }

  /** Book and abstract book take the same branch of a replacement. */
  lemma ReplaceUnfolds(b: Book, m: Market, orig: nat, ref: nat, qty: nat, price: int)
    requires Wf(b) && orig in b.index && orig in m.home && qty < WORD32
    requires var o, at := b.orders[b.index[orig]], m.home[orig];
             at == Spot(o.side, o.price) && QtyOf(m.On(at.side), at.price, orig) == o.qty
    ensures var o, at := b.orders[b.index[orig]], m.home[orig];
            var c, n := OnReplace(b, orig, ref, qty, price), MarketReplace(m, orig, ref, qty, price);
            if InPlace(o, price, qty) then
              && c == Amend(b, orig, ref, qty)
              && n == m.With(at.side, Update(m.On(at.side), at.price, orig, Resting(ref, qty)))
                       .(home := (m.home - {orig})[ref := at])
            else
              && c == OnAdd(OnDelete(b, orig), ref, o.side, price, qty)
              && n == MarketAdd(MarketDelete(m, orig), ref, o.side, price, qty, true)
  {
  }

  lemma ReplaceKeys(b: Book, m: Market, s: Slots, orig: nat, ref: nat, qty: nat, price: int, others: set<nat>)
    requires Rep(b, m, s) && Shares(b, m, others) && WfMessage(Replace(orig, ref, qty, price))
    requires Owned(b, m, Replace(orig, ref, qty, price)) && Admissible(b, Replace(orig, ref, qty, price))
    ensures Shares(OnReplace(b, orig, ref, qty, price), MarketReplace(m, orig, ref, qty, price), others)
  {
    if orig in m.home {
      SameQty(b, m, s, orig);
      OthersIndexed(b, m, orig, others);
      OthersIndexed(b, m, ref, others);
      ReplaceUnfolds(b, m, orig, ref, qty, price);
      var o, at := b.orders[b.index[orig]], m.home[orig];
      if InPlace(o, price, qty) {
        AmendKeys(b, m, orig, ref, qty, Update(m.On(at.side), at.price, orig, Resting(ref, qty)), others);
      } else {
        MoveKeys(b, m, s, orig, ref, qty, o.side, price, others);
      }
    }
  }

  /** A message changes the index exactly as it changes the directory of its own abstract book. */
  lemma StepKeys(b: Book, m: Market, s: Slots, msg: Message, others: set<nat>)
    requires Rep(b, m, s) && Shares(b, m, others) && WfMessage(msg) && Owned(b, m, msg) && Admissible(b, msg)
    ensures Shares(Apply(b, msg), MarketApply(m, msg, b.free != []), others)
  {
    match msg {
      case Add(ref, side, price, qty) =>
        OthersIndexed(b, m, ref, others);
        AddKeys(b, m, s, ref, side, price, qty, others);
      case Reduce(ref, shares) =>
        OthersIndexed(b, m, ref, others);
        ReduceKeys(b, m, s, ref, shares, others);
      case Delete(ref) =>
        OthersIndexed(b, m, ref, others);
        DeleteKeys(b, m, ref, others);
      case Replace(orig, ref, qty, price) =>
        ReplaceKeys(b, m, s, orig, ref, qty, price, others);
    }
  }

  /** No slot is lost: each is indexed or free. */
  predicate NoLeak(b: Book) {
    |b.index| + |b.free| == |b.orders|
  }

  lemma DropNoLeak(b: Book, ref: nat)
    requires Sound(b) && NoLeak(b) && ref in b.index
    ensures NoLeak(Release(Detach(b, b.index[ref]), ref, b.index[ref]))
  {
    assert (b.index - {ref}).Keys == b.index.Keys - {ref};
  }

  lemma AddNoLeak(b: Book, ref: nat, side: Side, price: int, qty: nat)
    requires Sound(b) && NoLeak(b) && ref !in b.index && qty < WORD32
    ensures NoLeak(OnAdd(b, ref, side, price, qty))
  {
    AddIndex(b, ref, side, price, qty);
    var c := OnAdd(b, ref, side, price, qty);
    assert |c.index.Keys| == |c.index| && |b.index.Keys| == |b.index|;
  }

  lemma AmendNoLeak(b: Book, orig: nat, ref: nat, qty: nat)
    requires Sound(b) && NoLeak(b) && orig in b.index && (ref !in b.index || ref == orig) && qty < WORD32
    ensures NoLeak(Amend(b, orig, ref, qty))
  {
    var rest := b.index - {orig};
    assert rest.Keys == b.index.Keys - {orig};
    assert rest[ref := b.index[orig]].Keys == rest.Keys + {ref};
  }

  lemma ReduceNoLeak(b: Book, ref: nat, shares: nat)
    requires Sound(b) && NoLeak(b) && shares < WORD32
    ensures NoLeak(OnReduce(b, ref, shares))
  {
    if ref in b.index {
      var c := Shrink(b, b.index[ref], shares);
      assert Sound(c) && NoLeak(c);
      if c.orders[b.index[ref]].qty == 0 {
        DropNoLeak(c, ref);
      }
    }
  }

  lemma StepNoLeak(b: Book, msg: Message)
    requires Sound(b) && NoLeak(b) && WfMessage(msg) && Admissible(b, msg)
    ensures NoLeak(Apply(b, msg))
  {
    match msg {
      case Add(ref, side, price, qty) => AddNoLeak(b, ref, side, price, qty);
      case Reduce(ref, shares) => ReduceNoLeak(b, ref, shares);
      case Delete(ref) =>
        if ref in b.index {
          DropNoLeak(b, ref);
        }
      case Replace(orig, ref, qty, price) =>
        if orig in b.index {
          var o := b.orders[b.index[orig]];
          if InPlace(o, price, qty) {
            AmendNoLeak(b, orig, ref, qty);
          } else {
            DropSound(b, orig);
            DropNoLeak(b, orig);
            AddNoLeak(OnDelete(b, orig), ref, o.side, price, qty);
          }
        }
    }
  }

  // ----- Runs -----

  const NO_ORDERS: Market := Market(map[], map[], map[])

  /** The abstract run: an addition finds room while fewer references are live than the pool has slots. */
  function MarketRun(ms: seq<Message>, capacity: nat): (m: Market) {
    if ms == [] then NO_ORDERS
    else
      var m := MarketRun(ms[..|ms| - 1], capacity);
      MarketApply(m, ms[|ms| - 1], |m.home| < capacity)
  }

  ghost predicate AdmissibleRun(b: Book, ms: seq<Message>)
    requires Wf(b) && forall i :: 0 <= i < |ms| ==> WfMessage(ms[i])
  {
    ms == [] || (AdmissibleRun(b, ms[..|ms| - 1]) && Admissible(Run(b, ms[..|ms| - 1]), ms[|ms| - 1]))
  }

  lemma InitialRefines(orders: seq<Order>)
    requires 0 < |orders| <= POOL_LIMIT && WfOrders(orders)
    ensures Rep(Initial(orders), NO_ORDERS, Slots([], []))
  {
    InitialGuarded(orders);
  }

  /**
   A run whose every message is admissible when it arrives refines the abstract run, from the
   initial book over any well-formed pool memory.
   */
  lemma {:induction false} RunRefines(orders: seq<Order>, ms: seq<Message>) returns (s: Slots)
    requires 0 < |orders| <= 2_000_000 && WfOrders(orders) && Wf(Initial(orders))
    requires forall i :: 0 <= i < |ms| ==> WfMessage(ms[i])
    requires AdmissibleRun(Initial(orders), ms)
    ensures var b, m := Run(Initial(orders), ms), MarketRun(ms, |orders|);
            Rep(b, m, s) && b.index.Keys == m.home.Keys && NoLeak(b)
  {
    if ms == [] {
      InitialRefines(orders);
      s := Slots([], []);
    } else {
      var p, msg := ms[..|ms| - 1], ms[|ms| - 1];
      s := RunRefines(orders, p);
      s := NextRefines(Run(Initial(orders), p), MarketRun(p, |orders|), s, msg);
    }
  }

  lemma NextRefines(b: Book, m: Market, s: Slots, msg: Message) returns (s': Slots)
    requires Rep(b, m, s) && b.index.Keys == m.home.Keys && NoLeak(b) && WfMessage(msg) && Admissible(b, msg)
    ensures var c, n := Apply(b, msg), MarketApply(m, msg, |m.home| < |b.orders|);
            Rep(c, n, s') && c.index.Keys == n.home.Keys && NoLeak(c) && |c.orders| == |b.orders|
  {
    assert |b.index| == |b.index.Keys| && |m.home| == |m.home.Keys|;
    StepKeys(b, m, s, msg, {});
    StepNoLeak(b, msg);
    s' := StepRefines(b, m, s, msg);
  }
}
