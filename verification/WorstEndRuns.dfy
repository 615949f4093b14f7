/**
 Runs that open and empty levels at the worst-price end only: every order stays current, and the
 book refines the abstract book without any check.  And the smallest run for which it does not.
 */
module WorstEndRuns {
  import opened Words
  import opened BookModel
  import opened BookSafety
  import opened PriceQueues
  import opened LadderView
  import opened BookRefinement
  import opened HandlerRefinement
  import opened AmendRefinement
  import opened BrokenBooks
  import opened StaleLevels
  import opened BookTheorems

  ghost predicate AllCurrent(b: Book) {
    forall ref :: ref in b.index ==> RefCurrent(b, ref)
  }

  /** The addition joins a level, opens one below all others, or is dropped. */
  predicate WorstAdd(b: Book, side: Side, price: int) {
    var l := b.On(side);
    l.depth <= |l.levels| ==>
      FindLevel(l, price) < l.depth || l.depth == MAX_LEVELS || InsertPos(l, price, side) == l.depth
  }

  /** The order is not alone at its price, or its price is the worst one. */
  predicate WorstDrop(b: Book, ref: nat) {
    ref in b.index && b.index[ref] < |b.orders| ==>
      var o := b.orders[b.index[ref]];
      var l := b.On(o.side);
      o.level < |l.levels| ==> l.levels[o.level].count > 1 || o.level + 1 == l.depth
  }

  ghost predicate AtWorstEnd(b: Book, msg: Message)
    requires Wf(b) && WfMessage(msg)
  {
    match msg
    case Add(ref, side, price, _) => ref !in b.index && WorstAdd(b, side, price)
    case Reduce(ref, shares) => Sub32(RefQty(b, ref), shares) == 0 ==> WorstDrop(b, ref)
    case Delete(ref) => WorstDrop(b, ref)
    case Replace(orig, ref, qty, price) =>
      && (ref !in b.index || ref == orig)
      && (orig in b.index && !InPlace(b.orders[b.index[orig]], price, qty) ==>
            WorstDrop(b, orig) && WorstAdd(OnDelete(b, orig), b.orders[b.index[orig]].side, price))
  }

  // ----- Each handler keeps every order current -----

  /** No level that was there moves. */
  lemma WorstAddPrices(b: Book, ref: nat, side: Side, price: int, qty: nat)
    requires Wf(b) && b.free != [] && qty < WORD32 && WorstAdd(b, side, price)
    ensures var l, l' := b.On(side), OnAdd(b, ref, side, price, qty).On(side);
            && l.depth <= l'.depth && |l'.levels| == MAX_LEVELS
            && forall k :: 0 <= k < l.depth ==> l'.levels[k].price == l.levels[k].price
    ensures OnAdd(b, ref, side, price, qty).On(Opposite(side)) == b.On(Opposite(side))
  {
    var l := b.On(side);
    if FindLevel(l, price) == l.depth < MAX_LEVELS {
      InsertedLevels(l, l.depth, price);
    }
  }

  lemma WorstJoin(b: Book, ref: nat, side: Side, price: int, qty: nat)
    requires Wf(b) && b.free != [] && qty < WORD32 && FindLevel(b.On(side), price) < b.On(side).depth
    ensures RefCurrent(OnAdd(b, ref, side, price, qty), ref)
  {
    AddUnfolds(b, ref, side, price, qty);
  }

  lemma WorstOpen(b: Book, ref: nat, side: Side, price: int, qty: nat)
    requires Wf(b) && b.free != [] && qty < WORD32 && WorstAdd(b, side, price)
    requires FindLevel(b.On(side), price) == b.On(side).depth < MAX_LEVELS
    ensures RefCurrent(OnAdd(b, ref, side, price, qty), ref)
  {
    AddUnfolds(b, ref, side, price, qty);
    InsertedLevels(b.On(side), b.On(side).depth, price);
  }

  lemma WorstAddNew(b: Book, ref: nat, side: Side, price: int, qty: nat)
    requires Wf(b) && b.free != [] && qty < WORD32 && WorstAdd(b, side, price)
    requires FindLevel(b.On(side), price) < b.On(side).depth || b.On(side).depth < MAX_LEVELS
    ensures RefCurrent(OnAdd(b, ref, side, price, qty), ref)
  {
    if FindLevel(b.On(side), price) < b.On(side).depth {
      WorstJoin(b, ref, side, price, qty);
    } else {
      WorstOpen(b, ref, side, price, qty);
    }
  }

  /** The other orders keep what they say of themselves. */
  lemma AddKeepsNames(b: Book, ref: nat, side: Side, price: int, qty: nat, r: nat)
    requires Sound(b) && b.free != [] && qty < WORD32 && r in b.index && r != ref
    ensures var c := OnAdd(b, ref, side, price, qty);
            && r in c.index && c.index[r] == b.index[r] && |c.orders| == |b.orders|
            && c.orders[b.index[r]].side == b.orders[b.index[r]].side
            && c.orders[b.index[r]].level == b.orders[b.index[r]].level
            && c.orders[b.index[r]].price == b.orders[b.index[r]].price
  {
    assert b.index[r] != b.free[|b.free| - 1];
    if FindLevel(b.On(side), price) < b.On(side).depth || b.On(side).depth < MAX_LEVELS {
      AddStore(b, ref, side, price, qty);
    }
  }

  lemma AddKeepsOther(b: Book, ref: nat, side: Side, price: int, qty: nat, r: nat)
    requires Sound(b) && b.free != [] && qty < WORD32 && WorstAdd(b, side, price)
    requires r in b.index && r != ref && RefCurrent(b, r)
    ensures RefCurrent(OnAdd(b, ref, side, price, qty), r)
  {
    WorstAddPrices(b, ref, side, price, qty);
    AddKeepsNames(b, ref, side, price, qty, r);
    StaysCurrent(b, OnAdd(b, ref, side, price, qty), r);
  }

  lemma AddKeepsCurrent(b: Book, ref: nat, side: Side, price: int, qty: nat)
    requires Sound(b) && AllCurrent(b) && ref !in b.index && qty < WORD32 && WorstAdd(b, side, price)
    ensures AllCurrent(OnAdd(b, ref, side, price, qty))
  {
    if b.free != [] {
      var c := OnAdd(b, ref, side, price, qty);
      forall r | r in c.index ensures RefCurrent(c, r) {
        if r == ref {
          WorstAddNew(b, ref, side, price, qty);
        } else {
          AddKeepsOther(b, ref, side, price, qty, r);
        }
      }
    }
  }

  /** An order that shares its level with `ref` is not affected by a removal, since there is none. */
  lemma AloneInLevel(b: Book, m: Market, s: Slots, ref: nat, r: nat)
    requires Rep(b, m, s) && ref in m.home && r in m.home && r != ref && RefCurrent(b, ref) && RefCurrent(b, r)
    requires var o, p := b.orders[b.index[ref]], b.orders[b.index[r]]; o.side == p.side && o.level == p.level
    ensures var o := b.orders[b.index[ref]];
            o.level < |b.On(o.side).levels| && b.On(o.side).levels[o.level].count > 1
  {
    var i, k := Whereabouts(b, m, s, ref);
    CurrentLevel(b, m, s, ref, i, k);
    var j, n := Whereabouts(b, m, s, r);
    CurrentLevel(b, m, s, r, j, n);
    var o := b.orders[b.index[ref]];
    assert ShownAt(b.On(o.side), b.orders, o.side, s.On(o.side), m.On(o.side), i);
    assert b.index[r] != b.index[ref];
  }

  /** Either no level goes, or the last one does. */
  lemma DetachPrices(b: Book, ref: nat)
    requires Wf(b) && ref in b.index
    requires var o := b.orders[b.index[ref]];
             var l := b.On(o.side);
             o.level < l.depth && l.levels[o.level].count > 0 && (l.levels[o.level].count > 1 || o.level + 1 == l.depth)
    ensures var o := b.orders[b.index[ref]];
            var l, l' := b.On(o.side), OnDelete(b, ref).On(o.side);
            && |l.levels| == |l'.levels| == MAX_LEVELS
            && (if l.levels[o.level].count > 1 then l'.depth == l.depth
                else l'.depth == l.depth - 1 == o.level)
            && (forall k :: 0 <= k < l'.depth ==> l'.levels[k].price == l.levels[k].price)
            && OnDelete(b, ref).On(Opposite(o.side)) == b.On(Opposite(o.side))
  {
    var o := b.orders[b.index[ref]];
    var l := b.On(o.side);
    assert WfLevel(l.levels[o.level], |b.orders|);
  }

  lemma WorstDropPrices(b: Book, m: Market, s: Slots, ref: nat)
    requires Rep(b, m, s) && ref in m.home && RefCurrent(b, ref) && WorstDrop(b, ref)
    ensures var o := b.orders[b.index[ref]];
            var l, l' := b.On(o.side), OnDelete(b, ref).On(o.side);
            && |l.levels| == |l'.levels| == MAX_LEVELS && o.level < l.depth <= MAX_LEVELS
            && (if l.levels[o.level].count > 1 then l'.depth == l.depth
                else l'.depth == l.depth - 1 == o.level)
            && (forall k :: 0 <= k < l'.depth ==> l'.levels[k].price == l.levels[k].price)
            && OnDelete(b, ref).On(Opposite(o.side)) == b.On(Opposite(o.side))
  {
    var i, k := Whereabouts(b, m, s, ref);
    CurrentLevel(b, m, s, ref, i, k);
    var o := b.orders[b.index[ref]];
    assert ShownAt(b.On(o.side), b.orders, o.side, s.On(o.side), m.On(o.side), i);
    DetachPrices(b, ref);
  }

  lemma DropKeepsNames(b: Book, ref: nat, r: nat)
    requires Wf(b) && ref in b.index && r in b.index && r != ref
    ensures var c := OnDelete(b, ref);
            && r in c.index && c.index[r] == b.index[r] && |c.orders| == |b.orders|
            && c.orders[b.index[r]].side == b.orders[b.index[r]].side
            && c.orders[b.index[r]].level == b.orders[b.index[r]].level
            && c.orders[b.index[r]].price == b.orders[b.index[r]].price
  {
  }

  /** An order stays current as long as its level stays below a ladder whose prices stay. */
  lemma StaysCurrent(b: Book, c: Book, r: nat)
    requires RefCurrent(b, r) && r in c.index && c.index[r] == b.index[r] < |c.orders|
    requires var o, o' := b.orders[b.index[r]], c.orders[b.index[r]];
             && o'.side == o.side && o'.level == o.level && o'.price == o.price
             && o.level < c.On(o.side).depth <= |c.On(o.side).levels|
             && c.On(o.side).levels[o.level].price == b.On(o.side).levels[o.level].price
    ensures RefCurrent(c, r)
  {
  }

  lemma DropKeepsOther(b: Book, m: Market, s: Slots, ref: nat, r: nat)
    requires Rep(b, m, s) && ref in m.home && r in m.home && r != ref
    requires RefCurrent(b, ref) && RefCurrent(b, r) && WorstDrop(b, ref)
    ensures RefCurrent(OnDelete(b, ref), r)
  {
    var o, p := b.orders[b.index[ref]], b.orders[b.index[r]];
    WorstDropPrices(b, m, s, ref);
    DropKeepsNames(b, ref, r);
    if p.side == o.side && p.level == o.level {
      AloneInLevel(b, m, s, ref, r);
    }
    StaysCurrent(b, OnDelete(b, ref), r);
  }

  lemma DropKeepsCurrent(b: Book, m: Market, s: Slots, ref: nat)
    requires Rep(b, m, s) && b.index.Keys == m.home.Keys && AllCurrent(b) && WorstDrop(b, ref)
    ensures AllCurrent(OnDelete(b, ref))
  {
    if ref in b.index {
      var c := OnDelete(b, ref);
      forall r | r in c.index ensures RefCurrent(c, r) {
        DropKeepsOther(b, m, s, ref, r);
      }
    }
  }

  /** Changing the quantity or the reference of an order moves no level. */
  lemma ShrinkKeepsCurrent(b: Book, ref: nat, shares: nat)
    requires Wf(b) && AllCurrent(b) && ref in b.index && shares < WORD32
    ensures AllCurrent(Shrink(b, b.index[ref], shares))
  {
    var c := Shrink(b, b.index[ref], shares);
    forall r | r in c.index ensures RefCurrent(c, r) {
      assert RefCurrent(b, r);
    }
  }

  lemma AmendKeepsCurrent(b: Book, orig: nat, ref: nat, qty: nat)
    requires Wf(b) && AllCurrent(b) && orig in b.index && qty < WORD32
    ensures AllCurrent(Amend(b, orig, ref, qty))
  {
    var c := Amend(b, orig, ref, qty);
    assert RefCurrent(b, orig);
    forall r | r in c.index ensures RefCurrent(c, r) {
      if r != ref {
        assert RefCurrent(b, r);
      }
    }
  }

  lemma StepKeepsCurrent(b: Book, m: Market, s: Slots, msg: Message)
    requires Rep(b, m, s) && b.index.Keys == m.home.Keys && AllCurrent(b) && WfMessage(msg) && AtWorstEnd(b, msg)
    ensures AllCurrent(Apply(b, msg))
  {
    match msg {
      case Add(ref, side, price, qty) =>
        AddKeepsCurrent(b, ref, side, price, qty);
      case Reduce(ref, shares) =>
        if ref in b.index {
          ReduceKeepsCurrent(b, m, s, ref, shares);
        }
      case Delete(ref) =>
        DropKeepsCurrent(b, m, s, ref);
      case Replace(orig, ref, qty, price) =>
        if orig in b.index {
          ReplaceKeepsCurrent(b, m, s, orig, ref, qty, price);
        }
    }
  }

  /** A reduction to nothing is a deletion of the reduced order. */
  lemma ReduceUnfolds(b: Book, ref: nat, shares: nat)
    requires Wf(b) && ref in b.index && shares < WORD32
    ensures var c := Shrink(b, b.index[ref], shares);
            && OnReduce(b, ref, shares) == (if Sub32(RefQty(b, ref), shares) == 0 then OnDelete(c, ref) else c)
            && c.index == b.index && (WorstDrop(b, ref) ==> WorstDrop(c, ref))
  {
  }

  lemma ReduceKeepsCurrent(b: Book, m: Market, s: Slots, ref: nat, shares: nat)
    requires Rep(b, m, s) && b.index.Keys == m.home.Keys && AllCurrent(b) && ref in b.index
    requires WfMessage(Reduce(ref, shares)) && AtWorstEnd(b, Reduce(ref, shares))
    ensures AllCurrent(OnReduce(b, ref, shares))
  {
    ShrinkKeepsCurrent(b, ref, shares);
    ReduceUnfolds(b, ref, shares);
    if Sub32(RefQty(b, ref), shares) == 0 {
      assert RefCurrent(b, ref);
      EmptiedKeepsCurrent(b, m, s, ref, shares);
    }
  }

  lemma EmptiedKeepsCurrent(b: Book, m: Market, s: Slots, ref: nat, shares: nat)
    requires Rep(b, m, s) && b.index.Keys == m.home.Keys && ref in b.index && shares < WORD32
    requires RefCurrent(b, ref) && Sub32(RefQty(b, ref), shares) == 0
    requires var c := Shrink(b, b.index[ref], shares); c.index == b.index && AllCurrent(c) && WorstDrop(c, ref)
    ensures AllCurrent(OnDelete(Shrink(b, b.index[ref], shares), ref))
  {
    ShrinkRefines(b, m, s, ref, shares);
    var o, c := b.orders[b.index[ref]], Shrink(b, b.index[ref], shares);
    DropKeepsCurrent(c, m.With(o.side, Update(m.On(o.side), o.price, ref, Resting(ref, 0))), s, ref);
  }

  lemma ReplaceKeepsCurrent(b: Book, m: Market, s: Slots, orig: nat, ref: nat, qty: nat, price: int)
    requires Rep(b, m, s) && b.index.Keys == m.home.Keys && AllCurrent(b) && orig in b.index
    requires WfMessage(Replace(orig, ref, qty, price)) && AtWorstEnd(b, Replace(orig, ref, qty, price))
    ensures AllCurrent(OnReplace(b, orig, ref, qty, price))
  {
    var o := b.orders[b.index[orig]];
    if InPlace(o, price, qty) {
      AmendKeepsCurrent(b, orig, ref, qty);
    } else {
      DropKeepsCurrent(b, m, s, orig);
      DropSound(b, orig);
      AddKeepsCurrent(OnDelete(b, orig), ref, o.side, price, qty);
    }
  }

  // ----- Runs -----

  ghost predicate WorstEndRun(b: Book, ms: seq<Message>)
    requires Wf(b) && forall i :: 0 <= i < |ms| ==> WfMessage(ms[i])
  {
    ms == [] || (WorstEndRun(b, ms[..|ms| - 1]) && AtWorstEnd(Run(b, ms[..|ms| - 1]), ms[|ms| - 1]))
  }

  lemma WorstEndAdmissible(b: Book, msg: Message)
    requires Wf(b) && AllCurrent(b) && WfMessage(msg) && AtWorstEnd(b, msg)
    ensures Admissible(b, msg)
  {
  }

  /**
   A run that creates and empties levels only at the worst-price end keeps every order
   current and refines the abstract run.
   */
  lemma {:induction false} WorstEndRefines(orders: seq<Order>, ms: seq<Message>) returns (s: Slots)
    requires 0 < |orders| <= POOL_LIMIT && WfOrders(orders) && Wf(Initial(orders))
    requires forall i :: 0 <= i < |ms| ==> WfMessage(ms[i])
    requires WorstEndRun(Initial(orders), ms)
    ensures AllCurrent(Run(Initial(orders), ms)) && AdmissibleRun(Initial(orders), ms)
    ensures Rep(Run(Initial(orders), ms), MarketRun(ms, |orders|), s)
  {
    var b0 := Initial(orders);
    if ms != [] {
      var p, msg := ms[..|ms| - 1], ms[|ms| - 1];
      s := WorstEndRefines(orders, p);
      s := RunRefines(orders, p);
      StepKeepsCurrent(Run(b0, p), MarketRun(p, |orders|), s, msg);
      WorstEndAdmissible(Run(b0, p), msg);
    }
    s := RunRefines(orders, ms);
  }

  // ----- A run that fails -----

  /** Two bids, the second better than the first. */
  function TwoBids(orders: seq<Order>): (b: Book)
    requires |orders| >= 2 && Wf(Initial(orders))
    ensures Wf(b)
  {
    OnAdd(OnAdd(Initial(orders), 1, Buy, 1000000, 10), 2, Buy, 1010000, 5)
  }

  lemma FirstBid(orders: seq<Order>)
    requires |orders| >= 2 && Wf(Initial(orders))
    ensures var b := OnAdd(Initial(orders), 1, Buy, 1000000, 10);
            && b.bids.depth == 1 && b.bids.levels[0] == Level(1000000, 10, 1, 0, 0)
            && b.free != [] && b.free[|b.free| - 1] == 1
            && 1 in b.index && b.index[1] == 0 && b.orders[0].level == 0 && b.orders[0].price == 1000000
            && b.orders[0].side == Buy && b.orders[0].qty == 10 && b.orders[0].prev == NONE && b.orders[0].next == NONE
  {
    AddUnfolds(Initial(orders), 1, Buy, 1000000, 10);
    InsertedLevels(EmptyLadder(), 0, 1000000);
  }

  lemma SecondBid(orders: seq<Order>)
    requires |orders| >= 2 && Wf(Initial(orders))
    ensures var b := TwoBids(orders);
            && b.bids.depth == 2 && b.bids.levels[0] == Level(1010000, 5, 1, 1, 1)
            && b.bids.levels[1] == Level(1000000, 10, 1, 0, 0)
            && 1 in b.index && b.index[1] == 0 && b.orders[0].level == 0 && b.orders[0].price == 1000000
            && b.orders[0].side == Buy && b.orders[0].qty == 10 && b.orders[0].prev == NONE && b.orders[0].next == NONE
  {
    FirstBid(orders);
    var b := OnAdd(Initial(orders), 1, Buy, 1000000, 10);
    AddUnfolds(b, 2, Buy, 1010000, 5);
    assert InsertPos(b.bids, 1010000, Buy) == 0;
    InsertedLevels(b.bids, 0, 1010000);
  }

  lemma StaleQuote(orders: seq<Order>)
    requires |orders| >= 2 && Wf(Initial(orders))
    ensures TopOf(OnDelete(TwoBids(orders), 1).bids) == Quote(1000000, 10)
    ensures !RefCurrent(TwoBids(orders), 1)
  {
    SecondBid(orders);
  }

  lemma TwoBidsRefines(orders: seq<Order>) returns (m: Market, s: Slots)
    requires 2 <= |orders| <= POOL_LIMIT && WfOrders(orders) && Wf(Initial(orders))
    ensures Rep(TwoBids(orders), m, s) && 1 in m.home
    ensures m == MarketAdd(MarketAdd(NO_ORDERS, 1, Buy, 1000000, 10, true), 2, Buy, 1010000, 5, true)
  {
    InitialRefines(orders);
    s := AddRefines(Initial(orders), NO_ORDERS, Slots([], []), 1, Buy, 1000000, 10);
    FirstBid(orders);
    var b, m1 := OnAdd(Initial(orders), 1, Buy, 1000000, 10), MarketAdd(NO_ORDERS, 1, Buy, 1000000, 10, true);
    s := AddRefines(b, m1, s, 2, Buy, 1010000, 5);
    m := MarketAdd(m1, 2, Buy, 1010000, 5, true);
  }

  /**
   After a bid at 100.00 and a better one at 101.00, deleting the first removes the level of the
   second: the book quotes the deleted order, 10 shares at 100.00, the bid at 101.00 is gone, and the
   book stands for no abstract book whatever.
   */
  lemma StaleRun(orders: seq<Order>)
    requires 2 <= |orders| <= POOL_LIMIT && WfOrders(orders) && Wf(Initial(orders))
    ensures var b := TwoBids(orders);
            var m := MarketAdd(MarketAdd(NO_ORDERS, 1, Buy, 1000000, 10, true), 2, Buy, 1010000, 5, true);
            && Refined(b, m)
            && TopOf(OnDelete(b, 1).bids) == Quote(1000000, 10)
            && Broken(OnDelete(b, 1))
  {
    StaleQuote(orders);
    var m, s := TwoBidsRefines(orders);
    DeleteRefinesIff(TwoBids(orders), m, s, 1);
  }
}
