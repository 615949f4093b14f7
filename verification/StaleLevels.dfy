/**
 The `level` field of an order is written once.  These theorems say what that costs: a
 handler that reads it refines the abstract book if and only if the field is current, and a
 deletion or reduction through a stale field leaves a book that stands for nothing.
 */
module StaleLevels {
  import opened Words
  import opened BookModel
  import opened BookSafety
  import opened LevelList
  import opened PriceQueues
  import opened LadderView
  import opened BookRefinement
  import opened HandlerRefinement
  import opened AmendRefinement
  import opened BrokenBooks
  import opened StaleMoves

  ghost predicate Refined(b: Book, m: Market) {
    exists s :: Rep(b, m, s)
  }

  // ----- What a level says about its queue -----

  lemma {:induction false} SumIsTotal(orders: seq<Order>, q: seq<nat>, r: seq<Resting>)
    requires Reads(orders, q, r) && InPool(q, |orders|)
    ensures Sum(orders, q) == Total(r)
  {
    if q != [] {
      SumIsTotal(orders, q[..|q| - 1], r[..|r| - 1]);
    }
  }

  /** A level of a refined book counts and sums the queue at its price. */
  lemma LevelTells(b: Book, m: Market, s: Slots, side: Side, j: nat)
    requires Rep(b, m, s) && j < b.On(side).depth
    ensures j < |b.On(side).levels|
    ensures var lvl := b.On(side).levels[j];
            && lvl.price in m.On(side)
            && |m.On(side)[lvl.price]| == lvl.count
            && lvl.total == Total(m.On(side)[lvl.price]) % WORD32
  {
    ShownOn(b, m, s, side);
    assert ShownAt(b.On(side), b.orders, side, s.On(side), m.On(side), j);
    SumIsTotal(b.orders, s.On(side)[j], m.On(side)[b.On(side).levels[j].price]);
  }

  // ----- A stale order spares its own level -----

  /** Dropping an order that names another level leaves the level it is listed in as it was. */
  lemma StaleDropSpares(b: Book, ref: nat, i: nat) returns (j: nat)
    requires Wf(b) && ref in b.index
    requires var o := b.orders[b.index[ref]];
             && i < b.On(o.side).depth && o.level != i
             && (o.level >= b.On(o.side).depth ==> b.On(o.side).levels[o.level].count == 0)
    ensures var side, c := b.orders[b.index[ref]].side, Release(Detach(b, b.index[ref]), ref, b.index[ref]);
            && j < c.On(side).depth <= MAX_LEVELS == |c.On(side).levels|
            && c.On(side).levels[j] == b.On(side).levels[i]
  {
    var idx := b.index[ref];
    var o := b.orders[idx];
    var l := b.On(o.side);
    var lvl := Unlink(b.orders, l.levels[o.level], idx).1;
    if lvl.count == 0 {
      assert o.level < l.depth;
      j := if i < o.level then i else i - 1;
    } else {
      j := i;
    }
  }

  /** Any change of the order spares its level when it names another one. */
  lemma StaleShrinkSpares(b: Book, ref: nat, shares: nat, i: nat)
    requires Wf(b) && ref in b.index && shares < WORD32
    requires var o := b.orders[b.index[ref]]; i < b.On(o.side).depth && o.level != i
    ensures var side, c := b.orders[b.index[ref]].side, Shrink(b, b.index[ref], shares);
            && c.On(side).depth == b.On(side).depth && c.On(side).levels[i] == b.On(side).levels[i]
            && c.orders[b.index[ref]].level == b.orders[b.index[ref]].level && c.orders[b.index[ref]].side == side
            && (forall n :: 0 <= n < MAX_LEVELS ==> c.On(side).levels[n].count == b.On(side).levels[n].count)
  {
  }

  /**
   The facts that every necessity proof starts from: the order is listed in level `i`, names
   another level, and the levels beyond the ladder count nothing.
   */
  lemma StaleFacts(b: Book, m: Market, s: Slots, ref: nat) returns (i: nat, k: nat)
    requires Rep(b, m, s) && ref in m.home && !RefCurrent(b, ref)
    ensures ref in b.index && b.index[ref] < |b.orders| && Homed(b, m, s, ref)
    ensures var o := b.orders[b.index[ref]];
            && i < b.On(o.side).depth <= MAX_LEVELS == |b.On(o.side).levels| && o.level != i && o.level < MAX_LEVELS
            && b.On(o.side).levels[i].price == o.price
            && (o.level >= b.On(o.side).depth ==> b.On(o.side).levels[o.level].count == 0)
            && i < |s.On(o.side)| && k < |s.On(o.side)[i]| && s.On(o.side)[i][k] == b.index[ref]
            && Listed(b.orders, o.side, b.On(o.side).levels[i], s.On(o.side)[i])
            && o.price in m.On(o.side) && FirstAt(m.On(o.side)[o.price], ref, k)
            && m.On(o.side)[o.price][k] == Resting(ref, o.qty) && o.qty < WORD32
            && QtyOf(m.On(o.side), o.price, ref) == o.qty
            && m.home[ref] == Spot(o.side, o.price)
            && |m.On(o.side)[o.price]| == b.On(o.side).levels[i].count
            && b.On(o.side).levels[i].total == Total(m.On(o.side)[o.price]) % WORD32
  {
    i, k := Whereabouts(b, m, s, ref);
    CurrentLevel(b, m, s, ref, i, k);
    FirstInQueue(b, m, s, ref, i, k);
    var o := b.orders[b.index[ref]];
    assert WfOrder(o, |b.orders|);
    assert ShownAt(b.On(o.side), b.orders, o.side, s.On(o.side), m.On(o.side), i);
    LevelTells(b, m, s, o.side, i);
  }

  // ----- Addition -----

  /** The addition is listed, and not dropped for want of a slot or a level. */
  predicate Accepted(b: Book, m: Market, side: Side, price: int) {
    b.free != [] && (price in m.On(side) || |m.On(side)| < 256)
  }

  /**
   An addition is faithful if and only if its reference is not in the book already, or it is
   dropped.  Otherwise it leaves a book that stands for nothing.
   */
  lemma AddRefinesIff(b: Book, m: Market, s: Slots, ref: nat, side: Side, price: int, qty: nat)
    requires Rep(b, m, s) && ref != 0 && qty < WORD32
    ensures Refined(OnAdd(b, ref, side, price, qty), MarketAdd(m, ref, side, price, qty, b.free != []))
       <==> ref !in m.home || !Accepted(b, m, side, price)
    ensures ref in m.home && Accepted(b, m, side, price) ==> Broken(OnAdd(b, ref, side, price, qty))
  {
    if ref !in m.home {
      var s' := AddRefines(b, m, s, ref, side, price, qty);
    } else if b.free != [] {
      ShownOn(b, m, s, side);
      if Accepted(b, m, side, price) {
        UsedAddBreaks(b, m, s, ref, side, price, qty);
      } else {
        AddDropped(b, m, s, ref, side, price, qty);
      }
    }
  }

  // ----- Deletion -----

  /** Unlinking an order through a level that it is not listed in: its own level is left with the wrong count or head. */
  lemma StaleDetachBreaks(b: Book, ref: nat, i: nat, q: seq<nat>, k: nat)
    requires Wf(b) && ref in b.index && b.orders[b.index[ref]].id == ref && |b.orders| < NONE
    requires Linked(b.orders, q) && Distinct(q) && k < |q| && q[k] == b.index[ref]
    requires var o := b.orders[b.index[ref]];
             && i < b.On(o.side).depth && o.level != i
             && (o.level >= b.On(o.side).depth ==> b.On(o.side).levels[o.level].count == 0)
             && b.On(o.side).levels[i].head == q[0] && b.On(o.side).levels[i].count == |q|
    ensures Broken(Release(Detach(b, b.index[ref]), ref, b.index[ref]))
  {
    var idx := b.index[ref];
    var o := b.orders[idx];
    var c := Release(Detach(b, idx), ref, idx);
    var j := StaleDropSpares(b, ref, i);
    UnlinkLinked(b.orders, b.On(o.side).levels[o.level], q, k);
    if k == 0 {
      assert c.orders[idx].id == ref;
      BadHeadBreaks(c, o.side, j);
    } else {
      MiscountBreaks(c, o.side, j, Cut(q, k));
    }
  }

  lemma StaleDropBreaks(b: Book, m: Market, s: Slots, ref: nat)
    requires Rep(b, m, s) && ref in m.home && !RefCurrent(b, ref)
    ensures Broken(OnDelete(b, ref))
  {
    var i, k := StaleFacts(b, m, s, ref);
    StaleDetachBreaks(b, ref, i, s.On(b.orders[b.index[ref]].side)[i], k);
  }

  /**
   A deletion removes exactly its order if and only if the order names its own level.  Otherwise it
   leaves a book that stands for nothing.
   */
  lemma DeleteRefinesIff(b: Book, m: Market, s: Slots, ref: nat)
    requires Rep(b, m, s) && ref in m.home
    ensures Refined(OnDelete(b, ref), MarketDelete(m, ref)) <==> RefCurrent(b, ref)
    ensures !RefCurrent(b, ref) ==> Broken(OnDelete(b, ref))
  {
    assert Homed(b, m, s, ref);
    if RefCurrent(b, ref) {
      var s' := DropRefines(b, m, s, ref);
    } else {
      StaleDropBreaks(b, m, s, ref);
    }
  }

  // ----- Reduction -----

  /** A change of one quantity keeps all links. */
  lemma ResizedLinked(orders: seq<Order>, os: seq<Order>, q: seq<nat>)
    requires Linked(orders, q) && |os| == |orders|
    requires forall x :: 0 <= x < |os| ==> os[x].prev == orders[x].prev && os[x].next == orders[x].next
    ensures Linked(os, q)
  {
    forall k | 0 <= k < |q| ensures LinkedAt(os, q, k) {
      assert LinkedAt(orders, q, k);
    }
  }

  lemma StaleReduceAllBreaks(b: Book, m: Market, s: Slots, ref: nat, shares: nat)
    requires Rep(b, m, s) && ref in m.home && !RefCurrent(b, ref) && shares < WORD32
    requires Sub32(RefQty(b, ref), shares) == 0
    ensures Broken(OnReduce(b, ref, shares))
  {
    var i, k := StaleFacts(b, m, s, ref);
    var q, c := s.On(b.orders[b.index[ref]].side)[i], Shrink(b, b.index[ref], shares);
    StaleShrinkSpares(b, ref, shares, i);
    ResizedLinked(b.orders, c.orders, q);
    StaleDetachBreaks(c, ref, i, q, k);
  }

  /** A list in which one order changed its quantity has another sum, on 32 bits. */
  lemma OtherSum(orders: seq<Order>, os: seq<Order>, q: seq<nat>, k: nat)
    requires |orders| == |os| && InPool(q, |orders|) && Distinct(q) && k < |q|
    requires os == orders[q[k] := os[q[k]]] && os[q[k]].qty != orders[q[k]].qty
    requires os[q[k]].qty < WORD32 && orders[q[k]].qty < WORD32
    ensures Sum(os, q) % WORD32 != Sum(orders, q) % WORD32
  {
    SumChange(orders, os, q, k);
    OtherWord(Sum(orders, q), Sum(os, q), orders[q[k]].qty, os[q[k]].qty);
  }

  lemma OtherWord(a: nat, b: nat, x: nat, y: nat)
    requires b - y == a - x && x != y && x < WORD32 && y < WORD32
    ensures a % WORD32 != b % WORD32
  {
  }

  lemma StaleReducePartBreaks(b: Book, m: Market, s: Slots, ref: nat, shares: nat)
    requires Rep(b, m, s) && ref in m.home && !RefCurrent(b, ref) && 0 < shares < WORD32
    requires Sub32(RefQty(b, ref), shares) != 0
    ensures Broken(OnReduce(b, ref, shares))
  {
    var i, k := StaleFacts(b, m, s, ref);
    var o, c := b.orders[b.index[ref]], Shrink(b, b.index[ref], shares);
    var q := s.On(o.side)[i];
    StaleShrinkSpares(b, ref, shares, i);
    ResizedLinked(b.orders, c.orders, q);
    OtherSum(b.orders, c.orders, q, k);
    MissumBreaks(c, o.side, i, q);
  }

  /**
   A reduction is faithful if and only if the order names its own level, or the message takes
   no shares from an order that has some.  Otherwise it leaves a book that stands for nothing.
   */
  lemma ReduceRefinesIff(b: Book, m: Market, s: Slots, ref: nat, shares: nat)
    requires Rep(b, m, s) && ref in m.home && shares < WORD32
    ensures Refined(OnReduce(b, ref, shares), MarketReduce(m, ref, shares))
       <==> RefCurrent(b, ref) || (shares == 0 && RefQty(b, ref) != 0)
    ensures !RefCurrent(b, ref) && (shares != 0 || RefQty(b, ref) == 0) ==> Broken(OnReduce(b, ref, shares))
  {
    if RefCurrent(b, ref) || (shares == 0 && RefQty(b, ref) != 0) {
      var s' := ReduceRefines(b, m, s, ref, shares);
    } else if Sub32(RefQty(b, ref), shares) == 0 {
      StaleReduceAllBreaks(b, m, s, ref, shares);
    } else {
      StaleReducePartBreaks(b, m, s, ref, shares);
    }
  }

  // ----- Replacement -----

  lemma StaleAmendSpares(b: Book, orig: nat, ref: nat, qty: nat, i: nat)
    requires Wf(b) && orig in b.index && qty < WORD32
    requires var o := b.orders[b.index[orig]]; i < b.On(o.side).depth && o.level != i
    ensures var side, c := b.orders[b.index[orig]].side, Amend(b, orig, ref, qty);
            c.On(side).depth == b.On(side).depth && c.On(side).levels[i] == b.On(side).levels[i]
  {
  }

  lemma StaleAmendBreaks(b: Book, m: Market, s: Slots, orig: nat, ref: nat, qty: nat, price: int)
    requires Rep(b, m, s) && orig in m.home && !RefCurrent(b, orig) && qty < RefQty(b, orig) && qty < WORD32
    requires price == m.home[orig].price
    ensures Broken(OnReplace(b, orig, ref, qty, price))
  {
    var i, k := StaleFacts(b, m, s, orig);
    var o, c := b.orders[b.index[orig]], Amend(b, orig, ref, qty);
    var q := s.On(o.side)[i];
    StaleAmendSpares(b, orig, ref, qty, i);
    ResizedLinked(b.orders, c.orders, q);
    OtherSum(b.orders, c.orders, q, k);
    MissumBreaks(c, o.side, i, q);
  }

  lemma PricesAfterDrop(b: Book, ref: nat, i: nat, j: nat)
    requires Wf(b) && ref in b.index
    requires var o := b.orders[b.index[ref]];
             && Sorted(b.On(o.side), o.side)
             && (o.level >= b.On(o.side).depth ==> b.On(o.side).levels[o.level].count == 0)
    requires var l := OnDelete(b, ref).On(b.orders[b.index[ref]].side); i < l.depth && j < l.depth && i != j
    ensures var l := OnDelete(b, ref).On(b.orders[b.index[ref]].side);
            l.levels[i].price != l.levels[j].price
  {
    var idx := b.index[ref];
    var o := b.orders[idx];
    var l := b.On(o.side);
    var lvl := Unlink(b.orders, l.levels[o.level], idx).1;
    var l' := l.(levels := l.levels[o.level := lvl]);
    SamePrices(l, l', o.side);
    if lvl.count == 0 {
      RemoveSorted(l', o.side, o.level);
    }
    var r := OnDelete(b, ref).On(o.side);
    assert Better(o.side, r.levels[if i < j then i else j].price, r.levels[if i < j then j else i].price);
  }

  lemma LevelSize(b: Book, m: Market, s: Slots, side: Side, i: nat)
    requires Rep(b, m, s) && i < b.On(side).depth
    ensures i < |b.On(side).levels| && b.On(side).levels[i].count + 1 < WORD32
  {
    ShownOn(b, m, s, side);
    assert ShownAt(b.On(side), b.orders, side, s.On(side), m.On(side), i);
    Pigeonhole(s.On(side)[i], |b.orders|);
  }

  lemma PricesOnce(b: Book, orig: nat, j: nat)
    requires Wf(b) && orig in b.index
    requires var o := b.orders[b.index[orig]];
             && Sorted(b.On(o.side), o.side)
             && (o.level >= b.On(o.side).depth ==> b.On(o.side).levels[o.level].count == 0)
    requires var l := OnDelete(b, orig).On(b.orders[b.index[orig]].side); j < l.depth <= |l.levels|
    ensures OnlyAt(OnDelete(b, orig).On(b.orders[b.index[orig]].side), j)
  {
    var l := OnDelete(b, orig).On(b.orders[b.index[orig]].side);
    forall x | 0 <= x < l.depth && x != j ensures l.levels[x].price != l.levels[j].price {
      PricesAfterDrop(b, orig, x, j);
    }
  }

  /** The pool and the index after the stale order is dropped. */
  lemma StaleDropStore(b: Book, orig: nat, q: seq<nat>, k: nat)
    requires Wf(b) && orig in b.index && |b.orders| < NONE && b.orders[b.index[orig]].id == orig
    requires Linked(b.orders, q) && Distinct(q) && k < |q| && q[k] == b.index[orig]
    ensures var c, idx := OnDelete(b, orig), b.index[orig];
            && Linked(c.orders, Cut(q, k)) && |c.orders| == |b.orders|
            && c.free == b.free + [idx] && c.orders[idx].id !in c.index
  {
    var o := b.orders[b.index[orig]];
    UnlinkLinked(b.orders, b.On(o.side).levels[o.level], q, k);
  }

  /** The book after the stale order is dropped. */
  lemma StaleDropSpoils(b: Book, m: Market, s: Slots, orig: nat) returns (j: nat, q: seq<nat>, k: nat)
    requires Rep(b, m, s) && orig in m.home && !RefCurrent(b, orig)
    ensures orig in b.index && b.index[orig] < |b.orders|
    ensures Spoiled(OnDelete(b, orig), b.orders[b.index[orig]].side, j, q, k)
  {
    var i;
    i, k := StaleFacts(b, m, s, orig);
    var side := b.orders[b.index[orig]].side;
    q := s.On(side)[i];
    ShownOn(b, m, s, side);
    LevelSize(b, m, s, side, i);
    j := StaleDropSpares(b, orig, i);
    PricesOnce(b, orig, j);
    StaleDropStore(b, orig, q, k);
  }

  lemma StaleMoveBreaks(b: Book, m: Market, s: Slots, orig: nat, ref: nat, qty: nat, price: int)
    requires Rep(b, m, s) && orig in m.home && !RefCurrent(b, orig) && qty < WORD32
    requires !(price == m.home[orig].price && qty <= RefQty(b, orig))
    ensures Broken(OnReplace(b, orig, ref, qty, price))
  {
    assert Homed(b, m, s, orig);
    var j, q, k := StaleDropSpoils(b, m, s, orig);
    SpoiledAddBreaks(OnDelete(b, orig), b.orders[b.index[orig]].side, j, q, k, ref, price, qty);
  }

  /** An order that takes the reference of another one in place: the other one loses its index entry. */
  lemma UsedAmendBreaks(b: Book, m: Market, s: Slots, orig: nat, ref: nat, qty: nat)
    requires Rep(b, m, s) && orig in m.home && ref in m.home && ref != orig && qty < WORD32
    requires orig in b.index && (RefCurrent(b, orig) || qty == RefQty(b, orig))
    ensures Broken(Amend(b, orig, ref, qty))
  {
    var i, k := Whereabouts(b, m, s, orig);
    CurrentLevel(b, m, s, orig, i, k);
    var idx, e := b.index[orig], Resting(ref, qty);
    var o := b.orders[idx];
    ChangedSides(b, m, s, orig, i, k, e);
    AmendIsChange(b, orig, ref, qty, i);
    var m' := m.With(o.side, Update(m.On(o.side), o.price, orig, e));
    UsedIndexBreaks(b, m, s, orig, ref, Amend(b, orig, ref, qty), m');
  }

  lemma UsedIndexBreaks(b: Book, m: Market, s: Slots, orig: nat, ref: nat, c: Book, m': Market)
    requires Rep(b, m, s) && orig in b.index && ref in m.home && ref != orig && |c.orders| == |b.orders|
    requires Shown(c.bids, c.orders, Buy, s.bids, m'.bids) && Shown(c.asks, c.orders, Sell, s.asks, m'.asks)
    requires ref in c.index && c.index[ref] == b.index[orig]
    requires forall x :: 0 <= x < |b.orders| && x != b.index[orig] ==> c.orders[x] == b.orders[x]
    ensures Broken(c)
  {
    assert Homed(b, m, s, ref);
    var x := b.index[ref];
    var side := b.orders[x].side;
    MisfiledBreaks(c, side, s.On(side), m'.On(side), x);
  }

  /** The replacement is in place: it keeps the price and does not raise the quantity. */
  predicate StaysPut(b: Book, m: Market, orig: nat, qty: nat, price: int)
    requires Wf(b) && orig in m.home && orig in b.index
  {
    price == m.home[orig].price && qty <= RefQty(b, orig)
  }

  /** A replacement that moves is dropped behind the deletion, for want of a level. */
  predicate MoveDropped(b: Book, m: Market, orig: nat, price: int)
    requires Wf(b) && orig in m.home
  {
    !Accepted(OnDelete(b, orig), MarketDelete(m, orig), m.home[orig].side, price)
  }

  /** A replacement that moves is a deletion and an addition, in the book and in the reference book. */
  lemma MoveUnfolds(b: Book, m: Market, s: Slots, orig: nat, ref: nat, qty: nat, price: int)
    requires Rep(b, m, s) && orig in m.home && qty < WORD32
    requires orig in b.index && !StaysPut(b, m, orig, qty, price)
    ensures var side, c := m.home[orig].side, OnDelete(b, orig);
            && c.free != [] && OnReplace(b, orig, ref, qty, price) == OnAdd(c, ref, side, price, qty)
            && MarketReplace(m, orig, ref, qty, price) == MarketAdd(MarketDelete(m, orig), ref, side, price, qty, true)
  {
    assert Homed(b, m, s, orig);
    var i, k := Whereabouts(b, m, s, orig);
    FirstInQueue(b, m, s, orig, i, k);
  }

  /** A replacement that moves a current order to a reference in use. */
  lemma UsedMoveIff(b: Book, m: Market, s: Slots, orig: nat, ref: nat, qty: nat, price: int)
    requires Rep(b, m, s) && orig in m.home && qty < WORD32 && ref != 0 && ref in m.home && ref != orig
    requires orig in b.index && RefCurrent(b, orig) && !StaysPut(b, m, orig, qty, price)
    ensures Refined(OnReplace(b, orig, ref, qty, price), MarketReplace(m, orig, ref, qty, price)) <==> MoveDropped(b, m, orig, price)
    ensures !MoveDropped(b, m, orig, price) ==> Broken(OnReplace(b, orig, ref, qty, price))
  {
    MoveUnfolds(b, m, s, orig, ref, qty, price);
    var s' := DropRefines(b, m, s, orig);
    UsedAfterDrop(OnDelete(b, orig), m, s', orig, ref, m.home[orig].side, price, qty);
  }

  lemma UsedAfterDrop(c: Book, m: Market, s: Slots, orig: nat, ref: nat, side: Side, price: int, qty: nat)
    requires Rep(c, MarketDelete(m, orig), s) && ref != 0 && qty < WORD32 && ref in m.home && ref != orig && c.free != []
    ensures Refined(OnAdd(c, ref, side, price, qty), MarketAdd(MarketDelete(m, orig), ref, side, price, qty, true))
       <==> !Accepted(c, MarketDelete(m, orig), side, price)
    ensures Accepted(c, MarketDelete(m, orig), side, price) ==> Broken(OnAdd(c, ref, side, price, qty))
  {
    AddRefinesIff(c, MarketDelete(m, orig), s, ref, side, price, qty);
  }

  /** Under a reference in use, the order must be dropped on the way. */
  predicate RefServes(b: Book, m: Market, orig: nat, ref: nat, qty: nat, price: int)
    requires Wf(b) && orig in m.home && orig in b.index
  {
    ref !in m.home || ref == orig || (!StaysPut(b, m, orig, qty, price) && MoveDropped(b, m, orig, price))
  }

  /**
   A replacement is faithful if and only if the order names its own level, or the message changes
   neither price nor quantity, and the new reference is not that of another order of the book, or
   the order is dropped anyway.  Otherwise it leaves a book that stands for nothing.
   */
  lemma ReplaceRefinesIff(b: Book, m: Market, s: Slots, orig: nat, ref: nat, qty: nat, price: int)
    requires Rep(b, m, s) && orig in m.home && qty < WORD32 && ref != 0
    ensures orig in b.index
    ensures var faithful := (RefCurrent(b, orig) || (price == m.home[orig].price && qty == RefQty(b, orig)))
                            && RefServes(b, m, orig, ref, qty, price);
            && (Refined(OnReplace(b, orig, ref, qty, price), MarketReplace(m, orig, ref, qty, price)) <==> faithful)
            && (!faithful ==> Broken(OnReplace(b, orig, ref, qty, price)))
  {
    assert Homed(b, m, s, orig);
    if !RefCurrent(b, orig) && !StaysPut(b, m, orig, qty, price) {
      StaleMoveBreaks(b, m, s, orig, ref, qty, price);
    } else if !RefCurrent(b, orig) && qty < RefQty(b, orig) {
      StaleAmendBreaks(b, m, s, orig, ref, qty, price);
    } else if ref !in m.home || ref == orig {
      var s' := ReplaceRefines(b, m, s, orig, ref, qty, price);
    } else if StaysPut(b, m, orig, qty, price) {
      UsedAmendBreaks(b, m, s, orig, ref, qty);
    } else {
      UsedMoveIff(b, m, s, orig, ref, qty, price);
    }
  }
}
