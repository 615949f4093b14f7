/**
 Each handler against its abstract counterpart.  An addition needs an unused reference; the other
 handlers need the order they touch to name its own level, and the theorems say that they need it.
 */
module HandlerRefinement {
  import opened Words
  import opened BookModel
  import opened BookSafety
  import opened LevelList
  import opened PriceQueues
  import opened LadderView
  import opened BookRefinement

  // ----- Additions -----

  lemma FreeSlotUnlisted(b: Book, m: Market, s: Slots, x: nat)
    requires Rep(b, m, s) && x in b.free
    ensures x < |b.orders| && !Located(s.bids, x) && !Located(s.asks, x)
  {
    assert x < |b.orders|;
    assert !Filed(b, m, x);
  }

  lemma ReadsAppended(orders: seq<Order>, os: seq<Order>, q: seq<nat>, r: seq<Resting>, idx: nat)
    requires Reads(orders, q, r) && Relinked(orders, os) && idx < |orders|
    ensures Reads(os, q + [idx], r + [Resting(orders[idx].id, orders[idx].qty)])
  {
  }

  lemma LocatedAppended(qs: seq<seq<nat>>, k: nat, idx: nat, x: nat)
    requires k < |qs|
    ensures Located(qs[k := qs[k] + [idx]], x) <==> Located(qs, x) || x == idx
  {
    var qs' := qs[k := qs[k] + [idx]];
    if Located(qs, x) {
      var i :| 0 <= i < |qs| && x in qs[i];
      assert x in qs'[i];
    }
    assert idx in qs'[k];
  }

  lemma LocatedInserted(qs: seq<seq<nat>>, k: nat, idx: nat, x: nat)
    requires k <= |qs|
    ensures Located(qs[..k] + [[idx]] + qs[k..], x) <==> Located(qs, x) || x == idx
  {
    var qs' := qs[..k] + [[idx]] + qs[k..];
    if Located(qs, x) {
      var i :| 0 <= i < |qs| && x in qs[i];
      assert x in qs'[if i < k then i else i + 1];
    }
    if Located(qs', x) {
      var i :| 0 <= i < |qs'| && x in qs'[i];
      assert i != k ==> qs'[i] == qs[if i < k then i else i - 1];
    }
    assert idx in qs'[k];
  }

  /** The pool after the slot was taken and filled, before it is linked. */
  function Filled(b: Book, ref: nat, side: Side, price: int, qty: nat, k: nat): (os: seq<Order>)
    requires Wf(b) && b.free != []
  {
    var idx := b.free[|b.free| - 1];
    b.orders[idx := Order(ref, price, qty, NONE, NONE, k, side)]
  }

  /** The order joins the tail of a level that exists. */
  lemma JoinLevel(l: Ladder, orders: seq<Order>, side: Side, qs: seq<seq<nat>>, a: Queues, k: nat, idx: nat)
    returns (qs': seq<seq<nat>>)
    requires Shown(l, orders, side, qs, a) && k < l.depth && |orders| < NONE
    requires idx < |orders| && !Located(qs, idx) && orders[idx].price == l.levels[k].price && orders[idx].side == side
    ensures Link(l.levels[k].tail, |orders|)
    ensures var (os, lvl) := LinkTail(orders, l.levels[k], idx);
            && Shown(l.(levels := l.levels[k := lvl]), os, side, qs',
                     Enqueue(a, orders[idx].price, Resting(orders[idx].id, orders[idx].qty)))
            && Relinked(orders, os)
            && (forall x :: 0 <= x < |os| && x != idx && !Located(qs, x) ==> os[x] == orders[x])
    ensures forall x :: Located(qs', x) <==> Located(qs, x) || x == idx
  {
    assert ShownAt(l, orders, side, qs, a, k);
    var q, lvl0 := qs[k], l.levels[k];
    assert idx !in q;
    LinkListed(orders, side, lvl0, q, idx);
    var (os, lvl) := LinkTail(orders, lvl0, idx);
    var r := a[lvl0.price] + [Resting(orders[idx].id, orders[idx].qty)];
    ReadsAppended(orders, os, q, a[lvl0.price], idx);
    forall x | 0 <= x < |os| && x != idx && !Located(qs, x) ensures os[x] == orders[x] {
      assert x !in q;
    }
    LevelChanges(l, orders, side, qs, a, k, os, lvl, q + [idx], r);
    qs' := qs[k := q + [idx]];
    forall x ensures Located(qs', x) <==> Located(qs, x) || x == idx {
      LocatedAppended(qs, k, idx, x);
    }
  }

  lemma OpenList(orders: seq<Order>, price: int, idx: nat)
    requires idx < |orders| < NONE && orders[idx].price == price
    ensures var (os, lvl) := LinkTail(orders, BLANK.(price := price), idx);
            && Listed(os, orders[idx].side, lvl, [idx]) && lvl.price == price
            && os == orders[idx := orders[idx].(prev := NONE, next := NONE)]
  {
    var (os, lvl) := LinkTail(orders, BLANK.(price := price), idx);
    assert LinkedAt(os, [idx], 0);
    assert [idx][..0] == [];
    assert Sum(os, [idx]) == orders[idx].qty;
  }

  /** The order opens a level of its own. */
  lemma OpenLevel(l: Ladder, orders: seq<Order>, side: Side, qs: seq<seq<nat>>, a: Queues, idx: nat)
    returns (qs': seq<seq<nat>>)
    requires Shown(l, orders, side, qs, a) && l.depth < MAX_LEVELS && |orders| < NONE
    requires idx < |orders| && !Located(qs, idx) && orders[idx].price !in a && orders[idx].side == side
    ensures var (os, lvl) := LinkTail(orders, BLANK.(price := orders[idx].price), idx);
            && Shown(Placed(l, side, lvl), os, side, qs',
                     Enqueue(a, orders[idx].price, Resting(orders[idx].id, orders[idx].qty)))
            && os == orders[idx := orders[idx].(prev := NONE, next := NONE)] && lvl.price == orders[idx].price
    ensures forall x :: Located(qs', x) <==> Located(qs, x) || x == idx
  {
    var price := orders[idx].price;
    OpenList(orders, price, idx);
    var (os, lvl) := LinkTail(orders, BLANK.(price := price), idx);
    var r := [Resting(orders[idx].id, orders[idx].qty)];
    forall x | 0 <= x < |orders| && Located(qs, x) ensures os[x] == orders[x] {
      assert x != idx;
    }
    assert Reads(os, [idx], r);
    LevelAppears(l, orders, side, qs, a, os, lvl, [idx], r);
    var pos := InsertPos(l, price, side);
    assert [] + r == r;
    qs' := qs[..pos] + [[idx]] + qs[pos..];
    forall x ensures Located(qs', x) <==> Located(qs, x) || x == idx {
      LocatedInserted(qs, pos, idx, x);
    }
  }

  /** The handler, unfolded: the slot is filled, linked at its level, taken and indexed. */
  lemma AddUnfolds(b: Book, ref: nat, side: Side, price: int, qty: nat)
    requires Wf(b) && b.free != [] && qty < WORD32
    requires FindLevel(b.On(side), price) < b.On(side).depth || b.On(side).depth < MAX_LEVELS
    ensures var l, idx := b.On(side), b.free[|b.free| - 1];
            var k := FindLevel(l, price);
            var n := if k < l.depth then k else InsertPos(l, price, side);
            var orders := Filled(b, ref, side, price, qty, n);
            var (os, lvl) := LinkTail(orders, if k < l.depth then l.levels[k] else BLANK.(price := price), idx);
            && lvl.price == (if k < l.depth then l.levels[k].price else price)
            && OnAdd(b, ref, side, price, qty) ==
               b.With(side, if k < l.depth then l.(levels := l.levels[k := lvl]) else Placed(l, side, lvl))
                .(orders := os, free := b.free[..|b.free| - 1], index := b.index[ref := idx])
  {
    var l, idx := b.On(side), b.free[|b.free| - 1];
    var k := FindLevel(l, price);
    var n := if k < l.depth then k else InsertPos(l, price, side);
    var o := Alloc(b).orders[idx];
    assert Alloc(b).orders[idx := o.(id := ref, price := price, qty := qty, side := side, level := n)]
        == Filled(b, ref, side, price, qty, n);
    if k == l.depth {
      InsertedLevels(l, n, price);
    }
  }

  /** What an accepted addition does to the ladder of its side. */
  lemma AddLadder(b: Book, m: Market, s: Slots, ref: nat, side: Side, price: int, qty: nat)
    returns (qs': seq<seq<nat>>)
    requires Rep(b, m, s) && b.free != [] && qty < WORD32
    requires price in m.On(side) || |m.On(side)| < MAX_LEVELS
    ensures var idx, c := b.free[|b.free| - 1], OnAdd(b, ref, side, price, qty);
            && idx < |b.orders| == |c.orders|
            && Shown(c.On(side), c.orders, side, qs', Enqueue(m.On(side), price, Resting(ref, qty)))
            && (forall x :: 0 <= x < |c.orders| && x != idx && !Located(s.On(side), x) ==> c.orders[x] == b.orders[x])
            && (forall x :: Located(qs', x) <==> Located(s.On(side), x) || x == idx)
  {
    var idx, l, qs, a := b.free[|b.free| - 1], b.On(side), s.On(side), m.On(side);
    var k := FindLevel(l, price);
    ShownOn(b, m, s, side);
    FreeSlotUnlisted(b, m, s, idx);
    AbsentPrice(l, b.orders, side, qs, a, price);
    var n := if k < l.depth then k else InsertPos(l, price, side);
    var orders := Filled(b, ref, side, price, qty, n);
    ShownFrame(l, b.orders, orders, side, qs, a);
    AddUnfolds(b, ref, side, price, qty);
    if k < l.depth {
      qs' := JoinLevel(l, orders, side, qs, a, k, idx);
    } else {
      qs' := OpenLevel(l, orders, side, qs, a, idx);
    }
  }

  /** What an accepted addition does to the store. */
  lemma AddStore(b: Book, ref: nat, side: Side, price: int, qty: nat)
    requires Wf(b) && b.free != [] && qty < WORD32
    requires FindLevel(b.On(side), price) < b.On(side).depth || b.On(side).depth < MAX_LEVELS
    ensures var idx, c := b.free[|b.free| - 1], OnAdd(b, ref, side, price, qty);
            && c.On(Opposite(side)) == b.On(Opposite(side))
            && idx < |b.orders| && c.index == b.index[ref := idx] && |c.orders| == |b.orders|
            && c.orders[idx].id == ref && c.orders[idx].price == price && c.orders[idx].side == side
            && Relinked(b.orders[idx := c.orders[idx]], c.orders)
  {
    AddUnfolds(b, ref, side, price, qty);
  }

  lemma OppositeKept(b: Book, m: Market, s: Slots, side: Side, os: seq<Order>, idx: nat)
    requires Rep(b, m, s) && |os| == |b.orders| && idx < |os| && !Located(s.On(Opposite(side)), idx)
    requires forall x :: 0 <= x < |os| && x != idx && !Located(s.On(side), x) ==> os[x] == b.orders[x]
    ensures Shown(b.On(Opposite(side)), os, Opposite(side), s.On(Opposite(side)), m.On(Opposite(side)))
  {
    var other := Opposite(side);
    ShownOn(b, m, s, other);
    forall x | 0 <= x < |os| && Located(s.On(other), x) ensures os[x] == b.orders[x] {
      LocatedSide(b, m, s, other, x);
    }
    ShownFrame(b.On(other), b.orders, os, other, s.On(other), m.On(other));
  }

  /** The directory after an addition. */
  lemma AddFiled(b: Book, m: Market, s: Slots, c: Book, m': Market, s': Slots, side: Side, idx: nat, ref: nat)
    requires Rep(b, m, s) && |c.orders| == |b.orders| && idx < |b.orders| && idx !in b.index.Values
    requires !Located(s.bids, idx) && !Located(s.asks, idx)
    requires ref !in m.home && c.index == b.index[ref := idx]
    requires c.orders[idx].id == ref && c.orders[idx].side == side
    requires Relinked(b.orders[idx := c.orders[idx]], c.orders)
    requires m'.home == m.home[ref := Spot(side, c.orders[idx].price)]
    requires s'.On(Opposite(side)) == s.On(Opposite(side))
    requires forall x :: Located(s'.On(side), x) <==> Located(s.On(side), x) || x == idx
    ensures forall r {:trigger Homed(c, m', s', r)} :: r in m'.home ==> Homed(c, m', s', r)
    ensures forall x {:trigger Filed(c, m', x)} :: 0 <= x < |c.orders| && (Located(s'.bids, x) || Located(s'.asks, x)) ==> Filed(c, m', x)
  {
    forall r | r in m'.home ensures Homed(c, m', s', r) {
      if r != ref {
        assert Homed(b, m, s, r);
        assert b.index[r] in b.index.Values;
      }
    }
    forall x | 0 <= x < |c.orders| && (Located(s'.bids, x) || Located(s'.asks, x)) ensures Filed(c, m', x) {
      assert Located(s'.On(side), x) || Located(s'.On(Opposite(side)), x);
      if x != idx {
        assert Located(s.On(side), x) || Located(s.On(Opposite(side)), x);
        assert Filed(b, m, x);
      }
    }
  }

  lemma AddAccepted(b: Book, m: Market, s: Slots, ref: nat, side: Side, price: int, qty: nat)
    returns (s': Slots)
    requires Rep(b, m, s) && b.free != [] && ref != 0 && ref !in m.home && qty < WORD32
    requires price in m.On(side) || |m.On(side)| < MAX_LEVELS
    ensures Rep(OnAdd(b, ref, side, price, qty), MarketAdd(m, ref, side, price, qty, true), s')
  {
    var idx := b.free[|b.free| - 1];
    FreeSlotUnlisted(b, m, s, idx);
    var qs' := AddLadder(b, m, s, ref, side, price, qty);
    ShownOn(b, m, s, side);
    AbsentPrice(b.On(side), b.orders, side, s.On(side), m.On(side), price);
    AddStore(b, ref, side, price, qty);
    AddSound(b, ref, side, price, qty);
    s' := s.With(side, qs');
    var c, m' := OnAdd(b, ref, side, price, qty), MarketAdd(m, ref, side, price, qty, true);
    OppositeKept(b, m, s, side, c.orders, idx);
    AddFiled(b, m, s, c, m', s', side, idx, ref);
  }

  /**
   An addition under a reference that is not in this book appends to the queue at its price, or is
   dropped for want of room.
   */
  lemma AddRefines(b: Book, m: Market, s: Slots, ref: nat, side: Side, price: int, qty: nat)
    returns (s': Slots)
    requires Rep(b, m, s) && ref != 0 && ref !in m.home && qty < WORD32
    ensures Rep(OnAdd(b, ref, side, price, qty), MarketAdd(m, ref, side, price, qty, b.free != []), s')
  {
    if b.free == [] {
      s' := s;
    } else if price !in m.On(side) && |m.On(side)| >= MAX_LEVELS {
      ShownOn(b, m, s, side);
      AddDropped(b, m, s, ref, side, price, qty);
      s' := s;
    } else {
      s' := AddAccepted(b, m, s, ref, side, price, qty);
    }
  }

  lemma UnusedHere(b: Book, m: Market, s: Slots, ref: nat)
    requires Rep(b, m, s) && ref !in b.index
    ensures ref !in m.home
  {
    assert ref in m.home ==> Homed(b, m, s, ref);
  }

  lemma AddDropped(b: Book, m: Market, s: Slots, ref: nat, side: Side, price: int, qty: nat)
    requires Rep(b, m, s) && ref != 0 && qty < WORD32 && b.free != []
    requires price !in m.On(side) && |m.On(side)| == MAX_LEVELS
    ensures Rep(OnAdd(b, ref, side, price, qty), m, s)
  {
    var c, idx := OnAdd(b, ref, side, price, qty), b.free[|b.free| - 1];
    ShownOn(b, m, s, side);
    AbsentPrice(b.On(side), b.orders, side, s.On(side), m.On(side), price);
    FreeSlotUnlisted(b, m, s, idx);
    AddSound(b, ref, side, price, qty);
    ShownFrame(b.bids, b.orders, c.orders, Buy, s.bids, m.bids);
    ShownFrame(b.asks, b.orders, c.orders, Sell, s.asks, m.asks);
    forall r | r in m.home ensures Homed(c, m, s, r) {
      assert Homed(b, m, s, r);
    }
    forall x | 0 <= x < |c.orders| && (Located(s.bids, x) || Located(s.asks, x)) ensures Filed(c, m, x) {
      assert Filed(b, m, x);
    }
  }

  // ----- Deletions -----

  lemma ReadsCut(orders: seq<Order>, os: seq<Order>, q: seq<nat>, r: seq<Resting>, k: nat)
    requires Reads(orders, q, r) && Relinked(orders, os) && k < |q|
    ensures Reads(os, Cut(q, k), r[..k] + r[k + 1..])
  {
  }

  lemma LocatedCut(qs: seq<seq<nat>>, i: nat, k: nat, x: nat)
    requires i < |qs| && k < |qs[i]| && Distinct(qs[i])
    requires forall j :: 0 <= j < |qs| && j != i ==> qs[i][k] !in qs[j]
    ensures Located(qs[i := Cut(qs[i], k)], x) <==> Located(qs, x) && x != qs[i][k]
  {
    var qs' := qs[i := Cut(qs[i], k)];
    CutMembers(qs[i], k);
    if Located(qs, x) && x != qs[i][k] {
      var j :| 0 <= j < |qs| && x in qs[j];
      assert x in qs'[j];
    }
    if Located(qs', x) {
      var j :| 0 <= j < |qs| && x in qs'[j];
      assert x in qs[j];
    }
  }

  lemma CutMembers(q: seq<nat>, k: nat)
    requires Distinct(q) && k < |q|
    ensures forall x :: x in Cut(q, k) <==> x in q && x != q[k]
  {
    forall x | x in q && x != q[k] ensures x in Cut(q, k) {
      var j :| 0 <= j < |q| && q[j] == x;
      assert Cut(q, k)[if j < k then j else j - 1] == x;
    }
  }

  lemma LocatedRemoved(qs: seq<seq<nat>>, i: nat, x: nat)
    requires i < |qs| && |qs[i]| == 1
    requires forall j :: 0 <= j < |qs| && j != i ==> qs[i][0] !in qs[j]
    ensures Located(qs[..i] + qs[i + 1..], x) <==> Located(qs, x) && x != qs[i][0]
  {
    var qs' := qs[..i] + qs[i + 1..];
    if Located(qs, x) && x != qs[i][0] {
      var j :| 0 <= j < |qs| && x in qs[j];
      assert x in qs'[if j < i then j else j - 1];
    }
    if Located(qs', x) {
      var j :| 0 <= j < |qs'| && x in qs'[j];
      assert qs'[j] == qs[if j < i then j else j + 1];
    }
  }

  /** What unlinking an order from its own level does to the ladder. */
  lemma LeaveLevel(l: Ladder, orders: seq<Order>, side: Side, qs: seq<seq<nat>>, a: Queues, i: nat, k: nat)
    returns (qs': seq<seq<nat>>)
    requires Shown(l, orders, side, qs, a) && i < l.depth && k < |qs[i]| && |orders| < NONE
    requires qs[i][k] < |orders| && l.levels[i].price in a && FirstAt(a[l.levels[i].price], orders[qs[i][k]].id, k)
    ensures Link(orders[qs[i][k]].prev, |orders|) && Link(orders[qs[i][k]].next, |orders|)
    ensures var (os, lvl) := Unlink(orders, l.levels[i], qs[i][k]);
            var l' := l.(levels := l.levels[i := lvl]);
            && Shown(if lvl.count == 0 then RemoveLevel(l', i) else l', os, side, qs',
                     Dequeue(a, l.levels[i].price, orders[qs[i][k]].id))
            && Relinked(orders, os)
            && (forall x :: 0 <= x < |os| && !Located(qs, x) ==> os[x] == orders[x])
    ensures forall x :: Located(qs', x) <==> Located(qs, x) && x != qs[i][k]
  {
    assert ShownAt(l, orders, side, qs, a, i);
    var q, lvl0 := qs[i], l.levels[i];
    var r := a[lvl0.price];
    UnlinkListed(orders, side, lvl0, q, k);
    var (os, lvl) := Unlink(orders, lvl0, q[k]);
    WithoutAt(r, orders[q[k]].id, k);
    ReadsCut(orders, os, q, r, k);
    forall j | 0 <= j < |qs| && j != i ensures q[k] !in qs[j] {
      LevelsApart(l, orders, side, qs, a, i, j, q[k]);
    }
    forall x | 0 <= x < |os| && !Located(qs, x) ensures os[x] == orders[x] {
      assert x !in q;
    }
    if lvl.count == 0 {
      LevelGoes(l, orders, side, qs, a, i, os, lvl);
      qs' := qs[..i] + qs[i + 1..];
      forall x ensures Located(qs', x) <==> Located(qs, x) && x != q[k] {
        LocatedRemoved(qs, i, x);
      }
    } else {
      LevelChanges(l, orders, side, qs, a, i, os, lvl, Cut(q, k), r[..k] + r[k + 1..]);
      qs' := qs[i := Cut(q, k)];
      forall x ensures Located(qs', x) <==> Located(qs, x) && x != q[k] {
        LocatedCut(qs, i, k, x);
      }
    }
  }

  /** A deletion takes one reference out of the directory. */
  ghost predicate Dropped(b: Book, m: Market, s: Slots, c: Book, m': Market, s': Slots, side: Side, ref: nat) {
    && ref in m.home && ref in b.index && Relinked(b.orders, c.orders)
    && c.index == b.index - {ref} && m'.home == m.home - {ref}
    && s'.On(Opposite(side)) == s.On(Opposite(side))
    && !Located(s.On(Opposite(side)), b.index[ref])
    && forall x :: Located(s'.On(side), x) <==> Located(s.On(side), x) && x != b.index[ref]
  }

  lemma DropHomed(b: Book, m: Market, s: Slots, c: Book, m': Market, s': Slots, side: Side, ref: nat, r: nat)
    requires Rep(b, m, s) && Dropped(b, m, s, c, m', s', side, ref) && r in m'.home
    ensures Homed(c, m', s', r)
  {
    assert Homed(b, m, s, r);
    assert b.index[r] != b.index[ref];
  }

  lemma DropFiled(b: Book, m: Market, s: Slots, c: Book, m': Market, s': Slots, side: Side, ref: nat, x: nat)
    requires Rep(b, m, s) && Dropped(b, m, s, c, m', s', side, ref)
    requires x < |c.orders| && (Located(s'.bids, x) || Located(s'.asks, x))
    ensures Filed(c, m', x)
  {
    assert Located(s'.On(side), x) || Located(s'.On(Opposite(side)), x);
    assert x != b.index[ref] && (Located(s.On(side), x) || Located(s.On(Opposite(side)), x));
    assert Filed(b, m, x);
  }

  lemma DropDirectory(b: Book, m: Market, s: Slots, c: Book, m': Market, s': Slots, side: Side, ref: nat)
    requires Rep(b, m, s) && Dropped(b, m, s, c, m', s', side, ref)
    ensures forall r {:trigger Homed(c, m', s', r)} :: r in m'.home ==> Homed(c, m', s', r)
    ensures forall x {:trigger Filed(c, m', x)} :: 0 <= x < |c.orders| && (Located(s'.bids, x) || Located(s'.asks, x)) ==> Filed(c, m', x)
  {
    forall r | r in m'.home ensures Homed(c, m', s', r) {
      DropHomed(b, m, s, c, m', s', side, ref, r);
    }
    forall x | 0 <= x < |c.orders| && (Located(s'.bids, x) || Located(s'.asks, x)) ensures Filed(c, m', x) {
      DropFiled(b, m, s, c, m', s', side, ref, x);
    }
  }

  /** What the removal of an order that names its own level does to the ladder of its side. */
  lemma DropLadder(b: Book, m: Market, s: Slots, ref: nat) returns (qs': seq<seq<nat>>)
    requires Rep(b, m, s) && ref in m.home && RefCurrent(b, ref)
    ensures var o, c := b.orders[b.index[ref]], Detach(b, b.index[ref]);
            && m.home[ref] == Spot(o.side, o.price)
            && Shown(c.On(o.side), c.orders, o.side, qs', Dequeue(m.On(o.side), o.price, ref))
            && Relinked(b.orders, c.orders)
            && (forall x :: 0 <= x < |c.orders| && !Located(s.On(o.side), x) ==> c.orders[x] == b.orders[x])
            && (forall x :: Located(qs', x) <==> Located(s.On(o.side), x) && x != b.index[ref])
  {
    var i, k := Whereabouts(b, m, s, ref);
    var o := b.orders[b.index[ref]];
    CurrentLevel(b, m, s, ref, i, k);
    FirstInQueue(b, m, s, ref, i, k);
    qs' := LeaveLevel(b.On(o.side), b.orders, o.side, s.On(o.side), m.On(o.side), i, k);
  }

  /** A book whose one side lost an order and whose directory lost its reference. */
  lemma DropAssembles(b: Book, m: Market, s: Slots, c: Book, m': Market, s': Slots, side: Side, ref: nat)
    requires Rep(b, m, s) && Sound(c) && Dropped(b, m, s, c, m', s', side, ref)
    requires Shown(c.On(side), c.orders, side, s'.On(side), m'.On(side))
    requires c.On(Opposite(side)) == b.On(Opposite(side)) && m'.On(Opposite(side)) == m.On(Opposite(side))
    requires forall x :: 0 <= x < |c.orders| && !Located(s.On(side), x) ==> c.orders[x] == b.orders[x]
    ensures Rep(c, m', s')
  {
    OppositeKept(b, m, s, side, c.orders, b.index[ref]);
    DropDirectory(b, m, s, c, m', s', side, ref);
  }

  /** Dropping an order that names its own level removes it, and only it, from its queue. */
  lemma DropRefines(b: Book, m: Market, s: Slots, ref: nat) returns (s': Slots)
    requires Rep(b, m, s) && ref in m.home && RefCurrent(b, ref)
    ensures Rep(Release(Detach(b, b.index[ref]), ref, b.index[ref]), MarketDelete(m, ref), s')
  {
    var idx := b.index[ref];
    var side, c := b.orders[idx].side, Release(Detach(b, idx), ref, idx);
    var qs' := DropLadder(b, m, s, ref);
    DropSound(b, ref);
    assert Homed(b, m, s, ref);
    LocatedSide(b, m, s, side, idx);
    s' := s.With(side, qs');
    DropAssembles(b, m, s, c, MarketDelete(m, ref), s', side, ref);
  }
}
