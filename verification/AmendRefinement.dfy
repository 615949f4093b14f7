/**
 Reductions and amendments: one order changes where it stands.
 */
module AmendRefinement {
  import opened Words
  import opened BookModel
  import opened BookSafety
  import opened LevelList
  import opened PriceQueues
  import opened LadderView
  import opened BookRefinement
  import opened HandlerRefinement

  /** The order at position `k` of level `i` becomes `e`; the level total follows. */
  lemma ChangeLevel(l: Ladder, orders: seq<Order>, side: Side, qs: seq<seq<nat>>, a: Queues,
                    i: nat, k: nat, os: seq<Order>, e: Resting, l': Ladder)
    requires Shown(l, orders, side, qs, a) && i < l.depth && k < |qs[i]| && qs[i][k] < |orders|
    requires l.levels[i].price in a && FirstAt(a[l.levels[i].price], orders[qs[i][k]].id, k)
    requires os == orders[qs[i][k] := orders[qs[i][k]].(id := e.id, qty := e.qty)]
    requires l' == l.(levels := l.levels[i := l.levels[i].(
                        total := (l.levels[i].total - orders[qs[i][k]].qty + e.qty) % WORD32)])
    ensures Shown(l', os, side, qs, Update(a, l.levels[i].price, orders[qs[i][k]].id, e))
  {
    assert ShownAt(l, orders, side, qs, a, i);
    var q, lvl := qs[i], l'.levels[i];
    var r := a[lvl.price];
    ChangeListed(orders, os, side, l.levels[i], lvl, q, k);
    SwappedAt(r, orders[q[k]].id, e, k);
    assert Reads(os, q, r[k := e]);
    LevelChanges(l, orders, side, qs, a, i, os, lvl, q, r[k := e]);
    assert qs[i := q] == qs;
  }

  /** The book in which the order `idx` became `e` and level `i` was charged for it. */
  function Changed(b: Book, idx: nat, i: nat, e: Resting): (c: Book)
    requires Wf(b) && idx < |b.orders| && i < MAX_LEVELS
  {
    var o := b.orders[idx];
    var l := b.On(o.side);
    b.With(o.side, l.(levels := l.levels[i := l.levels[i].(total := (l.levels[i].total - o.qty + e.qty) % WORD32)]))
     .(orders := b.orders[idx := o.(id := e.id, qty := e.qty)])
  }

  lemma ChangedSides(b: Book, m: Market, s: Slots, ref: nat, i: nat, k: nat, e: Resting)
    requires Rep(b, m, s) && ref in m.home && Homed(b, m, s, ref)
    requires var q := s.On(b.orders[b.index[ref]].side); i < |q| && k < |q[i]| && q[i][k] == b.index[ref]
    ensures i < MAX_LEVELS
    ensures var o, c := b.orders[b.index[ref]], Changed(b, b.index[ref], i, e);
            var m' := m.With(o.side, Update(m.On(o.side), o.price, ref, e));
            && Shown(c.bids, c.orders, Buy, s.bids, m'.bids) && Shown(c.asks, c.orders, Sell, s.asks, m'.asks)
  {
    var idx := b.index[ref];
    var o := b.orders[idx];
    ShownOn(b, m, s, o.side);
    LocatedOrder(b, m, s, o.side, i, idx);
    FirstInQueue(b, m, s, ref, i, k);
    var c := Changed(b, idx, i, e);
    ChangeLevel(b.On(o.side), b.orders, o.side, s.On(o.side), m.On(o.side), i, k, c.orders, e, c.On(o.side));
    LocatedSide(b, m, s, o.side, idx);
    OppositeKept(b, m, s, o.side, c.orders, idx);
  }

  // ----- Reductions -----

  lemma ShrinkWord(total: nat, qty: nat, shares: nat)
    requires total < WORD32 && qty < WORD32 && shares < WORD32
    ensures Sub32(total, shares) == (total - qty + Sub32(qty, shares)) % WORD32
    ensures shares == 0 ==> Sub32(total, shares) == total && Sub32(qty, shares) == qty
  {
  }

  /** An order that names its own level is charged there; a reduction by nothing is charged nowhere. */
  lemma ShrinkIsChange(b: Book, idx: nat, i: nat, shares: nat)
    requires Wf(b) && idx < |b.orders| && shares < WORD32 && i < MAX_LEVELS
    requires b.orders[idx].level == i || shares == 0
    ensures Shrink(b, idx, shares) == Changed(b, idx, i, Resting(b.orders[idx].id, Sub32(b.orders[idx].qty, shares)))
  {
    var o := b.orders[idx];
    var l := b.On(o.side);
    var c, d := Shrink(b, idx, shares), Changed(b, idx, i, Resting(o.id, Sub32(o.qty, shares)));
    assert c.orders == d.orders;
    assert WfLevel(l.levels[i], |b.orders|) && WfLevel(l.levels[o.level], |b.orders|) && WfOrder(o, |b.orders|);
    ShrinkWord(l.levels[i].total, o.qty, shares);
    ShrinkWord(l.levels[o.level].total, o.qty, shares);
    assert c.On(o.side).levels == d.On(o.side).levels;
  }

  /** The directory of a book whose orders keep their references, sides and prices. */
  lemma SameFiled(b: Book, m: Market, s: Slots, c: Book, m': Market)
    requires Rep(b, m, s) && |c.orders| == |b.orders| && c.index == b.index && m'.home == m.home
    requires forall x :: 0 <= x < |b.orders| ==>
      c.orders[x].id == b.orders[x].id && c.orders[x].side == b.orders[x].side && c.orders[x].price == b.orders[x].price
    ensures forall r {:trigger Homed(c, m', s, r)} :: r in m'.home ==> Homed(c, m', s, r)
    ensures forall x {:trigger Filed(c, m', x)} :: 0 <= x < |c.orders| && (Located(s.bids, x) || Located(s.asks, x)) ==> Filed(c, m', x)
  {
    forall r | r in m'.home ensures Homed(c, m', s, r) {
      assert Homed(b, m, s, r);
    }
    forall x | 0 <= x < |c.orders| && (Located(s.bids, x) || Located(s.asks, x)) ensures Filed(c, m', x) {
      assert Filed(b, m, x);
    }
  }

  lemma ShrinkRefines(b: Book, m: Market, s: Slots, ref: nat, shares: nat)
    requires Rep(b, m, s) && ref in m.home && shares < WORD32
    requires ref in b.index && (RefCurrent(b, ref) || shares == 0)
    ensures var o, c := b.orders[b.index[ref]], Shrink(b, b.index[ref], shares);
            Rep(c, m.With(o.side, Update(m.On(o.side), o.price, ref, Resting(ref, Sub32(o.qty, shares)))), s)
  {
    var i, k := Whereabouts(b, m, s, ref);
    var idx := b.index[ref];
    var o, c := b.orders[idx], Shrink(b, idx, shares);
    var e := Resting(ref, Sub32(o.qty, shares));
    var m' := m.With(o.side, Update(m.On(o.side), o.price, ref, e));
    CurrentLevel(b, m, s, ref, i, k);
    ChangedSides(b, m, s, ref, i, k, e);
    ShrinkIsChange(b, idx, i, shares);
    SameFiled(b, m, s, c, m');
  }

  /** Changing an order's quantity and then removing it is removing it. */
  lemma DequeueUpdated(a: Queues, price: int, id: nat, e: Resting, k: nat)
    requires price in a && FirstAt(a[price], id, k) && e.id == id
    ensures Dequeue(Update(a, price, id, e), price, id) == Dequeue(a, price, id)
  {
    var r := a[price];
    SwappedAt(r, id, e, k);
    WithoutAt(r, id, k);
    WithoutAt(r[k := e], id, k);
    assert r[k := e][..k] + r[k := e][k + 1..] == r[..k] + r[k + 1..];
    var a', q := Update(a, price, id, e), r[..k] + r[k + 1..];
    assert a' - {price} == a - {price};
    assert a'[price := q] == a[price := q];
  }

  lemma ShrinkToNothing(b: Book, m: Market, s: Slots, ref: nat, shares: nat) returns (s': Slots)
    requires Rep(b, m, s) && ref in m.home && shares < WORD32 && RefCurrent(b, ref)
    requires Sub32(RefQty(b, ref), shares) == 0
    ensures Rep(OnReduce(b, ref, shares), MarketDelete(m, ref), s')
  {
    var i, k := Whereabouts(b, m, s, ref);
    var o := b.orders[b.index[ref]];
    FirstInQueue(b, m, s, ref, i, k);
    ShrinkRefines(b, m, s, ref, shares);
    var e := Resting(ref, 0);
    DequeueUpdated(m.On(o.side), o.price, ref, e, k);
    var c, m' := Shrink(b, b.index[ref], shares), m.With(o.side, Update(m.On(o.side), o.price, ref, e));
    assert RefCurrent(c, ref);
    s' := DropRefines(c, m', s, ref);
    assert MarketDelete(m', ref) == MarketDelete(m, ref);
  }

  /** A reduction leaves the order where it stands with what remains of it, or removes it. */
  lemma ReduceRefines(b: Book, m: Market, s: Slots, ref: nat, shares: nat) returns (s': Slots)
    requires Rep(b, m, s) && shares < WORD32 && (ref in b.index ==> ref in m.home)
    requires ref in m.home ==> RefCurrent(b, ref) || (shares == 0 && RefQty(b, ref) != 0)
    ensures Rep(OnReduce(b, ref, shares), MarketReduce(m, ref, shares), s')
  {
    s' := s;
    if ref in m.home {
      var i, k := Whereabouts(b, m, s, ref);
      var o := b.orders[b.index[ref]];
      assert WfOrder(o, |b.orders|);
      FirstInQueue(b, m, s, ref, i, k);
      if Sub32(o.qty, shares) == 0 {
        s' := ShrinkToNothing(b, m, s, ref, shares);
      } else {
        ShrinkRefines(b, m, s, ref, shares);
      }
    }
  }

  // ----- Amendments -----

  lemma AmendWord(total: nat, was: nat, qty: nat)
    requires total < WORD32 && was < WORD32 && qty < WORD32
    ensures Add32(Sub32(total, was), qty) == (total - was + qty) % WORD32
    ensures was == qty ==> Add32(Sub32(total, was), qty) == total
  {
  }

  lemma AmendIsChange(b: Book, orig: nat, ref: nat, qty: nat, i: nat)
    requires Wf(b) && orig in b.index && qty < WORD32 && i < MAX_LEVELS
    requires var o := b.orders[b.index[orig]]; o.level == i || qty == o.qty
    ensures Amend(b, orig, ref, qty) ==
            Changed(b, b.index[orig], i, Resting(ref, qty)).(index := (b.index - {orig})[ref := b.index[orig]])
  {
    var idx := b.index[orig];
    var o := b.orders[idx];
    var l := b.On(o.side);
    var c, d := Amend(b, orig, ref, qty), Changed(b, idx, i, Resting(ref, qty));
    assert c.orders == d.orders;
    assert WfLevel(l.levels[i], |b.orders|) && WfLevel(l.levels[o.level], |b.orders|) && WfOrder(o, |b.orders|);
    AmendWord(l.levels[i].total, o.qty, qty);
    AmendWord(l.levels[o.level].total, o.qty, qty);
    assert c.On(o.side).levels == d.On(o.side).levels;
  }

  /** The directory after an amendment. */
  lemma AmendFiled(b: Book, m: Market, s: Slots, c: Book, m': Market, orig: nat, ref: nat, o: Order)
    requires Rep(b, m, s) && orig in m.home && orig in b.index && |c.orders| == |b.orders|
    requires b.index[orig] < |b.orders| && o == b.orders[b.index[orig]]
    requires ref !in m.home || ref == orig
    requires c.index == (b.index - {orig})[ref := b.index[orig]]
    requires c.orders == b.orders[b.index[orig] := c.orders[b.index[orig]]]
    requires c.orders[b.index[orig]].id == ref
    requires c.orders[b.index[orig]].side == o.side && c.orders[b.index[orig]].price == o.price
    requires m'.home == (m.home - {orig})[ref := Spot(o.side, o.price)]
    ensures forall r {:trigger Homed(c, m', s, r)} :: r in m'.home ==> Homed(c, m', s, r)
    ensures forall x {:trigger Filed(c, m', x)} :: 0 <= x < |c.orders| && (Located(s.bids, x) || Located(s.asks, x)) ==> Filed(c, m', x)
  {
    assert Homed(b, m, s, orig);
    forall r | r in m'.home ensures Homed(c, m', s, r) {
      if r != ref {
        assert Homed(b, m, s, r);
      }
    }
    forall x | 0 <= x < |c.orders| && (Located(s.bids, x) || Located(s.asks, x)) ensures Filed(c, m', x) {
      assert Filed(b, m, x);
    }
  }

  /** A replacement in place keeps the order's position and changes its reference and quantity only. */
  lemma AmendRefines(b: Book, m: Market, s: Slots, orig: nat, ref: nat, qty: nat)
    requires Rep(b, m, s) && orig in m.home && orig in b.index
    requires ref != 0 && (ref !in m.home || ref == orig) && qty < WORD32
    requires RefCurrent(b, orig) || qty == RefQty(b, orig)
    ensures var o, c := b.orders[b.index[orig]], Amend(b, orig, ref, qty);
            Rep(c, m.With(o.side, Update(m.On(o.side), o.price, orig, Resting(ref, qty)))
                    .(home := (m.home - {orig})[ref := Spot(o.side, o.price)]), s)
  {
    var i, k := Whereabouts(b, m, s, orig);
    var o, c := b.orders[b.index[orig]], Amend(b, orig, ref, qty);
    var m' := m.With(o.side, Update(m.On(o.side), o.price, orig, Resting(ref, qty)))
               .(home := (m.home - {orig})[ref := Spot(o.side, o.price)]);
    CurrentLevel(b, m, s, orig, i, k);
    ChangedSides(b, m, s, orig, i, k, Resting(ref, qty));
    AmendIsChange(b, orig, ref, qty, i);
    AmendSound(b, orig, ref, qty);
    AmendFiled(b, m, s, c, m', orig, ref, o);
  }

  /** Replacement: in place, or to the tail of the queue at the new price. */
  lemma ReplaceRefines(b: Book, m: Market, s: Slots, orig: nat, ref: nat, qty: nat, price: int) returns (s': Slots)
    requires Rep(b, m, s) && (orig in b.index ==> orig in m.home)
    requires ref != 0 && (ref !in m.home || ref == orig) && qty < WORD32
    requires orig in m.home ==> RefCurrent(b, orig) || (price == m.home[orig].price && qty == RefQty(b, orig))
    ensures Rep(OnReplace(b, orig, ref, qty, price), MarketReplace(m, orig, ref, qty, price), s')
  {
    s' := s;
    if orig in m.home {
      var i, k := Whereabouts(b, m, s, orig);
      var o := b.orders[b.index[orig]];
      FirstInQueue(b, m, s, orig, i, k);
      if InPlace(o, price, qty) {
        AmendRefines(b, m, s, orig, ref, qty);
      } else {
        var s1 := DropRefines(b, m, s, orig);
        s' := AddRefines(OnDelete(b, orig), MarketDelete(m, orig), s1, ref, o.side, price, qty);
      }
    }
  }
}
