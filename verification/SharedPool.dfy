/**
 Books of one shard share the order pool and the order index.  A message to one book leaves
 every other book of the shard standing for what it stood for.
 */
module SharedPool {
  import opened Words
  import opened BookModel
  import opened BookSafety
  import opened LevelList
  import opened PriceQueues
  import opened LadderView
  import opened BookRefinement
  import opened HandlerRefinement
  import opened AmendRefinement
  import opened BookTheorems

  ghost predicate Mine(s: Slots, x: nat) {
    Located(s.bids, x) || Located(s.asks, x)
  }

  /** Only orders listed in this book, or free slots, were written. */
  ghost predicate Private(b: Book, s: Slots, c: Book) {
    && |c.orders| == |b.orders|
    && forall x :: 0 <= x < |b.orders| && x !in b.free && !Mine(s, x) ==> c.orders[x] == b.orders[x]
  }

  // ----- What each handler writes -----

  lemma AddPrivate(b: Book, m: Market, s: Slots, ref: nat, side: Side, price: int, qty: nat)
    requires Rep(b, m, s) && qty < WORD32
    ensures Private(b, s, OnAdd(b, ref, side, price, qty))
  {
    if b.free != [] {
      ShownOn(b, m, s, side);
      AbsentPrice(b.On(side), b.orders, side, s.On(side), m.On(side), price);
      if price in m.On(side) || |m.On(side)| < MAX_LEVELS {
        var qs := AddLadder(b, m, s, ref, side, price, qty);
      }
    }
  }

  lemma DropPrivate(b: Book, m: Market, s: Slots, ref: nat)
    requires Rep(b, m, s) && ref in m.home && RefCurrent(b, ref)
    ensures Private(b, s, OnDelete(b, ref))
  {
    var i, k := Whereabouts(b, m, s, ref);
    CurrentLevel(b, m, s, ref, i, k);
    var o := b.orders[b.index[ref]];
    var q := s.On(o.side)[i];
    assert ShownAt(b.On(o.side), b.orders, o.side, s.On(o.side), m.On(o.side), i);
    UnlinkFrame(b.orders, o.side, b.On(o.side).levels[i], q, k);
    assert forall x: nat :: x in q ==> Located(s.On(o.side), x);
  }

  lemma PrivateTwice(b: Book, s: Slots, c: Book, t: Slots, d: Book)
    requires Private(b, s, c) && Private(c, t, d)
    requires forall x :: 0 <= x < |b.orders| && x !in b.free && !Mine(s, x) ==> x !in c.free && !Mine(t, x)
    ensures Private(b, s, d)
  {
  }

  lemma HomedMine(b: Book, m: Market, s: Slots, ref: nat)
    requires Rep(b, m, s) && ref in m.home
    ensures ref in b.index && b.index[ref] < |b.orders| && Mine(s, b.index[ref]) && b.index[ref] !in b.free
  {
    assert Homed(b, m, s, ref);
  }

  lemma ShrinkPrivate(b: Book, s: Slots, idx: nat, shares: nat)
    requires Wf(b) && idx < |b.orders| && shares < WORD32 && Mine(s, idx)
    ensures Private(b, s, Shrink(b, idx, shares)) && Shrink(b, idx, shares).free == b.free
  {
  }

  lemma ReducePrivate(b: Book, m: Market, s: Slots, ref: nat, shares: nat)
    requires Rep(b, m, s) && ref in m.home && shares < WORD32
    requires RefCurrent(b, ref) || (shares == 0 && RefQty(b, ref) != 0)
    ensures Private(b, s, OnReduce(b, ref, shares))
  {
    HomedMine(b, m, s, ref);
    var idx := b.index[ref];
    var o, c := b.orders[idx], Shrink(b, idx, shares);
    assert WfOrder(o, |b.orders|);
    ShrinkPrivate(b, s, idx, shares);
    if Sub32(o.qty, shares) == 0 {
      ShrinkRefines(b, m, s, ref, shares);
      EmptiedPrivate(b, s, c, m.With(o.side, Update(m.On(o.side), o.price, ref, Resting(ref, 0))), ref);
    }
  }

  lemma EmptiedPrivate(b: Book, s: Slots, c: Book, m: Market, ref: nat)
    requires Private(b, s, c) && c.free == b.free && Rep(c, m, s) && ref in m.home && RefCurrent(c, ref)
    ensures Private(b, s, OnDelete(c, ref))
  {
    DropPrivate(c, m, s, ref);
    PrivateTwice(b, s, c, s, OnDelete(c, ref));
  }

  lemma DropMine(b: Book, m: Market, s: Slots, ref: nat, t: Slots, x: nat)
    requires Rep(b, m, s) && ref in b.index && Rep(OnDelete(b, ref), MarketDelete(m, ref), t)
    requires x < |b.orders| && Mine(t, x)
    ensures Mine(s, x)
  {
    assert Filed(OnDelete(b, ref), MarketDelete(m, ref), x);
    DropNames(b, ref, x);
    HomedMine(b, m, s, b.orders[x].id);
  }

  lemma DropNames(b: Book, ref: nat, x: nat)
    requires Wf(b) && ref in b.index && x < |b.orders|
    ensures OnDelete(b, ref).orders[x].id == b.orders[x].id
  {
  }

  lemma MovePrivate(b: Book, m: Market, s: Slots, orig: nat, ref: nat, qty: nat, side: Side, price: int)
    requires Rep(b, m, s) && orig in m.home && RefCurrent(b, orig) && qty < WORD32
    ensures Private(b, s, OnAdd(OnDelete(b, orig), ref, side, price, qty))
  {
    DropPrivate(b, m, s, orig);
    HomedMine(b, m, s, orig);
    var c := OnDelete(b, orig);
    assert c.free == b.free + [b.index[orig]];
    var t := DropRefines(b, m, s, orig);
    AddPrivate(c, MarketDelete(m, orig), t, ref, side, price, qty);
    forall x | 0 <= x < |b.orders| && x !in b.free && !Mine(s, x) ensures x !in c.free && !Mine(t, x) {
      if Mine(t, x) {
        DropMine(b, m, s, orig, t, x);
      }
    }
    PrivateTwice(b, s, c, t, OnAdd(c, ref, side, price, qty));
  }

  lemma StepPrivate(b: Book, m: Market, s: Slots, msg: Message)
    requires Rep(b, m, s) && WfMessage(msg) && Owned(b, m, msg) && Admissible(b, msg)
    ensures Private(b, s, Apply(b, msg))
  {
    match msg {
      case Add(ref, side, price, qty) =>
        AddPrivate(b, m, s, ref, side, price, qty);
      case Reduce(ref, shares) =>
        if ref in b.index {
          ReducePrivate(b, m, s, ref, shares);
        }
      case Delete(ref) =>
        if ref in b.index {
          DropPrivate(b, m, s, ref);
        }
      case Replace(orig, ref, qty, price) =>
        if orig in b.index {
          HomedMine(b, m, s, orig);
          var o := b.orders[b.index[orig]];
          if !InPlace(o, price, qty) {
            MovePrivate(b, m, s, orig, ref, qty, o.side, price);
          }
        }
    }
  }

  /** Reference `r` is indexed in both books, at the same slot. */
  predicate Indexed(b: Book, c: Book, r: nat) {
    r in b.index && r in c.index && c.index[r] == b.index[r]
  }

  lemma AddIndexed(b: Book, ref: nat, side: Side, price: int, qty: nat, r: nat)
    requires Wf(b) && qty < WORD32 && r in b.index && r != ref
    ensures Indexed(b, OnAdd(b, ref, side, price, qty), r)
  {
  }

  lemma DropIndexed(b: Book, ref: nat, r: nat)
    requires Wf(b) && r in b.index && r != ref
    ensures Indexed(b, OnDelete(b, ref), r)
  {
  }

  lemma ReduceIndexed(b: Book, ref: nat, shares: nat, r: nat)
    requires Wf(b) && shares < WORD32 && r in b.index && r != ref
    ensures Indexed(b, OnReduce(b, ref, shares), r)
  {
  }

  lemma ReplaceIndexed(b: Book, orig: nat, ref: nat, qty: nat, price: int, r: nat)
    requires Wf(b) && qty < WORD32 && r in b.index && r != ref && r != orig
    ensures Indexed(b, OnReplace(b, orig, ref, qty, price), r)
  {
    if orig in b.index {
      DropIndexed(b, orig, r);
      AddIndexed(OnDelete(b, orig), ref, b.orders[b.index[orig]].side, price, qty, r);
    }
  }

  /** References of other books stay indexed where they were. */
  lemma StepIndex(b: Book, m: Market, msg: Message, r: nat)
    requires Wf(b) && WfMessage(msg) && Owned(b, m, msg) && Admissible(b, msg)
    requires r in b.index && r !in m.home
    ensures Indexed(b, Apply(b, msg), r)
  {
    match msg {
      case Add(ref, side, price, qty) =>
        AddIndexed(b, ref, side, price, qty, r);
      case Reduce(ref, shares) =>
        if ref in b.index {
          ReduceIndexed(b, ref, shares, r);
        }
      case Delete(ref) =>
        if ref in b.index {
          DropIndexed(b, ref, r);
        }
      case Replace(orig, ref, qty, price) =>
        if orig in b.index {
          ReplaceIndexed(b, orig, ref, qty, price, r);
        }
    }
  }

  // ----- The neighbours -----

  /** Book `d` over the store of book `c`. */
  function Over(d: Book, c: Book): (r: Book) {
    d.(orders := c.orders, free := c.free, index := c.index)
  }

  lemma NeighbourShown(b: Book, m: Market, s: Slots, d: Book, n: Market, t: Slots, c: Book, side: Side)
    requires Rep(b, m, s) && Rep(d, n, t) && d == Over(d, b) && m.home.Keys !! n.home.Keys && Private(b, s, c)
    ensures Shown(d.On(side), c.orders, side, t.On(side), n.On(side))
  {
    ShownOn(d, n, t, side);
    forall x | 0 <= x < |d.orders| && Located(t.On(side), x) ensures c.orders[x] == d.orders[x] {
      NeighbourSlot(b, m, s, d, n, t, x);
    }
    ShownFrame(d.On(side), d.orders, c.orders, side, t.On(side), n.On(side));
  }

  /** An order listed in a neighbour is neither free nor listed here. */
  lemma NeighbourSlot(b: Book, m: Market, s: Slots, d: Book, n: Market, t: Slots, x: nat)
    requires Rep(b, m, s) && Rep(d, n, t) && d == Over(d, b) && m.home.Keys !! n.home.Keys
    requires x < |d.orders| && Mine(t, x)
    ensures x !in b.free && !Mine(s, x)
  {
    assert Filed(d, n, x);
    assert b.orders[x].id !in m.home;
    assert !Filed(b, m, x);
  }

  /**
   One admissible message to book `b`: `b` follows its abstract book, and every other book `d` on
   the same pool and index still stands for what it stood for.
   */
  lemma NeighbourKept(b: Book, m: Market, s: Slots, msg: Message, d: Book, n: Market, t: Slots)
    requires Rep(b, m, s) && WfMessage(msg) && Owned(b, m, msg) && Admissible(b, msg)
    requires Rep(d, n, t) && d == Over(d, b) && m.home.Keys !! n.home.Keys
    ensures Rep(Over(d, Apply(b, msg)), n, t)
  {
    var c := Apply(b, msg);
    var s' := StepRefines(b, m, s, msg);
    StepPrivate(b, m, s, msg);
    NeighbourShown(b, m, s, d, n, t, c, Buy);
    NeighbourShown(b, m, s, d, n, t, c, Sell);
    OverRep(b, m, s, msg, d, n, t, c);
  }

  lemma OverHomed(b: Book, m: Market, s: Slots, msg: Message, d: Book, n: Market, t: Slots, c: Book, r: nat)
    requires Rep(b, m, s) && WfMessage(msg) && Owned(b, m, msg) && Admissible(b, msg)
    requires Rep(d, n, t) && d == Over(d, b) && m.home.Keys !! n.home.Keys
    requires c == Apply(b, msg) && Private(b, s, c) && r in n.home
    ensures Homed(Over(d, c), n, t, r)
  {
    assert Homed(d, n, t, r);
    StepIndex(b, m, msg, r);
    NeighbourSlot(b, m, s, d, n, t, d.index[r]);
  }

  lemma OverFiled(b: Book, m: Market, s: Slots, msg: Message, d: Book, n: Market, t: Slots, c: Book, x: nat)
    requires Rep(b, m, s) && WfMessage(msg) && Owned(b, m, msg) && Admissible(b, msg)
    requires Rep(d, n, t) && d == Over(d, b) && m.home.Keys !! n.home.Keys
    requires c == Apply(b, msg) && Private(b, s, c) && x < |c.orders| && Mine(t, x)
    ensures Filed(Over(d, c), n, x)
  {
    assert Filed(d, n, x);
    StepIndex(b, m, msg, d.orders[x].id);
    NeighbourSlot(b, m, s, d, n, t, x);
  }

  lemma OverRep(b: Book, m: Market, s: Slots, msg: Message, d: Book, n: Market, t: Slots, c: Book)
    requires Rep(b, m, s) && WfMessage(msg) && Owned(b, m, msg) && Admissible(b, msg)
    requires Rep(d, n, t) && d == Over(d, b) && m.home.Keys !! n.home.Keys
    requires c == Apply(b, msg) && Sound(c) && Private(b, s, c)
    requires Shown(d.bids, c.orders, Buy, t.bids, n.bids) && Shown(d.asks, c.orders, Sell, t.asks, n.asks)
    ensures Rep(Over(d, c), n, t)
  {
    var e := Over(d, c);
    assert Sound(e);
    forall r | r in n.home ensures Homed(e, n, t, r) {
      OverHomed(b, m, s, msg, d, n, t, c, r);
    }
    forall x | 0 <= x < |e.orders| && (Located(t.bids, x) || Located(t.asks, x)) ensures Filed(e, n, x) {
      OverFiled(b, m, s, msg, d, n, t, c, x);
    }
  }
}
