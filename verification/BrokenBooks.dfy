/**
 Books that stand for no abstract book at all.  The links in the pool determine each list, so a
 level whose record disagrees with the list that starts at its head cannot be explained by any
 choice of queues.
 */
module BrokenBooks {
  import opened Words
  import opened BookModel
  import opened BookSafety
  import opened LevelList
  import opened PriceQueues
  import opened LadderView
  import opened BookRefinement
  import opened HandlerRefinement

  ghost predicate Broken(b: Book) {
    forall m, s :: !Rep(b, m, s)
  }

  // ----- One wrong level -----

  /** What any explanation of the book would have to say about one of its levels. */
  lemma LevelLinks(b: Book, m: Market, s: Slots, side: Side, j: nat)
    requires Rep(b, m, s) && j < b.On(side).depth
    ensures j < |b.On(side).levels| && j < |s.On(side)|
    ensures var lvl, q := b.On(side).levels[j], s.On(side)[j];
            && Linked(b.orders, q) && q != [] && q[0] == lvl.head && |q| == lvl.count
            && lvl.total == Sum(b.orders, q) % WORD32
            && Distinct(q) && (forall k :: 0 <= k < |q| ==> b.orders[q[k]].price == lvl.price)
            && q[0] < |b.orders| < NONE && b.orders[q[0]].id in b.index && b.orders[q[0]].prev == NONE
  {
    ShownOn(b, m, s, side);
    assert ShownAt(b.On(side), b.orders, side, s.On(side), m.On(side), j);
    assert LinkedAt(b.orders, s.On(side)[j], 0);
    LocatedOrder(b, m, s, side, j, s.On(side)[j][0]);
  }

  /** A level that counts another number of orders than its list has. */
  lemma MiscountBreaks(b: Book, side: Side, j: nat, q: seq<nat>)
    requires j < b.On(side).depth <= |b.On(side).levels| && Linked(b.orders, q) && q != []
    requires b.On(side).levels[j].head == q[0] && b.On(side).levels[j].count != |q|
    ensures Broken(b)
  {
    forall m, s ensures !Rep(b, m, s) {
      if Rep(b, m, s) {
        LevelLinks(b, m, s, side, j);
        SameChain(b.orders, q, s.On(side)[j]);
      }
    }
  }

  /** A level whose total is not the sum of its list. */
  lemma MissumBreaks(b: Book, side: Side, j: nat, q: seq<nat>)
    requires j < b.On(side).depth <= |b.On(side).levels| && Linked(b.orders, q) && q != []
    requires b.On(side).levels[j].head == q[0] && b.On(side).levels[j].total != Sum(b.orders, q) % WORD32
    ensures Broken(b)
  {
    forall m, s ensures !Rep(b, m, s) {
      if Rep(b, m, s) {
        LevelLinks(b, m, s, side, j);
        SameChain(b.orders, q, s.On(side)[j]);
      }
    }
  }

  /** A level whose first order is not indexed any more, has another price, or has one in front of it. */
  lemma BadHeadBreaks(b: Book, side: Side, j: nat)
    requires j < b.On(side).depth <= |b.On(side).levels|
    requires var lvl := b.On(side).levels[j];
             && lvl.head < |b.orders|
             && (b.orders[lvl.head].id !in b.index || b.orders[lvl.head].price != lvl.price || b.orders[lvl.head].prev != NONE)
    ensures Broken(b)
  {
    forall m, s ensures !Rep(b, m, s) {
      if Rep(b, m, s) {
        LevelLinks(b, m, s, side, j);
      }
    }
  }

  // ----- A used reference -----

  lemma SameSlots(l: Ladder, orders: seq<Order>, side: Side, qs: seq<seq<nat>>, a: Queues, ps: seq<seq<nat>>, c: Queues)
    requires Shown(l, orders, side, qs, a) && Shown(l, orders, side, ps, c) && |orders| < NONE
    ensures qs == ps
  {
    forall i | 0 <= i < l.depth ensures qs[i] == ps[i] {
      assert ShownAt(l, orders, side, qs, a, i) && ShownAt(l, orders, side, ps, c, i);
      SameChain(orders, qs[i], ps[i]);
    }
  }

  /** A listed order that its reference is not indexed to. */
  lemma MisfiledBreaks(b: Book, side: Side, qs: seq<seq<nat>>, a: Queues, x: nat)
    requires |b.orders| < NONE && Shown(b.On(side), b.orders, side, qs, a) && Located(qs, x) && x < |b.orders|
    requires b.orders[x].id in b.index ==> b.index[b.orders[x].id] != x
    ensures Broken(b)
  {
    forall m, s ensures !Rep(b, m, s) {
      if Rep(b, m, s) {
        ShownOn(b, m, s, side);
        SameSlots(b.On(side), b.orders, side, qs, a, s.On(side), m.On(side));
        LocatedSide(b, m, s, side, x);
      }
    }
  }

  /** The older of two orders under one reference stays listed but loses its index entry. */
  lemma UsedAddBreaks(b: Book, m: Market, s: Slots, ref: nat, side: Side, price: int, qty: nat)
    requires Rep(b, m, s) && ref in m.home && b.free != [] && qty < WORD32
    requires price in m.On(side) || |m.On(side)| < MAX_LEVELS
    ensures Broken(OnAdd(b, ref, side, price, qty))
  {
    assert Homed(b, m, s, ref);
    var idx, x, c := b.free[|b.free| - 1], b.index[ref], OnAdd(b, ref, side, price, qty);
    var o := b.orders[x];
    assert x !in b.free && x != idx;
    ShownOn(b, m, s, side);
    AbsentPrice(b.On(side), b.orders, side, s.On(side), m.On(side), price);
    FreeSlotUnlisted(b, m, s, idx);
    AddStore(b, ref, side, price, qty);
    var qs := AddLadder(b, m, s, ref, side, price, qty);
    if o.side == side {
      MisfiledBreaks(c, side, qs, Enqueue(m.On(side), price, Resting(ref, qty)), x);
    } else {
      OppositeKept(b, m, s, side, c.orders, idx);
      MisfiledBreaks(c, o.side, s.On(o.side), m.On(o.side), x);
    }
  }
}
