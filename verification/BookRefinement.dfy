/**
 The handlers refine an abstract book: on each side a map from prices to queues of orders in
 time order, with a directory that tells where each reference rests.
 */
module BookRefinement {
  import opened BookModel
  import opened BookSafety
  import opened PriceQueues
  import opened LadderView

  datatype Spot = Spot(side: Side, price: int)

  datatype Market = Market(bids: Queues, asks: Queues, home: map<nat, Spot>)
  {
    function On(side: Side): (a: Queues) {
      if side.Buy? then bids else asks
    }

    function With(side: Side, a: Queues): (m: Market) {
      if side.Buy? then this.(bids := a) else this.(asks := a)
    }
  }

  // ----- The abstract handlers -----

  /** `room` tells whether the pool, which books share, has a slot left. */
  function MarketAdd(m: Market, ref: nat, side: Side, price: int, qty: nat, room: bool): (r: Market) {
    if !room || (price !in m.On(side) && |m.On(side)| == MAX_LEVELS) then m
    else m.With(side, Enqueue(m.On(side), price, Resting(ref, qty))).(home := m.home[ref := Spot(side, price)])
  }

  function MarketDelete(m: Market, ref: nat): (r: Market) {
    if ref !in m.home then m
    else
      var at := m.home[ref];
      m.With(at.side, Dequeue(m.On(at.side), at.price, ref)).(home := m.home - {ref})
  }

  /** Quantities are 32-bit words; an order reduced to zero leaves the book. */
  function MarketReduce(m: Market, ref: nat, shares: nat): (r: Market) {
    if ref !in m.home then m
    else
      var at := m.home[ref];
      var left := Sub32(QtyOf(m.On(at.side), at.price, ref), shares);
      if left == 0 then MarketDelete(m, ref)
      else m.With(at.side, Update(m.On(at.side), at.price, ref, Resting(ref, left)))
  }

  /** Keeping the price and not raising the quantity keeps time priority; anything else loses it. */
  function MarketReplace(m: Market, orig: nat, ref: nat, qty: nat, price: int): (r: Market) {
    if orig !in m.home then m
    else
      var at := m.home[orig];
      if price == at.price && qty <= QtyOf(m.On(at.side), at.price, orig) then
        m.With(at.side, Update(m.On(at.side), at.price, orig, Resting(ref, qty)))
         .(home := (m.home - {orig})[ref := at])
      else MarketAdd(MarketDelete(m, orig), ref, at.side, price, qty, true)
  }

  // ----- The refinement relation -----

  /** For each side and level, the pool slots in list order. */
  datatype Slots = Slots(bids: seq<seq<nat>>, asks: seq<seq<nat>>)
  {
    function On(side: Side): (q: seq<seq<nat>>) {
      if side.Buy? then bids else asks
    }

    function With(side: Side, q: seq<seq<nat>>): (s: Slots) {
      if side.Buy? then this.(bids := q) else this.(asks := q)
    }
  }

  ghost predicate Homed(b: Book, m: Market, s: Slots, ref: nat) {
    && ref in b.index && ref in m.home && b.index[ref] < |b.orders|
    && var o := b.orders[b.index[ref]];
       o.id == ref && m.home[ref] == Spot(o.side, o.price) && Located(s.On(o.side), b.index[ref])
  }

  ghost predicate Filed(b: Book, m: Market, x: nat)
    requires x < |b.orders|
  {
    var ref := b.orders[x].id;
    ref in m.home && ref in b.index && b.index[ref] == x
  }

  /**
   The book stands for `m`.  The pool and the index may hold orders of other books, but every
   reference of `m` is indexed and listed here, and nothing else is listed here.
   */
  ghost predicate Rep(b: Book, m: Market, s: Slots) {
    && Sound(b)
    && Shown(b.bids, b.orders, Buy, s.bids, m.bids)
    && Shown(b.asks, b.orders, Sell, s.asks, m.asks)
    && (forall ref {:trigger Homed(b, m, s, ref)} :: ref in m.home ==> Homed(b, m, s, ref))
    && (forall x {:trigger Filed(b, m, x)} :: 0 <= x < |b.orders| && (Located(s.bids, x) || Located(s.asks, x)) ==> Filed(b, m, x))
  }

  /** The level that the order names is the level it is listed in. */
  predicate Current(b: Book, x: nat)
    requires x < |b.orders|
  {
    var o := b.orders[x];
    var l := b.On(o.side);
    o.level < l.depth && o.level < |l.levels| && l.levels[o.level].price == o.price
  }

  predicate RefCurrent(b: Book, ref: nat) {
    ref in b.index && b.index[ref] < |b.orders| && Current(b, b.index[ref])
  }

  /** The quantity of the order that a reference is indexed to. */
  function RefQty(b: Book, ref: nat): (q: nat) {
    if ref in b.index && b.index[ref] < |b.orders| then b.orders[b.index[ref]].qty else 0
  }

  function Opposite(side: Side): (r: Side) {
    if side.Buy? then Sell else Buy
  }

  // ----- Finding an order -----

  lemma ShownOn(b: Book, m: Market, s: Slots, side: Side)
    requires Rep(b, m, s)
    ensures Shown(b.On(side), b.orders, side, s.On(side), m.On(side))
  {
  }

  lemma LocatedOrder(b: Book, m: Market, s: Slots, side: Side, i: nat, x: nat)
    requires Rep(b, m, s) && i < |s.On(side)| && x in s.On(side)[i]
    ensures x < |b.orders| && b.orders[x].side == side && b.orders[x].price == b.On(side).levels[i].price
    ensures Filed(b, m, x)
  {
    assert ShownAt(b.On(side), b.orders, side, s.On(side), m.On(side), i);
    assert Located(s.On(side), x);
  }

  lemma LocatedSide(b: Book, m: Market, s: Slots, side: Side, x: nat)
    requires Rep(b, m, s) && Located(s.On(side), x)
    ensures x < |b.orders| && b.orders[x].side == side && Filed(b, m, x)
    ensures !Located(s.On(Opposite(side)), x)
  {
    var i :| 0 <= i < |s.On(side)| && x in s.On(side)[i];
    LocatedOrder(b, m, s, side, i, x);
    forall j | 0 <= j < |s.On(Opposite(side))| ensures x !in s.On(Opposite(side))[j] {
      if x in s.On(Opposite(side))[j] {
        LocatedOrder(b, m, s, Opposite(side), j, x);
      }
    }
  }

  /** The level and the position at which a reference of the book is listed. */
  lemma Whereabouts(b: Book, m: Market, s: Slots, ref: nat) returns (i: nat, k: nat)
    requires Rep(b, m, s) && ref in m.home
    ensures Homed(b, m, s, ref)
    ensures var side := b.orders[b.index[ref]].side;
            && i < |s.On(side)| && k < |s.On(side)[i]| && s.On(side)[i][k] == b.index[ref]
            && Shown(b.On(side), b.orders, side, s.On(side), m.On(side))
            && b.On(side).levels[i].price == b.orders[b.index[ref]].price
  {
    assert Homed(b, m, s, ref);
    var x := b.index[ref];
    var side := b.orders[x].side;
    i :| 0 <= i < |s.On(side)| && x in s.On(side)[i];
    k :| 0 <= k < |s.On(side)[i]| && s.On(side)[i][k] == x;
    ShownOn(b, m, s, side);
    LocatedOrder(b, m, s, side, i, x);
  }

  lemma CurrentLevel(b: Book, m: Market, s: Slots, ref: nat, i: nat, k: nat)
    requires Rep(b, m, s) && ref in m.home && Homed(b, m, s, ref)
    requires var q := s.On(b.orders[b.index[ref]].side); i < |q| && k < |q[i]| && q[i][k] == b.index[ref]
    ensures Current(b, b.index[ref]) <==> b.orders[b.index[ref]].level == i
  {
    var x := b.index[ref];
    var o := b.orders[x];
    ShownOn(b, m, s, o.side);
    LocatedOrder(b, m, s, o.side, i, x);
    if Current(b, x) && o.level != i {
      assert ShownAt(b.On(o.side), b.orders, o.side, s.On(o.side), m.On(o.side), o.level);
      LevelsApart(b.On(o.side), b.orders, o.side, s.On(o.side), m.On(o.side), i, o.level, x);
    }
  }

  /** References within a queue are distinct, so the queue is searched to exactly this position. */
  lemma FirstInQueue(b: Book, m: Market, s: Slots, ref: nat, i: nat, k: nat)
    requires Rep(b, m, s) && ref in m.home && Homed(b, m, s, ref)
    requires var q := s.On(b.orders[b.index[ref]].side); i < |q| && k < |q[i]| && q[i][k] == b.index[ref]
    ensures var o := b.orders[b.index[ref]];
            && o.price in m.On(o.side) && FirstAt(m.On(o.side)[o.price], ref, k)
            && m.On(o.side)[o.price][k] == Resting(ref, o.qty)
            && QtyOf(m.On(o.side), o.price, ref) == o.qty
  {
    var o := b.orders[b.index[ref]];
    var q := s.On(o.side)[i];
    ShownOn(b, m, s, o.side);
    LocatedOrder(b, m, s, o.side, i, b.index[ref]);
    assert ShownAt(b.On(o.side), b.orders, o.side, s.On(o.side), m.On(o.side), i);
    var r := m.On(o.side)[o.price];
    forall j | 0 <= j < k ensures r[j].id != ref {
      LocatedOrder(b, m, s, o.side, i, q[j]);
    }
    QtyAt(r, ref, k);
  }
}
