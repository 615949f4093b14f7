/**
 A replacement through a stale level index takes its order out of the pool links but not out of the
 record of its level, and then files the new order in the slot that it has freed.  Whatever price
 the new order gets, no list of orders fits that record any more.
 */
module StaleMoves {
  import opened Words
  import opened BookModel
  import opened BookSafety
  import opened LevelList
  import opened LadderView
  import opened BookRefinement
  import opened HandlerRefinement
  import opened BrokenBooks

  // ----- Links after an append -----

  /** Order `idx` is appended behind `t`, if there is one; no other link changes. */
  ghost predicate Appended(orders: seq<Order>, os: seq<Order>, idx: nat, t: nat) {
    && |os| == |orders| && idx < |orders|
    && (forall x :: 0 <= x < |orders| && x != idx ==> os[x] == if x == t then orders[x].(next := idx) else orders[x])
    && os[idx].prev == t && (t != idx ==> os[idx].next == NONE)
  }

  /** A list without the new order was a list before. */
  lemma WithoutNew(orders: seq<Order>, os: seq<Order>, idx: nat, t: nat, q: seq<nat>)
    requires Appended(orders, os, idx, t) && |orders| < NONE && Linked(os, q) && idx !in q
    ensures Linked(orders, q)
  {
    forall k | 0 <= k < |q| ensures LinkedAt(orders, q, k) {
      assert LinkedAt(os, q, k);
    }
  }

  /** A list with the new order ends with it, behind an order that was last before. */
  lemma WithNew(orders: seq<Order>, os: seq<Order>, idx: nat, t: nat, q: seq<nat>, m: nat)
    requires Appended(orders, os, idx, t) && |orders| < NONE && Linked(os, q) && Distinct(q)
    requires 0 < m < |q| && q[m] == idx && t < |orders| && (t != idx ==> orders[t].next == NONE)
    ensures m + 1 == |q| && t != idx && Linked(orders, q[..m])
  {
    assert LinkedAt(os, q, m);
    assert q[m - 1] == t;
    forall k | 0 <= k < m ensures LinkedAt(orders, q[..m], k) {
      assert LinkedAt(os, q, k);
    }
  }

  /** Of a list that lost order `k`, whose head is where it was, nothing else can start there. */
  lemma ShorterChain(orders: seq<Order>, q: seq<nat>, k: nat, p: seq<nat>)
    requires 0 < k < |q| && Linked(orders, Cut(q, k)) && Linked(orders, p) && |orders| < NONE
    requires p != [] && p[0] == q[0]
    ensures |p| == |q| - 1
  {
    SameChain(orders, Cut(q, k), p);
  }

  /** No list of `n` orders starts at the head, when the new order joins the list that lost one or another one. */
  lemma NoSuchChain(orders: seq<Order>, os: seq<Order>, idx: nat, t: nat, q: seq<nat>, k: nat, p: seq<nat>)
    requires Appended(orders, os, idx, t) && |orders| < NONE && Linked(os, p) && Distinct(p)
    requires 0 < k < |q| && Linked(orders, Cut(q, k)) && Distinct(q) && q[k] == idx && p != [] && p[0] == q[0]
    requires idx in p ==> t == q[|q| - 1]
    ensures |p| == if idx in p then |q| else |q| - 1
  {
    if idx in p {
      var m :| 0 <= m < |p| && p[m] == idx;
      LastLeft(orders, q, k, t);
      WithNew(orders, os, idx, t, p, m);
      ShorterChain(orders, q, k, p[..m]);
    } else {
      WithoutNew(orders, os, idx, t, p);
      ShorterChain(orders, q, k, p);
    }
  }

  lemma LastLeft(orders: seq<Order>, q: seq<nat>, k: nat, t: nat)
    requires k < |q| && Linked(orders, Cut(q, k)) && t == q[|q| - 1] && q[k] < |orders|
    ensures t < |orders| && (t != q[k] ==> orders[t].next == NONE)
  {
    if k < |q| - 1 {
      assert LinkedAt(orders, Cut(q, k), |q| - 2);
    }
  }

  // ----- The addition -----

  lemma AddAppends(b: Book, ref: nat, side: Side, price: int, qty: nat)
    requires Wf(b) && b.free != [] && qty < WORD32
    requires FindLevel(b.On(side), price) < b.On(side).depth || b.On(side).depth < MAX_LEVELS
    ensures var l, c, idx := b.On(side), OnAdd(b, ref, side, price, qty), b.free[|b.free| - 1];
            var k := FindLevel(l, price);
            && Appended(b.orders, c.orders, idx, if k < l.depth then l.levels[k].tail else NONE)
            && c.orders[idx].price == price
  {
    AddUnfolds(b, ref, side, price, qty);
  }

  ghost predicate OnlyAt(l: Ladder, j: nat)
    requires j < l.depth <= |l.levels|
  {
    forall i :: 0 <= i < l.depth && i != j ==> l.levels[i].price != l.levels[j].price
  }

  /** A level that the addition does not open the ladder for stays where it is. */
  lemma JoinKeepsLevel(b: Book, ref: nat, side: Side, price: int, qty: nat, j: nat)
    requires Wf(b) && b.free != [] && qty < WORD32 && j < b.On(side).depth && OnlyAt(b.On(side), j)
    requires b.On(side).levels[j].tail != NONE
    requires FindLevel(b.On(side), price) < b.On(side).depth || b.On(side).depth == MAX_LEVELS
    ensures var c, lvl := OnAdd(b, ref, side, price, qty), b.On(side).levels[j];
            && c.On(side).depth == b.On(side).depth && |c.On(side).levels| == MAX_LEVELS
            && (price != lvl.price ==> c.On(side).levels[j] == lvl)
            && (price == lvl.price ==>
                  && c.On(side).levels[j].price == price && c.On(side).levels[j].head == lvl.head
                  && c.On(side).levels[j].count == Add32(lvl.count, 1) && FindLevel(b.On(side), price) == j)
  {
  }

  lemma OpenKeepsLevel(b: Book, ref: nat, side: Side, price: int, qty: nat, j: nat) returns (n: nat)
    requires Wf(b) && b.free != [] && qty < WORD32 && j < b.On(side).depth < MAX_LEVELS
    requires FindLevel(b.On(side), price) == b.On(side).depth
    ensures var c, lvl := OnAdd(b, ref, side, price, qty), b.On(side).levels[j];
            n < c.On(side).depth <= MAX_LEVELS == |c.On(side).levels| && price != lvl.price && c.On(side).levels[n] == lvl
  {
    var l := b.On(side);
    var pos := InsertPos(l, price, side);
    InsertedLevels(l, pos, price);
    n := if j < pos then j else j + 1;
  }

  /** An addition moves a level at most one place and changes it only at its own price. */
  lemma AddKeepsLevel(b: Book, ref: nat, side: Side, price: int, qty: nat, j: nat) returns (n: nat)
    requires Wf(b) && b.free != [] && qty < WORD32 && j < b.On(side).depth && OnlyAt(b.On(side), j)
    requires b.On(side).levels[j].tail != NONE
    ensures var c, lvl := OnAdd(b, ref, side, price, qty), b.On(side).levels[j];
            && n < c.On(side).depth <= MAX_LEVELS == |c.On(side).levels|
            && (price != lvl.price ==> c.On(side).levels[n] == lvl)
            && (price == lvl.price ==>
                  && c.On(side).levels[n].price == price && c.On(side).levels[n].head == lvl.head
                  && c.On(side).levels[n].count == Add32(lvl.count, 1) && FindLevel(b.On(side), price) == j)
  {
    if FindLevel(b.On(side), price) < b.On(side).depth || b.On(side).depth == MAX_LEVELS {
      JoinKeepsLevel(b, ref, side, price, qty, j);
      n := j;
    } else {
      n := OpenKeepsLevel(b, ref, side, price, qty, j);
    }
  }

  // ----- A level that has lost an order -----

  /** Level `j` records the list `q`, of which order `k` is linked no more and its slot the next one to be used. */
  ghost predicate Spoiled(b: Book, side: Side, j: nat, q: seq<nat>, k: nat) {
    && Wf(b) && |b.orders| < NONE && j < b.On(side).depth && OnlyAt(b.On(side), j)
    && k < |q| && Distinct(q) && |q| + 1 < WORD32 && Linked(b.orders, Cut(q, k))
    && var lvl := b.On(side).levels[j];
       && lvl.head == q[0] && lvl.tail == q[|q| - 1] < |b.orders| && lvl.count == |q|
       && b.free != [] && q[k] == b.free[|b.free| - 1] < |b.orders| && b.orders[q[k]].id !in b.index
  }

  /** The new order is dropped: the freed slot is still the head, or the list one short. */
  lemma DroppedBreaks(b: Book, side: Side, j: nat, q: seq<nat>, k: nat, ref: nat, price: int, qty: nat)
    requires Spoiled(b, side, j, q, k) && qty < WORD32
    requires FindLevel(b.On(side), price) >= b.On(side).depth == MAX_LEVELS
    ensures Broken(OnAdd(b, ref, side, price, qty))
  {
    var c := OnAdd(b, ref, side, price, qty);
    if k == 0 {
      BadHeadBreaks(c, side, j);
    } else {
      forall i | 0 <= i < |q| - 1 ensures LinkedAt(c.orders, Cut(q, k), i) {
        assert LinkedAt(b.orders, Cut(q, k), i);
      }
      MiscountBreaks(c, side, j, Cut(q, k));
    }
  }

  /** The new order takes the slot of the head: it has another price, or one in front of it. */
  lemma HeadMovedBreaks(b: Book, side: Side, j: nat, q: seq<nat>, ref: nat, price: int, qty: nat)
    requires Spoiled(b, side, j, q, 0) && qty < WORD32
    requires FindLevel(b.On(side), price) < b.On(side).depth || b.On(side).depth < MAX_LEVELS
    ensures Broken(OnAdd(b, ref, side, price, qty))
  {
    var n := AddKeepsLevel(b, ref, side, price, qty, j);
    AddAppends(b, ref, side, price, qty);
    BadHeadBreaks(OnAdd(b, ref, side, price, qty), side, n);
  }

  /** What any reference book would have to say about the level: no more orders than are linked from its head. */
  lemma CountAfter(b: Book, c: Book, m: Market, s: Slots, side: Side, n: nat, q: seq<nat>, k: nat, t: nat)
    requires Rep(c, m, s) && n < c.On(side).depth <= |c.On(side).levels| && |b.orders| < NONE
    requires 0 < k < |q| && Distinct(q) && Linked(b.orders, Cut(q, k)) && Appended(b.orders, c.orders, q[k], t)
    requires c.On(side).levels[n].head == q[0]
    requires c.orders[q[k]].price == c.On(side).levels[n].price ==> t == q[|q| - 1]
    ensures c.On(side).levels[n].count == |q| - 1
         || (c.On(side).levels[n].count == |q| && c.orders[q[k]].price == c.On(side).levels[n].price)
  {
    LevelLinks(c, m, s, side, n);
    NoSuchChain(b.orders, c.orders, q[k], t, q, k, s.On(side)[n]);
  }

  lemma WrongCountFits(b: Book, c: Book, m: Market, s: Slots, side: Side, n: nat, q: seq<nat>, k: nat, t: nat)
    requires n < c.On(side).depth <= |c.On(side).levels| && |b.orders| < NONE
    requires 0 < k < |q| && Distinct(q) && Linked(b.orders, Cut(q, k)) && Appended(b.orders, c.orders, q[k], t)
    requires var lvl := c.On(side).levels[n];
             && lvl.head == q[0]
             && if c.orders[q[k]].price == lvl.price then t == q[|q| - 1] && lvl.count == |q| + 1 else lvl.count == |q|
    ensures !Rep(c, m, s)
  {
    if Rep(c, m, s) {
      CountAfter(b, c, m, s, side, n, q, k, t);
    }
  }

  /** The new order takes a slot further down: every list that starts at the head is too short. */
  lemma TailMovedBreaks(b: Book, side: Side, j: nat, q: seq<nat>, k: nat, ref: nat, price: int, qty: nat)
    requires Spoiled(b, side, j, q, k) && k > 0 && qty < WORD32
    requires FindLevel(b.On(side), price) < b.On(side).depth || b.On(side).depth < MAX_LEVELS
    ensures Broken(OnAdd(b, ref, side, price, qty))
  {
    var c, l := OnAdd(b, ref, side, price, qty), b.On(side);
    var n := AddKeepsLevel(b, ref, side, price, qty, j);
    AddAppends(b, ref, side, price, qty);
    var t := if FindLevel(l, price) < l.depth then l.levels[FindLevel(l, price)].tail else NONE;
    forall m, s ensures !Rep(c, m, s) {
      WrongCountFits(b, c, m, s, side, n, q, k, t);
    }
  }

  lemma SpoiledAddBreaks(b: Book, side: Side, j: nat, q: seq<nat>, k: nat, ref: nat, price: int, qty: nat)
    requires Spoiled(b, side, j, q, k) && qty < WORD32
    ensures Broken(OnAdd(b, ref, side, price, qty))
  {
    if FindLevel(b.On(side), price) >= b.On(side).depth == MAX_LEVELS {
      DroppedBreaks(b, side, j, q, k, ref, price, qty);
    } else if k == 0 {
      HeadMovedBreaks(b, side, j, q, ref, price, qty);
    } else {
      TailMovedBreaks(b, side, j, q, k, ref, price, qty);
    }
  }
}
