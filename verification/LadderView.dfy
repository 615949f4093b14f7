/**
 A ladder of price levels against the price queues it stands for.
 */
module LadderView {
  import opened BookModel
  import opened LevelList
  import opened PriceQueues

  /** The orders in the pool slots `q` are the queue `r`. */
  ghost predicate Reads(orders: seq<Order>, q: seq<nat>, r: seq<Resting>) {
    && |r| == |q|
    && forall k :: 0 <= k < |q| ==> q[k] < |orders| && r[k] == Resting(orders[q[k]].id, orders[q[k]].qty)
  }

  ghost predicate LevelShown(orders: seq<Order>, side: Side, lvl: Level, q: seq<nat>, a: Queues) {
    q != [] && Listed(orders, side, lvl, q) && lvl.price in a && Reads(orders, q, a[lvl.price])
  }

  ghost predicate ShownAt(l: Ladder, orders: seq<Order>, side: Side, qs: seq<seq<nat>>, a: Queues, i: nat)
    requires i < |qs| && i < |l.levels|
  {
    LevelShown(orders, side, l.levels[i], qs[i], a)
  }

  ghost predicate Sorted(l: Ladder, side: Side)
    requires l.depth <= |l.levels|
  {
    forall i, j :: 0 <= i < j < l.depth ==> Better(side, l.levels[i].price, l.levels[j].price)
  }

  ghost predicate HasPrice(l: Ladder, p: int)
    requires l.depth <= |l.levels|
  {
    exists i :: 0 <= i < l.depth && l.levels[i].price == p
  }

  /**
   The ladder stands for `a`: its levels are sorted strictly, best first, level `i` lists the
   pool slots `qs[i]`, and every price with a queue has its level.
   */
  ghost predicate Shown(l: Ladder, orders: seq<Order>, side: Side, qs: seq<seq<nat>>, a: Queues) {
    && |l.levels| == MAX_LEVELS && |qs| == l.depth <= MAX_LEVELS && |a| == l.depth
    && (forall i {:trigger ShownAt(l, orders, side, qs, a, i)} :: 0 <= i < l.depth ==> ShownAt(l, orders, side, qs, a, i))
    && Sorted(l, side)
    && (forall p :: p in a ==> HasPrice(l, p))
    && (forall i :: l.depth <= i < MAX_LEVELS ==> l.levels[i] == BLANK)
  }

  ghost predicate Located(qs: seq<seq<nat>>, x: nat) {
    exists i :: 0 <= i < |qs| && x in qs[i]
  }

  lemma LevelFrame(orders: seq<Order>, os: seq<Order>, side: Side, lvl: Level, q: seq<nat>, a: Queues, a': Queues)
    requires LevelShown(orders, side, lvl, q, a) && |os| == |orders|
    requires forall x :: x in q ==> os[x] == orders[x]
    requires lvl.price in a' && a'[lvl.price] == a[lvl.price]
    ensures LevelShown(os, side, lvl, q, a')
  {
    ListedFrame(orders, os, side, lvl, q);
  }

  /** Orders outside the ladder's queues may change freely. */
  lemma ShownFrame(l: Ladder, orders: seq<Order>, os: seq<Order>, side: Side, qs: seq<seq<nat>>, a: Queues)
    requires Shown(l, orders, side, qs, a) && |os| == |orders|
    requires forall x :: 0 <= x < |orders| && Located(qs, x) ==> os[x] == orders[x]
    ensures Shown(l, os, side, qs, a)
  {
    forall i | 0 <= i < l.depth ensures ShownAt(l, os, side, qs, a, i) {
      assert ShownAt(l, orders, side, qs, a, i);
      forall x | x in qs[i] ensures os[x] == orders[x] {
        assert Located(qs, x);
      }
      LevelFrame(orders, os, side, l.levels[i], qs[i], a, a);
    }
  }

  /** Queues of different levels share no order. */
  lemma LevelsApart(l: Ladder, orders: seq<Order>, side: Side, qs: seq<seq<nat>>, a: Queues, i: nat, j: nat, x: nat)
    requires Shown(l, orders, side, qs, a) && i < l.depth && j < l.depth && i != j && x in qs[i]
    ensures x !in qs[j] && l.levels[i].price != l.levels[j].price && x < |orders|
  {
    assert ShownAt(l, orders, side, qs, a, i);
    assert ShownAt(l, orders, side, qs, a, j);
    assert Better(side, l.levels[if i < j then i else j].price, l.levels[if i < j then j else i].price);
  }

  /** A level other than `k` is shown by the queues that changed at the price of level `k` only. */
  lemma OtherLevelKept(l: Ladder, orders: seq<Order>, side: Side, qs: seq<seq<nat>>, a: Queues,
                       k: nat, os: seq<Order>, a': Queues, i: nat)
    requires Shown(l, orders, side, qs, a) && k < l.depth && |os| == |orders|
    requires forall x :: 0 <= x < |orders| && Located(qs, x) && x !in qs[k] ==> os[x] == orders[x]
    requires forall p :: p in a && p != l.levels[k].price ==> p in a' && a'[p] == a[p]
    requires i < l.depth && i != k
    ensures LevelShown(os, side, l.levels[i], qs[i], a')
  {
    assert ShownAt(l, orders, side, qs, a, i);
    LevelsApart(l, orders, side, qs, a, i, k, qs[i][0]);
    forall x | x in qs[i] ensures os[x] == orders[x] {
      assert Located(qs, x);
      LevelsApart(l, orders, side, qs, a, i, k, x);
    }
    LevelFrame(orders, os, side, l.levels[i], qs[i], a, a');
  }

  // ----- One level changes -----

  /**
   Level `k` takes a new list and queue, at the same price; no order of another level is touched.
   */
  lemma LevelChanges(l: Ladder, orders: seq<Order>, side: Side, qs: seq<seq<nat>>, a: Queues,
                     k: nat, os: seq<Order>, lvl: Level, q: seq<nat>, r: seq<Resting>)
    requires Shown(l, orders, side, qs, a) && k < l.depth && |os| == |orders|
    requires forall x :: 0 <= x < |orders| && Located(qs, x) && x !in qs[k] ==> os[x] == orders[x]
    requires lvl.price == l.levels[k].price && q != [] && Listed(os, side, lvl, q) && Reads(os, q, r)
    ensures Shown(l.(levels := l.levels[k := lvl]), os, side, qs[k := q], a[lvl.price := r])
  {
    var l', qs', a' := l.(levels := l.levels[k := lvl]), qs[k := q], a[lvl.price := r];
    forall i | 0 <= i < l.depth ensures ShownAt(l', os, side, qs', a', i) {
      if i != k {
        OtherLevelKept(l, orders, side, qs, a, k, os, a', i);
      }
    }
    SamePrices(l, l', side);
    assert ShownAt(l, orders, side, qs, a, k);
    assert a'.Keys == a.Keys;
  }

  lemma SamePrices(l: Ladder, l': Ladder, side: Side)
    requires l.depth == l'.depth <= |l.levels| && l.depth <= |l'.levels|
    requires forall i :: 0 <= i < l.depth ==> l'.levels[i].price == l.levels[i].price
    requires Sorted(l, side)
    ensures Sorted(l', side)
    ensures forall p :: HasPrice(l, p) ==> HasPrice(l', p)
  {
    forall p | HasPrice(l, p) ensures HasPrice(l', p) {
      var i :| 0 <= i < l.depth && l.levels[i].price == p;
      assert l'.levels[i].price == p;
    }
  }

  // ----- A level appears -----

  lemma InsertBeforeWorse(l: Ladder, side: Side, price: int, j: nat)
    requires |l.levels| == MAX_LEVELS && l.depth < MAX_LEVELS && Sorted(l, side) && !HasPrice(l, price)
    requires InsertPos(l, price, side) <= j < l.depth
    ensures Better(side, price, l.levels[j].price)
  {
    var pos := InsertPos(l, price, side);
    assert l.levels[pos].price != price;
    assert l.levels[j].price != price;
    assert j > pos ==> Better(side, l.levels[pos].price, l.levels[j].price);
  }

  lemma InsertedLevels(l: Ladder, pos: nat, price: int)
    requires |l.levels| == MAX_LEVELS && pos <= l.depth < MAX_LEVELS
    ensures var r := InsertLevel(l, pos, price);
            && |r.levels| == MAX_LEVELS && r.depth == l.depth + 1
            && r.levels[pos] == BLANK.(price := price)
            && (forall i :: 0 <= i < l.depth ==> r.levels[if i < pos then i else i + 1] == l.levels[i])
            && (forall i :: 0 <= i < r.depth && i != pos ==> r.levels[i] == l.levels[if i < pos then i else i - 1])
            && (forall i :: r.depth <= i < MAX_LEVELS ==> r.levels[i] == l.levels[i])
  {
  }

  /** Two levels of a ladder that got the level `pos` at its sorted position. */
  lemma InsertedBetter(l: Ladder, r: Ladder, side: Side, price: int, pos: nat, i: nat, j: nat)
    requires |l.levels| == MAX_LEVELS && l.depth < MAX_LEVELS && Sorted(l, side) && !HasPrice(l, price)
    requires pos == InsertPos(l, price, side) && i < j < r.depth == l.depth + 1 <= |r.levels| && r.levels[pos].price == price
    requires forall x :: 0 <= x < r.depth && x != pos ==> r.levels[x] == l.levels[if x < pos then x else x - 1]
    ensures Better(side, r.levels[i].price, r.levels[j].price)
  {
    if i == pos {
      InsertBeforeWorse(l, side, price, j - 1);
    } else if j != pos {
      assert Better(side, l.levels[if i < pos then i else i - 1].price, l.levels[if j < pos then j else j - 1].price);
    }
  }

  lemma InsertSorted(l: Ladder, side: Side, price: int)
    requires |l.levels| == MAX_LEVELS && l.depth < MAX_LEVELS && Sorted(l, side) && !HasPrice(l, price)
    ensures Sorted(InsertLevel(l, InsertPos(l, price, side), price), side)
    ensures forall p :: HasPrice(l, p) ==> HasPrice(InsertLevel(l, InsertPos(l, price, side), price), p)
  {
    var pos := InsertPos(l, price, side);
    var r := InsertLevel(l, pos, price);
    InsertedLevels(l, pos, price);
    forall i, j | 0 <= i < j < r.depth ensures Better(side, r.levels[i].price, r.levels[j].price) {
      InsertedBetter(l, r, side, price, pos, i, j);
    }
    PricesShifted(l, r, pos);
  }

  lemma PricesShifted(l: Ladder, r: Ladder, pos: nat)
    requires l.depth <= |l.levels| && r.depth <= |r.levels| && l.depth < r.depth
    requires forall i :: 0 <= i < l.depth ==> r.levels[if i < pos then i else i + 1] == l.levels[i]
    ensures forall p :: HasPrice(l, p) ==> HasPrice(r, p)
  {
    forall p | HasPrice(l, p) ensures HasPrice(r, p) {
      var i :| 0 <= i < l.depth && l.levels[i].price == p;
      assert r.levels[if i < pos then i else i + 1].price == p;
    }
  }

  lemma AbsentPrice(l: Ladder, orders: seq<Order>, side: Side, qs: seq<seq<nat>>, a: Queues, price: int)
    requires Shown(l, orders, side, qs, a)
    ensures price in a <==> HasPrice(l, price)
    ensures price in a <==> FindLevel(l, price) < l.depth
  {
    forall i | 0 <= i < l.depth ensures l.levels[i].price in a {
      assert ShownAt(l, orders, side, qs, a, i);
    }
  }

  function Placed(l: Ladder, side: Side, lvl: Level): (r: Ladder)
    requires |l.levels| == MAX_LEVELS && l.depth < MAX_LEVELS
  {
    var pos := InsertPos(l, lvl.price, side);
    var l' := InsertLevel(l, pos, lvl.price);
    InsertedLevels(l, pos, lvl.price);
    l'.(levels := l'.levels[pos := lvl])
  }

  lemma PlacedShape(l: Ladder, side: Side, lvl: Level)
    requires |l.levels| == MAX_LEVELS && l.depth < MAX_LEVELS && Sorted(l, side) && !HasPrice(l, lvl.price)
    ensures var pos, r := InsertPos(l, lvl.price, side), Placed(l, side, lvl);
            && |r.levels| == MAX_LEVELS && r.depth == l.depth + 1 && r.levels[pos] == lvl && Sorted(r, side)
            && (forall i :: 0 <= i < r.depth && i != pos ==> r.levels[i] == l.levels[if i < pos then i else i - 1])
            && (forall i :: r.depth <= i < MAX_LEVELS ==> r.levels[i] == l.levels[i])
            && (forall p :: HasPrice(l, p) ==> HasPrice(r, p)) && HasPrice(r, lvl.price)
  {
    var pos, r := InsertPos(l, lvl.price, side), Placed(l, side, lvl);
    InsertedLevels(l, pos, lvl.price);
    InsertSorted(l, side, lvl.price);
    SamePrices(InsertLevel(l, pos, lvl.price), r, side);
    assert r.levels[pos].price == lvl.price;
  }

  /** A level keeps its queue when another price gets one. */
  lemma OtherLevelShown(l: Ladder, os: seq<Order>, side: Side, qs: seq<seq<nat>>, a: Queues, a': Queues, price: int, j: nat)
    requires Shown(l, os, side, qs, a) && j < l.depth && price !in a && a' - {price} == a
    ensures LevelShown(os, side, l.levels[j], qs[j], a')
  {
    assert ShownAt(l, os, side, qs, a, j);
    LevelFrame(os, os, side, l.levels[j], qs[j], a, a');
  }

  /** A ladder of one level more shows the queues with one price more. */
  lemma LevelsMore(l: Ladder, os: seq<Order>, side: Side, qs: seq<seq<nat>>, a: Queues,
                   pos: nat, l': Ladder, qs': seq<seq<nat>>, a': Queues)
    requires Shown(l, os, side, qs, a) && pos <= l.depth < MAX_LEVELS
    requires |l'.levels| == MAX_LEVELS && l'.depth == l.depth + 1 == |qs'| && Sorted(l', side)
    requires forall i :: 0 <= i < l'.depth && i != pos ==>
      var j := if i < pos then i else i - 1; l'.levels[i] == l.levels[j] && qs'[i] == qs[j]
    requires forall i :: l'.depth <= i < MAX_LEVELS ==> l'.levels[i] == BLANK
    requires LevelShown(os, side, l'.levels[pos], qs'[pos], a')
    requires var p := l'.levels[pos].price; p !in a && a'.Keys == a.Keys + {p} && a' - {p} == a && HasPrice(l', p)
    requires forall p :: HasPrice(l, p) ==> HasPrice(l', p)
    ensures Shown(l', os, side, qs', a')
  {
    forall i | 0 <= i < l'.depth ensures ShownAt(l', os, side, qs', a', i) {
      if i != pos {
        OtherLevelShown(l, os, side, qs, a, a', l'.levels[pos].price, if i < pos then i else i - 1);
      }
    }
  }

  /** A new level at its sorted position, holding one order. */
  lemma LevelAppears(l: Ladder, orders: seq<Order>, side: Side, qs: seq<seq<nat>>, a: Queues,
                     os: seq<Order>, lvl: Level, q: seq<nat>, r: seq<Resting>)
    requires Shown(l, orders, side, qs, a) && l.depth < MAX_LEVELS && |os| == |orders| && lvl.price !in a
    requires forall x :: 0 <= x < |orders| && Located(qs, x) ==> os[x] == orders[x]
    requires q != [] && Listed(os, side, lvl, q) && Reads(os, q, r)
    ensures var pos := InsertPos(l, lvl.price, side);
            Shown(Placed(l, side, lvl), os, side, qs[..pos] + [q] + qs[pos..], a[lvl.price := r])
  {
    var pos := InsertPos(l, lvl.price, side);
    AbsentPrice(l, orders, side, qs, a, lvl.price);
    PlacedShape(l, side, lvl);
    ShownFrame(l, orders, os, side, qs, a);
    Spliced(qs, pos, q);
    OnePriceMore(a, lvl.price, r);
    LevelsMore(l, os, side, qs, a, pos, Placed(l, side, lvl), qs[..pos] + [q] + qs[pos..], a[lvl.price := r]);
  }

  lemma Spliced(qs: seq<seq<nat>>, pos: nat, q: seq<nat>)
    requires pos <= |qs|
    ensures var ps := qs[..pos] + [q] + qs[pos..];
            && |ps| == |qs| + 1 && ps[pos] == q
            && forall i :: 0 <= i < |ps| && i != pos ==> ps[i] == qs[if i < pos then i else i - 1]
  {
  }

  lemma OnePriceMore(a: Queues, price: int, r: seq<Resting>)
    requires price !in a
    ensures a[price := r].Keys == a.Keys + {price} && a[price := r] - {price} == a
  {
  }

  // ----- A level disappears -----

  lemma RemoveSorted(l: Ladder, side: Side, k: nat)
    requires |l.levels| == MAX_LEVELS && k < l.depth <= MAX_LEVELS && Sorted(l, side)
    ensures var r := RemoveLevel(l, k);
            && |r.levels| == MAX_LEVELS && r.depth == l.depth - 1 && Sorted(r, side)
            && (forall i :: 0 <= i < r.depth ==> r.levels[i] == l.levels[if i < k then i else i + 1])
            && r.levels[r.depth] == BLANK
            && (forall i :: l.depth <= i < MAX_LEVELS ==> r.levels[i] == l.levels[i])
            && (forall p :: HasPrice(l, p) && p != l.levels[k].price ==> HasPrice(r, p))
  {
    var r := RemoveLevel(l, k);
    forall i | 0 <= i < r.depth ensures r.levels[i] == l.levels[if i < k then i else i + 1] {
    }
    forall i, j | 0 <= i < j < r.depth ensures Better(side, r.levels[i].price, r.levels[j].price) {
      assert r.levels[i] == l.levels[if i < k then i else i + 1];
      assert r.levels[j] == l.levels[if j < k then j else j + 1];
    }
    forall p | HasPrice(l, p) && p != l.levels[k].price ensures HasPrice(r, p) {
      var i :| 0 <= i < l.depth && l.levels[i].price == p;
      assert r.levels[if i < k then i else i - 1].price == p;
    }
  }

  /** A ladder of the levels other than level `k` shows the queues without that price. */
  lemma LevelsLeft(l: Ladder, orders: seq<Order>, side: Side, qs: seq<seq<nat>>, a: Queues,
                   k: nat, os: seq<Order>, l': Ladder, qs': seq<seq<nat>>)
    requires Shown(l, orders, side, qs, a) && k < l.depth && |os| == |orders|
    requires forall x :: 0 <= x < |orders| && Located(qs, x) && x !in qs[k] ==> os[x] == orders[x]
    requires |l'.levels| == MAX_LEVELS && l'.depth == l.depth - 1 == |qs'|
    requires forall i :: 0 <= i < l'.depth ==> var j := if i < k then i else i + 1; l'.levels[i] == l.levels[j] && qs'[i] == qs[j]
    requires forall i :: l'.depth <= i < MAX_LEVELS ==> l'.levels[i] == BLANK
    requires Sorted(l', side) && forall p :: HasPrice(l, p) && p != l.levels[k].price ==> HasPrice(l', p)
    ensures Shown(l', os, side, qs', a - {l.levels[k].price})
  {
    var a' := a - {l.levels[k].price};
    forall i | 0 <= i < l'.depth ensures ShownAt(l', os, side, qs', a', i) {
      OtherLevelKept(l, orders, side, qs, a, k, os, a', if i < k then i else i + 1);
    }
    assert ShownAt(l, orders, side, qs, a, k);
    assert a'.Keys == a.Keys - {l.levels[k].price};
    forall p | p in a' ensures HasPrice(l', p) {
      assert HasPrice(l, p);
    }
  }

  /** Level `k` goes, with its queue; its orders are no longer in any list. */
  lemma LevelGoes(l: Ladder, orders: seq<Order>, side: Side, qs: seq<seq<nat>>, a: Queues,
                  k: nat, os: seq<Order>, lvl: Level)
    requires Shown(l, orders, side, qs, a) && k < l.depth && |os| == |orders|
    requires forall x :: 0 <= x < |orders| && Located(qs, x) && x !in qs[k] ==> os[x] == orders[x]
    requires lvl.price == l.levels[k].price
    ensures Shown(RemoveLevel(l.(levels := l.levels[k := lvl]), k), os, side,
                  qs[..k] + qs[k + 1..], a - {lvl.price})
  {
    var l0 := l.(levels := l.levels[k := lvl]);
    SamePrices(l, l0, side);
    RemoveSorted(l0, side, k);
    LevelsLeft(l, orders, side, qs, a, k, os, RemoveLevel(l0, k), qs[..k] + qs[k + 1..]);
  }
}
