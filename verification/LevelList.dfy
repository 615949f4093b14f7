/**
 The doubly linked list of one price level, against the sequence of pool slots that it links.
 */
module LevelList {
  import opened Words
  import opened BookModel
  import opened BookSafety

  ghost predicate InPool(q: seq<nat>, n: nat) {
    forall k :: 0 <= k < |q| ==> q[k] < n
  }

  /** The links of the order at position `k` of the queue. */
  ghost predicate LinkedAt(orders: seq<Order>, q: seq<nat>, k: nat)
    requires k < |q| && q[k] < |orders|
  {
    && orders[q[k]].prev == (if k == 0 then NONE else q[k - 1])
    && orders[q[k]].next == (if k + 1 == |q| then NONE else q[k + 1])
  }

  /** The pool links the slots `q` in this order, and nothing before or after them. */
  ghost predicate Linked(orders: seq<Order>, q: seq<nat>) {
    InPool(q, |orders|) && forall k {:trigger LinkedAt(orders, q, k)} :: 0 <= k < |q| ==> LinkedAt(orders, q, k)
  }

  ghost function Sum(orders: seq<Order>, q: seq<nat>): (s: nat)
    requires InPool(q, |orders|)
  {
    if q == [] then 0 else Sum(orders, q[..|q| - 1]) + orders[q[|q| - 1]].qty
  }

  /** Level `lvl` is the list of exactly the orders `q`, oldest first, and its aggregates are theirs. */
  ghost predicate Listed(orders: seq<Order>, side: Side, lvl: Level, q: seq<nat>) {
    && InPool(q, |orders|) && Distinct(q)
    && lvl.count == |q|
    && lvl.head == (if q == [] then NONE else q[0])
    && lvl.tail == (if q == [] then NONE else q[|q| - 1])
    && (forall k :: 0 <= k < |q| ==> orders[q[k]].price == lvl.price && orders[q[k]].side == side)
    && (forall k {:trigger LinkedAt(orders, q, k)} :: 0 <= k < |q| ==> LinkedAt(orders, q, k))
    && lvl.total == Sum(orders, q) % WORD32
  }

  /** Two pools that differ in list links only. */
  ghost predicate Relinked(orders: seq<Order>, os: seq<Order>) {
    && |os| == |orders|
    && forall x :: 0 <= x < |os| ==> os[x] == orders[x].(prev := os[x].prev, next := os[x].next)
  }

  function Cut(q: seq<nat>, k: nat): (r: seq<nat>)
    requires k < |q|
  {
    q[..k] + q[k + 1..]
  }

  // ----- Sums -----

  lemma {:induction false} SumFrame(orders: seq<Order>, os: seq<Order>, q: seq<nat>)
    requires |orders| == |os| && InPool(q, |orders|)
    requires forall k :: 0 <= k < |q| ==> os[q[k]].qty == orders[q[k]].qty
    ensures Sum(os, q) == Sum(orders, q)
  {
    if q != [] {
      SumFrame(orders, os, q[..|q| - 1]);
    }
  }

  lemma SumRelinked(orders: seq<Order>, os: seq<Order>, q: seq<nat>)
    requires InPool(q, |orders|) && Relinked(orders, os)
    ensures Sum(os, q) == Sum(orders, q)
  {
    SumFrame(orders, os, q);
  }

  lemma SumAppend(orders: seq<Order>, p: seq<nat>, x: nat)
    requires InPool(p, |orders|) && x < |orders|
    ensures InPool(p + [x], |orders|) && Sum(orders, p + [x]) == Sum(orders, p) + orders[x].qty
  {
    var q := p + [x];
    assert q[..|q| - 1] == p;
  }

  lemma {:induction false} SumCut(orders: seq<Order>, q: seq<nat>, k: nat)
    requires InPool(q, |orders|) && k < |q|
    ensures InPool(Cut(q, k), |orders|)
    ensures Sum(orders, Cut(q, k)) + orders[q[k]].qty == Sum(orders, q)
  {
    var p, x := q[..|q| - 1], q[|q| - 1];
    CutBeforeLast(q, k);
    if k < |p| {
      SumCut(orders, p, k);
      SumAppend(orders, Cut(p, k), x);
    }
  }

  lemma CutBeforeLast(q: seq<nat>, k: nat)
    requires k < |q|
    ensures var p, x := q[..|q| - 1], q[|q| - 1]; Cut(q, k) == if k == |p| then p else Cut(p, k) + [x]
  {
  }

  lemma {:induction false} SumChange(orders: seq<Order>, os: seq<Order>, q: seq<nat>, k: nat)
    requires |orders| == |os| && InPool(q, |orders|) && Distinct(q) && k < |q|
    requires forall j :: 0 <= j < |q| && j != k ==> os[q[j]].qty == orders[q[j]].qty
    ensures Sum(os, q) - os[q[k]].qty == Sum(orders, q) - orders[q[k]].qty
  {
    SumCut(orders, q, k);
    SumCut(os, q, k);
    SumFrame(orders, os, Cut(q, k));
  }

  /** Totals are sums on 32 bits. */
  lemma TotalWords(sum: nat, a: nat, b: nat)
    requires sum == a + b
    ensures Add32(a % WORD32, b) == sum % WORD32 && Sub32(sum % WORD32, b) == a % WORD32
  {
  }

  // ----- Size -----

  lemma {:induction false} SetOf(q: seq<nat>, n: nat) returns (s: set<nat>)
    requires Distinct(q) && InPool(q, n)
    ensures |s| == |q| && forall x :: x in s <==> x in q
    ensures forall x :: x in s ==> x < n
  {
    if q == [] {
      s := {};
    } else {
      s := SetOf(q[..|q| - 1], n);
      s := s + {q[|q| - 1]};
    }
  }

  lemma {:induction false} BelowCard(s: set<nat>, n: nat)
    requires forall x :: x in s ==> x < n
    ensures |s| <= n
  {
    if n > 0 {
      BelowCard(s - {n - 1}, n - 1);
    } else {
      assert s == {};
    }
  }

  /** Distinct pool slots are no more than the pool. */
  lemma Pigeonhole(q: seq<nat>, n: nat)
    requires Distinct(q) && InPool(q, n)
    ensures |q| <= n
  {
    var s := SetOf(q, n);
    BelowCard(s, n);
  }

  // ----- Appending -----

  lemma LinkPointers(orders: seq<Order>, side: Side, lvl: Level, q: seq<nat>, idx: nat)
    requires Listed(orders, side, lvl, q) && |orders| < NONE
    requires idx < |orders| && idx !in q
    ensures var os, q' := LinkTail(orders, lvl, idx).0, q + [idx];
            && (forall k {:trigger LinkedAt(os, q', k)} :: 0 <= k < |q'| ==> q'[k] < |os| && LinkedAt(os, q', k))
            && (forall x :: 0 <= x < |os| && x != idx && x !in q ==> os[x] == orders[x])
            && Relinked(orders, os)
  {
    var os, q' := LinkTail(orders, lvl, idx).0, q + [idx];
    forall k | 0 <= k < |q'| ensures q'[k] < |os| && LinkedAt(os, q', k) {
      if k < |q| {
        assert LinkedAt(orders, q, k);
      }
    }
  }

  lemma LinkTotal(orders: seq<Order>, lvl: Level, q: seq<nat>, idx: nat, os: seq<Order>)
    requires InPool(q, |orders|) && idx < |orders| && Relinked(orders, os)
    requires lvl.total == Sum(orders, q) % WORD32
    ensures InPool(q + [idx], |os|) && Add32(lvl.total, orders[idx].qty) == Sum(os, q + [idx]) % WORD32
  {
    SumRelinked(orders, os, q);
    SumAppend(os, q, idx);
    TotalWords(Sum(os, q + [idx]), Sum(orders, q), orders[idx].qty);
  }

  lemma DistinctAppend(q: seq<nat>, idx: nat, n: nat)
    requires Distinct(q) && InPool(q, n) && idx < n && idx !in q
    ensures Distinct(q + [idx]) && InPool(q + [idx], n) && |q| < n
  {
    Pigeonhole(q + [idx], n);
  }

  /** Appending at the tail keeps time order and brings count and total up to date. */
  lemma LinkListed(orders: seq<Order>, side: Side, lvl: Level, q: seq<nat>, idx: nat)
    requires Listed(orders, side, lvl, q) && |orders| < NONE
    requires idx < |orders| && idx !in q && orders[idx].price == lvl.price && orders[idx].side == side
    ensures var (os, lvl') := LinkTail(orders, lvl, idx);
            && Listed(os, side, lvl', q + [idx]) && lvl'.price == lvl.price
            && (forall x :: 0 <= x < |os| && x != idx && x !in q ==> os[x] == orders[x])
            && Relinked(orders, os)
  {
    LinkPointers(orders, side, lvl, q, idx);
    LinkTotal(orders, lvl, q, idx, LinkTail(orders, lvl, idx).0);
    DistinctAppend(q, idx, |orders|);
  }

  // ----- Unlinking -----

  lemma UnlinkPointersAt(orders: seq<Order>, lvl: Level, q: seq<nat>, k: nat, j: nat)
    requires Linked(orders, q) && Distinct(q) && |orders| < NONE && k < |q| && j + 1 < |q|
    ensures LinkedAt(orders, q, k)
    ensures var os, q' := Unlink(orders, lvl, q[k]).0, Cut(q, k);
            q'[j] < |os| && LinkedAt(os, q', j)
  {
    assert LinkedAt(orders, q, k);
    var i := if j < k then j else j + 1;
    assert LinkedAt(orders, q, i);
    assert Cut(q, k)[j] == q[i];
    assert j > 0 ==> Cut(q, k)[j - 1] == q[if j - 1 < k then j - 1 else j];
    assert j + 2 < |q| ==> Cut(q, k)[j + 1] == q[if j + 1 < k then j + 1 else j + 2];
  }

  lemma UnlinkFrame(orders: seq<Order>, side: Side, lvl: Level, q: seq<nat>, k: nat)
    requires Listed(orders, side, lvl, q) && |orders| < NONE && k < |q|
    ensures LinkedAt(orders, q, k)
    ensures var os := Unlink(orders, lvl, q[k]).0;
            && (forall x :: 0 <= x < |os| && x !in q ==> os[x] == orders[x])
            && Relinked(orders, os)
  {
    assert LinkedAt(orders, q, k);
  }

  lemma CutDistinct(q: seq<nat>, k: nat, n: nat)
    requires Distinct(q) && InPool(q, n) && k < |q|
    ensures Distinct(Cut(q, k)) && InPool(Cut(q, k), n) && q[k] !in Cut(q, k)
    ensures forall x :: x in Cut(q, k) ==> x in q
  {
  }

  lemma CutTotal(orders: seq<Order>, lvl: Level, q: seq<nat>, k: nat, os: seq<Order>)
    requires InPool(q, |orders|) && k < |q| && Relinked(orders, os) && lvl.total == Sum(orders, q) % WORD32
    ensures InPool(Cut(q, k), |os|) && Sub32(lvl.total, orders[q[k]].qty) == Sum(os, Cut(q, k)) % WORD32
  {
    SumCut(orders, q, k);
    SumRelinked(orders, os, Cut(q, k));
    TotalWords(Sum(orders, q), Sum(orders, Cut(q, k)), orders[q[k]].qty);
  }

  lemma UnlinkTotal(orders: seq<Order>, side: Side, lvl: Level, q: seq<nat>, k: nat)
    requires Listed(orders, side, lvl, q) && |orders| < NONE && k < |q|
    ensures LinkedAt(orders, q, k) && InPool(Cut(q, k), |orders|)
    ensures var (os, lvl') := Unlink(orders, lvl, q[k]);
            lvl'.count == |q| - 1 && lvl'.total == Sum(os, Cut(q, k)) % WORD32
  {
    UnlinkFrame(orders, side, lvl, q, k);
    Pigeonhole(q, |orders|);
    CutTotal(orders, lvl, q, k, Unlink(orders, lvl, q[k]).0);
  }

  /** Unlinking leaves the other orders in their order, with count and total up to date. */
  lemma UnlinkListed(orders: seq<Order>, side: Side, lvl: Level, q: seq<nat>, k: nat)
    requires Listed(orders, side, lvl, q) && |orders| < NONE && k < |q|
    ensures LinkedAt(orders, q, k)
    ensures var (os, lvl') := Unlink(orders, lvl, q[k]);
            && Listed(os, side, lvl', Cut(q, k)) && lvl'.price == lvl.price
            && (forall x :: 0 <= x < |os| && x !in q ==> os[x] == orders[x])
            && Relinked(orders, os)
  {
    UnlinkFrame(orders, side, lvl, q, k);
    CutDistinct(q, k, |orders|);
    UnlinkTotal(orders, side, lvl, q, k);
    UnlinkEnds(orders, side, lvl, q, k);
    var os, q' := Unlink(orders, lvl, q[k]).0, Cut(q, k);
    forall j | 0 <= j < |q'| ensures LinkedAt(os, q', j) {
      UnlinkPointersAt(orders, lvl, q, k, j);
    }
  }

  lemma UnlinkEnds(orders: seq<Order>, side: Side, lvl: Level, q: seq<nat>, k: nat)
    requires Listed(orders, side, lvl, q) && |orders| < NONE && k < |q|
    ensures LinkedAt(orders, q, k)
    ensures var lvl', q' := Unlink(orders, lvl, q[k]).1, Cut(q, k);
            && lvl'.head == (if q' == [] then NONE else q'[0])
            && lvl'.tail == (if q' == [] then NONE else q'[|q'| - 1])
  {
    assert LinkedAt(orders, q, k);
  }

  /** Whatever level is charged for it, unlinking leaves the links of the others. */
  lemma UnlinkLinked(orders: seq<Order>, lvl: Level, q: seq<nat>, k: nat)
    requires Linked(orders, q) && Distinct(q) && |orders| < NONE && k < |q|
    ensures LinkedAt(orders, q, k)
    ensures var os := Unlink(orders, lvl, q[k]).0; Linked(os, Cut(q, k)) && Relinked(orders, os)
  {
    assert LinkedAt(orders, q, k);
    var os, q' := Unlink(orders, lvl, q[k]).0, Cut(q, k);
    forall j | 0 <= j < |q'| ensures q'[j] < |os| && LinkedAt(os, q', j) {
      UnlinkPointersAt(orders, lvl, q, k, j);
    }
  }

  // ----- The links determine the list -----

  lemma {:induction false} SameChainAt(orders: seq<Order>, q: seq<nat>, p: seq<nat>, k: nat)
    requires Linked(orders, q) && Linked(orders, p) && k < |q| && k < |p| && q[0] == p[0]
    ensures q[k] == p[k]
  {
    if k > 0 {
      SameChainAt(orders, q, p, k - 1);
      assert LinkedAt(orders, q, k - 1) && LinkedAt(orders, p, k - 1);
    }
  }

  lemma NoLonger(orders: seq<Order>, q: seq<nat>, p: seq<nat>)
    requires Linked(orders, q) && Linked(orders, p) && q != [] && p != [] && q[0] == p[0] && |orders| < NONE
    ensures |p| <= |q|
  {
    var last := |q| - 1;
    assert LinkedAt(orders, q, last);
    if last < |p| {
      SameChainAt(orders, q, p, last);
      assert LinkedAt(orders, p, last);
    }
  }

  /** Two lists with the same head are the same list. */
  lemma SameChain(orders: seq<Order>, q: seq<nat>, p: seq<nat>)
    requires Linked(orders, q) && Linked(orders, p) && q != [] && p != [] && q[0] == p[0] && |orders| < NONE
    ensures q == p
  {
    NoLonger(orders, q, p);
    NoLonger(orders, p, q);
    forall k | 0 <= k < |q| ensures q[k] == p[k] {
      SameChainAt(orders, q, p, k);
    }
  }

  // ----- Changing one order in place -----

  /** A change of quantity and reference, mirrored in the total, keeps the list as it is. */
  lemma ChangeListed(orders: seq<Order>, os: seq<Order>, side: Side, lvl: Level, lvl': Level, q: seq<nat>, k: nat)
    requires Listed(orders, side, lvl, q) && k < |q| && |os| == |orders|
    requires os == orders[q[k] := orders[q[k]].(id := os[q[k]].id, qty := os[q[k]].qty)]
    requires lvl' == lvl.(total := lvl'.total)
    requires lvl'.total == (lvl.total - orders[q[k]].qty + os[q[k]].qty) % WORD32
    ensures Listed(os, side, lvl', q)
  {
    SumChange(orders, os, q, k);
    forall j | 0 <= j < |q| ensures LinkedAt(os, q, j) {
      assert LinkedAt(orders, q, j);
    }
  }

  /** Orders of other queues may change freely. */
  lemma ListedFrame(orders: seq<Order>, os: seq<Order>, side: Side, lvl: Level, q: seq<nat>)
    requires Listed(orders, side, lvl, q) && |os| == |orders|
    requires forall k :: 0 <= k < |q| ==> os[q[k]] == orders[q[k]]
    ensures Listed(os, side, lvl, q)
  {
    SumFrame(orders, os, q);
    forall j | 0 <= j < |q| ensures LinkedAt(os, q, j) {
      assert LinkedAt(orders, q, j);
    }
  }
}
