/**
 What every run of the handlers keeps, whatever references arrive: duplicate additions,
 unknown references and orders whose `level` field has gone stale are all included.
 */
module BookSafety {
  import opened Words
  import opened BookModel

  /** `MAX_ORDERS_PER_SHARD`. */
  const POOL_LIMIT: nat := 2_000_000

  ghost predicate Distinct(s: seq<nat>) {
    forall i, j :: 0 <= i < j < |s| ==> s[i] != s[j]
  }

  /**
   The index and the free stack share out the pool: indexed slots are pairwise distinct and
   live, no slot is free twice, and together they never exceed the pool.
   */
  ghost predicate Sound(b: Book) {
    && Wf(b)
    && 0 < |b.orders| <= POOL_LIMIT
    && Distinct(b.free)
    && (forall r, s :: r in b.index && s in b.index && b.index[r] == b.index[s] ==> r == s)
    && (forall r :: r in b.index ==> b.index[r] !in b.free)
    && 0 !in b.index
    && |b.index| + |b.free| <= |b.orders|
  }

  /** The indexed orders that name level `k` of a side. */
  ghost function Naming(b: Book, side: Side, k: nat): (s: set<nat>)
    requires Wf(b)
  {
    set r | r in b.index && b.orders[b.index[r]].side == side && b.orders[b.index[r]].level == k
  }

  /** How far the count of a level has been driven below zero. */
  function Owed(l: Level): (n: int) {
    if l.count == 0 then 0 else WORD32 - l.count
  }

  /**
   The count of a level outside the ladder is zero minus the number of stale orders that were
   charged to it, and those still to come cannot bring it round to zero.
   */
  ghost predicate GuardedSide(b: Book, side: Side)
    requires Wf(b)
  {
    forall k :: b.On(side).depth <= k < MAX_LEVELS ==>
      Owed(b.On(side).levels[k]) + |Naming(b, side, k)| <= |b.orders|
  }

  ghost predicate Guarded(b: Book) {
    Sound(b) && GuardedSide(b, Buy) && GuardedSide(b, Sell)
  }

  lemma CardSubset(a: set<nat>, b: set<nat>)
    requires a <= b
    ensures |a| <= |b|
  {
    assert b == a + (b - a);
  }

  lemma NamingBound(b: Book, side: Side, k: nat)
    requires Sound(b)
    ensures |Naming(b, side, k)| + |b.free| <= |b.orders|
  {
    CardSubset(Naming(b, side, k), b.index.Keys);
  }

  // ----- Unlinking -----

  /** The level an indexed order is charged to is only emptied, and so removed, inside the ladder. */
  lemma RemovalInRange(b: Book, ref: nat)
    requires Guarded(b) && ref in b.index
    ensures var idx := b.index[ref];
            var o := b.orders[idx];
            Unlink(b.orders, b.On(o.side).levels[o.level], idx).1.count == 0 ==> o.level < b.On(o.side).depth
  {
    var o := b.orders[b.index[ref]];
    assert ref in Naming(b, o.side, o.level);
    assert GuardedSide(b, o.side);
    CardSubset({ref}, Naming(b, o.side, o.level));
  }

  lemma RemoveLevelTail(l: Ladder, k: nat)
    requires |l.levels| == MAX_LEVELS && k < l.depth <= MAX_LEVELS
    ensures var r := RemoveLevel(l, k);
            && |r.levels| == MAX_LEVELS && r.depth == l.depth - 1 && r.levels[l.depth - 1] == BLANK
            && forall j :: l.depth <= j < MAX_LEVELS ==> r.levels[j] == l.levels[j]
  {
  }

  /** Orders keep their side and level when a neighbour is unlinked. */
  lemma UnlinkKeepsNames(orders: seq<Order>, lvl: Level, idx: nat)
    requires idx < |orders| && Link(orders[idx].prev, |orders|) && Link(orders[idx].next, |orders|)
    ensures var os := Unlink(orders, lvl, idx).0;
            forall i :: 0 <= i < |orders| ==> os[i].side == orders[i].side && os[i].level == orders[i].level
  {
  }

  lemma DropSound(b: Book, ref: nat)
    requires Sound(b) && ref in b.index
    ensures Sound(Release(Detach(b, b.index[ref]), ref, b.index[ref]))
  {
    assert (b.index - {ref}).Keys == b.index.Keys - {ref};
  }

  lemma DropNaming(b: Book, ref: nat, side: Side, k: nat)
    requires Sound(b) && ref in b.index
    ensures var c := Release(Detach(b, b.index[ref]), ref, b.index[ref]);
            Naming(c, side, k) == Naming(b, side, k) - {ref}
  {
    var o := b.orders[b.index[ref]];
    UnlinkKeepsNames(b.orders, b.On(o.side).levels[o.level], b.index[ref]);
  }

  /** A ladder whose level `i` becomes `lvl` and goes once that is empty. */
  lemma LadderOwed(l: Ladder, lvl: Level, i: nat, k: nat)
    requires |l.levels| == MAX_LEVELS && i < MAX_LEVELS && l.depth <= MAX_LEVELS
    requires (lvl.count == 0 ==> i < l.depth) && Owed(lvl) <= Owed(l.levels[i]) + 1
    ensures var l0 := l.(levels := l.levels[i := lvl]);
            var l' := if lvl.count == 0 then RemoveLevel(l0, i) else l0;
            l'.depth <= k < |l'.levels| ==>
              if k < l.depth then l'.levels[k] == BLANK
              else Owed(l'.levels[k]) <= Owed(l.levels[k]) + if k == i then 1 else 0
  {
    if lvl.count == 0 {
      RemoveLevelTail(l.(levels := l.levels[i := lvl]), i);
    }
  }

  lemma DropOwed(b: Book, ref: nat, side: Side, k: nat)
    requires Guarded(b) && ref in b.index
    requires Detach(b, b.index[ref]).On(side).depth <= k < MAX_LEVELS
    ensures var l, l' := b.On(side), Detach(b, b.index[ref]).On(side);
            if k < l.depth then l'.levels[k] == BLANK
            else Owed(l'.levels[k]) <= Owed(l.levels[k]) + if ref in Naming(b, side, k) then 1 else 0
  {
    var idx := b.index[ref];
    var o, l := b.orders[idx], b.On(side);
    if o.side == side {
      RemovalInRange(b, ref);
      LadderOwed(l, Unlink(b.orders, l.levels[o.level], idx).1, o.level, k);
    }
  }

  lemma DropSide(b: Book, ref: nat, side: Side, k: nat)
    requires Guarded(b) && ref in b.index
    requires Detach(b, b.index[ref]).On(side).depth <= k < MAX_LEVELS
    ensures var c := Release(Detach(b, b.index[ref]), ref, b.index[ref]);
            Owed(c.On(side).levels[k]) + |Naming(c, side, k)| <= |c.orders|
  {
    DropSound(b, ref);
    NamingBound(Release(Detach(b, b.index[ref]), ref, b.index[ref]), side, k);
    DropNaming(b, ref, side, k);
    DropOwed(b, ref, side, k);
    if b.On(side).depth <= k {
      assert GuardedSide(b, side);
    }
  }

  /** Unlinking an indexed order and giving its slot back. */
  lemma DropGuarded(b: Book, ref: nat)
    requires Guarded(b) && ref in b.index
    ensures Guarded(Release(Detach(b, b.index[ref]), ref, b.index[ref]))
  {
    DropSound(b, ref);
    var c := Release(Detach(b, b.index[ref]), ref, b.index[ref]);
    forall side, k | c.On(side).depth <= k < MAX_LEVELS
      ensures Owed(c.On(side).levels[k]) + |Naming(c, side, k)| <= |c.orders|
    {
      DropSide(b, ref, side, k);
    }
    assert GuardedSide(c, Buy);
    assert GuardedSide(c, Sell);
  }

  /** A ladder keeps its guard when its counts stay and no level gains an order that names it. */
  lemma SameCounts(b: Book, c: Book)
    requires Guarded(b) && Sound(c) && |c.orders| == |b.orders|
    requires forall side, k :: c.On(side).depth <= k < MAX_LEVELS ==> |Naming(c, side, k)| <= |Naming(b, side, k)|
    requires c.bids.depth >= b.bids.depth && c.asks.depth >= b.asks.depth
    requires forall k :: c.bids.depth <= k < MAX_LEVELS ==> c.bids.levels[k].count == b.bids.levels[k].count
    requires forall k :: c.asks.depth <= k < MAX_LEVELS ==> c.asks.levels[k].count == b.asks.levels[k].count
    ensures Guarded(c)
  {
    forall k | c.bids.depth <= k < MAX_LEVELS
      ensures Owed(c.On(Buy).levels[k]) + |Naming(c, Buy, k)| <= |c.orders|
    {
      assert GuardedSide(b, Buy);
    }
    forall k | c.asks.depth <= k < MAX_LEVELS
      ensures Owed(c.On(Sell).levels[k]) + |Naming(c, Sell, k)| <= |c.orders|
    {
      assert GuardedSide(b, Sell);
    }
  }

  // ----- Each handler -----

  lemma DeleteGuarded(b: Book, ref: nat)
    requires Guarded(b)
    ensures Guarded(OnDelete(b, ref))
  {
    if ref in b.index {
      DropGuarded(b, ref);
    }
  }

  lemma ShrinkGuarded(b: Book, ref: nat, shares: nat)
    requires Guarded(b) && ref in b.index && shares < WORD32
    ensures Guarded(Shrink(b, b.index[ref], shares))
  {
    var c := Shrink(b, b.index[ref], shares);
    forall side, k | 0 <= k < MAX_LEVELS
      ensures |Naming(c, side, k)| <= |Naming(b, side, k)|
    {
      assert Naming(c, side, k) == Naming(b, side, k);
    }
    SameCounts(b, c);
  }

  lemma ReduceGuarded(b: Book, ref: nat, shares: nat)
    requires Guarded(b) && shares < WORD32
    ensures Guarded(OnReduce(b, ref, shares))
  {
    if ref in b.index {
      ShrinkGuarded(b, ref, shares);
      var c := Shrink(b, b.index[ref], shares);
      if c.orders[b.index[ref]].qty == 0 {
        DropGuarded(c, ref);
      }
    }
  }

  lemma EnterSound(b: Book, ref: nat, side: Side, price: int, qty: nat, l: Ladder, k: nat)
    requires Sound(b) && b.free != [] && ref != 0 && qty < WORD32
    requires WfLadder(l, |b.orders|) && k < MAX_LEVELS
    ensures Sound(Enter(Alloc(b), b.free[|b.free| - 1], ref, side, price, qty, l, k))
  {
    var idx := b.free[|b.free| - 1];
    var c := Enter(Alloc(b), idx, ref, side, price, qty, l, k);
    assert c.free == b.free[..|b.free| - 1];
    assert idx !in c.free;
  }

  /** No level but the one entered is named by more references. */
  lemma EnterNaming(b: Book, ref: nat, side: Side, price: int, qty: nat, l: Ladder, k: nat, other: Side, j: nat)
    requires Sound(b) && b.free != [] && qty < WORD32
    requires WfLadder(l, |b.orders|) && k < MAX_LEVELS && (other != side || j != k)
    ensures Naming(Enter(Alloc(b), b.free[|b.free| - 1], ref, side, price, qty, l, k), other, j) <= Naming(b, other, j)
  {
    var idx := b.free[|b.free| - 1];
    var c := Enter(Alloc(b), idx, ref, side, price, qty, l, k);
    forall r | r in Naming(c, other, j) ensures r in Naming(b, other, j) {
      EnterNames(b, ref, side, price, qty, l, k, other, j, c, r);
    }
  }

  lemma EnterNames(b: Book, ref: nat, side: Side, price: int, qty: nat, l: Ladder, k: nat, other: Side, j: nat, c: Book, r: nat)
    requires Sound(b) && b.free != [] && qty < WORD32
    requires WfLadder(l, |b.orders|) && k < MAX_LEVELS && (other != side || j != k)
    requires c == Enter(Alloc(b), b.free[|b.free| - 1], ref, side, price, qty, l, k) && r in Naming(c, other, j)
    ensures r in Naming(b, other, j)
  {
    assert r != ref && r in b.index && b.index[r] != b.free[|b.free| - 1];
  }

  lemma EnterGuarded(b: Book, ref: nat, side: Side, price: int, qty: nat, l: Ladder, k: nat)
    requires Guarded(b) && b.free != [] && ref != 0 && qty < WORD32
    requires WfLadder(l, |b.orders|) && k < l.depth && b.On(side).depth <= l.depth
    requires forall j :: l.depth <= j < MAX_LEVELS ==> l.levels[j] == b.On(side).levels[j]
    ensures Guarded(Enter(Alloc(b), b.free[|b.free| - 1], ref, side, price, qty, l, k))
  {
    EnterSound(b, ref, side, price, qty, l, k);
    var idx := b.free[|b.free| - 1];
    var c := Enter(Alloc(b), idx, ref, side, price, qty, l, k);
    forall s, j | 0 <= j < MAX_LEVELS
      ensures c.On(s).depth <= j ==> |Naming(c, s, j)| <= |Naming(b, s, j)|
    {
      if c.On(s).depth <= j {
        EnterNaming(b, ref, side, price, qty, l, k, s, j);
        CardSubset(Naming(c, s, j), Naming(b, s, j));
      }
    }
    SameCounts(b, c);
  }

  lemma GiveBackGuarded(b: Book)
    requires Guarded(b) && b.free != []
    ensures var c := Alloc(b); Guarded(c.(free := c.free + [b.free[|b.free| - 1]]))
  {
    var c := Alloc(b).(free := Alloc(b).free + [b.free[|b.free| - 1]]);
    assert c.free == b.free;
    forall side, k | 0 <= k < MAX_LEVELS
      ensures |Naming(c, side, k)| <= |Naming(b, side, k)|
    {
      assert Naming(c, side, k) == Naming(b, side, k);
    }
    SameCounts(b, c);
  }

  lemma JoinGuarded(b: Book, ref: nat, side: Side, price: int, qty: nat)
    requires Guarded(b) && ref != 0 && qty < WORD32 && b.free != []
    requires FindLevel(b.On(side), price) < b.On(side).depth
    ensures Guarded(OnAdd(b, ref, side, price, qty))
  {
    EnterGuarded(b, ref, side, price, qty, b.On(side), FindLevel(b.On(side), price));
  }

  lemma OpenGuarded(b: Book, ref: nat, side: Side, price: int, qty: nat)
    requires Guarded(b) && ref != 0 && qty < WORD32 && b.free != []
    requires b.On(side).depth <= FindLevel(b.On(side), price) && b.On(side).depth < MAX_LEVELS
    ensures Guarded(OnAdd(b, ref, side, price, qty))
  {
    var l := b.On(side);
    var pos := InsertPos(l, price, side);
    EnterGuarded(b, ref, side, price, qty, InsertLevel(l, pos, price), pos);
  }

  lemma AddGuarded(b: Book, ref: nat, side: Side, price: int, qty: nat)
    requires Guarded(b) && ref != 0 && qty < WORD32
    ensures Guarded(OnAdd(b, ref, side, price, qty))
  {
    if b.free != [] {
      var l := b.On(side);
      if FindLevel(l, price) < l.depth {
        JoinGuarded(b, ref, side, price, qty);
      } else if l.depth == MAX_LEVELS {
        GiveBackGuarded(b);
      } else {
        OpenGuarded(b, ref, side, price, qty);
      }
    }
  }

  lemma AmendSound(b: Book, orig: nat, ref: nat, qty: nat)
    requires Sound(b) && orig in b.index && ref != 0 && qty < WORD32
    ensures Sound(Amend(b, orig, ref, qty))
  {
    assert (b.index - {orig}).Keys == b.index.Keys - {orig};
  }

  lemma AmendNaming(b: Book, orig: nat, ref: nat, qty: nat, side: Side, k: nat)
    requires Sound(b) && orig in b.index && ref != 0 && qty < WORD32
    ensures |Naming(Amend(b, orig, ref, qty), side, k)| <= |Naming(b, side, k)|
  {
    var c := Amend(b, orig, ref, qty);
    var n := Naming(b, side, k);
    var n' := if orig in n then n - {orig} + {ref} else n;
    assert Naming(c, side, k) <= n';
    CardSubset(Naming(c, side, k), n');
  }

  lemma AmendGuarded(b: Book, orig: nat, ref: nat, qty: nat)
    requires Guarded(b) && orig in b.index && ref != 0 && qty < WORD32
    ensures Guarded(Amend(b, orig, ref, qty))
  {
    AmendSound(b, orig, ref, qty);
    var c := Amend(b, orig, ref, qty);
    forall side, k | 0 <= k < MAX_LEVELS
      ensures |Naming(c, side, k)| <= |Naming(b, side, k)|
    {
      AmendNaming(b, orig, ref, qty, side, k);
    }
    SameCounts(b, c);
  }

  lemma ReplaceGuarded(b: Book, orig: nat, ref: nat, qty: nat, price: int)
    requires Guarded(b) && ref != 0 && qty < WORD32
    ensures Guarded(OnReplace(b, orig, ref, qty, price))
  {
    if orig in b.index {
      var o := b.orders[b.index[orig]];
      if InPlace(o, price, qty) {
        AmendGuarded(b, orig, ref, qty);
      } else {
        DeleteGuarded(b, orig);
        AddGuarded(OnDelete(b, orig), ref, o.side, price, qty);
      }
    }
  }

  lemma ApplyGuarded(b: Book, m: Message)
    requires Guarded(b) && WfMessage(m)
    ensures Guarded(Apply(b, m))
  {
    match m
    case Add(ref, side, price, qty) => AddGuarded(b, ref, side, price, qty);
    case Reduce(ref, shares) => ReduceGuarded(b, ref, shares);
    case Delete(ref) => DeleteGuarded(b, ref);
    case Replace(orig, ref, qty, price) => ReplaceGuarded(b, orig, ref, qty, price);
  }

  // ----- Pool and index, whatever the ladders hold -----

  lemma AddSound(b: Book, ref: nat, side: Side, price: int, qty: nat)
    requires Sound(b) && ref != 0 && qty < WORD32
    ensures Sound(OnAdd(b, ref, side, price, qty))
  {
    if b.free != [] {
      var l := b.On(side);
      var k := FindLevel(l, price);
      if k < l.depth {
        EnterSound(b, ref, side, price, qty, l, k);
      } else if l.depth == MAX_LEVELS {
        assert OnAdd(b, ref, side, price, qty).free == b.free;
      } else {
        var pos := InsertPos(l, price, side);
        EnterSound(b, ref, side, price, qty, InsertLevel(l, pos, price), pos);
      }
    }
  }

  lemma DeleteSound(b: Book, ref: nat)
    requires Sound(b)
    ensures Sound(OnDelete(b, ref))
  {
    if ref in b.index {
      DropSound(b, ref);
    }
  }

  lemma ShrinkSound(b: Book, idx: nat, shares: nat)
    requires Sound(b) && idx < |b.orders| && shares < WORD32
    ensures Sound(Shrink(b, idx, shares))
  {
  }

  lemma ReduceSound(b: Book, ref: nat, shares: nat)
    requires Sound(b) && shares < WORD32
    ensures Sound(OnReduce(b, ref, shares))
  {
    if ref in b.index {
      var c := Shrink(b, b.index[ref], shares);
      assert Sound(c);
      if c.orders[b.index[ref]].qty == 0 {
        DropSound(c, ref);
      }
    }
  }

  lemma ReplaceSound(b: Book, orig: nat, ref: nat, qty: nat, price: int)
    requires Sound(b) && ref != 0 && qty < WORD32
    ensures Sound(OnReplace(b, orig, ref, qty, price))
  {
    if orig in b.index {
      var o := b.orders[b.index[orig]];
      if InPlace(o, price, qty) {
        AmendSound(b, orig, ref, qty);
      } else {
        DeleteSound(b, orig);
        AddSound(OnDelete(b, orig), ref, o.side, price, qty);
      }
    }
  }

  // ----- Runs -----

  lemma InitialGuarded(orders: seq<Order>)
    requires 0 < |orders| <= POOL_LIMIT
    requires WfOrders(orders)
    ensures Guarded(Initial(orders))
  {
    var b := Initial(orders);
    forall side, k | 0 <= k < MAX_LEVELS ensures |Naming(b, side, k)| == 0 {
      assert Naming(b, side, k) == {};
    }
    assert GuardedSide(b, Buy);
    assert GuardedSide(b, Sell);
  }

  /**
   After any run from the initial book, over any well-formed pool memory, indexed slots are distinct, live
   and no more than the pool, and the next removal of a level stays inside the ladder.
   */
  lemma {:induction false} RunGuarded(orders: seq<Order>, ms: seq<Message>)
    requires 0 < |orders| <= 2_000_000
    requires WfOrders(orders)
    requires forall i :: 0 <= i < |ms| ==> WfMessage(ms[i])
    ensures Wf(Initial(orders)) && Guarded(Run(Initial(orders), ms))
  {
    InitialGuarded(orders);
    if ms != [] {
      RunGuarded(orders, ms[..|ms| - 1]);
      ApplyGuarded(Run(Initial(orders), ms[..|ms| - 1]), ms[|ms| - 1]);
    }
  }

  /**
   A replacement that is not in place takes the very slot it has just freed, so that
   its pool can not be exhausted.
   */
  lemma ReplaceReusesSlot(b: Book, orig: nat, ref: nat, qty: nat, price: int)
    requires Guarded(b) && orig in b.index && ref != 0 && qty < WORD32
    requires !InPlace(b.orders[b.index[orig]], price, qty)
    ensures var c := OnDelete(b, orig);
            && c.free == b.free + [b.index[orig]]
            && var r := OnReplace(b, orig, ref, qty, price);
               if ref in r.index && r.index[ref] == b.index[orig] then r.free == b.free
               else r.free == b.free + [b.index[orig]] && r.index == b.index - {orig}
                    && c.On(b.orders[b.index[orig]].side).depth == MAX_LEVELS
  {
    var c := OnDelete(b, orig);
    assert c.free[|c.free| - 1] == b.index[orig];
    assert c.free[..|c.free| - 1] == b.free;
  }
}
