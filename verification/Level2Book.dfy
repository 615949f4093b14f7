/**
 The book as it runs: two arrays of price levels updated in place over the shared pool and index.
 Each method is proved to compute the function of the same name in `BookModel`.
 */
module Level2Books {
  import opened Words
  import opened BookModel
  import opened BookSafety
  import opened BookCharges
  import opened OrderIndex
  import opened OrderPools
  import Theorems = BookTheorems
  import Hashing = RobinHood

  // ----- Arrays of levels -----

  /** Linear scan for a price; the depth when there is none. */
  method FindLevelIn(levels: array<Level>, depth: nat, price: int) returns (k: nat)
    requires depth <= levels.Length
    ensures k == FindLevel(Ladder(levels[..], depth), price)
  {
    ghost var l := Ladder(levels[..], depth);
    k := 0;
    while k < depth && levels[k].price != price
      invariant k <= depth && FindFrom(l, k, price) == FindFrom(l, 0, price)
    {
      k := k + 1;
    }
  }

  method InsertPosIn(levels: array<Level>, depth: nat, price: int, side: Side) returns (pos: nat)
    requires depth <= levels.Length
    ensures pos == InsertPos(Ladder(levels[..], depth), price, side)
    ensures forall i :: 0 <= i < pos ==> if side.Buy? then levels[i].price > price else levels[i].price < price
    ensures pos < depth ==> if side.Buy? then levels[pos].price <= price else levels[pos].price >= price
  {
    ghost var l := Ladder(levels[..], depth);
    pos := 0;
    if side.Buy? {
      while pos < depth && levels[pos].price > price
        invariant pos <= depth && PosFrom(l, pos, price, side) == PosFrom(l, 0, price, side)
      {
        pos := pos + 1;
      }
    } else {
      while pos < depth && levels[pos].price < price
        invariant pos <= depth && PosFrom(l, pos, price, side) == PosFrom(l, 0, price, side)
      {
        pos := pos + 1;
      }
    }
  }

  /** Opens a level in place; `MAX_LEVELS` when the ladder is full. */
  method InsertLevelIn(levels: array<Level>, depth: nat, price: int, side: Side) returns (pos: nat)
    requires levels.Length == MAX_LEVELS && depth <= MAX_LEVELS
    modifies levels
    ensures depth == MAX_LEVELS ==> pos == MAX_LEVELS && levels[..] == old(levels[..])
    ensures depth < MAX_LEVELS ==>
      && pos == InsertPos(Ladder(old(levels[..]), depth), price, side)
      && Ladder(levels[..], depth + 1) == InsertLevel(Ladder(old(levels[..]), depth), pos, price)
    ensures forall i :: 0 <= i < pos && depth < MAX_LEVELS ==>
      levels[i] == old(levels[i]) && if side.Buy? then levels[i].price > price else levels[i].price < price
    ensures pos < depth < MAX_LEVELS ==>
      levels[pos + 1] == old(levels[pos]) && if side.Buy? then levels[pos + 1].price <= price else levels[pos + 1].price >= price
  {
    if depth >= MAX_LEVELS {
      return MAX_LEVELS;
    }
    pos := InsertPosIn(levels, depth, price, side);
    ShiftRight(levels, pos, depth);
    levels[pos] := BLANK.(price := price);
    Opened(old(levels[..]), levels[..], depth, pos, price);
  }

  lemma Opened(was: seq<Level>, now: seq<Level>, depth: nat, pos: nat, price: int)
    requires |was| == |now| == MAX_LEVELS && pos <= depth < MAX_LEVELS
    requires forall i :: 0 <= i < pos ==> now[i] == was[i]
    requires forall i :: pos < i <= depth ==> now[i] == was[i - 1]
    requires forall i :: depth < i < MAX_LEVELS ==> now[i] == was[i]
    requires now[pos] == BLANK.(price := price)
    ensures now == InsertLevel(Ladder(was, depth), pos, price).levels
  {
  }

  method ShiftRight(levels: array<Level>, pos: nat, depth: nat)
    requires pos <= depth < levels.Length
    modifies levels
    ensures forall i :: 0 <= i < pos ==> levels[i] == old(levels[i])
    ensures forall i :: pos < i <= depth ==> levels[i] == old(levels[i - 1])
    ensures forall i :: depth < i < levels.Length ==> levels[i] == old(levels[i])
  {
    var j := depth;
    while j > pos
      invariant pos <= j <= depth
      invariant forall i :: 0 <= i <= j ==> levels[i] == old(levels[i])
      invariant forall i :: j < i <= depth ==> levels[i] == old(levels[i - 1])
      invariant forall i :: depth < i < levels.Length ==> levels[i] == old(levels[i])
    {
      levels[j] := levels[j - 1];
      j := j - 1;
    }
  }

  method ShiftLeft(levels: array<Level>, k: nat, depth: nat)
    requires k + 1 < depth <= levels.Length
    modifies levels
    ensures forall i :: 0 <= i < k ==> levels[i] == old(levels[i])
    ensures forall i :: k <= i < depth - 1 ==> levels[i] == old(levels[i + 1])
    ensures forall i :: depth - 1 <= i < levels.Length ==> levels[i] == old(levels[i])
  {
    ghost var was := levels[..];
    for j := k to depth - 1
      invariant forall i :: 0 <= i < k ==> levels[i] == was[i]
      invariant forall i :: k <= i < j ==> levels[i] == was[i + 1]
      invariant forall i :: j <= i < levels.Length ==> levels[i] == was[i]
    {
      assert levels[j + 1] == was[j + 1];
      levels[j] := levels[j + 1];
    }
  }

  /** Closes level `k` in place. */
  method RemoveLevelIn(levels: array<Level>, depth: nat, k: nat)
    requires levels.Length == MAX_LEVELS && 0 < depth <= MAX_LEVELS && k < MAX_LEVELS
    modifies levels
    ensures Ladder(levels[..], depth - 1) == RemoveLevel(Ladder(old(levels[..]), depth), k)
  {
    if k + 1 < depth {
      ShiftLeft(levels, k, depth);
    }
    levels[depth - 1] := BLANK;
    assert levels[..] == RemoveLevel(Ladder(old(levels[..]), depth), k).levels;
  }

  // ----- Lists through the pool -----

  method LinkTailIn(orders: array<Order>, levels: array<Level>, k: nat, idx: nat)
    requires k < levels.Length && idx < orders.Length && Link(levels[k].tail, orders.Length)
    modifies orders, levels
    ensures var (os, lvl) := LinkTail(old(orders[..]), old(levels[k]), idx);
            orders[..] == os && levels[..] == old(levels[..])[k := lvl]
  {
    var lvl := levels[k];
    orders[idx] := orders[idx].(prev := lvl.tail, next := NONE);
    if lvl.tail != NONE {
      orders[lvl.tail] := orders[lvl.tail].(next := idx);
    } else {
      lvl := lvl.(head := idx);
    }
    levels[k] := lvl.(tail := idx, total := Add32(lvl.total, orders[idx].qty), count := Add32(lvl.count, 1));
  }

  method UnlinkIn(orders: array<Order>, levels: array<Level>, k: nat, idx: nat)
    requires k < levels.Length && idx < orders.Length
    requires Link(orders[idx].prev, orders.Length) && Link(orders[idx].next, orders.Length)
    modifies orders, levels
    ensures var (os, lvl) := Unlink(old(orders[..]), old(levels[k]), idx);
            orders[..] == os && levels[..] == old(levels[..])[k := lvl]
  {
    var o, lvl := orders[idx], levels[k];
    if o.prev != NONE {
      orders[o.prev] := orders[o.prev].(next := o.next);
    } else {
      lvl := lvl.(head := o.next);
    }
    if o.next != NONE {
      orders[o.next] := orders[o.next].(prev := o.prev);
    } else {
      lvl := lvl.(tail := o.prev);
    }
    levels[k] := lvl.(total := Sub32(lvl.total, o.qty), count := Sub32(lvl.count, 1));
  }

  /** Unlinks an order and removes its level once that is empty; the new depth. */
  method DetachIn(orders: array<Order>, levels: array<Level>, depth: nat, k: nat, idx: nat) returns (d: nat)
    requires levels.Length == MAX_LEVELS && depth <= MAX_LEVELS && k < MAX_LEVELS && idx < orders.Length
    requires Link(orders[idx].prev, orders.Length) && Link(orders[idx].next, orders.Length)
    requires Unlink(orders[..], levels[k], idx).1.count == 0 ==> k < depth
    modifies orders, levels
    ensures var (os, lvl) := Unlink(old(orders[..]), old(levels[k]), idx);
            var l := Ladder(old(levels[..])[k := lvl], depth);
            orders[..] == os && Ladder(levels[..], d) == if lvl.count == 0 then RemoveLevel(l, k) else l
  {
    d := depth;
    UnlinkIn(orders, levels, k, idx);
    if levels[k].count == 0 {
      RemoveLevelIn(levels, depth, k);
      d := depth - 1;
    }
  }

  /** Indexes an order under another reference. */
  method RenameIn(index: OrderMap, orig: nat, ref: nat, idx: nat)
    requires index.Valid() && index.HasRoom() && orig != 0 && ref != 0
    modifies index, index.table
    ensures index.Valid() && index.contents == (old(index.contents) - {orig})[ref := idx]
  {
    var erased := index.Erase(orig);
    var ok := index.Insert(ref, idx);
  }

  /** Unindexes and frees an order. */
  method ReleaseIn(pool: OrderPool, index: OrderMap, ref: nat, idx: nat)
    requires pool.Valid() && index.Valid() && index.HasRoom() && ref != 0 && pool.top < pool.freelist.Length
    requires var f: object, t: object := pool.freelist, index.table; f != t
    modifies pool, pool.freelist, index, index.table
    ensures pool.Valid() && index.Valid() && index.HasRoom()
    ensures index.contents == old(index.contents) - {ref} && pool.Free() == old(pool.Free()) + [idx]
  {
    var erased := index.Erase(ref);
    ghost var table := index.table[..];
    pool.Release(idx);
    assert index.table[..] == table;
  }

  /** The order at `idx` under another reference and with another quantity, which its level follows. */
  function Requantified(b: Book, idx: nat, ref: nat, qty: nat): (r: Book)
    requires Wf(b) && idx < |b.orders| && qty < WORD32
  {
    var o := b.orders[idx];
    var l := b.On(o.side);
    var lvl := l.levels[o.level];
    b.With(o.side, l.(levels := l.levels[o.level := lvl.(total := Add32(Sub32(lvl.total, o.qty), qty))]))
     .(orders := b.orders[idx := o.(qty := qty, id := ref)])
  }

  lemma AmendRequantifies(b: Book, orig: nat, ref: nat, qty: nat)
    requires Wf(b) && orig in b.index && qty < WORD32
    ensures Amend(b, orig, ref, qty)
         == Requantified(b, b.index[orig], ref, qty).(index := (b.index - {orig})[ref := b.index[orig]])
  {
  }

  // ----- The book -----

  class Level2Book {
    const pool: OrderPool
    const index: OrderMap
    const bids: array<Level>
    const asks: array<Level>
    var bidDepth: nat
    var askDepth: nat

    /** The five arrays are five objects. */
    ghost predicate Apart() {
      var b: object, a: object, o: object, f: object, t: object := bids, asks, pool.orders, pool.freelist, index.table;
      && b != a && b != o && b != f && b != t
      && a != o && a != f && a != t
      && o != f && o != t
      && f != t
    }

    ghost predicate Ready()
      reads this, pool, index, index.table
    {
      Apart() && pool.Valid() && index.Valid()
    }

    /** The value of the book, its pool and its index. */
    ghost function State(): (b: Book)
      requires pool.top <= pool.freelist.Length
      reads this, bids, asks, pool, pool.orders, pool.freelist, index
    {
      Book(Ladder(bids[..], bidDepth), Ladder(asks[..], askDepth),
           pool.orders[..], pool.Free(), index.contents)
    }

    /** What every handler keeps, on a pool and an index that other books may share. */
    ghost predicate Usable()
      reads this, bids, asks, pool, pool.orders, pool.freelist, index, index.table
    {
      Ready() && Sound(State())
    }

    /** What every handler keeps besides when pool and index are the book's own. */
    ghost predicate Valid()
      reads this, bids, asks, pool, pool.orders, pool.freelist, index, index.table
    {
      Ready() && Guarded(State())
    }

    /** An index with more slots than the pool limit always has an empty one. */
    lemma IndexNeverFull() returns (i: nat)
      requires Usable() && POOL_LIMIT < index.table.Length
      ensures i < index.table.Length && index.table[i].key == Hashing.EMPTY_KEY
    {
      i := Hashing.SomeSlotEmpty(index.table[..], index.contents);
    }

    /** With fewer than 65536 orders in the pool, every run keeps the room that the index needs. */
    lemma SmallPoolHasRoom()
      requires Usable() && pool.orders.Length < index.table.Length && pool.orders.Length < Hashing.DIST_LIMIT
      ensures index.HasRoom()
    {
      Hashing.FewKeysRoomy(index.table[..], Home(index.bits), index.contents);
    }

    constructor (pool: OrderPool, index: OrderMap)
      requires pool.Valid() && index.Valid()
      ensures Ready() && this.pool == pool && this.index == index && fresh(bids) && fresh(asks)
      ensures State() == Book(EmptyLadder(), EmptyLadder(), pool.orders[..], pool.Free(), index.contents)
      ensures 0 < pool.orders.Length <= POOL_LIMIT && WfOrders(pool.orders[..])
              && pool.Free() == InitialFree(pool.orders.Length) && index.contents == map[] ==>
                Valid() && State() == Initial(pool.orders[..])
    {
      this.pool, this.index := pool, index;
      bids := new Level[MAX_LEVELS](_ => BLANK);
      asks := new Level[MAX_LEVELS](_ => BLANK);
      bidDepth, askDepth := 0, 0;
      new;
      assert bids[..] == Blanks(MAX_LEVELS) == asks[..];
      if 0 < pool.orders.Length <= POOL_LIMIT && WfOrders(pool.orders[..]) {
        InitialGuarded(pool.orders[..]);
      }
    }

    /** Blank ladders; pool and index are left to their own resets. */
    method Clear()
      requires Ready() && bids.Length == asks.Length == MAX_LEVELS
      modifies this, bids, asks
      ensures Ready() && State() == old(State()).(bids := EmptyLadder(), asks := EmptyLadder())
    {
      for i := 0 to MAX_LEVELS
        invariant forall j :: 0 <= j < i ==> bids[j] == BLANK
      {
        bids[i] := BLANK;
      }
      for i := 0 to MAX_LEVELS
        invariant bids[..] == Blanks(MAX_LEVELS) && forall j :: 0 <= j < i ==> asks[j] == BLANK
      {
        asks[i] := BLANK;
      }
      bidDepth, askDepth := 0, 0;
      assert asks[..] == Blanks(MAX_LEVELS);
    }

    /** Takes the order out of its list and drops the level that it names once that is empty. */
    method DetachOrder(idx: nat)
      requires Ready() && Wf(State()) && idx < pool.orders.Length && DetachInRange(State(), idx)
      modifies this, bids, asks, pool.orders
      ensures Ready() && State() == Detach(old(State()), idx)
    {
      assert WfOrder(State().orders[idx], |State().orders|);
      var o := pool.orders[idx];
      if o.side.Buy? {
        bidDepth := DetachIn(pool.orders, bids, bidDepth, o.level, idx);
      } else {
        askDepth := DetachIn(pool.orders, asks, askDepth, o.level, idx);
      }
    }

    /** Unlinks, unindexes and frees an order. */
    method Drop(ref: nat, idx: nat)
      requires Usable() && index.HasRoom() && ref in index.contents && index.contents[ref] == idx
      requires DetachInRange(State(), idx)
      modifies this, bids, asks, pool, pool.orders, pool.freelist, index, index.table
      ensures Usable() && index.HasRoom()
      ensures State() == Release(Detach(old(State()), idx), ref, idx)
    {
      ghost var b := State();
      DropSound(b, ref);
      assert |index.contents| >= 1;
      DetachOrder(idx);
      ReleaseIn(pool, index, ref, idx);
      assert State() == Release(Detach(b, idx), ref, idx);
    }

    /** Fills a pool slot, links it at level `k` and indexes it. */
    method EnterOrder(idx: nat, ref: nat, side: Side, price: int, qty: nat, k: nat)
      requires Ready() && Wf(State()) && index.HasRoom() && ref != 0 && qty < WORD32
      requires idx < pool.orders.Length && k < MAX_LEVELS
      modifies bids, asks, pool.orders, index, index.table
      ensures Ready() && State() == Enter(old(State()), idx, ref, side, price, qty, old(State()).On(side), k)
    {
      ghost var b := State();
      assert WfLevel(b.On(side).levels[k], |b.orders|);
      pool.orders[idx] := pool.orders[idx].(id := ref, price := price, qty := qty, side := side, level := k);
      LinkTailIn(pool.orders, if side.Buy? then bids else asks, k, idx);
      var ok := index.Insert(ref, idx);
    }

    /** Opens a level on one side. */
    method OpenLevelOn(side: Side, price: int) returns (k: nat)
      requires Ready() && bids.Length == asks.Length == MAX_LEVELS && bidDepth <= MAX_LEVELS && askDepth <= MAX_LEVELS
      modifies this, bids, asks
      ensures Ready()
      ensures var b, l := old(State()), old(State()).On(side);
              if l.depth == MAX_LEVELS then k == MAX_LEVELS && State() == b
              else k == InsertPos(l, price, side) && State() == b.With(side, InsertLevel(l, k, price))
    {
      if side.Buy? {
        k := InsertLevelIn(bids, bidDepth, price, side);
        if k != MAX_LEVELS {
          bidDepth := bidDepth + 1;
        }
      } else {
        k := InsertLevelIn(asks, askDepth, price, side);
        if k != MAX_LEVELS {
          askDepth := askDepth + 1;
        }
      }
    }

    method PlaceOrder(idx: nat, ref: nat, side: Side, price: int, qty: nat)
      requires Ready() && Wf(State()) && index.HasRoom() && ref != 0 && qty < WORD32
      requires idx < pool.orders.Length && pool.top < pool.freelist.Length
      modifies this, bids, asks, pool, pool.orders, pool.freelist, index, index.table
      ensures Ready() && State() == Place(old(State()), idx, ref, side, price, qty)
    {
      var depth := if side.Buy? then bidDepth else askDepth;
      var k := FindLevelIn(if side.Buy? then bids else asks, depth, price);
      if k == depth {
        k := OpenLevelOn(side, price);
        if k == MAX_LEVELS {
          pool.Release(idx);
          return;
        }
      }
      EnterOrder(idx, ref, side, price, qty, k);
    }

    /** Takes a slot from the pool; `NONE` when there is none. */
    method TakeSlot() returns (idx: nat)
      requires Ready() && Wf(State())
      modifies pool, pool.orders
      ensures Ready()
      ensures var b := old(State());
              if b.free == [] then idx == NONE && State() == b
              else && idx == b.free[|b.free| - 1] && idx < pool.orders.Length < NONE
                   && State() == Alloc(b) && pool.top < pool.freelist.Length
    {
      idx := pool.Alloc();
    }

    /** Allocation and placement, whatever is indexed already. */
    method AddOrder(ref: nat, side: Side, price: int, qty: nat)
      requires Ready() && Wf(State()) && index.HasRoom() && ref != 0 && qty < WORD32
      modifies this, bids, asks, pool, pool.orders, pool.freelist, index, index.table
      ensures Ready() && State() == BookModel.OnAdd(old(State()), ref, side, price, qty)
    {
      var idx := TakeSlot();
      if idx != NONE {
        PlaceOrder(idx, ref, side, price, qty);
      }
    }

    /** Additions, with or without attribution. */
    method OnAdd(ref: nat, side: Side, price: int, qty: nat)
      requires Usable() && index.HasRoom() && ref != 0 && qty < WORD32
      modifies this, bids, asks, pool, pool.orders, pool.freelist, index, index.table
      ensures Usable() && (old(Valid()) ==> Valid())
      ensures State() == BookModel.OnAdd(old(State()), ref, side, price, qty)
    {
      AddSound(State(), ref, side, price, qty);
      if Guarded(State()) {
        AddGuarded(State(), ref, side, price, qty);
      }
      AddOrder(ref, side, price, qty);
    }

    /** Execution and cancellation. */
    method OnReduce(ref: nat, shares: nat)
      requires Usable() && index.HasRoom() && ref != 0 && shares < WORD32 && InRange(State(), Reduce(ref, shares))
      modifies this, bids, asks, pool, pool.orders, pool.freelist, index, index.table
      ensures Usable() && index.HasRoom() && (old(Valid()) ==> Valid())
      ensures State() == BookModel.OnReduce(old(State()), ref, shares)
    {
      ReduceSound(State(), ref, shares);
      if Guarded(State()) {
        ReduceGuarded(State(), ref, shares);
      }
      var found := index.Find(ref);
      if found.Hit? {
        ReduceFound(ref, found.value, shares);
      }
    }

    method ReduceFound(ref: nat, idx: nat, shares: nat)
      requires Usable() && index.HasRoom() && ref in index.contents && index.contents[ref] == idx
      requires shares < WORD32
      requires Sub32(State().orders[idx].qty, shares) == 0 ==> DetachInRange(Shrink(State(), idx, shares), idx)
      modifies this, bids, asks, pool, pool.orders, pool.freelist, index, index.table
      ensures Usable() && index.HasRoom()
      ensures State() == BookModel.OnReduce(old(State()), ref, shares)
    {
      ShrinkSound(State(), idx, shares);
      ShrinkOrder(idx, shares);
      if pool.orders[idx].qty == 0 {
        Drop(ref, idx);
      }
    }

    method ShrinkOrder(idx: nat, shares: nat)
      requires Ready() && Wf(State()) && idx < pool.orders.Length && shares < WORD32
      modifies bids, asks, pool.orders
      ensures Ready() && State() == Shrink(old(State()), idx, shares)
    {
      var o := pool.orders[idx];
      assert WfOrder(o, |State().orders|);
      var levels := if o.side.Buy? then bids else asks;
      levels[o.level] := levels[o.level].(total := Sub32(levels[o.level].total, shares));
      pool.orders[idx] := o.(qty := Sub32(o.qty, shares));
    }

    method OnDelete(ref: nat)
      requires Usable() && index.HasRoom() && ref != 0 && InRange(State(), Delete(ref))
      modifies this, bids, asks, pool, pool.orders, pool.freelist, index, index.table
      ensures Usable() && index.HasRoom() && (old(Valid()) ==> Valid())
      ensures State() == BookModel.OnDelete(old(State()), ref)
    {
      if Guarded(State()) {
        DeleteGuarded(State(), ref);
      }
      var found := index.Find(ref);
      if found.Hit? {
        Drop(ref, found.value);
      }
    }

    /** New quantity and reference in place, with the level total brought along. */
    method Requantify(idx: nat, ref: nat, qty: nat)
      requires Ready() && Wf(State()) && idx < pool.orders.Length && qty < WORD32
      modifies bids, asks, pool.orders
      ensures Ready()
      ensures State() == Requantified(old(State()), idx, ref, qty)
    {
      var o := pool.orders[idx];
      assert WfOrder(o, |State().orders|);
      var levels := if o.side.Buy? then bids else asks;
      levels[o.level] := levels[o.level].(total := Sub32(levels[o.level].total, o.qty));
      levels[o.level] := levels[o.level].(total := Add32(levels[o.level].total, qty));
      assert levels[..] == old(levels[..])[o.level := old(levels[o.level]).(
               total := Add32(Sub32(old(levels[o.level]).total, o.qty), qty))];
      pool.orders[idx] := o.(qty := qty, id := ref);
    }

    method AmendOrder(idx: nat, orig: nat, ref: nat, qty: nat)
      requires Ready() && Wf(State()) && index.HasRoom() && orig != 0 && ref != 0 && qty < WORD32
      requires orig in index.contents && index.contents[orig] == idx
      modifies bids, asks, pool.orders, index, index.table
      ensures Ready() && State() == Amend(old(State()), orig, ref, qty)
    {
      ghost var b := State();
      Requantify(idx, ref, qty);
      RenameIn(index, orig, ref, idx);
      AmendRequantifies(b, orig, ref, qty);
    }

    /**
     The second half of a replacement: the new order takes the slot that was just freed, so the
     pool is never exhausted here, and goes in as an added order does.
     */
    method Relocate(ref: nat, side: Side, price: int, qty: nat, ghost freed: nat)
      requires Ready() && Wf(State()) && index.HasRoom() && ref != 0 && qty < WORD32
      requires State().free != [] && State().free[|State().free| - 1] == freed
      modifies this, bids, asks, pool, pool.orders, pool.freelist, index, index.table
      ensures Ready() && State() == BookModel.OnAdd(old(State()), ref, side, price, qty)
    {
      var idx := TakeSlot();
      assert idx == freed;
      PlaceAgain(idx, ref, side, price, qty);
    }

    method PlaceAgain(idx: nat, ref: nat, side: Side, price: int, qty: nat)
      requires Ready() && Wf(State()) && index.HasRoom() && ref != 0 && qty < WORD32
      requires idx < pool.orders.Length && pool.top < pool.freelist.Length
      modifies this, bids, asks, pool, pool.orders, pool.freelist, index, index.table
      ensures Ready() && State() == Place(old(State()), idx, ref, side, price, qty)
    {
      var depth := if side.Buy? then bidDepth else askDepth;
      var k := FindLevelIn(if side.Buy? then bids else asks, depth, price);
      if k == depth {
        k := OpenLevelOn(side, price);
      }
      if k == MAX_LEVELS {
        pool.Release(idx);
        return;
      }
      EnterOrder(idx, ref, side, price, qty, k);
    }

    /**
     Replacement.  Moving to a new price, or raising the quantity, has exactly the effect of a
     deletion followed by an addition, whether or not the order names its own level.
     */
    method OnReplace(orig: nat, ref: nat, qty: nat, price: int)
      requires Usable() && index.HasRoom() && orig != 0 && ref != 0 && qty < WORD32
      requires InRange(State(), Replace(orig, ref, qty, price))
      modifies this, bids, asks, pool, pool.orders, pool.freelist, index, index.table
      ensures Usable() && (old(Valid()) ==> Valid())
      ensures State() == BookModel.OnReplace(old(State()), orig, ref, qty, price)
    {
      ReplaceSound(State(), orig, ref, qty, price);
      if Guarded(State()) {
        ReplaceGuarded(State(), orig, ref, qty, price);
      }
      var found := index.Find(orig);
      if found.Hit? {
        ReplaceFound(orig, found.value, ref, qty, price);
      }
    }

    method ReplaceFound(orig: nat, idx: nat, ref: nat, qty: nat, price: int)
      requires Usable() && index.HasRoom() && orig in index.contents && index.contents[orig] == idx
      requires ref != 0 && qty < WORD32
      requires !InPlace(State().orders[idx], price, qty) ==> DetachInRange(State(), idx)
      modifies this, bids, asks, pool, pool.orders, pool.freelist, index, index.table
      ensures Ready() && State() == BookModel.OnReplace(old(State()), orig, ref, qty, price)
    {
      var o := pool.orders[idx];
      if price == o.price && qty <= o.qty {
        AmendOrder(idx, orig, ref, qty);
      } else {
        Drop(orig, idx);
        Relocate(ref, o.side, price, qty, idx);
      }
    }

    /** The first level of each side, zero where there is none. */
    method Bbo() returns (r: Theorems.Bbo)
      requires Ready() && Wf(State())
      ensures r == Theorems.GetBbo(State())
    {
      var bid, ask := Theorems.Quote(0, 0), Theorems.Quote(0, 0);
      if bidDepth > 0 {
        bid := Theorems.Quote(bids[0].price, bids[0].total);
      }
      if askDepth > 0 {
        ask := Theorems.Quote(asks[0].price, asks[0].total);
      }
      r := Theorems.Bbo(bid, ask);
    }
  }
}
