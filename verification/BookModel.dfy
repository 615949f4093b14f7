/**
 The order book of one symbol, as the functions that its handlers compute.

 A book is two ladders of price levels over the order pool, the pool's free stack and
 the order index of the shard.  The functions are total on well-formed books, whatever the
 `level` field of an order says: that field is written when the order is added and is
 not corrected when the ladder shifts.
 */
module BookModel {
  import opened Words

  const MAX_LEVELS: nat := 256
  /** `kInvalidIdx`: the end of a list. */
  const NONE: nat := 0xFFFF_FFFF

  datatype Side = Buy | Sell

  datatype Order = Order(id: nat, price: int, qty: nat, prev: nat, next: nat, level: nat, side: Side)

  datatype Level = Level(price: int, total: nat, count: nat, head: nat, tail: nat)

  const BLANK: Level := Level(0, 0, 0, NONE, NONE)

  /** One side: a fixed array of levels, of which the first `depth` are in use, best price first. */
  datatype Ladder = Ladder(levels: seq<Level>, depth: nat)

  datatype Book = Book(bids: Ladder, asks: Ladder, orders: seq<Order>, free: seq<nat>, index: map<nat, nat>)
  {
    function On(side: Side): (l: Ladder) {
      if side.Buy? then bids else asks
    }

    function With(side: Side, l: Ladder): (b: Book) {
      if side.Buy? then this.(bids := l) else this.(asks := l)
    }
  }

  // ----- Machine words -----

  function Add32(a: nat, b: nat): (r: nat)
    ensures r < WORD32
  {
    (a + b) % WORD32
  }

  function Sub32(a: nat, b: nat): (r: nat)
    ensures r < WORD32
  {
    (a - b) % WORD32
  }

  // ----- Well-formed books -----

  predicate Link(x: nat, n: nat) {
    x == NONE || x < n
  }

  predicate WfOrder(o: Order, n: nat) {
    o.level < MAX_LEVELS && o.qty < WORD32 && Link(o.prev, n) && Link(o.next, n)
  }

  predicate WfLevel(l: Level, n: nat) {
    l.total < WORD32 && l.count < WORD32 && Link(l.head, n) && Link(l.tail, n)
  }

  ghost predicate WfLadder(l: Ladder, n: nat) {
    && |l.levels| == MAX_LEVELS && l.depth <= MAX_LEVELS
    && forall i :: 0 <= i < MAX_LEVELS ==> WfLevel(l.levels[i], n)
  }

  ghost predicate WfOrders(orders: seq<Order>) {
    forall i :: 0 <= i < |orders| ==> WfOrder(orders[i], |orders|)
  }

  /** Every stored pool index, level index and word is in range; nothing is said about its meaning. */
  ghost predicate Wf(b: Book) {
    && |b.orders| < NONE
    && WfOrders(b.orders)
    && WfLadder(b.bids, |b.orders|) && WfLadder(b.asks, |b.orders|)
    && (forall i :: 0 <= i < |b.free| ==> b.free[i] < |b.orders|)
    && (forall ref :: ref in b.index ==> b.index[ref] < |b.orders|)
  }

  // ----- Levels -----

  /** The first level at or after `i` with this price, or the depth of the ladder. */
  function FindFrom(l: Ladder, i: nat, price: int): (k: nat)
    requires l.depth <= |l.levels| && i <= l.depth
    ensures i <= k <= l.depth
    ensures k < l.depth ==> l.levels[k].price == price
    ensures forall j :: i <= j < k ==> l.levels[j].price != price
    decreases l.depth - i
  {
    if i == l.depth || l.levels[i].price == price then i else FindFrom(l, i + 1, price)
  }

  function FindLevel(l: Ladder, price: int): (k: nat)
    requires l.depth <= |l.levels|
    ensures k <= l.depth
  {
    FindFrom(l, 0, price)
  }

  /** Bids run from the highest price down, asks from the lowest up. */
  predicate Better(side: Side, p: int, q: int) {
    if side.Buy? then p > q else p < q
  }

  function PosFrom(l: Ladder, i: nat, price: int, side: Side): (k: nat)
    requires l.depth <= |l.levels| && i <= l.depth
    ensures i <= k <= l.depth
    ensures forall j :: i <= j < k ==> Better(side, l.levels[j].price, price)
    ensures k < l.depth ==> !Better(side, l.levels[k].price, price)
    decreases l.depth - i
  {
    if i == l.depth || !Better(side, l.levels[i].price, price) then i else PosFrom(l, i + 1, price, side)
  }

  /** Where a new level at this price goes. */
  function InsertPos(l: Ladder, price: int, side: Side): (k: nat)
    requires l.depth <= |l.levels|
    ensures k <= l.depth
  {
    PosFrom(l, 0, price, side)
  }

  function InsertLevel(l: Ladder, pos: nat, price: int): (r: Ladder)
    requires |l.levels| == MAX_LEVELS && pos <= l.depth < MAX_LEVELS
    ensures forall n :: WfLadder(l, n) ==> WfLadder(r, n)
  {
    Ladder(l.levels[..pos] + [BLANK.(price := price)] + l.levels[pos..l.depth] + l.levels[l.depth + 1..], l.depth + 1)
  }

  /**
   Removal of a level.  On an empty ladder the source would write before the array, and the function
   leaves the ladder alone.  `BookSafety` shows that no run of a book with its own pool gets there, and
   `ShardRange` that no run of a shard does within 2^32 events of a reset.
   */
  function RemoveLevel(l: Ladder, k: nat): (r: Ladder)
    requires |l.levels| == MAX_LEVELS && l.depth <= MAX_LEVELS && k < MAX_LEVELS
    ensures forall n :: WfLadder(l, n) ==> WfLadder(r, n)
  {
    if l.depth == 0 then l
    else if k + 1 < l.depth then
      Ladder(l.levels[..k] + l.levels[k + 1..l.depth] + [BLANK] + l.levels[l.depth..], l.depth - 1)
    else Ladder(l.levels[l.depth - 1 := BLANK], l.depth - 1)
  }

  // ----- The list of one level -----

  /** Appends order `idx` to the list of `lvl`. */
  function LinkTail(orders: seq<Order>, lvl: Level, idx: nat): (r: (seq<Order>, Level))
    requires idx < |orders| && Link(lvl.tail, |orders|)
    ensures |r.0| == |orders|
    ensures WfOrders(orders) ==> WfOrders(r.0)
    ensures WfLevel(lvl, |orders|) ==> WfLevel(r.1, |orders|)
  {
    var os := orders[idx := orders[idx].(prev := lvl.tail, next := NONE)];
    var os' := if lvl.tail != NONE then os[lvl.tail := os[lvl.tail].(next := idx)] else os;
    (os', lvl.(head := if lvl.tail != NONE then lvl.head else idx,
               tail := idx,
               total := Add32(lvl.total, orders[idx].qty),
               count := Add32(lvl.count, 1)))
  }

  /** Takes order `idx` out of its list, charging `lvl` for it. */
  function Unlink(orders: seq<Order>, lvl: Level, idx: nat): (r: (seq<Order>, Level))
    requires idx < |orders| && Link(orders[idx].prev, |orders|) && Link(orders[idx].next, |orders|)
    ensures |r.0| == |orders|
    ensures WfOrders(orders) ==> WfOrders(r.0)
    ensures WfLevel(lvl, |orders|) ==> WfLevel(r.1, |orders|)
  {
    var o := orders[idx];
    var os := if o.prev != NONE then orders[o.prev := orders[o.prev].(next := o.next)] else orders;
    var os' := if o.next != NONE then os[o.next := os[o.next].(prev := o.prev)] else os;
    (os', lvl.(head := if o.prev != NONE then lvl.head else o.next,
               tail := if o.next != NONE then lvl.tail else o.prev,
               total := Sub32(lvl.total, o.qty),
               count := Sub32(lvl.count, 1)))
  }

  // ----- Pieces of the handlers -----

  /** Pops a pool slot and clears its links. */
  function Alloc(b: Book): (r: Book)
    requires Wf(b) && b.free != []
    ensures Wf(r) && |r.orders| == |b.orders|
  {
    var idx := b.free[|b.free| - 1];
    b.(orders := b.orders[idx := b.orders[idx].(prev := NONE, next := NONE)], free := b.free[..|b.free| - 1])
  }

  /** Fills pool slot `idx`, appends it to level `k` of ladder `l` and indexes it. */
  function Enter(b: Book, idx: nat, ref: nat, side: Side, price: int, qty: nat, l: Ladder, k: nat): (r: Book)
    requires Wf(b) && idx < |b.orders| && qty < WORD32
    requires WfLadder(l, |b.orders|) && k < MAX_LEVELS
    ensures Wf(r) && |r.orders| == |b.orders|
  {
    var os := b.orders[idx := b.orders[idx].(id := ref, price := price, qty := qty, side := side, level := k)];
    var (os', lvl) := LinkTail(os, l.levels[k], idx);
    b.With(side, l.(levels := l.levels[k := lvl])).(orders := os', index := b.index[ref := idx])
  }

  /** Unlinks order `idx` from the level that it names and drops that level once its count is 0. */
  function Detach(b: Book, idx: nat): (r: Book)
    requires Wf(b) && idx < |b.orders|
    ensures Wf(r) && |r.orders| == |b.orders|
  {
    var o := b.orders[idx];
    var l := b.On(o.side);
    var (os, lvl) := Unlink(b.orders, l.levels[o.level], idx);
    var l' := l.(levels := l.levels[o.level := lvl]);
    b.With(o.side, if lvl.count == 0 then RemoveLevel(l', o.level) else l').(orders := os)
  }

  /** Drops the index entry of `ref` and gives pool slot `idx` back. */
  function Release(b: Book, ref: nat, idx: nat): (r: Book)
    requires Wf(b) && idx < |b.orders|
    ensures Wf(r) && |r.orders| == |b.orders|
  {
    b.(index := b.index - {ref}, free := b.free + [idx])
  }

  // ----- Handlers -----

  /** Puts the order in the allocated slot `idx`, or gives the slot back when its level can not be opened. */
  function Place(b: Book, idx: nat, ref: nat, side: Side, price: int, qty: nat): (r: Book)
    requires Wf(b) && idx < |b.orders| && qty < WORD32
    ensures Wf(r) && |r.orders| == |b.orders|
  {
    var l := b.On(side);
    var k := FindLevel(l, price);
    if k < l.depth then Enter(b, idx, ref, side, price, qty, l, k)
    else if l.depth == MAX_LEVELS then b.(free := b.free + [idx])
    else
      var pos := InsertPos(l, price, side);
      Enter(b, idx, ref, side, price, qty, InsertLevel(l, pos, price), pos)
  }

  function OnAdd(b: Book, ref: nat, side: Side, price: int, qty: nat): (r: Book)
    requires Wf(b) && qty < WORD32
    ensures Wf(r) && |r.orders| == |b.orders|
  {
    if b.free == [] then b else Place(Alloc(b), b.free[|b.free| - 1], ref, side, price, qty)
  }

  function OnDelete(b: Book, ref: nat): (r: Book)
    requires Wf(b)
    ensures Wf(r) && |r.orders| == |b.orders|
  {
    if ref !in b.index then b else Release(Detach(b, b.index[ref]), ref, b.index[ref])
  }

  /** The level total and the order lose `shares`, on 32 bits. */
  function Shrink(b: Book, idx: nat, shares: nat): (r: Book)
    requires Wf(b) && idx < |b.orders| && shares < WORD32
    ensures Wf(r) && |r.orders| == |b.orders|
  {
    var o := b.orders[idx];
    var l := b.On(o.side);
    var lvl := l.levels[o.level];
    b.With(o.side, l.(levels := l.levels[o.level := lvl.(total := Sub32(lvl.total, shares))]))
     .(orders := b.orders[idx := o.(qty := Sub32(o.qty, shares))])
  }

  /** Execution and cancellation. */
  function OnReduce(b: Book, ref: nat, shares: nat): (r: Book)
    requires Wf(b) && shares < WORD32
    ensures Wf(r) && |r.orders| == |b.orders|
  {
    if ref !in b.index then b
    else
      var idx := b.index[ref];
      var b1 := Shrink(b, idx, shares);
      if b1.orders[idx].qty == 0 then Release(Detach(b1, idx), ref, idx) else b1
  }

  /** A replace that keeps the price and does not raise the quantity. */
  predicate InPlace(o: Order, price: int, qty: nat) {
    price == o.price && qty <= o.qty
  }

  /** The order takes a new reference and quantity where it stands. */
  function Amend(b: Book, orig: nat, ref: nat, qty: nat): (r: Book)
    requires Wf(b) && orig in b.index && qty < WORD32
    ensures Wf(r) && |r.orders| == |b.orders|
  {
    var idx := b.index[orig];
    var o := b.orders[idx];
    var l := b.On(o.side);
    var lvl := l.levels[o.level];
    b.With(o.side, l.(levels := l.levels[o.level := lvl.(total := Add32(Sub32(lvl.total, o.qty), qty))]))
     .(orders := b.orders[idx := o.(qty := qty, id := ref)], index := (b.index - {orig})[ref := idx])
  }

  /**
   Replacement.  In place it is an amendment; otherwise it is a deletion of the original
   followed by an addition of the new order on the same side.
   */
  function OnReplace(b: Book, orig: nat, ref: nat, qty: nat, price: int): (r: Book)
    requires Wf(b) && qty < WORD32
    ensures Wf(r) && |r.orders| == |b.orders|
  {
    if orig !in b.index then b
    else
      var o := b.orders[b.index[orig]];
      if InPlace(o, price, qty) then Amend(b, orig, ref, qty)
      else OnAdd(OnDelete(b, orig), ref, o.side, price, qty)
  }

  // ----- Runs -----

  datatype Message =
    | Add(ref: nat, side: Side, price: int, qty: nat)
    | Reduce(ref: nat, shares: nat)
    | Delete(ref: nat)
    | Replace(orig: nat, ref: nat, qty: nat, price: int)

  /** Quantities are 32-bit words and no reference is the reserved key 0. */
  predicate WfMessage(m: Message) {
    match m
    case Add(ref, _, _, qty) => ref != 0 && qty < WORD32
    case Reduce(ref, shares) => ref != 0 && shares < WORD32
    case Delete(ref) => ref != 0
    case Replace(orig, ref, qty, _) => orig != 0 && ref != 0 && qty < WORD32
  }

  function Apply(b: Book, m: Message): (r: Book)
    requires Wf(b) && WfMessage(m)
    ensures Wf(r) && |r.orders| == |b.orders|
  {
    match m
    case Add(ref, side, price, qty) => OnAdd(b, ref, side, price, qty)
    case Reduce(ref, shares) => OnReduce(b, ref, shares)
    case Delete(ref) => OnDelete(b, ref)
    case Replace(orig, ref, qty, price) => OnReplace(b, orig, ref, qty, price)
  }

  function Run(b: Book, ms: seq<Message>): (r: Book)
    requires Wf(b) && forall i :: 0 <= i < |ms| ==> WfMessage(ms[i])
    ensures Wf(r) && |r.orders| == |b.orders|
  {
    if ms == [] then b else Apply(Run(b, ms[..|ms| - 1]), ms[|ms| - 1])
  }

  // ----- The initial book -----

  function Blanks(n: nat): (ls: seq<Level>)
    ensures |ls| == n && forall i :: 0 <= i < n ==> ls[i] == BLANK
  {
    if n == 0 then [] else Blanks(n - 1) + [BLANK]
  }

  function EmptyLadder(): (l: Ladder) {
    Ladder(Blanks(MAX_LEVELS), 0)
  }

  /** Slot 0 comes out first. */
  function InitialFree(n: nat): (f: seq<nat>)
    ensures |f| == n && forall i :: 0 <= i < n ==> f[i] == n - 1 - i
  {
    if n == 0 then [] else [n - 1] + InitialFree(n - 1)
  }

  /** The book over pool memory that may hold any orders whose indices and words are in range. */
  function Initial(orders: seq<Order>): (b: Book) {
    Book(EmptyLadder(), EmptyLadder(), orders, InitialFree(|orders|), map[])
  }
}
