/**
 The shard worker: the books of its symbols over the pool and the index that they share, updated
 in place message by message.
 */
module ShardWorkers {
  import opened BookModel
  import opened BookSafety
  import opened BookCharges
  import opened OrderIndex
  import opened OrderPools
  import opened Level2Books
  import opened Theorems = BookTheorems
  import opened ShardModel
  import opened ShardRange
  import opened ShardTheorems

  class ShardWorker {
    const id: nat
    const active: array<bool>
    const status: array<nat>
    const books: seq<Level2Book>
    const pool: OrderPool
    const index: OrderMap

    /** The parts of different books are different objects. */
    ghost predicate Separate(i: nat, j: nat)
      requires i < |books| && j < |books|
    {
      var b, c := books[i], books[j];
      b != c && b.bids != c.bids && b.bids != c.asks && b.asks != c.bids && b.asks != c.asks
    }

    ghost predicate WiredAt(i: nat)
      requires i < |books|
    {
      var b, s: object, a: object := books[i], status, active;
      && s != b.bids && s != b.asks && a != b.bids && a != b.asks
      && b.pool == pool && b.index == index && b.Apart()
      && b.bids.Length == b.asks.Length == MAX_LEVELS
    }

    /** How the worker is put together; nothing in it ever changes. */
    ghost predicate Wired() {
      && id < NUM_SHARDS && |books| == active.Length == status.Length == BOOKS_PER_SHARD
      && (var s: object := status; s != pool.freelist && s != pool.orders && s != index.table)
      && (var a: object := active; a != status && a != pool.freelist && a != pool.orders && a != index.table)
      && (forall i {:trigger WiredAt(i)} :: 0 <= i < |books| ==> WiredAt(i))
      && (forall i, j {:trigger Separate(i, j)} :: 0 <= i < |books| && 0 <= j < |books| && i != j ==> Separate(i, j))
    }

    /** Everything that belongs to the books alone. */
    ghost function Parts(): (s: set<object>) {
      (set i | 0 <= i < |books| :: books[i] as object)
      + (set i | 0 <= i < |books| :: books[i].bids as object)
      + (set i | 0 <= i < |books| :: books[i].asks as object)
    }

    ghost function SymbolAt(i: nat): (s: Symbol)
      requires i < |books| && i < status.Length
      reads status, Parts()
    {
      var b := books[i];
      Symbol(LocateAt(id, i), status[i], Ladder(b.bids[..], b.bidDepth), Ladder(b.asks[..], b.askDepth))
    }

    ghost function Symbols(n: nat): (s: seq<Symbol>)
      requires n <= |books| && n <= status.Length
      reads status, Parts()
      ensures |s| == n && forall i :: 0 <= i < n ==> s[i] == SymbolAt(i)
    {
      if n == 0 then [] else Symbols(n - 1) + [SymbolAt(n - 1)]
    }

    ghost function State(): (s: Shard)
      requires Wired() && pool.top <= pool.freelist.Length
      reads active, status, Parts(), pool, pool.orders, pool.freelist, index
    {
      Shard(id, active[..], Symbols(|books|), pool.orders[..], pool.Free(), index.contents)
    }

    ghost predicate Valid()
      reads active, status, Parts(), pool, pool.orders, pool.freelist, index, index.table
    {
      Wired() && pool.Valid() && index.Valid() && WfShard(State()) && SoundStore(State())
    }

    /** An index with more slots than the pool limit always has an empty one. */
    lemma IndexNeverFull() returns (i: nat)
      requires Valid() && POOL_LIMIT < index.table.Length
      ensures i < index.table.Length && index.table[i].key == Hashing.EMPTY_KEY
    {
      i := Hashing.SomeSlotEmpty(index.table[..], index.contents);
    }

    /** A pool of fewer than 65536 orders, and fewer than the index has slots. */
    ghost predicate SmallPool() {
      pool.orders.Length < index.table.Length && pool.orders.Length < Hashing.DIST_LIMIT
    }

    /** With a small pool, every run of all books keeps the room that the index needs. */
    lemma SmallPoolHasRoom()
      requires Valid() && SmallPool()
      ensures index.HasRoom()
    {
      Hashing.FewKeysRoomy(index.table[..], Home(index.bits), index.contents);
    }

    /** Takes over the books that stand on the given pool and index. */
    constructor (id: nat, pool: OrderPool, index: OrderMap, books: seq<Level2Book>)
      requires id < NUM_SHARDS && |books| == BOOKS_PER_SHARD && pool.Valid() && index.Valid()
      requires 0 < pool.orders.Length <= POOL_LIMIT && WfOrders(pool.orders[..])
      requires pool.Free() == InitialFree(pool.orders.Length) && index.contents == map[]
      requires forall i :: 0 <= i < |books| ==>
        && books[i].pool == pool && books[i].index == index && books[i].Apart()
        && books[i].bids[..] == Blanks(MAX_LEVELS) == books[i].asks[..]
        && books[i].bidDepth == 0 == books[i].askDepth
      requires forall i, j :: 0 <= i < |books| && 0 <= j < |books| && i != j ==>
        && books[i] != books[j] && books[i].bids != books[j].bids && books[i].bids != books[j].asks
        && books[i].asks != books[j].bids && books[i].asks != books[j].asks
      ensures Valid() && State() == NewShard(id, pool.orders[..])
      ensures this.pool == pool && this.index == index && this.books == books && fresh(active) && fresh(status)
    {
      this.id, this.pool, this.index, this.books := id, pool, index, books;
      active := new bool[BOOKS_PER_SHARD](_ => false);
      status := new nat[BOOKS_PER_SHARD](_ => HALTED);
      new;
      forall i | 0 <= i < |books| ensures WiredAt(i) {
        assert books[i].bids.Length == |books[i].bids[..]| && books[i].asks.Length == |books[i].asks[..]|;
      }
      forall i, j | 0 <= i < |books| && 0 <= j < |books| && i != j ensures Separate(i, j) {
      }
      assert active[..] == Inactive(BOOKS_PER_SHARD);
      assert Symbols(|books|) == FreshSymbols(id, BOOKS_PER_SHARD);
      NewShardWf(id, pool.orders[..]);
      NewStoreSound(pool.orders[..], State());
    }

    method ActivateBook(i: nat)
      requires Wired() && pool.Valid() && i < active.Length
      modifies active
      ensures State() == Activate(old(State()), i)
    {
      if !active[i] {
        active[i] := true;
      }
      assert Symbols(|books|) == old(Symbols(|books|));
    }

    /** One message on one book, seen from the others. */
    method ApplyAt(i: nat, msg: Message)
      requires Wired() && i < |books| && books[i].Usable() && index.HasRoom()
      requires WfMessage(msg) && InRange(books[i].State(), msg)
      modifies books[i], books[i].bids, books[i].asks, pool, pool.orders, pool.freelist, index, index.table
      ensures books[i].Usable() && books[i].State() == Apply(old(books[i].State()), msg)
      ensures status[..] == old(status[..])
      ensures forall j :: 0 <= j < |books| && j != i ==> SymbolAt(j) == old(SymbolAt(j))
    {
      assert WiredAt(i);
      HandleMessage(books[i], msg);
      forall j | 0 <= j < |books| && j != i ensures SymbolAt(j) == old(SymbolAt(j)) {
        assert Separate(j, i) && WiredAt(j);
        assert books[j].bids[..] == old(books[j].bids[..]) && books[j].asks[..] == old(books[j].asks[..]);
      }
    }

    ghost predicate Ready()
      reads pool, index, index.table
    {
      Wired() && pool.Valid() && index.Valid()
    }

    /** One message on one book, seen as a step of the shard, and the quotes after it. */
    method ApplyTo(i: nat, msg: Message) returns (bbo: Bbo)
      requires Ready() && i < |books| && Sound(BookAt(State(), i)) && index.HasRoom()
      requires WfMessage(msg) && InRange(BookAt(State(), i), msg)
      modifies books[i], books[i].bids, books[i].asks, pool, pool.orders, pool.freelist, index, index.table
      ensures Ready() && State() == WithBook(old(State()), i, Apply(BookAt(old(State()), i), msg))
      ensures bbo == GetBbo(Apply(BookAt(old(State()), i), msg))
    {
      assert WiredAt(i) && books[i].State() == BookAt(State(), i);
      ghost var s := State();
      ApplyAt(i, msg);
      assert State().active == s.active;
      OneBook(s, State(), i, books[i].State());
      bbo := books[i].Bbo();
    }

    method DeliverOrder(e: Event) returns (out: seq<Published>)
      requires Valid() && index.HasRoom() && WfEvent(e) && e.body.OrderFlow?
      requires InRange(BookAt(State(), e.locate / NUM_SHARDS), e.body.msg)
      modifies Parts(), pool, pool.orders, pool.freelist, index, index.table
      ensures Ready()
      ensures State() == Deliver(old(State()), e).0 && out == Deliver(old(State()), e).1
    {
      var i := e.locate / NUM_SHARDS;
      ghost var s := State();
      assert Wf(BookAt(s, i)) && Sound(BookAt(s, i));
      var bbo := ApplyTo(i, e.body.msg);
      out := [Published(e.locate, LocateAt(id, i), bbo, e.timestamp)];
      Delivered(s, e, State(), bbo, out);
    }

    /** Blanks one book, seen from the others. */
    method ClearBook(i: nat)
      requires Ready() && i < |books|
      modifies books[i], books[i].bids, books[i].asks, status
      ensures SymbolAt(i) == FreshSymbol(LocateAt(id, i))
      ensures forall j :: 0 <= j < |books| && j != i ==> SymbolAt(j) == old(SymbolAt(j))
    {
      assert WiredAt(i);
      books[i].Clear();
      status[i] := HALTED;
      assert books[i].State().bids == EmptyLadder() && books[i].State().asks == EmptyLadder();
      forall j | 0 <= j < |books| && j != i ensures SymbolAt(j) == old(SymbolAt(j)) {
        assert Separate(j, i) && WiredAt(j);
        assert books[j].bids[..] == old(books[j].bids[..]) && books[j].asks[..] == old(books[j].asks[..]);
      }
    }

    /** Blanks one book if it is active. */
    method ClearIfActive(i: nat)
      requires Ready() && i < |books|
      modifies books[i], books[i].bids, books[i].asks, active, status
      ensures Ready() && active[..] == old(active[..])[i := false] && pool.orders[..] == old(pool.orders[..])
      ensures Symbols(|books|) == old(Symbols(|books|))[i :=
                if old(active[i]) then FreshSymbol(LocateAt(id, i)) else old(SymbolAt(i))]
    {
      assert WiredAt(i);
      ghost var was := Symbols(|books|);
      if active[i] {
        ClearBook(i);
        active[i] := false;
        assert Symbols(|books|) == was[i := FreshSymbol(LocateAt(id, i))];
      }
    }

    /** The first `i` books are done, from the given flags and symbols. */
    ghost predicate ClearedTo(i: nat, was: seq<bool>, symbols: seq<Symbol>)
      requires Wired()
      reads active, status, Parts()
    {
      && i <= |books| == |was| == |symbols|
      && active[..] == Inactive(i) + was[i..] && Symbols(|books|) == Cleared(was, symbols, i) + symbols[i..]
    }

    method ClearNext(i: nat, ghost was: seq<bool>, ghost symbols: seq<Symbol>)
      requires Ready() && i < |books| && ClearedTo(i, was, symbols)
      modifies books[i], books[i].bids, books[i].asks, active, status
      ensures Ready() && ClearedTo(i + 1, was, symbols) && pool.orders[..] == old(pool.orders[..])
    {
      assert active[..][i] == was[i] && Symbols(|books|)[i] == symbols[i];
      ClearIfActive(i);
      ClearedOneMore(was, symbols, i, LocateAt(id, i));
    }

    /** Clears the active books only; the others are as constructed already. */
    method ClearAllBooks()
      requires Ready()
      modifies Parts(), active, status
      ensures Ready() && active[..] == Inactive(|books|) && pool.orders[..] == old(pool.orders[..])
      ensures Symbols(|books|) == Cleared(old(active[..]), old(Symbols(|books|)), |books|)
    {
      ghost var was, symbols := active[..], Symbols(|books|);
      for i := 0 to |books|
        invariant Ready() && ClearedTo(i, was, symbols) && pool.orders[..] == old(pool.orders[..])
      {
        ClearNext(i, was, symbols);
      }
    }

    /** Pool and index back to their initial state; no symbol is touched. */
    method ResetStore()
      requires Ready()
      modifies pool, pool.freelist, index, index.table
      ensures Ready() && pool.Free() == InitialFree(pool.orders.Length) && index.contents == map[]
      ensures forall j :: 0 <= j < |books| ==> SymbolAt(j) == old(SymbolAt(j))
    {
      pool.Reset();
      index.Reset();
      forall j | 0 <= j < |books| ensures SymbolAt(j) == old(SymbolAt(j)) {
        assert WiredAt(j);
        assert books[j].bids[..] == old(books[j].bids[..]) && books[j].asks[..] == old(books[j].asks[..]);
      }
    }

    method ResetSession()
      requires Ready()
      modifies Parts(), active, status, pool, pool.freelist, index, index.table
      ensures Ready() && State() == ResetShard(old(State()))
    {
      ghost var s := State();
      ClearAllBooks();
      ghost var symbols := Symbols(|books|);
      ResetStore();
      assert Symbols(|books|) == symbols;
      assert State() == ResetShard(s);
    }

    /** A trading action on an active book. */
    method SetStatus(i: nat, state: nat)
      requires Ready() && i < |books|
      modifies status
      ensures Ready()
      ensures State() == old(State()).(symbols := old(State()).symbols[i := old(State()).symbols[i].(status := state)])
    {
      status[i] := state;
      forall j | 0 <= j < |books| && j != i ensures SymbolAt(j) == old(SymbolAt(j)) {
        assert WiredAt(j);
      }
      assert WiredAt(i);
      assert State().symbols == old(State()).symbols[i := old(State()).symbols[i].(status := state)];
    }

    /** An addition to an inactive symbol activates it first. */
    method ActivateAndDeliver(e: Event) returns (out: seq<Published>)
      requires Valid() && index.HasRoom() && WfEvent(e) && e.body.OrderFlow? && e.session.Open?
      requires !active[e.locate / NUM_SHARDS] && e.body.msg.Add?
      modifies Parts(), active, pool, pool.orders, pool.freelist, index, index.table
      ensures Ready() && WfShard(Activate(old(State()), e.locate / NUM_SHARDS))
      ensures var r := Deliver(Activate(old(State()), e.locate / NUM_SHARDS), e); State() == r.0 && out == r.1
    {
      Activated(State(), e);
      ActivateBook(e.locate / NUM_SHARDS);
      out := DeliverOrder(e);
    }

    /** An order message in an open session. */
    method DeliverIfActive(e: Event) returns (out: seq<Published>)
      requires Valid() && WfEvent(e) && e.body.OrderFlow? && e.session.Open?
      requires Reaches(active[..], e) ==> index.HasRoom()
      requires EventInRange(State(), e)
      modifies Parts(), active, pool, pool.orders, pool.freelist, index, index.table
      ensures Ready()
      ensures State() == ShardModel.Dispatch(old(State()), e).0 && out == ShardModel.Dispatch(old(State()), e).1
    {
      ghost var r := ShardModel.Dispatch(State(), e);
      var i := e.locate / NUM_SHARDS;
      out := [];
      if active[i] {
        assert r == Deliver(State(), e);
        out := DeliverOrder(e);
      } else if e.body.msg.Add? {
        Activated(State(), e);
        out := ActivateAndDeliver(e);
      } else {
        assert r == (State(), []);
      }
      assert State() == r.0 && out == r.1;
    }

    method Dispatch(e: Event) returns (out: seq<Published>)
      requires Valid() && WfEvent(e) && EventInRange(State(), e)
      requires Reaches(active[..], e) ==> index.HasRoom()
      modifies Parts(), active, status, pool, pool.orders, pool.freelist, index, index.table
      ensures Valid()
      ensures State() == ShardModel.Dispatch(old(State()), e).0 && out == ShardModel.Dispatch(old(State()), e).1
    {
      DispatchSound(State(), e);
      var i := e.locate / NUM_SHARDS;
      out := [];
      match e.body {
        case SessionReset =>
          ResetSession();
        case StockDirectory =>
          if e.session.Open? {
            ActivateBook(i);
          } else if e.session.PreOpen? && e.warmup {
            ActivateBook(i);
          }
        case TradingAction(state) =>
          if active[i] {
            SetStatus(i, state);
          }
        case OrderFlow(_) =>
          if e.session.Open? {
            out := DeliverIfActive(e);
          }
        case Other =>
      }
    }

    /** The run `p` from shard `s` ends here, and has published `out`. */
    ghost predicate Reached(s: Shard, p: seq<Event>, out: seq<Published>)
      requires WfShard(s) && forall i :: 0 <= i < |p| ==> WfEvent(p[i])
      reads active, status, Parts(), pool, pool.orders, pool.freelist, index, index.table
    {
      Valid() && State() == RunShard(s, p).0 && out == RunShard(s, p).1
    }

    /** One message behind the messages `p`. */
    method Next(e: Event, soFar: seq<Published>, ghost s: Shard, ghost p: seq<Event>, ghost es: seq<Event>)
      returns (out: seq<Published>)
      requires WfShard(s) && (forall i :: 0 <= i < |p| ==> WfEvent(p[i])) && WfEvent(e)
      requires SmallPool() && es == p + [e] && RunInRange(s, es) && Reached(s, p, soFar)
      modifies Parts(), active, status, pool, pool.orders, pool.freelist, index, index.table
      ensures Reached(s, es, out)
    {
      SmallPoolHasRoom();
      LastEvent(s, es, p, e);
      out := Dispatch(e);
      out := soFar + out;
    }

    /** Message `i` of the run `es`. */
    method Take(es: seq<Event>, i: nat, soFar: seq<Published>, ghost s: Shard) returns (out: seq<Published>)
      requires WfShard(s) && (forall k :: 0 <= k < |es| ==> WfEvent(es[k])) && i < |es|
      requires SmallPool() && RunInRange(s, es) && Reached(s, es[..i], soFar)
      modifies Parts(), active, status, pool, pool.orders, pool.freelist, index, index.table
      ensures Reached(s, es[..i + 1], out)
    {
      OneLonger(es, i);
      RangeOfPrefix(s, es, i + 1);
      out := Next(es[i], soFar, s, es[..i], es[..i + 1]);
    }

    /** Message after message from the queue. */
    method Run(es: seq<Event>) returns (out: seq<Published>)
      requires Valid() && SmallPool() && (forall i :: 0 <= i < |es| ==> WfEvent(es[i])) && RunInRange(State(), es)
      modifies Parts(), active, status, pool, pool.orders, pool.freelist, index, index.table
      ensures Reached(old(State()), es, out)
    {
      ghost var s := State();
      out := [];
      for i := 0 to |es|
        invariant Reached(s, es[..i], out)
      {
        out := Take(es, i, out, s);
      }
      assert es[..|es|] == es;
    }
  }

  lemma OneLonger(es: seq<Event>, i: nat)
    requires i < |es|
    ensures es[..i + 1] == es[..i] + [es[i]]
  {
  }

  lemma {:induction false} RangeOfPrefix(s: Shard, es: seq<Event>, i: nat)
    requires WfShard(s) && (forall k :: 0 <= k < |es| ==> WfEvent(es[k])) && i <= |es| && RunInRange(s, es)
    ensures RunInRange(s, es[..i])
  {
    var n := |es| - 1;
    if i <= n {
      RangeOfPrefix(s, es[..n], i);
      assert es[..n][..i] == es[..i];
    } else {
      assert es[..i] == es;
    }
  }

  /** The last event of a run, which removes no level that is not in use. */
  lemma LastEvent(s: Shard, es: seq<Event>, p: seq<Event>, e: Event)
    requires WfShard(s) && (forall k :: 0 <= k < |p| ==> WfEvent(p[k])) && WfEvent(e) && es == p + [e]
    ensures var t := RunShard(s, p);
            && RunShard(s, es) == (Dispatch(t.0, e).0, t.1 + Dispatch(t.0, e).1)
            && (RunInRange(s, es) ==> EventInRange(t.0, e))
  {
    assert es[..|es| - 1] == p && es[|es| - 1] == e;
  }

  /** An addition to an inactive symbol is delivered to the activated one. */
  lemma Activated(s: Shard, e: Event)
    requires WfShard(s) && SoundStore(s) && WfEvent(e) && e.body.OrderFlow? && e.session.Open?
    requires !s.active[e.locate / NUM_SHARDS] && e.body.msg.Add?
    ensures var i := e.locate / NUM_SHARDS;
            var t := Activate(s, i);
            && WfShard(t) && SoundStore(t) && BookAt(t, i) == BookAt(s, i)
            && Dispatch(s, e) == Deliver(t, e)
  {
    SameBooksWf(s, Activate(s, e.locate / NUM_SHARDS));
  }

  lemma ClearedOneMore(active: seq<bool>, symbols: seq<Symbol>, i: nat, locate: nat)
    requires i < |active| == |symbols| && symbols[i].locate == locate
    ensures (Inactive(i) + active[i..])[i := false] == Inactive(i + 1) + active[i + 1..]
    ensures (Cleared(active, symbols, i) + symbols[i..])[i := if active[i] then FreshSymbol(locate) else symbols[i]]
         == Cleared(active, symbols, i + 1) + symbols[i + 1..]
  {
  }

  lemma Delivered(s: Shard, e: Event, t: Shard, bbo: Bbo, out: seq<Published>)
    requires WfShard(s) && WfEvent(e) && e.body.OrderFlow?
    requires var i := e.locate / NUM_SHARDS;
             && t == WithBook(s, i, Apply(BookAt(s, i), e.body.msg)) && bbo == GetBbo(Apply(BookAt(s, i), e.body.msg))
             && out == [Published(e.locate, s.symbols[i].locate, bbo, e.timestamp)]
    ensures t == Deliver(s, e).0 && out == Deliver(s, e).1
  {
  }

  /** A change of one book, seen as a change of the shard. */
  lemma OneBook(s: Shard, t: Shard, i: nat, b: Book)
    requires i < |s.symbols| == |t.symbols| && t.id == s.id && t.active == s.active
    requires forall j :: 0 <= j < |s.symbols| && j != i ==> t.symbols[j] == s.symbols[j]
    requires t.symbols[i] == s.symbols[i].(bids := b.bids, asks := b.asks)
    requires t.orders == b.orders && t.free == b.free && t.index == b.index
    ensures t == WithBook(s, i, b)
  {
    assert t.symbols == WithBook(s, i, b).symbols;
  }

  /** The handler that the message asks for. */
  method HandleMessage(b: Level2Book, msg: Message)
    requires b.Usable() && b.index.HasRoom() && WfMessage(msg) && InRange(b.State(), msg)
    modifies b, b.bids, b.asks, b.pool, b.pool.orders, b.pool.freelist, b.index, b.index.table
    ensures b.Usable() && b.State() == Apply(old(b.State()), msg)
  {
    match msg {
      case Add(ref, side, price, qty) => b.OnAdd(ref, side, price, qty);
      case Reduce(ref, shares) => b.OnReduce(ref, shares);
      case Delete(ref) => b.OnDelete(ref);
      case Replace(orig, ref, qty, price) => b.OnReplace(orig, ref, qty, price);
    }
  }
}
