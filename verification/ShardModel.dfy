/**
 One shard: the books of its symbols over one pool and one index, the messages they receive, and
 the quotes they publish.
 */
module ShardModel {
  import opened BookModel
  import opened Theorems = BookTheorems

  const NUM_SHARDS: nat := 8
  const MAX_LOCATE: nat := 65536
  const BOOKS_PER_SHARD: nat := 8192
  /** `TradingStatus::Halted`. */
  const HALTED: nat := 72

  datatype Symbol = Symbol(locate: nat, status: nat, bids: Ladder, asks: Ladder)

  datatype Shard = Shard(id: nat, active: seq<bool>, symbols: seq<Symbol>,
                         orders: seq<Order>, free: seq<nat>, index: map<nat, nat>)

  /** A book as it is constructed, and as clearing leaves it. */
  function FreshSymbol(locate: nat): (s: Symbol) {
    Symbol(locate, HALTED, EmptyLadder(), EmptyLadder())
  }

  function LocateAt(id: nat, i: nat): (l: nat) {
    i * NUM_SHARDS + id
  }

  function BookAt(s: Shard, i: nat): (b: Book)
    requires i < |s.symbols|
  {
    Book(s.symbols[i].bids, s.symbols[i].asks, s.orders, s.free, s.index)
  }

  /** The shard with the book at `i` and the store that `b` says. */
  function WithBook(s: Shard, i: nat, b: Book): (r: Shard)
    requires i < |s.symbols|
  {
    s.(symbols := s.symbols[i := s.symbols[i].(bids := b.bids, asks := b.asks)],
       orders := b.orders, free := b.free, index := b.index)
  }

  ghost predicate WfShard(s: Shard) {
    && s.id < NUM_SHARDS
    && |s.active| == |s.symbols| == BOOKS_PER_SHARD
    && forall i :: 0 <= i < BOOKS_PER_SHARD ==> Wf(BookAt(s, i))
  }

  lemma WithBookWf(s: Shard, i: nat, b: Book)
    requires WfShard(s) && i < BOOKS_PER_SHARD && Wf(b) && |b.orders| == |s.orders|
    ensures WfShard(WithBook(s, i, b))
  {
    var t := WithBook(s, i, b);
    forall j | 0 <= j < BOOKS_PER_SHARD ensures Wf(BookAt(t, j)) {
      assert Wf(BookAt(s, j));
    }
  }

  lemma SameBooksWf(s: Shard, t: Shard)
    requires WfShard(s) && t.id == s.id && |t.active| == |t.symbols| == BOOKS_PER_SHARD
    requires forall i :: 0 <= i < BOOKS_PER_SHARD ==> BookAt(t, i) == BookAt(s, i)
    ensures WfShard(t)
  {
  }

  lemma ResetWf(s: Shard)
    requires WfShard(s)
    ensures WfShard(ResetShard(s))
  {
    var t := ResetShard(s);
    forall i | 0 <= i < BOOKS_PER_SHARD ensures Wf(BookAt(t, i)) {
      assert Wf(BookAt(s, i));
    }
  }

  lemma NewShardWf(id: nat, orders: seq<Order>)
    requires id < NUM_SHARDS && |orders| < NONE && WfOrders(orders)
    ensures WfShard(NewShard(id, orders))
  {
    var s := NewShard(id, orders);
    forall i | 0 <= i < BOOKS_PER_SHARD ensures Wf(BookAt(s, i)) {
      assert s.symbols[i] == FreshSymbol(LocateAt(id, i));
    }
  }

  // ----- Messages -----

  datatype Session = Unknown | PreOpen | Open | Closed

  datatype Body =
    | SessionReset
    | StockDirectory
    | TradingAction(state: nat)
    | OrderFlow(msg: Message)
    | Other

  /** A message with the session state and the watch-list bit that the worker reads for it. */
  datatype Event = Event(locate: nat, timestamp: nat, body: Body, session: Session, warmup: bool)

  predicate WfEvent(e: Event) {
    e.locate < MAX_LOCATE && (e.body.OrderFlow? ==> WfMessage(e.body.msg))
  }

  /** What goes to the publisher: the slot, the symbol of the book, its quotes and their time. */
  datatype Published = Published(slot: nat, locate: nat, bbo: Bbo, timestamp: nat)

  // ----- Dispatch -----

  function Cleared(active: seq<bool>, symbols: seq<Symbol>, n: nat): (r: seq<Symbol>)
    requires n <= |active| == |symbols|
    ensures |r| == n
    ensures forall i :: 0 <= i < n ==>
      r[i] == if active[i] then FreshSymbol(symbols[i].locate) else symbols[i]
  {
    if n == 0 then []
    else Cleared(active, symbols, n - 1)
         + [if active[n - 1] then FreshSymbol(symbols[n - 1].locate) else symbols[n - 1]]
  }

  function Inactive(n: nat): (r: seq<bool>)
    ensures |r| == n && forall i :: 0 <= i < n ==> !r[i]
  {
    if n == 0 then [] else Inactive(n - 1) + [false]
  }

  /** Clears the active books and rebuilds pool and index; pool memory keeps what it holds. */
  function ResetShard(s: Shard): (r: Shard)
    requires |s.active| == |s.symbols|
  {
    Shard(s.id, Inactive(|s.active|), Cleared(s.active, s.symbols, |s.active|),
          s.orders, InitialFree(|s.orders|), map[])
  }

  function Activate(s: Shard, i: nat): (r: Shard)
    requires i < |s.active|
  {
    s.(active := s.active[i := true])
  }

  function Deliver(s: Shard, e: Event): (r: (Shard, seq<Published>))
    requires WfShard(s) && WfEvent(e) && e.body.OrderFlow?
    ensures WfShard(r.0) && |r.0.orders| == |s.orders| && r.0.id == s.id
  {
    var i := e.locate / NUM_SHARDS;
    assert i < BOOKS_PER_SHARD;
    var b := Apply(BookAt(s, i), e.body.msg);
    WithBookWf(s, i, b);
    (WithBook(s, i, b), [Published(e.locate, s.symbols[i].locate, GetBbo(b), e.timestamp)])
  }

  function Dispatch(s: Shard, e: Event): (r: (Shard, seq<Published>))
    requires WfShard(s) && WfEvent(e)
    ensures WfShard(r.0) && |r.0.orders| == |s.orders| && r.0.id == s.id
  {
    var i := e.locate / NUM_SHARDS;
    match e.body
    case SessionReset =>
      ResetWf(s);
      (ResetShard(s), [])
    case StockDirectory =>
      SameBooksWf(s, Activate(s, i));
      if e.session.Open? || (e.session.PreOpen? && e.warmup) then (Activate(s, i), []) else (s, [])
    case TradingAction(state) =>
      var t := s.(symbols := s.symbols[i := s.symbols[i].(status := state)]);
      SameBooksWf(s, t);
      if s.active[i] then (t, []) else (s, [])
    case OrderFlow(msg) =>
      if !e.session.Open? then (s, [])
      else if s.active[i] then Deliver(s, e)
      else if msg.Add? then
        var t := Activate(s, i);
        SameBooksWf(s, t);
        Deliver(t, e)
      else (s, [])
    case Other => (s, [])
  }

  /** All the books of a new worker, over pool memory that may hold any well-formed orders. */
  function NewShard(id: nat, orders: seq<Order>): (s: Shard) {
    Shard(id, Inactive(BOOKS_PER_SHARD), FreshSymbols(id, BOOKS_PER_SHARD),
          orders, InitialFree(|orders|), map[])
  }

  function FreshSymbols(id: nat, n: nat): (r: seq<Symbol>)
    ensures |r| == n && forall i :: 0 <= i < n ==> r[i] == FreshSymbol(LocateAt(id, i))
  {
    if n == 0 then [] else FreshSymbols(id, n - 1) + [FreshSymbol(LocateAt(id, n - 1))]
  }

  /** A run, with everything it publishes. */
  function RunShard(s: Shard, es: seq<Event>): (r: (Shard, seq<Published>))
    requires WfShard(s) && forall i :: 0 <= i < |es| ==> WfEvent(es[i])
    ensures WfShard(r.0) && |r.0.orders| == |s.orders| && r.0.id == s.id
  {
    if es == [] then (s, [])
    else
      var (t, out) := RunShard(s, es[..|es| - 1]);
      var (u, o) := Dispatch(t, es[|es| - 1]);
      (u, out + o)
  }
}
