/**
 From the feed to the books: which shards a message goes to, which book it acts on there, and what a
 symbol's activity and trading status are after a feed, read off the list of messages alone.

 An order message goes to the shard of its locate code; directory messages, trading actions and
 resets go to all shards.  Every shard takes the locate code to be one of its own, so a message that
 all shards receive acts on eight books.
 */
module ShardRouting {
  import opened BookModel
  import opened ShardModel
  import opened ShardReset

  // ----- Which shard, which book -----

  /** Of the messages that no book acts on, it does not matter which shards they go to. */
  predicate GoesTo(e: Event, id: nat) {
    e.body.OrderFlow? ==> e.locate % NUM_SHARDS == id
  }

  /** The part of a feed that a shard receives. */
  function Received(es: seq<Event>, id: nat): (r: seq<Event>)
    ensures forall i :: 0 <= i < |r| ==> r[i] in es && GoesTo(r[i], id)
  {
    if es == [] then []
    else Received(es[..|es| - 1], id) + if GoesTo(es[|es| - 1], id) then [es[|es| - 1]] else []
  }

  /** An order message of a feed is received by one shard; a directory message, a trading action or a reset by all eight. */
  lemma {:induction false} ReceivedBy(es: seq<Event>, e: Event, id: nat)
    requires id < 8 && !e.body.Other?
    ensures e in Received(es, id) <==> e in es && (e.body.OrderFlow? ==> e.locate % 8 == id)
  {
    if es != [] {
      ReceivedBy(es[..|es| - 1], e, id);
      assert es == es[..|es| - 1] + [es[|es| - 1]];
    }
  }

  /** The locate codes of a shard, those that agree modulo 8, have a book each. */
  lemma OneBookEach(a: nat, b: nat)
    requires a < 65536 && b < 65536 && a % 8 == b % 8
    ensures a / NUM_SHARDS < BOOKS_PER_SHARD
    ensures a / NUM_SHARDS == b / NUM_SHARDS ==> a == b
  {
  }

  ghost predicate WfFeed(es: seq<Event>) {
    forall i :: 0 <= i < |es| ==> WfEvent(es[i])
  }

  /** A new shard after its part of a feed. */
  ghost function ShardAfter(id: nat, orders: seq<Order>, es: seq<Event>): (s: Shard)
    requires WfShard(NewShard(id, orders)) && WfFeed(es)
    ensures WfShard(s)
  {
    RunShard(NewShard(id, orders), Received(es, id)).0
  }

  /** After every feed, a book says the locate code of the messages that its shard is for. */
  lemma BookOfLocate(orders: seq<Order>, es: seq<Event>, locate: nat)
    requires locate < 65536 && WfShard(NewShard(locate % 8, orders)) && WfFeed(es)
    ensures ShardAfter(locate % 8, orders, es).symbols[locate / NUM_SHARDS].locate == locate
    ensures Idle(ShardAfter(locate % 8, orders, es))
  {
    RunIdle(NewShard(locate % 8, orders), Received(es, locate % 8));
  }

  // ----- Activity and trading status -----

  /**
   A directory message activates all eight symbols around its locate code; an added order activates
   its own.
   */
  predicate Activates(e: Event, locate: nat) {
    match e.body
    case StockDirectory => e.locate / 8 == locate / 8 && (e.session == Open || (e.session == PreOpen && e.warmup))
    case OrderFlow(msg) => e.locate == locate && msg.Add? && e.session == Open
    case _ => false
  }

  /** Some message since the last reset activates the symbol. */
  predicate ActiveAfter(es: seq<Event>, locate: nat) {
    es != [] &&
    var p, e := es[..|es| - 1], es[|es| - 1];
    !e.body.SessionReset? && (Activates(e, locate) || ActiveAfter(p, locate))
  }

  /**
   The state of the last trading action since the last reset, for any of the eight symbols around the
   locate code, that finds the symbol active; 'H' without one.
   */
  function StatusAfter(es: seq<Event>, locate: nat): (status: nat) {
    if es == [] || es[|es| - 1].body.SessionReset? then 72
    else
      var p, e := es[..|es| - 1], es[|es| - 1];
      if e.body.TradingAction? && e.locate / 8 == locate / 8 && ActiveAfter(p, locate) then e.body.state
      else StatusAfter(p, locate)
  }

  ghost predicate SymbolKnown(s: Shard, es: seq<Event>, locate: nat)
    requires locate < 65536 && |s.active| == |s.symbols| == BOOKS_PER_SHARD
  {
    var i := locate / NUM_SHARDS;
    s.active[i] == ActiveAfter(es, locate) && s.symbols[i].status == StatusAfter(es, locate)
  }

  lemma EventKnown(s: Shard, p: seq<Event>, e: Event, es: seq<Event>, locate: nat)
    requires WfShard(s) && Idle(s) && WfEvent(e) && es == p + [e]
    requires locate < 65536 && SymbolKnown(s, p, locate)
    ensures GoesTo(e, locate % 8) ==> SymbolKnown(Dispatch(s, e).0, es, locate)
    ensures !GoesTo(e, locate % 8) ==> SymbolKnown(s, es, locate)
  {
    assert es[..|es| - 1] == p && es[|es| - 1] == e;
  }

  /** After every feed, each symbol in its shard is active and has the trading status that the messages say. */
  lemma EverySymbolKnown(orders: seq<Order>, es: seq<Event>, locate: nat)
    requires locate < 65536 && WfShard(NewShard(locate % 8, orders)) && WfFeed(es)
    ensures SymbolKnown(ShardAfter(locate % 8, orders, es), es, locate)
  {
    FeedKnown(locate % 8, orders, es, locate, ShardAfter(locate % 8, orders, es));
  }

  lemma {:induction false} FeedKnown(id: nat, orders: seq<Order>, es: seq<Event>, locate: nat, s: Shard)
    requires locate < 65536 && id == locate % 8 && WfShard(NewShard(id, orders)) && WfFeed(es)
    requires s == ShardAfter(id, orders, es)
    ensures SymbolKnown(s, es, locate)
  {
    if es == [] {
      NewKnown(id, orders, locate, s);
    } else {
      var p, e := Apart(es);
      var r := ShardAfter(id, orders, p);
      FeedKnown(id, orders, p, locate, r);
      BookOfLocate(orders, p, locate);
      ReceivedNext(orders, p, e, es, id);
      EventKnown(r, p, e, es, locate);
    }
  }

  /** A feed and its last message. */
  lemma Apart(es: seq<Event>) returns (p: seq<Event>, e: Event)
    requires es != [] && WfFeed(es)
    ensures es == p + [e] && WfFeed(p) && WfEvent(e)
  {
    p, e := es[..|es| - 1], es[|es| - 1];
  }

  lemma NewKnown(id: nat, orders: seq<Order>, locate: nat, s: Shard)
    requires locate < 65536 && id == locate % 8 && s == NewShard(id, orders)
    ensures SymbolKnown(s, [], locate)
  {
    assert s.symbols[locate / NUM_SHARDS] == FreshSymbol(LocateAt(id, locate / NUM_SHARDS));
  }

  lemma ReceivedNext(orders: seq<Order>, p: seq<Event>, e: Event, es: seq<Event>, id: nat)
    requires WfShard(NewShard(id, orders)) && WfFeed(es) && WfFeed(p) && WfEvent(e) && es == p + [e]
    ensures ShardAfter(id, orders, es)
         == if GoesTo(e, id) then Dispatch(ShardAfter(id, orders, p), e).0 else ShardAfter(id, orders, p)
  {
    assert es[..|es| - 1] == p;
    var r := Received(p, id);
    assert (r + [e])[..|r|] == r;
    assert r + [] == r;
  }

  /**
   A message publishes one pair of quotes, under its own locate code and time, if it is an order
   message in an open session for a symbol that is active by then or that it adds to; nothing otherwise.
   */
  lemma PublishesIff(orders: seq<Order>, es: seq<Event>, e: Event)
    requires WfEvent(e) && WfShard(NewShard(e.locate % 8, orders)) && WfFeed(es)
    ensures var out := Dispatch(ShardAfter(e.locate % 8, orders, es), e).1;
            && |out| == (if e.body.OrderFlow? && e.session == Open && (e.body.msg.Add? || ActiveAfter(es, e.locate)) then 1 else 0)
            && forall k :: 0 <= k < |out| ==>
                 out[k].locate == e.locate && out[k].slot == e.locate && out[k].timestamp == e.timestamp
  {
    BookOfLocate(orders, es, e.locate);
    EverySymbolKnown(orders, es, e.locate);
  }

  // ----- Own messages -----

  /** The trading status of a symbol after a feed. */
  ghost function Status(orders: seq<Order>, es: seq<Event>, locate: nat): (status: nat)
    requires locate < 65536 && WfShard(NewShard(locate % 8, orders)) && WfFeed(es)
  {
    ShardAfter(locate % 8, orders, es).symbols[locate / NUM_SHARDS].status
  }

  /** The resets of a feed, and the messages that name the symbol. */
  function Own(es: seq<Event>, locate: nat): (r: seq<Event>)
    ensures forall i :: 0 <= i < |r| ==> r[i] in es
  {
    if es == [] then []
    else
      var e := es[|es| - 1];
      Own(es[..|es| - 1], locate) + if e.body.SessionReset? || e.locate == locate then [e] else []
  }

  /** The feed names only these symbols. */
  ghost predicate Names(es: seq<Event>, used: set<nat>) {
    forall i :: 0 <= i < |es| ==> es[i].body.SessionReset? || es[i].locate in used
  }

  /** With these symbols in use, whatever the feed, each has the trading status that its own messages give it. */
  ghost predicate OwnStatusOnly(used: set<nat>, orders: seq<Order>)
    requires forall id :: 0 <= id < 8 ==> WfShard(NewShard(id, orders))
  {
    forall es: seq<Event>, locate: nat {:trigger Status(orders, es, locate)} ::
      WfFeed(es) && Names(es, used) && locate in used && locate < 65536 ==>
        Status(orders, es, locate) == Status(orders, Own(es, locate), locate)
  }

  lemma {:induction false} OwnIsAll(es: seq<Event>, used: set<nat>, locate: nat)
    requires Names(es, used) && locate in used
    requires forall a :: a in used && a / 8 == locate / 8 ==> a == locate
    ensures ActiveAfter(Own(es, locate), locate) == ActiveAfter(es, locate)
    ensures StatusAfter(Own(es, locate), locate) == StatusAfter(es, locate)
  {
    if es != [] {
      var p, e := es[..|es| - 1], es[|es| - 1];
      OwnIsAll(p, used, locate);
      var r := Own(p, locate);
      assert (r + [e])[..|r|] == r;
      assert r + [] == r;
    }
  }

  /** A directory message and then a trading action for one symbol set the status of its seven neighbours. */
  lemma NeighbourSet(orders: seq<Order>, a: nat, b: nat, state: nat)
    requires a < 65536 && b < 65536 && a / 8 == b / 8 && WfShard(NewShard(b % 8, orders))
    ensures var es := [Event(a, 0, StockDirectory, Open, false), Event(a, 0, TradingAction(state), Open, false)];
            WfFeed(es) && Status(orders, es, b) == state
  {
    var d, t := Event(a, 0, StockDirectory, Open, false), Event(a, 0, TradingAction(state), Open, false);
    EverySymbolKnown(orders, [d, t], b);
    assert [d, t][..1] == [d];
    assert ActiveAfter([d], b);
  }

  lemma NothingOwn(orders: seq<Order>, es: seq<Event>, b: nat)
    requires b < 65536 && WfShard(NewShard(b % 8, orders)) && WfFeed(es) && |es| == 2
    requires forall i :: 0 <= i < 2 ==> es[i].locate != b && !es[i].body.SessionReset?
    ensures Own(es, b) == [] && Status(orders, [], b) == 72
  {
    assert Own(es[..1], b) == Own(es[..1][..0], b) + [];
    EverySymbolKnown(orders, [], b);
  }

  /** That holds if and only if no two of the symbols in use share their locate code divided by 8. */
  lemma OwnStatusIff(used: set<nat>, orders: seq<Order>)
    requires forall id :: 0 <= id < 8 ==> WfShard(NewShard(id, orders))
    requires forall a :: a in used ==> a < 65536
    ensures OwnStatusOnly(used, orders) <==> forall a, b :: a in used && b in used && a / 8 == b / 8 ==> a == b
  {
    if a, b :| a in used && b in used && a / 8 == b / 8 && a != b {
      var es := [Event(a, 0, StockDirectory, Open, false), Event(a, 0, TradingAction(84), Open, false)];
      NeighbourSet(orders, a, b, 84);
      NothingOwn(orders, es, b);
    } else {
      forall es: seq<Event>, locate: nat | WfFeed(es) && Names(es, used) && locate in used && locate < 65536
        ensures Status(orders, es, locate) == Status(orders, Own(es, locate), locate)
      {
        OwnSuffices(used, orders, es, locate);
      }
    }
  }

  lemma OwnSuffices(used: set<nat>, orders: seq<Order>, es: seq<Event>, locate: nat)
    requires locate < 65536 && WfShard(NewShard(locate % 8, orders)) && WfFeed(es) && Names(es, used) && locate in used
    requires forall a :: a in used && a / 8 == locate / 8 ==> a == locate
    ensures Status(orders, es, locate) == Status(orders, Own(es, locate), locate)
  {
    OwnIsAll(es, used, locate);
    EverySymbolKnown(orders, es, locate);
    EverySymbolKnown(orders, Own(es, locate), locate);
  }
}
