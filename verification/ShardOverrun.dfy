/**
 What the bound on the events between resets keeps out.  One book adds an order and another book of
 the shard deletes it, again and again: each deletion charges a level that the second book does not
 use, until its count comes round to zero and the level is removed from an empty ladder.
 */
module ShardOverrun {
  import opened Words
  import opened BookModel
  import opened BookCharges
  import opened ShardModel
  import opened ShardRange

  const PRICE: int := 1000000

  /** The adding book is the first of the shard, the deleting one the second. */
  function Opens(id: nat): (e: Event) {
    Event(LocateAt(id, 1), 0, StockDirectory, Open, false)
  }

  function Adds(id: nat): (e: Event) {
    Event(LocateAt(id, 0), 0, OrderFlow(Add(1, Buy, PRICE, 1)), Open, false)
  }

  function Deletes(id: nat): (e: Event) {
    Event(LocateAt(id, 1), 0, OrderFlow(Delete(1)), Open, false)
  }

  /** The second book is opened, and `n` times an order is added to the first and deleted from the second. */
  function Turns(id: nat, n: nat): (es: seq<Event>)
    requires id < NUM_SHARDS
    ensures forall i :: 0 <= i < |es| ==> WfEvent(es[i])
  {
    if n == 0 then [Opens(id)] else Turns(id, n - 1) + [Adds(id)] + [Deletes(id)]
  }

  // ----- The two books -----

  /** The only ladder that the turns touch: nothing yet, or one level at the price of the turns. */
  ghost predicate Adding(l: Ladder) {
    l.depth == 0 || (l.depth == 1 && |l.levels| > 0 && l.levels[0].price == PRICE)
  }

  lemma AddTurn(b: Book)
    requires Wf(b) && b.free != [] && b.index == map[] && Adding(b.bids)
    ensures var c, idx := OnAdd(b, 1, Buy, PRICE, 1), b.free[|b.free| - 1];
            && Adding(c.bids) && idx < |c.orders| && c.index == map[1 := idx] && c.free == b.free[..|b.free| - 1]
            && c.orders[idx].side == Buy && c.orders[idx].level == 0
  {
  }

  /** An empty ladder whose first level was charged `n` times. */
  ghost predicate Emptied(l: Ladder, n: nat) {
    l.depth == 0 && |l.levels| > 0 && l.levels[0].count == (WORD32 - n) % WORD32
  }

  lemma DeleteTurn(b: Book, idx: nat, n: nat)
    requires Wf(b) && b.index == map[1 := idx] && Emptied(b.bids, n) && n < WORD32
    requires idx < |b.orders| && b.orders[idx].side == Buy && b.orders[idx].level == 0
    ensures InRange(b, Delete(1)) <==> n + 1 < WORD32
    ensures var c := OnDelete(b, 1);
            c.index == map[] && c.free == b.free + [idx] && (n + 1 < WORD32 ==> Emptied(c.bids, n + 1))
  {
    assert WfLevel(b.bids.levels[0], |b.orders|);
  }

  // ----- The turns -----

  ghost predicate Turned(s: Shard, n: nat) {
    && WfShard(s) && s.index == map[] && s.free != [] && s.active[1]
    && Adding(s.symbols[0].bids) && Emptied(s.symbols[1].bids, n)
  }

  lemma AddTurned(s: Shard, n: nat)
    requires Turned(s, n)
    ensures var a, idx := Dispatch(s, Adds(s.id)).0, s.free[|s.free| - 1];
            && EventInRange(s, Adds(s.id)) && a.active[1] && idx < |a.orders| && a.index == map[1 := idx]
            && a.orders[idx].side == Buy && a.orders[idx].level == 0
            && Adding(a.symbols[0].bids) && a.symbols[1] == s.symbols[1]
  {
    var i := 0;
    AddDispatched(s, i);
    AddTurn(BookAt(s, i));
  }

  lemma AddDispatched(s: Shard, i: nat)
    requires WfShard(s) && i == 0
    ensures Wf(BookAt(s, i)) && EventInRange(s, Adds(s.id))
    ensures Dispatch(s, Adds(s.id)).0 == WithBook(Activate(s, i), i, OnAdd(BookAt(s, i), 1, Buy, PRICE, 1))
  {
    assert s.active[0] ==> Activate(s, 0) == s;
  }

  lemma DeleteTurned(a: Shard, idx: nat, n: nat)
    requires WfShard(a) && a.active[1] && idx < |a.orders| && a.index == map[1 := idx] && n < WORD32
    requires a.orders[idx].side == Buy && a.orders[idx].level == 0
    requires Adding(a.symbols[0].bids) && Emptied(a.symbols[1].bids, n)
    ensures EventInRange(a, Deletes(a.id)) <==> n + 1 < WORD32
    ensures n + 1 < WORD32 ==> Turned(Dispatch(a, Deletes(a.id)).0, n + 1)
  {
    assert Wf(BookAt(a, 1));
    DeleteTurn(BookAt(a, 1), idx, n);
  }

  /** One addition and one deletion: the deletion stays inside the ladder except the 2^32-th time. */
  lemma OneTurn(s: Shard, n: nat)
    requires Turned(s, n) && n < WORD32
    ensures var a := Dispatch(s, Adds(s.id)).0;
            && EventInRange(s, Adds(s.id)) && (EventInRange(a, Deletes(s.id)) <==> n + 1 < WORD32)
            && (n + 1 < WORD32 ==> Turned(Dispatch(a, Deletes(s.id)).0, n + 1))
  {
    AddTurned(s, n);
    DeleteTurned(Dispatch(s, Adds(s.id)).0, s.free[|s.free| - 1], n);
  }

  lemma FirstTurned(id: nat, orders: seq<Order>)
    requires id < NUM_SHARDS && 0 < |orders| < NONE && WfOrders(orders) && WfShard(NewShard(id, orders))
    ensures var s := NewShard(id, orders);
            Turned(Dispatch(s, Opens(id)).0, 0) && Dispatch(s, Opens(id)).0.id == id && EventInRange(s, Opens(id))
  {
    var s := NewShard(id, orders);
    assert s.symbols[0] == FreshSymbol(LocateAt(id, 0)) && s.symbols[1] == FreshSymbol(LocateAt(id, 1));
  }

  lemma TwoMore(s: Shard, es: seq<Event>, a: Event, d: Event)
    requires WfShard(s) && (forall i :: 0 <= i < |es| ==> WfEvent(es[i])) && WfEvent(a) && WfEvent(d)
    ensures var t, fs := RunShard(s, es).0, es + [a] + [d];
            var u := Dispatch(t, a).0;
            && RunShard(s, fs).0 == Dispatch(u, d).0
            && (RunInRange(s, fs) <==> RunInRange(s, es) && EventInRange(t, a) && EventInRange(u, d))
  {
    assert (es + [a] + [d])[..|es| + 1] == es + [a] && (es + [a])[..|es|] == es;
  }

  /** A shard whose second book is opened by the first event. */
  ghost predicate Started(s: Shard, id: nat) {
    WfShard(s) && s.id == id && EventInRange(s, Opens(id)) && Turned(Dispatch(s, Opens(id)).0, 0)
  }

  /** What is known after `n` turns: whether they stayed inside the ladders, and the shard if they did. */
  ghost predicate Known(inside: bool, s: Shard, n: nat) {
    (inside <==> n < WORD32) && (n < WORD32 ==> Turned(s, n))
  }

  ghost predicate After(s: Shard, es: seq<Event>, n: nat) {
    WfShard(s) && (forall i :: 0 <= i < |es| ==> WfEvent(es[i])) && Known(RunInRange(s, es), RunShard(s, es).0, n)
  }

  lemma FirstTurn(s: Shard, id: nat, es: seq<Event>)
    requires Started(s, id) && id < NUM_SHARDS && es == [Opens(id)]
    ensures After(s, es, 0)
  {
    assert es[..0] == [];
  }

  lemma KnownOneMore(t: Shard, n: nat, inside: bool, more: bool)
    requires WfShard(t) && Known(inside, t, n)
    requires var a, id := Dispatch(t, Adds(t.id)).0, t.id; more == (inside && EventInRange(t, Adds(id)) && EventInRange(a, Deletes(id)))
    ensures Known(more, Dispatch(Dispatch(t, Adds(t.id)).0, Deletes(t.id)).0, n + 1)
  {
    if n < WORD32 {
      OneTurn(t, n);
    }
  }

  /** One turn more at the end of a run. */
  lemma AfterOneMore(s: Shard, es: seq<Event>, fs: seq<Event>, n: nat)
    requires After(s, es, n) && fs == es + [Adds(s.id)] + [Deletes(s.id)]
    ensures After(s, fs, n + 1)
  {
    TwoMore(s, es, Adds(s.id), Deletes(s.id));
    KnownOneMore(RunShard(s, es).0, n, RunInRange(s, es), RunInRange(s, fs));
  }

  lemma {:induction false} TurnsRun(s: Shard, id: nat, n: nat, es: seq<Event>)
    requires Started(s, id) && id < NUM_SHARDS && es == Turns(id, n)
    ensures After(s, es, n)
    decreases n
  {
    if n == 0 {
      FirstTurn(s, id, es);
    } else {
      var m, p := n - 1, Turns(id, n - 1);
      TurnsRun(s, id, m, p);
      AfterOneMore(s, p, es, m);
    }
  }

  /** From a new worker, the turns stay inside the ladders if and only if there are fewer than 2^32 of them. */
  lemma TurnsInRangeIff(id: nat, orders: seq<Order>, n: nat)
    requires id < NUM_SHARDS && 0 < |orders| < NONE && WfOrders(orders) && WfShard(NewShard(id, orders))
    ensures RunInRange(NewShard(id, orders), Turns(id, n)) <==> n < WORD32
  {
    FirstTurned(id, orders);
    TurnsRun(NewShard(id, orders), id, n, Turns(id, n));
  }
}
