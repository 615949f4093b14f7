/**
 Whole runs of a shard stay inside the ladders of its books, whatever references arrive, for as
 long as fewer than 2^32 events follow each other without a session reset.
 */
module ShardRange {
  import opened Words
  import opened BookModel
  import opened BookCharges
  import opened ShardModel
  import opened ShardReset

  /** The book gets the message: the session is open and the symbol is active, or is activated by an addition. */
  predicate Reaches(active: seq<bool>, e: Event)
    requires |active| == BOOKS_PER_SHARD && WfEvent(e)
  {
    e.body.OrderFlow? && e.session.Open? && (active[e.locate / NUM_SHARDS] || e.body.msg.Add?)
  }

  /** The event removes a price level only if that level is in use. */
  ghost predicate EventInRange(s: Shard, e: Event)
    requires WfShard(s) && WfEvent(e)
  {
    Reaches(s.active, e) ==> InRange(BookAt(s, e.locate / NUM_SHARDS), e.body.msg)
  }

  ghost predicate RunInRange(s: Shard, es: seq<Event>)
    requires WfShard(s) && forall i :: 0 <= i < |es| ==> WfEvent(es[i])
  {
    es == [] || (RunInRange(s, es[..|es| - 1]) && EventInRange(RunShard(s, es[..|es| - 1]).0, es[|es| - 1]))
  }

  /** The number of events since the last session reset. */
  function Age(es: seq<Event>): (n: nat) {
    if es == [] || es[|es| - 1].body.SessionReset? then 0 else Age(es[..|es| - 1]) + 1
  }

  /** Fewer than 2^32 events follow each other without a reset, which is enough to stay inside the ladders. */
  predicate Young(es: seq<Event>) {
    es == [] || (Young(es[..|es| - 1]) && Age(es) < WORD32)
  }

  // ----- Charges of all books -----

  ghost predicate ChargedAt(s: Shard, i: nat, n: nat)
    requires i < |s.symbols|
  {
    Charged(BookAt(s, i), n)
  }

  ghost predicate ChargedShard(s: Shard, n: nat) {
    && |s.symbols| == BOOKS_PER_SHARD
    && forall i {:trigger ChargedAt(s, i, n)} :: 0 <= i < BOOKS_PER_SHARD ==> ChargedAt(s, i, n)
  }

  lemma SameBooksCharged(s: Shard, t: Shard, n: nat)
    requires ChargedShard(s, n) && |t.symbols| == BOOKS_PER_SHARD
    requires forall i :: 0 <= i < BOOKS_PER_SHARD ==> BookAt(t, i) == BookAt(s, i)
    ensures ChargedShard(t, n + 1)
  {
    var more := n + 1;
    forall i | 0 <= i < BOOKS_PER_SHARD ensures ChargedAt(t, i, more) {
      assert ChargedAt(s, i, n);
      MoreCharged(BookAt(s, i), n);
    }
  }

  lemma DeliverCharged(s: Shard, e: Event, n: nat)
    requires WfShard(s) && ChargedShard(s, n) && WfEvent(e) && e.body.OrderFlow? && n + 1 < WORD32
    ensures InRange(BookAt(s, e.locate / NUM_SHARDS), e.body.msg) && ChargedShard(Deliver(s, e).0, n + 1)
  {
    var i := e.locate / NUM_SHARDS;
    assert ChargedAt(s, i, n);
    ApplyCharged(BookAt(s, i), e.body.msg, n);
    var t, more := Deliver(s, e).0, n + 1;
    forall j | 0 <= j < BOOKS_PER_SHARD ensures ChargedAt(t, j, more) {
      assert Wf(BookAt(t, j));
      if j != i {
        assert ChargedAt(s, j, n);
      }
    }
  }

  lemma NewCharged(id: nat, orders: seq<Order>)
    requires WfShard(NewShard(id, orders))
    ensures ChargedShard(NewShard(id, orders), 0)
  {
    var s := NewShard(id, orders);
    forall i | 0 <= i < BOOKS_PER_SHARD ensures ChargedAt(s, i, 0) {
      assert Wf(BookAt(s, i));
      assert s.symbols[i] == FreshSymbol(LocateAt(id, i));
    }
  }

  lemma DispatchCharged(s: Shard, e: Event, n: nat)
    requires WfShard(s) && ChargedShard(s, n) && WfEvent(e) && n + 1 < WORD32 && !e.body.SessionReset?
    ensures EventInRange(s, e) && ChargedShard(Dispatch(s, e).0, n + 1)
  {
    var i := e.locate / NUM_SHARDS;
    if Reaches(s.active, e) {
      if s.active[i] {
        DeliverCharged(s, e, n);
      } else {
        var t := Activate(s, i);
        SameBooksWf(s, t);
        forall j | 0 <= j < BOOKS_PER_SHARD ensures ChargedAt(t, j, n) {
          assert ChargedAt(s, j, n) && BookAt(t, j) == BookAt(s, j);
        }
        DeliverCharged(t, e, n);
      }
    } else {
      SameBooksCharged(s, Dispatch(s, e).0, n);
    }
  }

  lemma ResetCharged(s: Shard)
    requires WfShard(s) && Idle(s)
    ensures ChargedShard(ResetShard(s), 0)
  {
    ResetWf(s);
    ResetIsNew(s);
    NewCharged(s.id, s.orders);
  }

  /** A run that removed no level that is not in use, with at most `n` charges since the last reset. */
  ghost predicate Within(s: Shard, es: seq<Event>, n: nat) {
    && WfShard(s) && (forall i :: 0 <= i < |es| ==> WfEvent(es[i]))
    && RunInRange(s, es) && Idle(RunShard(s, es).0) && ChargedShard(RunShard(s, es).0, n)
  }

  lemma ResetWithin(s: Shard, es: seq<Event>, p: seq<Event>, e: Event, n: nat)
    requires Within(s, p, n) && es == p + [e] && WfEvent(e) && e.body.SessionReset?
    ensures Within(s, es, 0)
  {
    assert es[..|es| - 1] == p && es[|es| - 1] == e;
    var t := RunShard(s, p).0;
    ResetCharged(t);
    DispatchIdle(t, e);
    assert RunShard(s, es).0 == ResetShard(t);
  }

  lemma StepWithin(s: Shard, es: seq<Event>, p: seq<Event>, e: Event, n: nat)
    requires Within(s, p, n) && es == p + [e] && WfEvent(e) && !e.body.SessionReset? && n + 1 < WORD32
    ensures Within(s, es, n + 1)
  {
    assert es[..|es| - 1] == p && es[|es| - 1] == e;
    var t := RunShard(s, p).0;
    DispatchCharged(t, e, n);
    DispatchIdle(t, e);
    assert RunShard(s, es).0 == Dispatch(t, e).0;
  }

  lemma AgeOf(es: seq<Event>, p: seq<Event>, e: Event)
    requires es == p + [e] && Young(es)
    ensures Young(p) && Age(es) < WORD32 && Age(es) == if e.body.SessionReset? then 0 else Age(p) + 1
  {
    assert es[..|es| - 1] == p;
  }

  lemma {:induction false} YoungWithin(s: Shard, es: seq<Event>, n: nat)
    requires Within(s, [], 0) && (forall i :: 0 <= i < |es| ==> WfEvent(es[i])) && Young(es) && n == Age(es)
    ensures Within(s, es, n)
    decreases |es|
  {
    if es != [] {
      var p, e := es[..|es| - 1], es[|es| - 1];
      AgeOf(es, p, e);
      var m := Age(p);
      YoungWithin(s, p, m);
      if e.body.SessionReset? {
        ResetWithin(s, es, p, e, m);
      } else {
        StepWithin(s, es, p, e, m);
      }
    }
  }

  /** No run with fewer than 2^32 events between resets removes a level that is not in use. */
  lemma EveryRemovalInRange(id: nat, orders: seq<Order>, es: seq<Event>)
    requires id < NUM_SHARDS && |orders| < NONE && WfOrders(orders) && WfShard(NewShard(id, orders))
    requires (forall i :: 0 <= i < |es| ==> WfEvent(es[i])) && Young(es)
    ensures RunInRange(NewShard(id, orders), es) && ChargedShard(RunShard(NewShard(id, orders), es).0, Age(es))
  {
    NewCharged(id, orders);
    YoungWithin(NewShard(id, orders), es, Age(es));
  }
}
