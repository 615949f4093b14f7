/**
 A session reset erases history: from then on the shard publishes what a new worker would.
 */
module ShardReset {
  import opened Words
  import opened BookModel
  import opened ShardModel

  // ----- Pools that agree where it matters -----

  /** Two pools agree on every indexed slot; free slots may hold anything. */
  ghost predicate Agree(os: seq<Order>, ps: seq<Order>, index: map<nat, nat>) {
    |os| == |ps| && forall r :: r in index ==> index[r] < |os| && os[index[r]] == ps[index[r]]
  }

  ghost predicate Alike(b: Book, c: Book) {
    && b.bids == c.bids && b.asks == c.asks && b.free == c.free && b.index == c.index
    && Agree(b.orders, c.orders, b.index)
  }

  lemma UnlinkAgree(os: seq<Order>, ps: seq<Order>, index: map<nat, nat>, lvl: Level, ref: nat)
    requires Agree(os, ps, index) && WfOrders(os) && WfOrders(ps) && ref in index
    ensures var u, v := Unlink(os, lvl, index[ref]), Unlink(ps, lvl, index[ref]);
            u.1 == v.1 && Agree(u.0, v.0, index)
  {
  }

  lemma DetachAlike(b: Book, c: Book, ref: nat)
    requires Wf(b) && Wf(c) && Alike(b, c) && ref in b.index
    ensures Alike(Detach(b, b.index[ref]), Detach(c, b.index[ref]))
  {
    var o := b.orders[b.index[ref]];
    UnlinkAgree(b.orders, c.orders, b.index, b.On(o.side).levels[o.level], ref);
  }

  lemma DropAlike(b: Book, c: Book, ref: nat)
    requires Wf(b) && Wf(c) && Alike(b, c) && ref in b.index
    ensures Alike(Release(Detach(b, b.index[ref]), ref, b.index[ref]), Release(Detach(c, b.index[ref]), ref, b.index[ref]))
  {
    DetachAlike(b, c, ref);
  }

  lemma LinkAgree(os: seq<Order>, ps: seq<Order>, index: map<nat, nat>, lvl: Level, idx: nat)
    requires Agree(os, ps, index) && idx < |os| && os[idx] == ps[idx] && Link(lvl.tail, |os|)
    ensures var u, v := LinkTail(os, lvl, idx), LinkTail(ps, lvl, idx);
            u.1 == v.1 && Agree(u.0, v.0, index) && u.0[idx] == v.0[idx]
  {
  }

  lemma EnterAlike(b: Book, c: Book, idx: nat, ref: nat, side: Side, price: int, qty: nat, l: Ladder, k: nat)
    requires Wf(b) && Wf(c) && Alike(b, c) && idx < |b.orders| && qty < WORD32
    requires b.orders[idx].prev == c.orders[idx].prev && b.orders[idx].next == c.orders[idx].next
    requires WfLadder(l, |b.orders|) && k < MAX_LEVELS
    ensures Alike(Enter(b, idx, ref, side, price, qty, l, k), Enter(c, idx, ref, side, price, qty, l, k))
  {
    var os := b.orders[idx := b.orders[idx].(id := ref, price := price, qty := qty, side := side, level := k)];
    var ps := c.orders[idx := c.orders[idx].(id := ref, price := price, qty := qty, side := side, level := k)];
    assert os[idx] == ps[idx];
    assert WfLevel(l.levels[k], |os|);
    LinkAgree(os, ps, b.index, l.levels[k], idx);
  }

  lemma AddAlike(b: Book, c: Book, ref: nat, side: Side, price: int, qty: nat)
    requires Wf(b) && Wf(c) && Alike(b, c) && qty < WORD32
    ensures Alike(OnAdd(b, ref, side, price, qty), OnAdd(c, ref, side, price, qty))
  {
    if b.free != [] {
      var idx, l := b.free[|b.free| - 1], b.On(side);
      var k := FindLevel(l, price);
      if k < l.depth {
        EnterAlike(Alloc(b), Alloc(c), idx, ref, side, price, qty, l, k);
      } else if l.depth < MAX_LEVELS {
        var pos := InsertPos(l, price, side);
        EnterAlike(Alloc(b), Alloc(c), idx, ref, side, price, qty, InsertLevel(l, pos, price), pos);
      }
    }
  }

  lemma ReduceAlike(b: Book, c: Book, ref: nat, shares: nat)
    requires Wf(b) && Wf(c) && Alike(b, c) && shares < WORD32
    ensures Alike(OnReduce(b, ref, shares), OnReduce(c, ref, shares))
  {
    if ref in b.index {
      var idx := b.index[ref];
      assert Alike(Shrink(b, idx, shares), Shrink(c, idx, shares));
      if Shrink(b, idx, shares).orders[idx].qty == 0 {
        DropAlike(Shrink(b, idx, shares), Shrink(c, idx, shares), ref);
      }
    }
  }

  lemma ReplaceAlike(b: Book, c: Book, orig: nat, ref: nat, qty: nat, price: int)
    requires Wf(b) && Wf(c) && Alike(b, c) && qty < WORD32
    ensures Alike(OnReplace(b, orig, ref, qty, price), OnReplace(c, orig, ref, qty, price))
  {
    if orig in b.index {
      var o := b.orders[b.index[orig]];
      if !InPlace(o, price, qty) {
        DropAlike(b, c, orig);
        AddAlike(OnDelete(b, orig), OnDelete(c, orig), ref, o.side, price, qty);
      }
    }
  }

  /** No handler looks at a slot that is not indexed. */
  lemma ApplyAlike(b: Book, c: Book, m: Message)
    requires Wf(b) && Wf(c) && Alike(b, c) && WfMessage(m)
    ensures Alike(Apply(b, m), Apply(c, m))
  {
    match m
    case Add(ref, side, price, qty) => AddAlike(b, c, ref, side, price, qty);
    case Reduce(ref, shares) => ReduceAlike(b, c, ref, shares);
    case Delete(ref) =>
      if ref in b.index {
        DropAlike(b, c, ref);
      }
    case Replace(orig, ref, qty, price) => ReplaceAlike(b, c, orig, ref, qty, price);
  }

  // ----- Shards -----

  /** Shards that differ at most in the contents of free pool slots. */
  ghost predicate SameShard(s: Shard, t: Shard) {
    && s.id == t.id && s.active == t.active && s.symbols == t.symbols
    && s.free == t.free && s.index == t.index && Agree(s.orders, t.orders, s.index)
  }

  lemma DeliverSame(s: Shard, t: Shard, e: Event)
    requires WfShard(s) && WfShard(t) && SameShard(s, t) && WfEvent(e) && e.body.OrderFlow?
    ensures SameShard(Deliver(s, e).0, Deliver(t, e).0) && Deliver(s, e).1 == Deliver(t, e).1
  {
    var i := e.locate / NUM_SHARDS;
    assert Wf(BookAt(s, i)) && Wf(BookAt(t, i));
    ApplyAlike(BookAt(s, i), BookAt(t, i), e.body.msg);
  }

  lemma DispatchSame(s: Shard, t: Shard, e: Event)
    requires WfShard(s) && WfShard(t) && SameShard(s, t) && WfEvent(e)
    ensures SameShard(Dispatch(s, e).0, Dispatch(t, e).0) && Dispatch(s, e).1 == Dispatch(t, e).1
  {
    if e.body.OrderFlow? && e.session.Open? {
      var i := e.locate / NUM_SHARDS;
      if s.active[i] {
        DeliverSame(s, t, e);
      } else if e.body.msg.Add? {
        SameBooksWf(s, Activate(s, i));
        SameBooksWf(t, Activate(t, i));
        DeliverSame(Activate(s, i), Activate(t, i), e);
      }
    }
  }

  lemma {:induction false} RunSame(s: Shard, t: Shard, es: seq<Event>)
    requires WfShard(s) && WfShard(t) && SameShard(s, t) && forall i :: 0 <= i < |es| ==> WfEvent(es[i])
    ensures SameShard(RunShard(s, es).0, RunShard(t, es).0) && RunShard(s, es).1 == RunShard(t, es).1
  {
    if es != [] {
      var p := es[..|es| - 1];
      RunSame(s, t, p);
      DispatchSame(RunShard(s, p).0, RunShard(t, p).0, es[|es| - 1]);
    }
  }

  // ----- Inactive books -----

  /** Books sit at the slot of their locate code, and an inactive book is as constructed. */
  ghost predicate Idle(s: Shard) {
    && |s.active| == |s.symbols|
    && forall i :: 0 <= i < |s.symbols| ==>
         && s.symbols[i].locate == LocateAt(s.id, i)
         && (!s.active[i] ==> s.symbols[i] == FreshSymbol(LocateAt(s.id, i)))
  }

  lemma DispatchIdle(s: Shard, e: Event)
    requires WfShard(s) && WfEvent(e) && Idle(s)
    ensures Idle(Dispatch(s, e).0)
  {
  }

  lemma {:induction false} RunIdle(s: Shard, es: seq<Event>)
    requires WfShard(s) && Idle(s) && forall i :: 0 <= i < |es| ==> WfEvent(es[i])
    ensures Idle(RunShard(s, es).0)
  {
    if es != [] {
      RunIdle(s, es[..|es| - 1]);
      DispatchIdle(RunShard(s, es[..|es| - 1]).0, es[|es| - 1]);
    }
  }

  // ----- The theorem -----

  /** Resetting an idle-consistent shard gives the new shard over the same pool memory. */
  lemma ResetIsNew(s: Shard)
    requires WfShard(s) && Idle(s)
    ensures ResetShard(s) == NewShard(s.id, s.orders)
  {
    var t, n := ResetShard(s), NewShard(s.id, s.orders);
    assert t.active == n.active;
    assert t.symbols == n.symbols;
  }
}
