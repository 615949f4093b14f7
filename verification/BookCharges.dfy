/**
 How far stale orders can drive the count of a level that is not in use.  Each message charges at
 most one level, so that for 2^32 messages no such count comes round to zero and no level is removed
 that is not there, even on a pool and an index that other books share.
 */
module BookCharges {
  import opened Words
  import opened BookModel
  import opened BookSafety

  ghost predicate ChargedSide(l: Ladder, n: nat)
    requires |l.levels| == MAX_LEVELS
  {
    forall k :: l.depth <= k < MAX_LEVELS ==> Owed(l.levels[k]) <= n
  }

  /** No level outside a ladder has been charged more than `n` times. */
  ghost predicate Charged(b: Book, n: nat) {
    Wf(b) && ChargedSide(b.bids, n) && ChargedSide(b.asks, n)
  }

  // ----- Which level a message removes -----

  /** Unlinking the order removes a level only if that level is in use. */
  ghost predicate DetachInRange(b: Book, idx: nat)
    requires Wf(b) && idx < |b.orders|
  {
    var o := b.orders[idx];
    Unlink(b.orders, b.On(o.side).levels[o.level], idx).1.count == 0 ==> o.level < b.On(o.side).depth
  }

  /** The message removes a level only if that level is in use. */
  ghost predicate InRange(b: Book, m: Message)
    requires Wf(b) && WfMessage(m)
  {
    match m
    case Add(_, _, _, _) => true
    case Reduce(ref, shares) =>
      ref in b.index && Sub32(b.orders[b.index[ref]].qty, shares) == 0 ==>
        DetachInRange(Shrink(b, b.index[ref], shares), b.index[ref])
    case Delete(ref) => ref in b.index ==> DetachInRange(b, b.index[ref])
    case Replace(orig, ref, qty, price) =>
      orig in b.index && !InPlace(b.orders[b.index[orig]], price, qty) ==> DetachInRange(b, b.index[orig])
  }

  /** On a pool and an index of its own, a book never removes a level that is not in use. */
  lemma GuardedInRange(b: Book, m: Message)
    requires Guarded(b) && WfMessage(m)
    ensures InRange(b, m)
  {
    match m {
      case Add(_, _, _, _) =>
      case Reduce(ref, shares) =>
        if ref in b.index {
          ShrinkGuarded(b, ref, shares);
          RemovalInRange(Shrink(b, b.index[ref], shares), ref);
        }
      case Delete(ref) =>
        if ref in b.index {
          RemovalInRange(b, ref);
        }
      case Replace(orig, _, _, _) =>
        if orig in b.index {
          RemovalInRange(b, orig);
        }
    }
  }

  // ----- Each handler -----

  /** One charge brings the count of an unused level one further below zero, but not round to it. */
  lemma ChargeOnce(lvl: Level, n: nat)
    requires lvl.count < WORD32 && Owed(lvl) <= n && n + 1 < WORD32
    ensures Sub32(lvl.count, 1) != 0 && Owed(lvl.(count := Sub32(lvl.count, 1))) <= n + 1
  {
  }

  lemma DetachCharged(b: Book, idx: nat, n: nat)
    requires Charged(b, n) && idx < |b.orders| && n + 1 < WORD32
    ensures DetachInRange(b, idx) && Charged(Detach(b, idx), n + 1)
  {
    var o := b.orders[idx];
    var l := b.On(o.side);
    var lvl := Unlink(b.orders, l.levels[o.level], idx).1;
    assert WfLevel(l.levels[o.level], |b.orders|);
    if o.level >= l.depth {
      ChargeOnce(l.levels[o.level], n);
    } else if lvl.count == 0 {
      RemoveLevelTail(l.(levels := l.levels[o.level := lvl]), o.level);
    }
  }

  lemma ShrinkCharged(b: Book, idx: nat, shares: nat, n: nat)
    requires Charged(b, n) && idx < |b.orders| && shares < WORD32
    ensures Charged(Shrink(b, idx, shares), n)
  {
  }

  lemma AmendCharged(b: Book, orig: nat, ref: nat, qty: nat, n: nat)
    requires Charged(b, n) && orig in b.index && qty < WORD32
    ensures Charged(Amend(b, orig, ref, qty), n)
  {
  }

  lemma ReleaseCharged(b: Book, ref: nat, idx: nat, n: nat)
    requires Charged(b, n) && idx < |b.orders|
    ensures Charged(Release(b, ref, idx), n)
  {
  }

  lemma EnterCharged(b: Book, idx: nat, ref: nat, side: Side, price: int, qty: nat, l: Ladder, k: nat, n: nat)
    requires Charged(b, n) && idx < |b.orders| && qty < WORD32
    requires WfLadder(l, |b.orders|) && k < l.depth && ChargedSide(l, n)
    ensures Charged(Enter(b, idx, ref, side, price, qty, l, k), n)
  {
  }

  lemma OpenedCharged(l: Ladder, pos: nat, price: int, n: nat)
    requires |l.levels| == MAX_LEVELS && pos <= l.depth < MAX_LEVELS && ChargedSide(l, n)
    ensures ChargedSide(InsertLevel(l, pos, price), n)
  {
    var r := InsertLevel(l, pos, price);
    forall k | r.depth <= k < MAX_LEVELS ensures Owed(r.levels[k]) <= n {
      assert r.levels[k] == l.levels[k];
    }
  }

  lemma AddCharged(b: Book, ref: nat, side: Side, price: int, qty: nat, n: nat)
    requires Charged(b, n) && qty < WORD32
    ensures Charged(OnAdd(b, ref, side, price, qty), n)
  {
    if b.free != [] {
      var c, idx, l := Alloc(b), b.free[|b.free| - 1], b.On(side);
      var k := FindLevel(l, price);
      if k < l.depth {
        EnterCharged(c, idx, ref, side, price, qty, l, k, n);
      } else if l.depth < MAX_LEVELS {
        var pos := InsertPos(l, price, side);
        OpenedCharged(l, pos, price, n);
        EnterCharged(c, idx, ref, side, price, qty, InsertLevel(l, pos, price), pos, n);
      }
    }
  }

  lemma MoreCharged(b: Book, n: nat)
    requires Charged(b, n)
    ensures Charged(b, n + 1)
  {
  }

  lemma DropCharged(b: Book, ref: nat, n: nat)
    requires Charged(b, n) && ref in b.index && n + 1 < WORD32
    ensures DetachInRange(b, b.index[ref]) && Charged(Release(Detach(b, b.index[ref]), ref, b.index[ref]), n + 1)
  {
    DetachCharged(b, b.index[ref], n);
    ReleaseCharged(Detach(b, b.index[ref]), ref, b.index[ref], n + 1);
  }

  lemma ReduceCharged(b: Book, ref: nat, shares: nat, n: nat)
    requires Charged(b, n) && shares < WORD32 && ref in b.index && n + 1 < WORD32
    ensures Charged(OnReduce(b, ref, shares), n + 1)
    ensures Sub32(b.orders[b.index[ref]].qty, shares) == 0 ==> DetachInRange(Shrink(b, b.index[ref], shares), b.index[ref])
  {
    var c := Shrink(b, b.index[ref], shares);
    ShrinkCharged(b, b.index[ref], shares, n);
    MoreCharged(c, n);
    if c.orders[b.index[ref]].qty == 0 {
      DropCharged(c, ref, n);
    }
  }

  lemma ReplaceCharged(b: Book, orig: nat, ref: nat, qty: nat, price: int, n: nat)
    requires Charged(b, n) && qty < WORD32 && orig in b.index && n + 1 < WORD32
    ensures Charged(OnReplace(b, orig, ref, qty, price), n + 1)
    ensures !InPlace(b.orders[b.index[orig]], price, qty) ==> DetachInRange(b, b.index[orig])
  {
    var o := b.orders[b.index[orig]];
    if InPlace(o, price, qty) {
      AmendCharged(b, orig, ref, qty, n);
      MoreCharged(Amend(b, orig, ref, qty), n);
    } else {
      DropCharged(b, orig, n);
      AddCharged(OnDelete(b, orig), ref, o.side, price, qty, n + 1);
    }
  }

  /** A book that was charged fewer than 2^32 - 1 times removes no level that is not in use. */
  lemma ApplyCharged(b: Book, m: Message, n: nat)
    requires Charged(b, n) && WfMessage(m) && n + 1 < WORD32
    ensures InRange(b, m) && Charged(Apply(b, m), n + 1)
  {
    match m {
      case Add(ref, side, price, qty) =>
        AddCharged(b, ref, side, price, qty, n);
        MoreCharged(Apply(b, m), n);
      case Reduce(ref, shares) =>
        if ref in b.index {
          ReduceCharged(b, ref, shares, n);
        } else {
          MoreCharged(b, n);
        }
      case Delete(ref) =>
        if ref in b.index {
          DropCharged(b, ref, n);
        } else {
          MoreCharged(b, n);
        }
      case Replace(orig, ref, qty, price) =>
        if orig in b.index {
          ReplaceCharged(b, orig, ref, qty, price, n);
        } else {
          MoreCharged(b, n);
        }
    }
  }

  /**
   Pool and index stay in agreement even when a message reaches an order of another book; and within
   2^32 charges the message removes no level that is not in use.
   */
  lemma ApplySound(b: Book, m: Message, n: nat)
    requires Sound(b) && WfMessage(m)
    ensures Sound(Apply(b, m))
    ensures Charged(b, n) && n + 1 < WORD32 ==> InRange(b, m) && Charged(Apply(b, m), n + 1)
  {
    match m {
      case Add(ref, side, price, qty) => AddSound(b, ref, side, price, qty);
      case Reduce(ref, shares) => ReduceSound(b, ref, shares);
      case Delete(ref) => DeleteSound(b, ref);
      case Replace(orig, ref, qty, price) => ReplaceSound(b, orig, ref, qty, price);
    }
    if Charged(b, n) && n + 1 < WORD32 {
      ApplyCharged(b, m, n);
    }
  }
}
