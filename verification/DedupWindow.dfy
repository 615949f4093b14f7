/**
 The sliding window that drops sequence numbers already forwarded: a 64-bit base and two 64-bit
 words, one bit for each of the 128 sequence numbers from the base on.

 A word is given as the set of its bits that are 1, so that testing and setting a bit are membership
 and insertion.  The arithmetic on the base is on 64 bits and wraps.
 */
module DedupWindow {
  import opened Words

  const BLOCK: nat := 64
  const WIDTH: nat := 128
  /** The highest sequence number for which the window can be advanced. */
  const LAST: nat := WORD64 - 65

  datatype Window = Window(base: nat, lo: set<nat>, hi: set<nat>)

  const EMPTY: Window := Window(0, {}, {})

  /** One past the window, on 64 bits. */
  function End(base: nat): (r: nat) {
    (base + WIDTH) % WORD64
  }

  /** The bit of the sequence number `offset` places after the base. */
  predicate Marked(w: Window, offset: nat) {
    offset % BLOCK in if offset / BLOCK == 0 then w.lo else w.hi
  }

  function Mark(w: Window, offset: nat): (r: Window) {
    if offset / BLOCK == 0 then w.(lo := w.lo + {offset % BLOCK}) else w.(hi := w.hi + {offset % BLOCK})
  }

  /** The lower block drops out of the window. */
  function Slide(w: Window): (r: Window) {
    Window((w.base + BLOCK) % WORD64, w.hi, {})
  }

  /** The base is a multiple of 64 low enough for the end of the window not to wrap. */
  predicate Aligned(w: Window) {
    w.base % BLOCK == 0 && w.base + WIDTH < WORD64
  }

  // ----- The decision -----

  lemma SlideAligned(w: Window, seq_: nat)
    requires Aligned(w) && seq_ <= LAST && seq_ >= End(w.base)
    ensures Aligned(Slide(w)) && Slide(w).base == w.base + BLOCK
  {
  }

  /** Slides the window until `seq_` falls into it. */
  function Advance(w: Window, seq_: nat): (r: Window)
    requires Aligned(w) && seq_ <= LAST
    ensures Aligned(r) && seq_ < r.base + WIDTH
    ensures w.base <= seq_ ==> r.base <= seq_
    ensures r == w || seq_ >= r.base + BLOCK
    decreases seq_ - w.base
  {
    if seq_ >= End(w.base) then
      SlideAligned(w, seq_);
      Advance(Slide(w), seq_)
    else w
  }

  lemma SlideOnce(w: Window, seq_: nat)
    requires Aligned(w) && seq_ <= LAST && seq_ >= End(w.base)
    ensures Aligned(Slide(w)) && w.base < Slide(w).base <= seq_ && Advance(Slide(w), seq_) == Advance(w, seq_)
  {
    SlideAligned(w, seq_);
  }

  /** The decision on one sequence number, and the window after it. */
  function Check(w: Window, seq_: nat): (r: (Window, bool))
    requires Aligned(w) && seq_ <= LAST
    ensures Aligned(r.0)
  {
    if seq_ < w.base then (w, false)
    else
      var a := Advance(w, seq_);
      if Marked(a, seq_ - a.base) then (a, false) else (Mark(a, seq_ - a.base), true)
  }

  /** A number that has been here is turned away. */
  lemma OnceHere(w: Window, seq_: nat)
    requires Aligned(w) && seq_ <= LAST
    ensures !Check(Check(w, seq_).0, seq_).1
  {
  }

  // ----- The window against the set of accepted numbers -----

  /** The window remembers exactly the accepted numbers from its base on, and none lies beyond it. */
  ghost predicate Remembers(w: Window, accepted: set<nat>) {
    && Aligned(w)
    && (forall s :: s in accepted ==> s < w.base + WIDTH)
    && (forall s :: w.base <= s < w.base + WIDTH ==> (s in accepted <==> Marked(w, s - w.base)))
  }

  /** Moreover the window has moved no further than an accepted number made it. */
  ghost predicate Inv(w: Window, accepted: set<nat>) {
    Remembers(w, accepted) && (w.base == 0 || exists t :: t in accepted && t >= w.base + BLOCK)
  }

  lemma SlideRemembers(w: Window, accepted: set<nat>, seq_: nat)
    requires Remembers(w, accepted) && seq_ <= LAST && seq_ >= End(w.base)
    ensures Remembers(Slide(w), accepted)
  {
    var v := Slide(w);
    SlideAligned(w, seq_);
    forall s | v.base <= s < v.base + WIDTH ensures s in accepted <==> Marked(v, s - v.base) {
      if s < w.base + WIDTH {
        assert s in accepted <==> Marked(w, s - w.base);
      }
    }
  }

  lemma {:induction false} AdvanceRemembers(w: Window, accepted: set<nat>, seq_: nat)
    requires Remembers(w, accepted) && seq_ <= LAST
    ensures Remembers(Advance(w, seq_), accepted)
    decreases seq_ - w.base
  {
    if seq_ >= End(w.base) {
      SlideAligned(w, seq_);
      SlideRemembers(w, accepted, seq_);
      AdvanceRemembers(Slide(w), accepted, seq_);
    }
  }

  lemma MarkRemembers(w: Window, accepted: set<nat>, seq_: nat)
    requires Remembers(w, accepted) && w.base <= seq_ < w.base + WIDTH
    ensures Remembers(Mark(w, seq_ - w.base), accepted + {seq_})
  {
    var v := Mark(w, seq_ - w.base);
    forall s | w.base <= s < w.base + WIDTH ensures s in accepted + {seq_} <==> Marked(v, s - w.base) {
      assert s in accepted <==> Marked(w, s - w.base);
    }
  }

  /**
   A number is accepted if and only if it is not below the base and was not accepted before; the
   window keeps agreeing with the set of accepted numbers.
   */
  lemma CheckKeeps(w: Window, accepted: set<nat>, seq_: nat)
    requires Inv(w, accepted) && seq_ <= LAST
    ensures var (w', ok) := Check(w, seq_);
            && (ok <==> w.base <= seq_ && seq_ !in accepted)
            && Inv(w', if ok then accepted + {seq_} else accepted)
  {
    if w.base <= seq_ {
      var a := Advance(w, seq_);
      AdvanceRemembers(w, accepted, seq_);
      assert seq_ in accepted <==> Marked(a, seq_ - a.base);
      if seq_ !in accepted {
        MarkRemembers(a, accepted, seq_);
        if a == w && w.base != 0 {
          var t :| t in accepted && t >= w.base + BLOCK;
          assert t in accepted + {seq_};
        } else {
          assert seq_ in accepted + {seq_};
        }
      }
    }
  }

  /** Nothing unseen within 64 of the largest accepted number is ever turned away. */
  lemma RecentNotRejected(w: Window, accepted: set<nat>, seq_: nat, largest: nat)
    requires Inv(w, accepted) && seq_ <= LAST && seq_ !in accepted
    requires largest in accepted && forall t :: t in accepted ==> t <= largest
    requires seq_ + 64 >= largest
    ensures Check(w, seq_).1
  {
    CheckKeeps(w, accepted, seq_);
    if w.base != 0 {
      var t :| t in accepted && t >= w.base + BLOCK;
    }
  }

  // ----- Runs -----

  /** The numbers of a run that were accepted, in order. */
  function Accepted(w: Window, seqs: seq<nat>): (r: seq<nat>)
    requires Aligned(w) && forall i :: 0 <= i < |seqs| ==> seqs[i] <= LAST
    decreases |seqs|
  {
    if seqs == [] then []
    else
      var (v, ok) := Check(w, seqs[0]);
      (if ok then [seqs[0]] else []) + Accepted(v, seqs[1..])
  }

  /** Pairwise distinct, and new to `accepted`. */
  ghost predicate AllNew(r: seq<nat>, accepted: set<nat>) {
    && (forall i, j :: 0 <= i < j < |r| ==> r[i] != r[j])
    && (forall i :: 0 <= i < |r| ==> r[i] !in accepted)
  }

  lemma NewBefore(x: nat, r: seq<nat>, accepted: set<nat>)
    requires x !in accepted && AllNew(r, accepted + {x})
    ensures AllNew([x] + r, accepted)
  {
    var s := [x] + r;
    forall i | 0 <= i < |r| ensures r[i] != x && r[i] !in accepted {
      assert r[i] !in accepted + {x};
    }
    forall i, j | 0 <= i < j < |s| ensures s[i] != s[j] {
      assert s[j] == r[j - 1];
      assert i > 0 ==> s[i] == r[i - 1];
    }
  }

  /** Between resets, no number is accepted twice, nor any that was accepted before. */
  lemma {:induction false} AcceptedOnce(w: Window, accepted: set<nat>, seqs: seq<nat>)
    requires Inv(w, accepted) && forall i :: 0 <= i < |seqs| ==> seqs[i] <= LAST
    ensures AllNew(Accepted(w, seqs), accepted)
    decreases |seqs|
  {
    if seqs != [] {
      var (v, ok) := Check(w, seqs[0]);
      CheckKeeps(w, accepted, seqs[0]);
      if ok {
        AcceptedOnce(v, accepted + {seqs[0]}, seqs[1..]);
        NewBefore(seqs[0], Accepted(v, seqs[1..]), accepted);
      } else {
        AcceptedOnce(v, accepted, seqs[1..]);
        assert Accepted(w, seqs) == Accepted(v, seqs[1..]);
      }
    }
  }

  // ----- Beyond the limit -----

  function Slides(w: Window, n: nat): (r: Window) {
    if n == 0 then w else Slide(Slides(w, n - 1))
  }

  /**
   For the last 64 sequence numbers the guard of the loop stays true for ever, so that the window
   never comes to rest: the limit is exact.
   */
  lemma {:induction false} NeverComesToRest(w: Window, seq_: nat, n: nat)
    requires w.base % BLOCK == 0 && w.base < WORD64 && LAST < seq_ < WORD64
    ensures Slides(w, n).base % BLOCK == 0 && Slides(w, n).base < WORD64 && seq_ >= End(Slides(w, n).base)
  {
    if n > 0 {
      NeverComesToRest(w, seq_, n - 1);
      GuardStays(Slides(w, n - 1).base, seq_);
    }
    GuardStays(Slides(w, n).base, seq_);
  }

  lemma GuardStays(base: nat, seq_: nat)
    requires base % BLOCK == 0 && base < WORD64 && LAST < seq_ < WORD64
    ensures seq_ >= End(base) && ((base + BLOCK) % WORD64) % BLOCK == 0
  {
  }

  // ----- The window as it runs -----

  class Dedup {
    var base: nat
    var bits0: set<nat>
    var bits1: set<nat>
    /** Everything accepted since the last reset. */
    ghost var accepted: set<nat>

    ghost function State(): (w: Window)
      reads this
    {
      Window(base, bits0, bits1)
    }

    ghost predicate Valid()
      reads this
    {
      Inv(State(), accepted)
    }

    constructor ()
      ensures Valid() && accepted == {} && State() == EMPTY
    {
      base, bits0, bits1, accepted := 0, {}, {}, {};
    }

    method Reset()
      modifies this
      ensures Valid() && accepted == {} && State() == EMPTY
    {
      base, bits0, bits1, accepted := 0, {}, {}, {};
    }

    /** Shifts out one block at a time until the number fits. */
    method SlideTo(seq_: nat)
      requires Aligned(State()) && base <= seq_ <= LAST
      modifies `base, `bits0, `bits1
      ensures State() == Advance(old(State()), seq_)
    {
      ghost var goal := Advance(State(), seq_);
      while seq_ >= End(base)
        invariant Aligned(State()) && base <= seq_ && Advance(State(), seq_) == goal
        decreases seq_ - base
      {
        ghost var w := State();
        SlideOnce(w, seq_);
        bits0 := bits1;
        bits1 := {};
        base := (base + BLOCK) % WORD64;
        assert State() == Slide(w);
      }
    }

    method CheckAndMark(seq_: nat) returns (ok: bool)
      requires Valid() && seq_ <= LAST
      modifies this
      ensures Valid()
      ensures (State(), ok) == Check(old(State()), seq_)
      ensures ok <==> old(base) <= seq_ && seq_ !in old(accepted)
      ensures accepted == if ok then old(accepted) + {seq_} else old(accepted)
    {
      CheckKeeps(State(), accepted, seq_);
      ok := Decide(seq_);
      if ok {
        accepted := accepted + {seq_};
      }
    }

    method Decide(seq_: nat) returns (ok: bool)
      requires Aligned(State()) && seq_ <= LAST
      modifies `base, `bits0, `bits1
      ensures (State(), ok) == Check(old(State()), seq_)
    {
      if seq_ < base {
        return false;
      }
      SlideTo(seq_);
      ok := MarkOffset(seq_ - base);
    }

    /** One bit of the window, which is set afterwards. */
    method MarkOffset(offset: nat) returns (ok: bool)
      modifies `bits0, `bits1
      ensures ok == !Marked(old(State()), offset)
      ensures State() == if ok then Mark(old(State()), offset) else old(State())
    {
      if offset / BLOCK == 0 {
        ok := offset % BLOCK !in bits0;
        if ok {
          bits0 := bits0 + {offset % BLOCK};
        }
      } else {
        ok := offset % BLOCK !in bits1;
        if ok {
          bits1 := bits1 + {offset % BLOCK};
        }
      }
    }
  }
}
