/**
 Tracking of packet sequence numbers: what is in order, what is missing, what is a repeat.
 */
module SequenceTracker {
  import opened Words

  datatype Gap = Gap(first: nat, last: nat)

  datatype Tracker = Tracker(current: nat, gapCount: nat, dupCount: nat, lastGap: Gap)

  function Start(n: nat): (t: Tracker) {
    Tracker(n, 0, 0, Gap(0, 0))
  }

  datatype Verdict = InOrder | Missing(gap: Gap) | Repeat

  /** Counters and positions are 64 bits wide; `current + 1` wraps. */
  function Judge(t: Tracker, next: nat): (v: Verdict) {
    var expected := (t.current + 1) % WORD64;
    if next == expected then InOrder
    else if next > expected then Missing(Gap(expected, next - 1))
    else Repeat
  }

  function Advance(t: Tracker, next: nat): (r: Tracker) {
    match Judge(t, next)
    case InOrder => t.(current := next)
    case Missing(gap) => t.(current := next, gapCount := (t.gapCount + 1) % WORD64, lastGap := gap)
    case Repeat => t.(dupCount := (t.dupCount + 1) % WORD64)
  }

  function Run(t: Tracker, ns: seq<nat>): (r: Tracker) {
    if ns == [] then t else Advance(Run(t, ns[..|ns| - 1]), ns[|ns| - 1])
  }

  // ----- What a run reported -----

  /** The verdicts of a run, one for each number. */
  function Verdicts(t: Tracker, ns: seq<nat>): (vs: seq<Verdict>)
    ensures |vs| == |ns|
  {
    if ns == [] then []
    else Verdicts(t, ns[..|ns| - 1]) + [Judge(Run(t, ns[..|ns| - 1]), ns[|ns| - 1])]
  }

  /** The numbers above `a` up to `b`. */
  function Range(a: nat, b: nat): (s: set<nat>)
    ensures forall x: nat :: x in s <==> a < x <= b
  {
    if b <= a then {} else Range(a, b - 1) + {b}
  }

  /** The numbers that advanced the tracker. */
  function Taken(ns: seq<nat>, vs: seq<Verdict>): (s: set<nat>)
    requires |ns| == |vs|
  {
    if ns == [] then {}
    else Taken(ns[..|ns| - 1], vs[..|vs| - 1]) + if vs[|vs| - 1].Repeat? then {} else {ns[|ns| - 1]}
  }

  /** The numbers inside the gaps reported. */
  function Lost(vs: seq<Verdict>): (s: set<nat>) {
    if vs == [] then {}
    else
      var v := vs[|vs| - 1];
      Lost(vs[..|vs| - 1]) + if v.Missing? && v.gap.first > 0 then Range(v.gap.first - 1, v.gap.last) else {}
  }

  function Count(vs: seq<Verdict>, gaps: bool, repeats: bool): (n: nat) {
    if vs == [] then 0
    else
      var v := vs[|vs| - 1];
      Count(vs[..|vs| - 1], gaps, repeats) + if v.Missing? == gaps && v.Repeat? == repeats then 1 else 0
  }

  function Max(s: nat, ns: seq<nat>): (m: nat) {
    if ns == [] then s else
      var m := Max(s, ns[..|ns| - 1]);
      if ns[|ns| - 1] > m then ns[|ns| - 1] else m
  }

  function LastGap(vs: seq<Verdict>): (g: Gap) {
    if vs == [] then Gap(0, 0)
    else if vs[|vs| - 1].Missing? then vs[|vs| - 1].gap
    else LastGap(vs[..|vs| - 1])
  }

  // ----- The partition -----

  /** One number, from a tracker that is not at the top of its range. */
  lemma AdvanceSplits(t: Tracker, next: nat)
    requires t.current < WORD64 - 1
    ensures var v := Judge(t, next);
            && Advance(t, next).current == (if next > t.current then next else t.current)
            && (v.Repeat? <==> next <= t.current)
            && (v.Missing? ==> v.gap == Gap(t.current + 1, next - 1) && t.current + 1 < next)
            && (v.InOrder? ==> next == t.current + 1)
  {
  }

  /** At the top of its range the tracker goes on with 0. */
  lemma AdvanceAtTop(t: Tracker, next: nat)
    requires t.current == 0xFFFF_FFFF_FFFF_FFFF
    ensures Judge(t, next) == if next == 0 then InOrder else Missing(Gap(0, next - 1))
    ensures Advance(t, next).current == next
  {
  }

  /**
   After any run from `s`, the numbers above `s` up to the current one are the disjoint union of
   those taken and those inside the gaps reported; the current one is the largest of `s` and all
   that arrived.
   */
  lemma {:induction false} Partition(s: nat, ns: seq<nat>)
    requires s < WORD64 - 1 && forall i :: 0 <= i < |ns| ==> ns[i] < WORD64 - 1
    ensures var t, vs := Run(Start(s), ns), Verdicts(Start(s), ns);
            && s <= t.current < WORD64 - 1 && t.current == Max(s, ns)
            && Taken(ns, vs) !! Lost(vs)
            && Taken(ns, vs) + Lost(vs) == Range(s, t.current)
            && t.lastGap == LastGap(vs)
  {
    if ns != [] {
      var p, n := ns[..|ns| - 1], ns[|ns| - 1];
      Partition(s, p);
      var t, vs := Run(Start(s), p), Verdicts(Start(s), p);
      AdvanceSplits(t, n);
      assert Verdicts(Start(s), ns)[..|p|] == vs;
      PartitionStep(s, t.current, n, Taken(p, vs), Lost(vs));
    }
  }

  lemma PartitionStep(s: nat, c: nat, n: nat, taken: set<nat>, lost: set<nat>)
    requires s <= c && taken !! lost && taken + lost == Range(s, c)
    ensures n > c ==> (taken + {n}) !! (lost + Range(c, n - 1)) && taken + {n} + (lost + Range(c, n - 1)) == Range(s, n)
    ensures n == c + 1 ==> (taken + {n}) !! lost && taken + {n} + lost == Range(s, n)
  {
    assert forall x :: x in taken ==> x in Range(s, c);
    assert forall x :: x in lost ==> x in Range(s, c);
    if n > c {
      var a, b := taken + {n} + (lost + Range(c, n - 1)), Range(s, n);
      forall x: nat ensures x in a <==> x in b {
        assert x in taken + lost <==> x in Range(s, c);
      }
    }
  }

  lemma AdvanceCounts(t: Tracker, next: nat)
    requires t.gapCount < WORD64 - 1 && t.dupCount < WORD64 - 1
    ensures var v, r := Judge(t, next), Advance(t, next);
            && r.gapCount == t.gapCount + (if v.Missing? then 1 else 0)
            && r.dupCount == t.dupCount + (if v.Repeat? then 1 else 0)
  {
  }

  lemma CountNext(vs: seq<Verdict>, v: Verdict, gaps: bool, repeats: bool)
    ensures Count(vs + [v], gaps, repeats)
         == Count(vs, gaps, repeats) + if v.Missing? == gaps && v.Repeat? == repeats then 1 else 0
  {
    assert (vs + [v])[..|vs|] == vs;
  }

  /** Every call is counted once: in order, as a gap or as a repeat. */
  lemma {:induction false} CallsAddUp(s: nat, ns: seq<nat>)
    requires |ns| < WORD64
    ensures var t, vs := Run(Start(s), ns), Verdicts(Start(s), ns);
            && t.gapCount == Count(vs, true, false) && t.dupCount == Count(vs, false, true)
            && |ns| == Count(vs, false, false) + t.gapCount + t.dupCount
  {
    if ns != [] {
      var p, n := ns[..|ns| - 1], ns[|ns| - 1];
      var t, vs := Run(Start(s), p), Verdicts(Start(s), p);
      CallsAddUp(s, p);
      CountBound(vs, true, false);
      CountBound(vs, false, true);
      AdvanceCounts(t, n);
      CountNext(vs, Judge(t, n), true, false);
      CountNext(vs, Judge(t, n), false, true);
      CountNext(vs, Judge(t, n), false, false);
    }
  }

  lemma {:induction false} CountBound(vs: seq<Verdict>, gaps: bool, repeats: bool)
    ensures Count(vs, gaps, repeats) <= |vs|
  {
    if vs != [] {
      CountBound(vs[..|vs| - 1], gaps, repeats);
    }
  }

  // ----- The tracker as it runs -----

  class TrackerCell {
    var current: nat
    var gapCount: nat
    var dupCount: nat
    var lastGap: Gap

    ghost function State(): (t: Tracker)
      reads this
    {
      Tracker(current, gapCount, dupCount, lastGap)
    }

    constructor (initial: nat)
      ensures State() == Start(initial)
    {
      current, gapCount, dupCount, lastGap := initial, 0, 0, Gap(0, 0);
    }

    method Reset(to: nat)
      modifies this
      ensures State() == Start(to)
    {
      current, gapCount, dupCount, lastGap := to, 0, 0, Gap(0, 0);
    }

    /** True exactly for a number in order. */
    method TryAdvance(next: nat) returns (ok: bool)
      modifies this
      ensures State() == Advance(old(State()), next) && ok == Judge(old(State()), next).InOrder?
    {
      var expected := (current + 1) % WORD64;
      if next == expected {
        current := next;
        return true;
      }
      if next > expected {
        gapCount := (gapCount + 1) % WORD64;
        lastGap := Gap(expected, next - 1);
        current := next;
        return false;
      }
      dupCount := (dupCount + 1) % WORD64;
      return false;
    }
  }
}
