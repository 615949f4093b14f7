/**
 The merge of the A and B feeds: live slots of both rings, in whatever order they come, are
 forwarded once per sequence number; recovered slots are forwarded as they are.
 */
module FeedMerger {
  import opened Wire
  import opened DedupWindow

  const HEADER: nat := 20
  const HEARTBEAT: nat := 0xFFFF

  datatype Source = Primary | Secondary | Recovery

  /** What travels on to the parser. */
  datatype Token = Token(slot: nat, source: Source)

  /** The sequence number of a packet, 0 when it is shorter than its header. */
  function PeekSequence(packet: Bytes): (n: nat) {
    if |packet| < HEADER then 0 else Decode(packet[10..18])
  }

  function PeekCount(packet: Bytes): (n: nat)
    requires |packet| >= HEADER
  {
    Decode(packet[18..20])
  }

  /** Short packets, packets numbered 0 and heartbeats bypass the window. */
  predicate Bypasses(packet: Bytes) {
    PeekSequence(packet) == 0 || PeekCount(packet) == HEARTBEAT
  }

  /** The depth of the merged queue. */
  const MERGED_DEPTH: nat := 65536

  /** A slot taken from a ring, and how many tokens the parser has taken from the merged queue by then. */
  datatype Input =
    | Live(slot: nat, secondary: bool, packet: Bytes, parsed: nat)
    | Recovered(slot: nat, parsed: nat)

  /** `merged` is everything that was ever pushed to the merged queue. */
  datatype Merger = Merger(window: Window, merged: seq<Token>, dedupDrops: nat, mergedDrops: nat, secondaryPackets: nat)

  const START: Merger := Merger(EMPTY, [], 0, 0, 0)

  /** The merged queue is not full. */
  predicate Room(m: Merger, parsed: nat) {
    |m.merged| < parsed + MERGED_DEPTH
  }

  /** Pushes to the merged queue, or counts the drop when it is full. */
  function Forward(m: Merger, t: Token, parsed: nat): (r: Merger) {
    if Room(m, parsed) then m.(merged := m.merged + [t]) else m.(mergedDrops := m.mergedDrops + 1)
  }

  predicate WfInput(e: Input) {
    e.Live? && !Bypasses(e.packet) ==> PeekSequence(e.packet) <= LAST
  }

  function Handle(m: Merger, e: Input): (r: Merger)
    requires Aligned(m.window) && WfInput(e)
    ensures Aligned(r.window)
  {
    match e
    case Recovered(slot, parsed) => Forward(m, Token(slot, Recovery), parsed)
    case Live(slot, secondary, packet, parsed) =>
      var t := Token(slot, if secondary then Secondary else Primary);
      var m1 := if secondary then m.(secondaryPackets := m.secondaryPackets + 1) else m;
      if Bypasses(packet) then Forward(m1, t, parsed)
      else
        var (w, fresh_) := Check(m.window, PeekSequence(packet));
        var m2 := m1.(window := w);
        if fresh_ then Forward(m2, t, parsed) else m2.(dedupDrops := m2.dedupDrops + 1)
  }

  function Run(m: Merger, es: seq<Input>): (r: Merger)
    requires Aligned(m.window) && forall i :: 0 <= i < |es| ==> WfInput(es[i])
    ensures Aligned(r.window)
  {
    if es == [] then m else Handle(Run(m, es[..|es| - 1]), es[|es| - 1])
  }

  // ----- What became of each input -----

  datatype Fate = Sent | Duplicate | NoRoom

  function FateOf(m: Merger, e: Input): (f: Fate)
    requires Aligned(m.window) && WfInput(e)
  {
    if e.Live? && !Bypasses(e.packet) && !Check(m.window, PeekSequence(e.packet)).1 then Duplicate
    else if Room(m, e.parsed) then Sent
    else NoRoom
  }

  /** The fates of a run, one for each input. */
  function Fates(m: Merger, es: seq<Input>): (fs: seq<Fate>)
    requires Aligned(m.window) && forall i :: 0 <= i < |es| ==> WfInput(es[i])
    ensures |fs| == |es|
  {
    if es == [] then []
    else Fates(m, es[..|es| - 1]) + [FateOf(Run(m, es[..|es| - 1]), es[|es| - 1])]
  }

  /** The number of live inputs that met a fate. */
  function CountLive(es: seq<Input>, fs: seq<Fate>, f: Fate): (n: nat)
    requires |es| == |fs|
  {
    if es == [] then 0
    else CountLive(es[..|es| - 1], fs[..|fs| - 1], f)
         + if es[|es| - 1].Live? && fs[|fs| - 1] == f then 1 else 0
  }

  /** The number of inputs of either kind that met a fate. */
  function CountFate(fs: seq<Fate>, f: Fate): (n: nat) {
    if fs == [] then 0 else CountFate(fs[..|fs| - 1], f) + if fs[|fs| - 1] == f then 1 else 0
  }

  function CountAll(es: seq<Input>): (n: nat) {
    if es == [] then 0 else CountAll(es[..|es| - 1]) + if es[|es| - 1].Live? then 1 else 0
  }

  function CountSecondary(es: seq<Input>): (n: nat) {
    if es == [] then 0
    else CountSecondary(es[..|es| - 1]) + if es[|es| - 1].Live? && es[|es| - 1].secondary then 1 else 0
  }

  /** The tokens of the inputs that were sent. */
  function SentTokens(es: seq<Input>, fs: seq<Fate>): (ts: seq<Token>)
    requires |es| == |fs|
  {
    if es == [] then []
    else SentTokens(es[..|es| - 1], fs[..|fs| - 1]) + if fs[|fs| - 1].Sent? then [TokenOf(es[|es| - 1])] else []
  }

  function TokenOf(e: Input): (t: Token) {
    match e
    case Recovered(slot, _) => Token(slot, Recovery)
    case Live(slot, secondary, _, _) => Token(slot, if secondary then Secondary else Primary)
  }

  /** One input, by its fate. */
  lemma StepByFate(m: Merger, e: Input)
    requires Aligned(m.window) && WfInput(e)
    ensures var f, r := FateOf(m, e), Handle(m, e);
            && r.dedupDrops == m.dedupDrops + (if f.Duplicate? then 1 else 0)
            && r.mergedDrops == m.mergedDrops + (if f.NoRoom? then 1 else 0)
            && r.merged == m.merged + (if f.Sent? then [TokenOf(e)] else [])
            && (f.Duplicate? ==> e.Live?)
            && r.secondaryPackets == m.secondaryPackets + (if e.Live? && e.secondary then 1 else 0)
            && r.window == if e.Live? && !Bypasses(e.packet) then Check(m.window, PeekSequence(e.packet)).0 else m.window
  {
  }

  // ----- What the bytes say -----

  /** The packets that bypass the window, by their bytes: short ones, those numbered 0, heartbeats. */
  lemma BypassesByBytes(packet: Bytes)
    ensures Bypasses(packet) <==>
            || |packet| < 20
            || (forall k :: 10 <= k < 18 ==> packet[k] == 0)
            || (packet[18] == 255 && packet[19] == 255)
    ensures !Bypasses(packet) ==> PeekSequence(packet) == Decode(packet[10..18])
  {
    if |packet| >= 20 {
      var number, count := packet[10..18], packet[18..20];
      ZeroBytes(number);
      Pair(count);
      assert count[0] == packet[18] && count[1] == packet[19];
      assert forall k :: 10 <= k < 18 ==> packet[k] == number[k - 10];
      assert forall k :: 0 <= k < 8 ==> number[k] == packet[k + 10];
    }
  }

  /**
   A live packet shorter than 20 bytes, or numbered 0, or a heartbeat, leaves the window alone and is
   no duplicate; any other is one if and only if the window turns its number away, as it does every
   number once it has been here.  What is no duplicate is sent if the merged queue has room.
   */
  lemma LiveByBytes(m: Merger, e: Input)
    requires Aligned(m.window) && WfInput(e) && e.Live?
    ensures var r, f, packet := Handle(m, e), FateOf(m, e), e.packet;
            if |packet| < 20 || (forall k :: 10 <= k < 18 ==> packet[k] == 0) || (packet[18] == 255 && packet[19] == 255)
            then r.window == m.window && !f.Duplicate?
            else
              var n := Decode(packet[10..18]);
              && n <= LAST && (f.Duplicate? <==> !Check(m.window, n).1)
              && r.window == Check(m.window, n).0 && !Check(r.window, n).1
    ensures FateOf(m, e).NoRoom? <==> !FateOf(m, e).Duplicate? && |m.merged| >= e.parsed + 65536
  {
    BypassesByBytes(e.packet);
    if !Bypasses(e.packet) {
      OnceHere(m.window, PeekSequence(e.packet));
    }
  }

  /**
   Conservation: every slot consumed was pushed or is counted by one of the two drop counters, each
   of which counts exactly its own kind; the merged queue received exactly the tokens sent, in order.
   */
  lemma {:induction false} Conservation(es: seq<Input>)
    requires forall i :: 0 <= i < |es| ==> WfInput(es[i])
    ensures var m, fs := Run(START, es), Fates(START, es);
            && |es| == |m.merged| + m.dedupDrops + m.mergedDrops
            && CountAll(es) == CountLive(es, fs, Sent) + m.dedupDrops + CountLive(es, fs, NoRoom)
            && m.dedupDrops == CountLive(es, fs, Duplicate)
            && m.mergedDrops == CountFate(fs, NoRoom)
            && m.merged == SentTokens(es, fs)
            && m.secondaryPackets == CountSecondary(es)
  {
    if es != [] {
      var p, e := es[..|es| - 1], es[|es| - 1];
      var m, gs := Run(START, p), Fates(START, p);
      Conservation(p);
      StepByFate(m, e);
      CountsGrow(p, e, gs, FateOf(m, e));
      assert p + [e] == es;
    }
  }

  lemma CountsGrow(es: seq<Input>, e: Input, fs: seq<Fate>, f: Fate)
    requires |es| == |fs|
    ensures forall g :: CountLive(es + [e], fs + [f], g) == CountLive(es, fs, g) + if e.Live? && f == g then 1 else 0
    ensures forall g :: CountFate(fs + [f], g) == CountFate(fs, g) + if f == g then 1 else 0
    ensures CountAll(es + [e]) == CountAll(es) + if e.Live? then 1 else 0
    ensures CountSecondary(es + [e]) == CountSecondary(es) + if e.Live? && e.secondary then 1 else 0
    ensures SentTokens(es + [e], fs + [f]) == SentTokens(es, fs) + if f.Sent? then [TokenOf(e)] else []
  {
    assert (es + [e])[..|es|] == es;
    assert (fs + [f])[..|fs|] == fs;
  }

  // ----- At most once -----

  /** The numbers that passed the window so far. */
  ghost function Passed(es: seq<Input>): (s: set<nat>)
    requires forall i :: 0 <= i < |es| ==> WfInput(es[i])
  {
    if es == [] then {}
    else
      var p, e := es[..|es| - 1], es[|es| - 1];
      Passed(p) + if e.Live? && !Bypasses(e.packet) && !FateOf(Run(START, p), e).Duplicate?
                  then {PeekSequence(e.packet)} else {}
  }

  lemma {:induction false} WindowKeepsUp(es: seq<Input>)
    requires forall i :: 0 <= i < |es| ==> WfInput(es[i])
    ensures Inv(Run(START, es).window, Passed(es))
  {
    if es != [] {
      var p, e := es[..|es| - 1], es[|es| - 1];
      WindowKeepsUp(p);
      StepByFate(Run(START, p), e);
      if e.Live? && !Bypasses(e.packet) {
        CheckKeeps(Run(START, p).window, Passed(p), PeekSequence(e.packet));
      }
      assert Passed(p) + {} == Passed(p);
    }
  }

  /** A live input that passed is among those passed from then on. */
  lemma {:induction false} PassedStays(es: seq<Input>, i: nat)
    requires forall k :: 0 <= k < |es| ==> WfInput(es[k])
    requires i < |es| && es[i].Live? && !Bypasses(es[i].packet) && !Fates(START, es)[i].Duplicate?
    ensures PeekSequence(es[i].packet) in Passed(es)
  {
    var p := es[..|es| - 1];
    if i < |es| - 1 {
      assert Fates(START, es)[i] == Fates(START, p)[i];
      PassedStays(p, i);
    }
  }

  /**
   Over every interleaving of the feeds, two live packets with the same number do not both get
   past the window, so no number is pushed twice.
   */
  lemma {:induction false} AtMostOnce(es: seq<Input>, i: nat, j: nat)
    requires forall k :: 0 <= k < |es| ==> WfInput(es[k])
    requires i < j < |es| && es[i].Live? && es[j].Live?
    requires !Bypasses(es[i].packet) && !Bypasses(es[j].packet)
    requires PeekSequence(es[i].packet) == PeekSequence(es[j].packet)
    ensures Fates(START, es)[i].Duplicate? || Fates(START, es)[j].Duplicate?
  {
    var p := es[..|es| - 1];
    if j < |es| - 1 {
      AtMostOnce(p, i, j);
      assert Fates(START, es)[i] == Fates(START, p)[i] && Fates(START, es)[j] == Fates(START, p)[j];
    } else if !Fates(START, es)[i].Duplicate? {
      assert Fates(START, es)[i] == Fates(START, p)[i];
      PassedStays(p, i);
      WindowKeepsUp(p);
      CheckKeeps(Run(START, p).window, Passed(p), PeekSequence(es[j].packet));
    }
  }

  lemma UnseenPasses(w: Window, accepted: set<nat>, seq_: nat, largest: nat)
    requires Inv(w, accepted) && seq_ <= LAST && seq_ !in accepted
    requires accepted == {} || (largest in accepted && (forall t :: t in accepted ==> t <= largest)
                                && seq_ + 64 >= largest)
    ensures Check(w, seq_).1
  {
    if accepted == {} {
      CheckKeeps(w, {}, seq_);
    } else {
      RecentNotRejected(w, accepted, seq_, largest);
    }
  }

  /**
   Nothing is lost to the window: a number not yet passed and no more than 64 behind the largest
   that has passed is not turned away.
   */
  lemma FirstSightPasses(es: seq<Input>, e: Input, largest: nat)
    requires (forall k :: 0 <= k < |es| ==> WfInput(es[k])) && WfInput(e) && e.Live? && !Bypasses(e.packet)
    requires PeekSequence(e.packet) !in Passed(es)
    requires Passed(es) == {} || (largest in Passed(es) && (forall t :: t in Passed(es) ==> t <= largest)
                                  && PeekSequence(e.packet) + 64 >= largest)
    ensures !FateOf(Run(START, es), e).Duplicate?
  {
    WindowKeepsUp(es);
    UnseenPasses(Run(START, es).window, Passed(es), PeekSequence(e.packet), largest);
  }

  // ----- The merger as it runs -----

  class FeedMergerThread {
    const dedup: Dedup
    var merged: seq<Token>
    var dedupDrops: nat
    var mergedDrops: nat
    var secondaryPackets: nat

    ghost function State(): (m: Merger)
      reads this, dedup
    {
      Merger(dedup.State(), merged, dedupDrops, mergedDrops, secondaryPackets)
    }

    constructor ()
      ensures dedup.Valid() && State() == START && fresh(dedup)
    {
      dedup := new Dedup();
      merged, dedupDrops, mergedDrops, secondaryPackets := [], 0, 0, 0;
    }

    method Push(t: Token, parsed: nat)
      modifies `merged, `mergedDrops
      ensures State() == Forward(old(State()), t, parsed)
    {
      if |merged| < parsed + MERGED_DEPTH {
        merged := merged + [t];
      } else {
        mergedDrops := mergedDrops + 1;
      }
    }

    method HandleLiveSlot(slot: nat, secondary: bool, packet: Bytes, parsed: nat)
      requires dedup.Valid() && WfInput(Live(slot, secondary, packet, parsed))
      modifies this, dedup
      ensures dedup.Valid() && State() == Handle(old(State()), Live(slot, secondary, packet, parsed))
      ensures if |packet| < 20 || (forall k :: 10 <= k < 18 ==> packet[k] == 0) || (packet[18] == 255 && packet[19] == 255)
              then dedup.State() == old(dedup.State()) && dedupDrops == old(dedupDrops)
              else
                var n := Decode(packet[10..18]);
                && n <= LAST && !Check(dedup.State(), n).1
                && dedupDrops == old(dedupDrops) + if Check(old(dedup.State()), n).1 then 0 else 1
    {
      ghost var e := Live(slot, secondary, packet, parsed);
      LiveByBytes(State(), e);
      StepByFate(State(), e);
      var t := Token(slot, if secondary then Secondary else Primary);
      if secondary {
        secondaryPackets := secondaryPackets + 1;
      }
      var n := PeekSequence(packet);
      if n == 0 || PeekCount(packet) == HEARTBEAT {
        Push(t, parsed);
        return;
      }
      var ok := dedup.CheckAndMark(n);
      if !ok {
        dedupDrops := dedupDrops + 1;
        return;
      }
      Push(t, parsed);
    }
  }
}
