/**
 Snapshot files that end early.  The reader does not look at how much it gets, so that a record that
 is cut is read with what earlier records left in the buffer.
 */
module SnapshotCuts {
  import opened Words
  import opened Wire
  import opened BookModel
  import opened BookTheorems
  import opened BookSnapshot

  // ----- The buffer, byte by byte -----

  /** A byte of a buffer, or the zero that it would grow by. */
  function Held(buf: Bytes, p: nat): (b: Byte) {
    if p < |buf| then buf[p] else 0
  }

  /** What the records in front of record `i` leave at byte `p`: that of the last one that reaches it. */
  function StaleByte(rs: seq<Bytes>, i: nat, p: nat): (b: Byte)
    requires i <= |rs|
  {
    if i == 0 then 0 else if p < |rs[i - 1]| then rs[i - 1][p] else StaleByte(rs, i - 1, p)
  }

  lemma {:induction false} LoadedAt(b: Bytes, buf: Bytes, len: nat, p: nat)
    ensures Held(Loaded(b, buf, len), p) == if p < len && p < |b| then b[p] else Held(buf, p)
    decreases len
  {
    if len > 0 && p > 0 {
      LoadedAt(Left(b, 1), Left(buf, 1), len - 1, p - 1);
    }
  }

  ghost predicate HoldsStale(buf: Bytes, rs: seq<Bytes>, i: nat)
    requires i <= |rs|
  {
    forall p: nat :: Held(buf, p) == StaleByte(rs, i, p)
  }

  lemma WholeHolds(r: Reader, s: Bytes, more: Bytes, p: nat)
    requires |s| < WORD32 && r.rest == EncodeLow(|s|, 4) + s + more
    ensures Held(Next(r).buf, p) == if p < |s| then s[p] else Held(r.buf, p)
  {
    Grouped(EncodeLow(|s|, 4), s, more);
    LengthReads(s, s + more);
    LoadedAt(s + more, r.buf, |s|, p);
  }

  lemma HoldsNext(st: Reader, rs: seq<Bytes>, k: nat, i: nat)
    requires Short(rs) && i < |rs| && Front(st.rest, rs[i..], k) && 4 + |rs[i]| <= k && HoldsStale(st.buf, rs, i)
    ensures HoldsStale(Next(st).buf, rs, i + 1)
  {
    var s, more := rs[i], Frames(rs[i + 1..]);
    FramesOpen(rs, i);
    CutBehind(EncodeLow(|s|, 4), s, more, k);
    forall p: nat ensures Held(Next(st).buf, p) == StaleByte(rs, i + 1, p) {
      WholeHolds(st, s, more[..k - 4 - |s|], p);
    }
  }

  /** Behind `i` whole records the buffer holds what they left. */
  lemma {:induction false} HoldsAfter(r: Reader, rs: seq<Bytes>, k: nat, i: nat)
    requires Short(rs) && i <= |rs| && Front(r.rest, rs, k) && Start(rs, i) <= k
    requires forall p :: 0 <= p < |r.buf| ==> r.buf[p] == 0
    ensures HoldsStale(After(r, i).buf, rs, i)
  {
    if i > 0 {
      HoldsAfter(r, rs, k, i - 1);
      FrontAfter(r, rs, k, i - 1);
      HoldsNext(After(r, i - 1), rs, k - Start(rs, i - 1), i - 1);
    }
  }

  // ----- The record that is cut -----

  /** The length that is read when the file ends `j` bytes into the frame of a record. */
  function CutLength(len: nat, j: nat): (n: nat) {
    if j < 4 then len % Pow256(j) else len
  }

  /** Byte `p` of record `i` when the file ends `j` bytes into its frame. */
  function MixedByte(rs: seq<Bytes>, i: nat, j: nat, p: nat): (b: Byte)
    requires i < |rs| && j <= 4 + |rs[i]|
  {
    if p + 4 < j then rs[i][p] else StaleByte(rs, i, p)
  }

  /** What is read of record `i` when the file ends `j` bytes into its frame. */
  function Mixed(rs: seq<Bytes>, i: nat, j: nat): (x: Bytes)
    requires i < |rs| && j <= 4 + |rs[i]|
  {
    seq(CutLength(|rs[i]|, j), p requires 0 <= p => MixedByte(rs, i, j, p))
  }

  lemma ModSplit(n: nat, q: nat)
    requires q > 0
    ensures n % 256 + 256 * (n / 256 % q) == n % (256 * q)
  {
    var a, b := n / 256, n % 256;
    DivMod(n, 256);
    DivMod(a, q);
    assert n == (a / q) * (256 * q) + (b + 256 * (a % q));
    ModUnique(n, a / q, 256 * q, b + 256 * (a % q));
  }

  /** Of a word whose upper bytes are missing, the lower ones are read. */
  lemma {:induction false} CutWord(n: nat, width: nat, j: nat)
    requires j <= width
    ensures ReadWord(EncodeLow(n, width)[..j], width) == n % Pow256(j)
  {
    if j > 0 {
      assert EncodeLow(n, width)[..j][1..] == EncodeLow(n / 256, width - 1)[..j - 1];
      CutWord(n / 256, width - 1, j - 1);
      ModSplit(n, Pow256(j - 1));
    }
  }

  lemma MixedRecord(st: Reader, rs: seq<Bytes>, i: nat, j: nat, b: Bytes, len: nat)
    requires i < |rs| && j < 4 + |rs[i]| && HoldsStale(st.buf, rs, i)
    requires len == CutLength(|rs[i]|, j) && b == if j < 4 then [] else rs[i][..j - 4]
    ensures Loaded(b, st.buf, len)[..len] == Mixed(rs, i, j)
  {
    var x := Loaded(b, st.buf, len);
    forall p | 0 <= p < len ensures x[p] == MixedByte(rs, i, j, p) {
      LoadedAt(b, st.buf, len, p);
      assert x[p] == Held(x, p);
    }
  }

  lemma MixedNext(st: Reader, rs: seq<Bytes>, i: nat, j: nat)
    requires Short(rs) && i < |rs| && j < 4 + |rs[i]| && Front(st.rest, rs[i..], j) && HoldsStale(st.buf, rs, i)
    ensures Record(st) == Mixed(rs, i, j)
  {
    var s := rs[i];
    FramesOpen(rs, i);
    CutBehind(EncodeLow(|s|, 4), s, Frames(rs[i + 1..]), j);
    if j < 4 {
      CutWord(|s|, 4, j);
      MixedRecord(st, rs, i, j, [], |s| % Pow256(j));
    } else {
      CutNext(st, s, j - 4);
      MixedRecord(st, rs, i, j, s[..j - 4], |s|);
    }
  }

  /** Record `i` as it is read from the first `k` bytes of the frames: whole, mixed or empty. */
  function ReadOf(rs: seq<Bytes>, k: nat, i: nat): (x: Bytes)
    requires i < |rs|
  {
    if k <= Start(rs, i) then []
    else if k < Start(rs, i + 1) then Mixed(rs, i, k - Start(rs, i))
    else rs[i]
  }

  lemma CutReads(r: Reader, rs: seq<Bytes>, k: nat, i: nat, x: Bytes)
    requires Short(rs) && i < |rs| && Front(r.rest, rs, k) && x == Record(After(r, i))
    requires forall p :: 0 <= p < |r.buf| ==> r.buf[p] == 0
    ensures x == ReadOf(rs, k, i)
  {
    CutRecord(r, rs, k, i);
    if Start(rs, i) < k < Start(rs, i + 1) {
      MixedAfter(r, rs, k, i);
    }
  }

  lemma MixedAfter(r: Reader, rs: seq<Bytes>, k: nat, i: nat)
    requires Short(rs) && i < |rs| && Front(r.rest, rs, k) && Start(rs, i) < k < Start(rs, i + 1)
    requires forall p :: 0 <= p < |r.buf| ==> r.buf[p] == 0
    ensures Record(After(r, i)) == Mixed(rs, i, k - Start(rs, i))
  {
    FrontAfter(r, rs, k, i);
    HoldsAfter(r, rs, k, i);
    MixedNext(After(r, i), rs, i, k - Start(rs, i));
  }
  lemma {:induction false} EmptyAfter(r: Reader, i: nat)
    requires r.rest == []
    ensures After(r, i).rest == []
  {
    if i > 0 {
      EmptyAfter(r, i - 1);
      NothingLeft(After(r, i - 1));
    }
  }

  lemma {:induction false} ShortWord(b: Bytes, n: nat)
    ensures ReadWord(b, n) < Pow256(|b|)
  {
    if b != [] && n > 0 {
      ShortWord(b[1..], n - 1);
    }
  }

  lemma ShortMagic(b: Bytes)
    requires |b| < 4
    ensures ReadWord(b, 4) != MAGIC
  {
    ShortWord(b, 4);
    assert Pow256(3) == 0x100_0000 && Pow256(2) == 0x1_0000 && Pow256(1) == 0x100 && Pow256(0) == 1;
  }

  /** A file that ends inside its header restores nothing. */
  lemma CutHead(c: Bytes, body: Bytes, k: nat, x: Listed, i: nat)
    requires |c| == 8 && 4 <= k <= 12 && Sided(x.book.bids) && Sided(x.book.asks)
    ensures var b := (EncodeLow(MAGIC, 4) + c + body)[..k];
            ReadWord(b, 4) == MAGIC && RestoredAt(b, x, i) == x
  {
    var m := EncodeLow(MAGIC, 4);
    var b := (m + c + body)[..k];
    assert b == m + c[..k - 4];
    Widths();
    DecodeEncodeLow(MAGIC, 4);
    WholeWord(m, c[..k - 4], 4);
    assert Opened(b).rest == [];
    EmptyAfter(Opened(b), i);
    NothingLeft(After(Opened(b), i));
  }


  // ----- Which bytes a restored book depends on -----

  /** A byte behind the header that no field of a level uses. */
  predicate Padding(p: nat) {
    p >= 6 && (p - 6) % LEVEL_BYTES >= 24
  }

  ghost predicate SameFields(x: Bytes, s: Bytes, from: nat, to: nat)
    requires to <= |x| && to <= |s|
  {
    forall p :: from <= p < to && !Padding(p) ==> x[p] == s[p]
  }

  lemma {:induction false} DecodeLowInjective(a: Bytes, b: Bytes)
    requires |a| == |b| && DecodeLow(a) == DecodeLow(b)
    ensures a == b
  {
    if a != [] {
      assert a[0] == DecodeLow(a) % 256 && b[0] == DecodeLow(b) % 256;
      DecodeLowInjective(a[1..], b[1..]);
      assert a == [a[0]] + a[1..] && b == [b[0]] + b[1..];
    }
  }

  /** Level `c` of a record, and the bytes of its fields. */
  lemma LevelFields(x: Bytes, s: Bytes, c: nat)
    requires |x| >= 6 + LEVEL_BYTES * (c + 1) && |s| >= 6 + LEVEL_BYTES * (c + 1)
    ensures var at := 6 + LEVEL_BYTES * c;
            SameFields(x, s, at, at + LEVEL_BYTES) ==> DecodeLevel(x[at..]) == DecodeLevel(s[at..])
  {
    var at := 6 + LEVEL_BYTES * c;
    if SameFields(x, s, at, at + LEVEL_BYTES) {
      forall q | 0 <= q < 24 ensures x[at..][q] == s[at..][q] {
        assert !Padding(at + q);
      }
      assert x[at..][0..8] == s[at..][0..8] && x[at..][8..12] == s[at..][8..12] && x[at..][12..16] == s[at..][12..16];
      assert x[at..][16..20] == s[at..][16..20] && x[at..][20..24] == s[at..][20..24];
    }
  }

  lemma {:induction false} DecodeLowBound(b: Bytes)
    ensures DecodeLow(b) < Pow256(|b|)
  {
    if b != [] {
      DecodeLowBound(b[1..]);
    }
  }

  lemma Bytes24(u: Bytes, v: Bytes)
    requires |u| >= 24 && |v| >= 24 && u[0..8] == v[0..8] && u[8..12] == v[8..12] && u[12..16] == v[12..16]
    requires u[16..20] == v[16..20] && u[20..24] == v[20..24]
    ensures forall q :: 0 <= q < 24 ==> u[q] == v[q]
  {
    forall q | 0 <= q < 24 ensures u[q] == v[q] {
      if q < 8 {
        assert u[q] == u[0..8][q];
      } else if q < 12 {
        assert u[q] == u[8..12][q - 8] && v[q] == v[8..12][q - 8];
      } else if q < 16 {
        assert u[q] == u[12..16][q - 12] && v[q] == v[12..16][q - 12];
      } else if q < 20 {
        assert u[q] == u[16..20][q - 16] && v[q] == v[16..20][q - 16];
      } else {
        assert u[q] == u[20..24][q - 20] && v[q] == v[20..24][q - 20];
      }
    }
  }

  /** Equal levels have equal field bytes. */
  lemma LevelDetermines(u: Bytes, v: Bytes)
    requires |u| >= LEVEL_BYTES && |v| >= LEVEL_BYTES && DecodeLevel(u) == DecodeLevel(v)
    ensures forall q :: 0 <= q < 24 ==> u[q] == v[q]
  {
    Widths();
    DecodeLowBound(u[0..8]);
    DecodeLowBound(v[0..8]);
    DecodeLowInjective(u[0..8], v[0..8]);
    DecodeLowInjective(u[8..12], v[8..12]);
    DecodeLowInjective(u[12..16], v[12..16]);
    DecodeLowInjective(u[16..20], v[16..20]);
    DecodeLowInjective(u[20..24], v[20..24]);
    Bytes24(u, v);
  }

  lemma DecodedAt(x: Bytes, at: nat, n: nat, m: nat)
    requires m < n && |x| >= at + LEVEL_BYTES * n
    ensures DecodeLevels(x[at..], n)[m] == DecodeLevel(x[at + LEVEL_BYTES * m..])
  {
    assert x[at..][LEVEL_BYTES * m..] == x[at + LEVEL_BYTES * m..];
  }

  lemma FirstLevel(x: Bytes, s: Bytes, c: nat)
    requires |x| >= 6 + LEVEL_BYTES * (c + 1) && |s| >= 6 + LEVEL_BYTES * (c + 1)
    requires var at := 6 + LEVEL_BYTES * c; DecodeLevel(x[at..]) == DecodeLevel(s[at..])
    ensures var at := 6 + LEVEL_BYTES * c; SameFields(x, s, at, at + LEVEL_BYTES)
  {
    var at := 6 + LEVEL_BYTES * c;
    LevelDetermines(x[at..], s[at..]);
    forall p | at <= p < at + LEVEL_BYTES && !Padding(p) ensures x[p] == s[p] {
      assert x[p] == x[at..][p - at] && s[p] == s[at..][p - at];
    }
  }

  lemma LevelAgrees(x: Bytes, s: Bytes, c: nat, at: nat)
    requires at == 6 + LEVEL_BYTES * c && |x| >= at + LEVEL_BYTES && |s| >= at + LEVEL_BYTES
    ensures SameFields(x, s, at, at + LEVEL_BYTES) <==> DecodeLevel(x[at..]) == DecodeLevel(s[at..])
  {
    LevelFields(x, s, c);
    if DecodeLevel(x[at..]) == DecodeLevel(s[at..]) {
      FirstLevel(x, s, c);
    }
  }

  lemma FieldsGiveLevel(x: Bytes, s: Bytes, c: nat, n: nat, at: nat, m: nat)
    requires at == 6 + LEVEL_BYTES * c && |x| >= at + LEVEL_BYTES * n && |s| >= at + LEVEL_BYTES * n
    requires m < n && SameFields(x, s, at, at + LEVEL_BYTES * n)
    ensures DecodeLevels(x[at..], n)[m] == DecodeLevels(s[at..], n)[m]
  {
    DecodedAt(x, at, n, m);
    DecodedAt(s, at, n, m);
    LevelAgrees(x, s, c + m, at + LEVEL_BYTES * m);
  }

  /** The levels from level `c` on. */
  lemma FieldsGiveLevels(x: Bytes, s: Bytes, c: nat, n: nat, at: nat)
    requires at == 6 + LEVEL_BYTES * c && |x| >= at + LEVEL_BYTES * n && |s| >= at + LEVEL_BYTES * n
    requires SameFields(x, s, at, at + LEVEL_BYTES * n)
    ensures DecodeLevels(x[at..], n) == DecodeLevels(s[at..], n)
  {
    var u, v := DecodeLevels(x[at..], n), DecodeLevels(s[at..], n);
    forall m | 0 <= m < n ensures u[m] == v[m] {
      FieldsGiveLevel(x, s, c, n, at, m);
    }
  }

  lemma LevelsGiveFields(x: Bytes, s: Bytes, c: nat, n: nat, at: nat)
    requires at == 6 + LEVEL_BYTES * c && |x| >= at + LEVEL_BYTES * n && |s| >= at + LEVEL_BYTES * n
    requires DecodeLevels(x[at..], n) == DecodeLevels(s[at..], n)
    ensures SameFields(x, s, at, at + LEVEL_BYTES * n)
  {
    forall p | at <= p < at + LEVEL_BYTES * n && !Padding(p) ensures x[p] == s[p] {
      var m := (p - at) / LEVEL_BYTES;
      DecodedAt(x, at, n, m);
      DecodedAt(s, at, n, m);
      LevelAgrees(x, s, c + m, at + LEVEL_BYTES * m);
    }
  }

  /** The two records hold the same locate code and the same levels. */
  ghost predicate SameParts(s: Bytes, x: Bytes) {
    Complete(s) && Complete(x) && DecodeLow(x[0..2]) == DecodeLow(s[0..2]) && BidsOf(x) == BidsOf(s) && AsksOf(x) == AsksOf(s)
  }

  lemma FieldsGiveParts(s: Bytes, x: Bytes)
    requires Complete(s) && |x| == |s| && SameFields(x, s, 0, |s|)
    ensures SameParts(s, x)
  {
    SameHeader(s, x);
    FieldsGiveBids(s, x);
    FieldsGiveAsks(s, x);
  }

  lemma FieldsGiveBids(s: Bytes, x: Bytes)
    requires Complete(s) && Complete(x) && |x| == |s| && SameFields(x, s, 0, |s|) && x[2..4] == s[2..4]
    ensures BidsOf(x) == BidsOf(s)
  {
    FieldsGiveLevels(x, s, 0, DecodeLow(s[2..4]), 6);
  }

  lemma FieldsGiveAsks(s: Bytes, x: Bytes)
    requires Complete(s) && Complete(x) && |x| == |s| && SameFields(x, s, 0, |s|) && x[2..4] == s[2..4] && x[4..6] == s[4..6]
    ensures AsksOf(x) == AsksOf(s)
  {
    var bids := DecodeLow(s[2..4]);
    FieldsGiveLevels(x, s, bids, DecodeLow(s[4..6]), 6 + LEVEL_BYTES * bids);
  }

  lemma SameHeader(s: Bytes, x: Bytes)
    requires |x| == |s| >= 6 && SameFields(x, s, 0, |s|)
    ensures x[0..2] == s[0..2] && x[2..4] == s[2..4] && x[4..6] == s[4..6]
  {
    forall p | 0 <= p < 6 ensures x[p] == s[p] {
      assert !Padding(p);
    }
  }

  /** A record without anything behind its levels. */
  predicate Exact(s: Bytes) {
    Complete(s) && |s| == 6 + LEVEL_BYTES * DecodeLow(s[2..4]) + LEVEL_BYTES * DecodeLow(s[4..6])
  }

  lemma PartsGiveFields(s: Bytes, x: Bytes)
    requires Exact(s) && |x| <= |s| && SameParts(s, x)
    ensures |x| == |s| && SameFields(x, s, 0, |s|)
  {
    var bids, asks := DecodeLow(s[2..4]), DecodeLow(s[4..6]);
    assert DecodeLow(x[2..4]) == bids && DecodeLow(x[4..6]) == asks;
    HeaderFields(s, x);
    LevelsGiveFields(x, s, 0, bids, 6);
    LevelsGiveFields(x, s, bids, asks, 6 + LEVEL_BYTES * bids);
  }

  lemma RestoreGivesParts(old_: Listed, s: Bytes, x: Bytes)
    requires Sided(old_.book.bids) && Sided(old_.book.asks) && Complete(s) && Restore(old_, x) == Restore(old_, s)
    ensures SameParts(s, x)
  {
    OverlaySame(old_.book.bids, BidsOf(x), BidsOf(s));
    OverlaySame(old_.book.asks, AsksOf(x), AsksOf(s));
  }

  lemma OverlaySame(l: Ladder, a: seq<Level>, b: seq<Level>)
    requires |a| <= |l.levels| && |b| <= |l.levels| && Overlay(l, a) == Overlay(l, b)
    ensures a == b
  {
    SamePrefix(l.levels, a, b);
  }

  /** A record that restores its book as `s` does, in both directions, for records no longer than `s`. */
  lemma RestoresAlike(old_: Listed, s: Bytes, x: Bytes)
    requires Sided(old_.book.bids) && Sided(old_.book.asks) && Exact(s) && |x| <= |s|
    ensures (|x| == |s| && SameFields(x, s, 0, |s|)) <==> Restore(old_, x) == Restore(old_, s)
  {
    if |x| == |s| && SameFields(x, s, 0, |s|) {
      FieldsGiveParts(s, x);
    }
    if Restore(old_, x) == Restore(old_, s) {
      RestoreGivesParts(old_, s, x);
      PartsGiveFields(s, x);
    }
  }

  lemma HeaderFields(s: Bytes, x: Bytes)
    requires |s| >= 6 && |x| >= 6
    requires DecodeLow(x[0..2]) == DecodeLow(s[0..2]) && DecodeLow(x[2..4]) == DecodeLow(s[2..4]) && DecodeLow(x[4..6]) == DecodeLow(s[4..6])
    ensures SameFields(x, s, 0, 6)
  {
    DecodeLowInjective(x[0..2], s[0..2]);
    DecodeLowInjective(x[2..4], s[2..4]);
    DecodeLowInjective(x[4..6], s[4..6]);
    forall p | 0 <= p < 6 ensures x[p] == s[p] {
      assert x[p] == x[p / 2 * 2..p / 2 * 2 + 2][p % 2] && s[p] == s[p / 2 * 2..p / 2 * 2 + 2][p % 2];
    }
  }

  lemma SamePrefix(ls: seq<Level>, a: seq<Level>, b: seq<Level>)
    requires |a| == |b| <= |ls| && a + ls[|a|..] == b + ls[|b|..]
    ensures a == b
  {
    assert a == (a + ls[|a|..])[..|a|] && b == (b + ls[|b|..])[..|b|];
  }

  // ----- What a file that ends early restores -----

  /** Book `i` after the header and the first `n` bytes of the records are read. */
  function CutBook(rs: seq<Bytes>, old_: Listed, n: nat, i: nat): (x: Listed)
    requires Sided(old_.book.bids) && Sided(old_.book.asks)
  {
    if i < |rs| then Restore(old_, ReadOf(rs, n, i)).listed else old_
  }

  lemma CutRestored(saved: seq<Listed>, old_: Listed, k: nat, n: nat, i: nat)
    requires AllStorable(saved) && Sided(old_.book.bids) && Sided(old_.book.asks) && |saved| < WORD64
    requires k == 12 + n <= |WriteFile(saved)|
    ensures RestoredAt(WriteFile(saved)[..k], old_, i) == CutBook(Written(saved, FIRST_BUFFER), old_, n, i)
  {
    CutTail(saved, k);
    if i < |saved| {
      WrittenShort(saved, FIRST_BUFFER);
      var r := Opened(WriteFile(saved)[..k]);
      CutReads(r, Written(saved, FIRST_BUFFER), n, i, Record(After(r, i)));
    }
  }

  lemma ReadAt(b: Bytes, books: seq<Listed>, i: nat)
    requires AllSided(books) && i < |books| && ReadWord(b, 4) == MAGIC
    ensures var r := ReadFile(b, books);
            r.Restored? && |r.books| == |books| && r.books[i] == RestoredAt(b, books[i], i)
  {
  }

  /**
   A file that ends anywhere is read without complaint once it holds the magic number.  Every book
   becomes what is read of its record: the whole of it in front of the end, nothing behind it, and
   where the file ends its own first bytes and then what earlier records left in the buffer.
   */
  lemma CutFile(saved: seq<Listed>, old_: seq<Listed>, k: nat, i: nat)
    requires AllStorable(saved) && AllSided(old_) && |saved| < WORD64
    requires k <= |WriteFile(saved)| && i < |old_|
    ensures var r := ReadFile(WriteFile(saved)[..k], old_);
            if k < 4 then r == BadMagic
            else
              && r.Restored? && |r.books| == |old_|
              && r.books[i] == if k < 12 then old_[i] else CutBook(Written(saved, FIRST_BUFFER), old_[i], k - 12, i)
  {
    var b := WriteFile(saved)[..k];
    if k < 4 {
      ShortMagic(b);
    } else {
      if k < 12 {
        CutHead(EncodeLow(|saved|, 8), Frames(Written(saved, FIRST_BUFFER)), k, old_[i], i);
      } else {
        CutTail(saved, k);
        CutRestored(saved, old_[i], k, k - 12, i);
      }
      ReadAt(b, old_, i);
    }
  }

  // ----- When the book at the cut comes back -----

  ghost predicate Fits(saved: seq<Listed>, i: nat)
    requires i < |saved|
  {
    Needed(saved[i]) <= BufferFor(saved, i, FIRST_BUFFER)
  }

  /**
   A book whose record is whole comes back as from the whole file.  One whose record is missing, or
   was never written for want of room, stays as it is.
   */
  lemma OutsideTheCut(saved: seq<Listed>, old_: seq<Listed>, n: nat, i: nat)
    requires AllStorable(saved) && AllSided(old_) && i < |old_|
    ensures var rs := Written(saved, FIRST_BUFFER);
            var x := CutBook(rs, old_[i], n, i);
            && (i < |saved| && Start(rs, i + 1) <= n ==> x == Expected(saved, old_, i))
            && (i >= |saved| || n <= Start(rs, i) ==> x == old_[i])
            && (i < |saved| && !Fits(saved, i) ==> x == old_[i] == Expected(saved, old_, i))
  {
    if i < |saved| {
      WrittenRestores(saved, old_, i);
      WrittenAt(saved, FIRST_BUFFER, i);
    }
  }

  /** Below byte `n`, what the buffer held behind the cut is what the record holds there, padding aside. */
  predicate StaleAgrees(rs: seq<Bytes>, i: nat, j: nat, n: nat)
    requires i < |rs| && n <= |rs[i]|
  {
    n == 0 || (StaleAgrees(rs, i, j, n - 1) && (n + 3 < j || Padding(n - 1) || StaleByte(rs, i, n - 1) == rs[i][n - 1]))
  }

  /** The length can be read in full, and what the buffer held is what the record goes on with. */
  predicate StaleFits(rs: seq<Bytes>, i: nat, j: nat)
    requires i < |rs|
  {
    CutLength(|rs[i]|, j) == |rs[i]| && StaleAgrees(rs, i, j, |rs[i]|)
  }

  lemma {:induction false} AgreesIff(rs: seq<Bytes>, i: nat, j: nat, n: nat)
    requires i < |rs| && n <= |rs[i]|
    ensures StaleAgrees(rs, i, j, n)
       <==> forall p :: 0 <= p < n && p + 4 >= j && !Padding(p) ==> StaleByte(rs, i, p) == rs[i][p]
  {
    if n > 0 {
      AgreesIff(rs, i, j, n - 1);
    }
  }

  lemma CutLengthAtMost(len: nat, j: nat)
    ensures CutLength(len, j) <= len
  {
    if j < 4 {
      DivMod(len, Pow256(j));
      if len < Pow256(j) {
        ModUnique(len, 0, Pow256(j), len);
      }
    }
  }

  lemma StaleFitsIff(rs: seq<Bytes>, i: nat, j: nat, x: Bytes)
    requires i < |rs| && j < 4 + |rs[i]| && |x| == CutLength(|rs[i]|, j)
    requires forall p :: 0 <= p < |x| ==> x[p] == MixedByte(rs, i, j, p)
    ensures StaleFits(rs, i, j) <==> |x| == |rs[i]| && SameFields(x, rs[i], 0, |rs[i]|)
  {
    var s := rs[i];
    AgreesIff(rs, i, j, |s|);
    if |x| == |s| && SameFields(x, s, 0, |s|) {
      forall p | 0 <= p < |s| && p + 4 >= j && !Padding(p) ensures StaleByte(rs, i, p) == s[p] {
        assert x[p] == s[p];
      }
    }
  }

  lemma RecordOf(saved: seq<Listed>, old_: Listed, i: nat)
    requires AllStorable(saved) && i < |saved| && Fits(saved, i) && Sided(old_.book.bids) && Sided(old_.book.asks)
    ensures var s := Written(saved, FIRST_BUFFER)[i];
            && |s| == Needed(saved[i]) && Exact(s) && Restore(old_, s) == Restoring(Overwrite(old_, saved[i]), true)
  {
    WrittenAt(saved, FIRST_BUFFER, i);
    BookReads(old_, saved[i], BufferFor(saved, i, FIRST_BUFFER));
  }

  /** Restoring `x`, which is no longer than the record `s` of the book `want`. */
  lemma MixedReturns(old_: Listed, s: Bytes, x: Bytes, want: Listed, got: Listed)
    requires Sided(old_.book.bids) && Sided(old_.book.asks) && |x| <= |s| && Exact(s)
    requires Restore(old_, s) == Restoring(want, true) && got == Restore(old_, x).listed
    ensures |x| == |s| && SameFields(x, s, 0, |s|) ==> got == want
    ensures got == want != old_ ==> |x| == |s| && SameFields(x, s, 0, |s|)
  {
    RestoresAlike(old_, s, x);
    assert !Restore(old_, x).ok ==> Restore(old_, x).listed == old_;
  }

  /** What is read of a record that the file ends in or right in front of. */
  lemma ReadsMixed(rs: seq<Bytes>, i: nat, j: nat)
    requires i < |rs| && j < 4 + |rs[i]|
    ensures ReadOf(rs, Start(rs, i) + j, i) == Mixed(rs, i, j)
  {
  }

  /** The file ends `j` bytes into the frame of record `i`, which is that of the book `want`. */
  lemma CutReturns(rs: seq<Bytes>, i: nat, j: nat, old_: Listed, want: Listed, got: Listed, fits: bool)
    requires i < |rs| && j < 4 + |rs[i]| && Sided(old_.book.bids) && Sided(old_.book.asks)
    requires Exact(rs[i]) && Restore(old_, rs[i]) == Restoring(want, true)
    requires got == CutBook(rs, old_, Start(rs, i) + j, i) && fits == StaleFits(rs, i, j)
    ensures fits ==> got == want
    ensures got == want != old_ ==> fits
  {
    var m := Mixed(rs, i, j);
    CutLengthAtMost(|rs[i]|, j);
    StaleFitsIff(rs, i, j, m);
    ReadsMixed(rs, i, j);
    MixedReturns(old_, rs[i], m, want, got);
  }

  lemma FileReaches(saved: seq<Listed>, i: nat, j: nat)
    requires AllStorable(saved) && i < |saved| && j <= 4 + |Written(saved, FIRST_BUFFER)[i]|
    ensures 12 + Start(Written(saved, FIRST_BUFFER), i) + j <= |WriteFile(saved)|
  {
    AllInFront(Written(saved, FIRST_BUFFER), i + 1);
  }

  /**
   The file ends `j` bytes into the frame of book `i`, which is read over `old_`.  The book comes back
   if what the buffer held fits, and unless it was the saved one before, only then.
   */
  lemma CutReturnsIff(saved: seq<Listed>, rs: seq<Bytes>, old_: Listed, i: nat, j: nat, want: Listed, got: Listed)
    requires AllStorable(saved) && i < |saved| && Fits(saved, i) && Sided(old_.book.bids) && Sided(old_.book.asks)
    requires rs == Written(saved, FIRST_BUFFER) && j < 4 + |rs[i]|
    requires want == Overwrite(old_, saved[i]) && got == CutBook(rs, old_, Start(rs, i) + j, i)
    ensures StaleFits(rs, i, j) ==> got == want
    ensures want != old_ ==> (got == want <==> StaleFits(rs, i, j))
  {
    RecordOf(saved, old_, i);
    CutReturns(rs, i, j, old_, want, got, StaleFits(rs, i, j));
  }

  // ----- Two ways of going wrong -----

  /** A book with the locate code 0 and no levels in use. */
  function Blanked(x: Listed): (r: Listed) {
    Listed(0, x.book.(bids := x.book.bids.(depth := 0), asks := x.book.asks.(depth := 0)))
  }

  lemma ZerosBlank(old_: Listed, s: Bytes)
    requires |s| >= 6 && (forall p :: 0 <= p < |s| ==> s[p] == 0) && Sided(old_.book.bids) && Sided(old_.book.asks)
    ensures Restore(old_, s).listed == Blanked(old_)
  {
    assert s[0..2] == [0, 0] && s[2..4] == [0, 0] && s[4..6] == [0, 0];
    assert DecodeLow([0, 0]) == 0;
    assert [] + old_.book.bids.levels[0..] == old_.book.bids.levels && [] + old_.book.asks.levels[0..] == old_.book.asks.levels;
  }

  /**
   A file that ends in or right behind the length of its first record, with a length of at least 6
   to be read: the first book comes back blank, with the locate code 0 and nothing to quote.
   */
  lemma FirstBlanked(saved: seq<Listed>, old_: seq<Listed>, j: nat)
    requires AllStorable(saved) && AllSided(old_) && |saved| < WORD64 && saved != [] && old_ != []
    requires Fits(saved, 0) && j <= 4 && CutLength(Needed(saved[0]), j) >= 6
    ensures 12 + j <= |WriteFile(saved)|
    ensures var r := ReadFile(WriteFile(saved)[..12 + j], old_);
            && r.Restored? && |r.books| == |old_| && r.books[0] == Blanked(old_[0])
            && GetBbo(r.books[0].book) == Bbo(Quote(0, 0), Quote(0, 0))
  {
    var rs := Written(saved, FIRST_BUFFER);
    RecordOf(saved, old_[0], 0);
    FileReaches(saved, 0, j);
    CutFile(saved, old_, 12 + j, 0);
    assert 12 + j - 12 == Start(rs, 0) + j;
    ReadsMixed(rs, 0, j);
    ZerosBlank(old_[0], Mixed(rs, 0, j));
  }

  lemma NeighbourRead(rs: seq<Bytes>, i: nat)
    requires 0 < i < |rs| && |rs[i]| == |rs[i - 1]| > 0
    ensures Mixed(rs, i, 4) == rs[i - 1]
  {
  }

  lemma NeighbourBook(saved: seq<Listed>, rs: seq<Bytes>, old_: Listed, i: nat, want: Listed, got: Listed)
    requires AllStorable(saved) && Sided(old_.book.bids) && Sided(old_.book.asks) && 0 < i < |saved|
    requires Fits(saved, i) && Fits(saved, i - 1) && Needed(saved[i]) == Needed(saved[i - 1]) && rs == Written(saved, FIRST_BUFFER)
    requires want == Overwrite(old_, saved[i - 1]) && got == CutBook(rs, old_, Start(rs, i) + 4, i)
    ensures got == want
  {
    RecordLength(saved, i);
    RecordOf(saved, old_, i - 1);
    NeighbourCut(rs, old_, i);
  }

  /**
   Of two neighbours of the same size, with the file ending behind the length of the second, the
   second comes back as the first: with its locate code, its levels and its quotes.
   */
  lemma NeighbourReturns(saved: seq<Listed>, rs: seq<Bytes>, old_: seq<Listed>, i: nat, k: nat)
    requires AllStorable(saved) && AllSided(old_) && |saved| < WORD64 && 0 < i < |saved| && i < |old_|
    requires Fits(saved, i) && Fits(saved, i - 1) && Needed(saved[i]) == Needed(saved[i - 1])
    requires rs == Written(saved, FIRST_BUFFER) && k == 12 + Start(rs, i) + 4
    ensures k <= |WriteFile(saved)|
    ensures var r := ReadFile(WriteFile(saved)[..k], old_);
            && r.Restored? && |r.books| == |old_| && r.books[i] == Overwrite(old_[i], saved[i - 1])
            && GetBbo(r.books[i].book) == GetBbo(saved[i - 1].book)
  {
    NeighbourBook(saved, rs, old_[i], i, Overwrite(old_[i], saved[i - 1]), CutBook(rs, old_[i], k - 12, i));
    FileReaches(saved, i, 4);
    CutFile(saved, old_, k, i);
    BboRestored(old_[i], saved[i - 1]);
  }

  lemma RecordLength(saved: seq<Listed>, i: nat)
    requires AllStorable(saved) && i < |saved| && Fits(saved, i)
    ensures |Written(saved, FIRST_BUFFER)[i]| == Needed(saved[i])
  {
    WrittenAt(saved, FIRST_BUFFER, i);
  }

  lemma NeighbourCut(rs: seq<Bytes>, old_: Listed, i: nat)
    requires 0 < i < |rs| && |rs[i]| == |rs[i - 1]| > 0 && Sided(old_.book.bids) && Sided(old_.book.asks)
    ensures CutBook(rs, old_, Start(rs, i) + 4, i) == Restore(old_, rs[i - 1]).listed
  {
    ReadsMixed(rs, i, 4);
    NeighbourRead(rs, i);
  }
}
