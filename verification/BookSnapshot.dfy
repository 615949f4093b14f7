/**
 Snapshots: the level ladders of all books, written to one file and read back over other books.
 */
module BookSnapshot {
  import opened Words
  import opened Wire
  import opened BookModel
  import opened BookTheorems

  const LEVEL_BYTES: nat := 64
  const MAGIC: nat := 0x4954_4348
  const FIRST_BUFFER: nat := 4096

  /** A book with its locate code. */
  datatype Listed = Listed(locate: nat, book: Book)

  // ----- Levels -----

  predicate LevelFits(l: Level) {
    && -0x8000_0000_0000_0000 <= l.price < 0x8000_0000_0000_0000
    && l.total < WORD32 && l.count < WORD32 && l.head < WORD32 && l.tail < WORD32
  }

  function Unsigned64(x: int): (n: nat)
    requires -0x8000_0000_0000_0000 <= x < 0x8000_0000_0000_0000
    ensures n < WORD64 && Signed64(n) == x
  {
    if x < 0 then x + WORD64 else x
  }

  function Signed64(n: nat): (x: int) {
    if n < 0x8000_0000_0000_0000 then n else n - 0x1_0000_0000_0000_0000
  }

  /** A level in memory: its fields in host order and 40 bytes of padding. */
  function EncodeLevel(l: Level): (b: Bytes)
    requires LevelFits(l)
    ensures |b| == LEVEL_BYTES
  {
    EncodeLow(Unsigned64(l.price), 8) + EncodeLow(l.total, 4) + EncodeLow(l.count, 4)
    + EncodeLow(l.head, 4) + EncodeLow(l.tail, 4) + EncodeLow(0, 40)
  }

  function DecodeLevel(b: Bytes): (l: Level)
    requires |b| >= LEVEL_BYTES
  {
    Level(Signed64(DecodeLow(b[0..8])), DecodeLow(b[8..12]), DecodeLow(b[12..16]),
          DecodeLow(b[16..20]), DecodeLow(b[20..24]))
  }

  lemma LevelSlices(p: Bytes, t: Bytes, c: Bytes, h: Bytes, e: Bytes, z: Bytes, rest: Bytes)
    requires |p| == 8 && |t| == 4 && |c| == 4 && |h| == 4 && |e| == 4
    ensures var b := p + t + c + h + e + z + rest;
            b[0..8] == p && b[8..12] == t && b[12..16] == c && b[16..20] == h && b[20..24] == e
  {
  }

  lemma LevelReads(l: Level, rest: Bytes)
    requires LevelFits(l)
    ensures DecodeLevel(EncodeLevel(l) + rest) == l
  {
    LevelSlices(EncodeLow(Unsigned64(l.price), 8), EncodeLow(l.total, 4), EncodeLow(l.count, 4),
                EncodeLow(l.head, 4), EncodeLow(l.tail, 4), EncodeLow(0, 40), rest);
    Widths();
    DecodeEncodeLow(Unsigned64(l.price), 8);
    DecodeEncodeLow(l.total, 4);
    DecodeEncodeLow(l.count, 4);
    DecodeEncodeLow(l.head, 4);
    DecodeEncodeLow(l.tail, 4);
  }

  ghost predicate LevelsFit(ls: seq<Level>) {
    forall i :: 0 <= i < |ls| ==> LevelFits(ls[i])
  }

  function EncodeLevels(ls: seq<Level>): (b: Bytes)
    requires LevelsFit(ls)
    ensures |b| == LEVEL_BYTES * |ls|
  {
    if ls == [] then [] else EncodeLevel(ls[0]) + EncodeLevels(ls[1..])
  }

  function DecodeLevels(b: Bytes, n: nat): (ls: seq<Level>)
    requires |b| >= LEVEL_BYTES * n
    ensures |ls| == n
  {
    seq(n, m requires 0 <= m < n => DecodeLevel(b[LEVEL_BYTES * m..]))
  }

  /** The bytes from level `m` on. */
  lemma {:induction false} EncodedAt(ls: seq<Level>, rest: Bytes, m: nat)
    requires LevelsFit(ls) && m < |ls|
    ensures (EncodeLevels(ls) + rest)[LEVEL_BYTES * m..] == EncodeLevel(ls[m]) + (EncodeLevels(ls[m + 1..]) + rest)
  {
    var first, more := EncodeLevel(ls[0]), EncodeLevels(ls[1..]);
    if m == 0 {
      assert first + more + rest == first + (more + rest);
    } else {
      EncodedAt(ls[1..], rest, m - 1);
      assert ls[1..][m..] == ls[m + 1..];
      Behind(first, more, rest, LEVEL_BYTES * (m - 1));
    }
  }

  lemma Behind(first: Bytes, more: Bytes, rest: Bytes, k: nat)
    requires |first| == LEVEL_BYTES && k <= |more| + |rest|
    ensures (first + more + rest)[LEVEL_BYTES + k..] == (more + rest)[k..]
  {
  }

  lemma LevelsRead(ls: seq<Level>, rest: Bytes)
    requires LevelsFit(ls)
    ensures DecodeLevels(EncodeLevels(ls) + rest, |ls|) == ls
  {
    forall m | 0 <= m < |ls| ensures DecodeLevels(EncodeLevels(ls) + rest, |ls|)[m] == ls[m] {
      EncodedAt(ls, rest, m);
      LevelReads(ls[m], EncodeLevels(ls[m + 1..]) + rest);
    }
  }

  // ----- One book -----

  ghost predicate Sided(l: Ladder) {
    |l.levels| == MAX_LEVELS && l.depth <= MAX_LEVELS
  }

  ghost predicate Storable(x: Listed) {
    && x.locate < 0x1_0000 && Sided(x.book.bids) && Sided(x.book.asks)
    && LevelsFit(x.book.bids.levels) && LevelsFit(x.book.asks.levels)
  }

  /** The bytes that a book takes. */
  function Needed(x: Listed): (n: nat) {
    6 + LEVEL_BYTES * x.book.bids.depth + LEVEL_BYTES * x.book.asks.depth
  }

  function Shown(l: Ladder): (ls: seq<Level>)
    requires l.depth <= |l.levels|
    ensures |ls| == l.depth
  {
    l.levels[..l.depth]
  }

  /** Nothing is written into a buffer that is too small. */
  function Serialize(x: Listed, size: nat): (b: Bytes)
    requires Storable(x)
    ensures |b| == if size < Needed(x) then 0 else Needed(x)
  {
    if size < Needed(x) then []
    else
      EncodeLow(x.locate, 2) + EncodeLow(x.book.bids.depth, 2) + EncodeLow(x.book.asks.depth, 2)
      + EncodeLevels(Shown(x.book.bids)) + EncodeLevels(Shown(x.book.asks))
  }

  /** The first levels of a ladder are overwritten; the ones behind them stay. */
  function Overlay(l: Ladder, ls: seq<Level>): (r: Ladder)
    requires |ls| <= |l.levels|
  {
    Ladder(ls + l.levels[|ls|..], |ls|)
  }

  datatype Restoring = Restoring(listed: Listed, ok: bool)

  /** The numbers of levels are in range, and all of these levels are there. */
  predicate Complete(b: Bytes) {
    && |b| >= 6 && DecodeLow(b[2..4]) <= MAX_LEVELS && DecodeLow(b[4..6]) <= MAX_LEVELS
    && |b| >= 6 + LEVEL_BYTES * DecodeLow(b[2..4]) + LEVEL_BYTES * DecodeLow(b[4..6])
  }

  function BidsOf(b: Bytes): (ls: seq<Level>)
    requires Complete(b)
    ensures |ls| == DecodeLow(b[2..4])
  {
    DecodeLevels(b[6..], DecodeLow(b[2..4]))
  }

  function AsksOf(b: Bytes): (ls: seq<Level>)
    requires Complete(b)
    ensures |ls| == DecodeLow(b[4..6])
  {
    DecodeLevels(b[6 + LEVEL_BYTES * DecodeLow(b[2..4])..], DecodeLow(b[4..6]))
  }

  function Restore(x: Listed, b: Bytes): (r: Restoring)
    requires Sided(x.book.bids) && Sided(x.book.asks)
  {
    if !Complete(b) then Restoring(x, false)
    else
      var book := x.book.(bids := Overlay(x.book.bids, BidsOf(b)), asks := Overlay(x.book.asks, AsksOf(b)));
      Restoring(Listed(DecodeLow(b[0..2]), book), true)
  }

  /** `old_` with the locate code, the depths and the shown levels of `saved`, and all else its own. */
  function Overwrite(old_: Listed, saved: Listed): (r: Listed)
    requires Storable(saved) && Sided(old_.book.bids) && Sided(old_.book.asks)
    ensures Sided(r.book.bids) && Sided(r.book.asks)
  {
    Listed(saved.locate, old_.book.(bids := Overlay(old_.book.bids, Shown(saved.book.bids)),
                                    asks := Overlay(old_.book.asks, Shown(saved.book.asks))))
  }

  lemma BookSlices(l: Bytes, b: Bytes, a: Bytes, bids: Bytes, asks: Bytes)
    requires |l| == 2 && |b| == 2 && |a| == 2
    ensures var s := l + b + a + bids + asks;
            && s[0..2] == l && s[2..4] == b && s[4..6] == a
            && s[6..] == bids + asks && s[6 + |bids|..] == asks
  {
  }

  lemma BookReads(old_: Listed, saved: Listed, size: nat)
    requires Storable(saved) && Sided(old_.book.bids) && Sided(old_.book.asks) && size >= Needed(saved)
    ensures Restore(old_, Serialize(saved, size)) == Restoring(Overwrite(old_, saved), true)
  {
    var bids, asks := Shown(saved.book.bids), Shown(saved.book.asks);
    BookSlices(EncodeLow(saved.locate, 2), EncodeLow(|bids|, 2), EncodeLow(|asks|, 2), EncodeLevels(bids), EncodeLevels(asks));
    Widths();
    DecodeEncodeLow(saved.locate, 2);
    DecodeEncodeLow(|bids|, 2);
    DecodeEncodeLow(|asks|, 2);
    LevelsRead(bids, EncodeLevels(asks));
    LevelsRead(asks, []);
    assert EncodeLevels(asks) + [] == EncodeLevels(asks);
  }

  /** Level by level: the levels in use of the saved book, and behind them, as everywhere else, those of the old one. */
  lemma OverwriteIs(old_: Listed, saved: Listed, i: nat)
    requires Storable(saved) && Sided(old_.book.bids) && Sided(old_.book.asks) && i < 256
    ensures var x := Overwrite(old_, saved);
            var r, o, s := x.book, old_.book, saved.book;
            && x.locate == saved.locate && r.bids.depth == s.bids.depth && r.asks.depth == s.asks.depth
            && r.bids.levels[i] == (if i < s.bids.depth then s.bids.levels[i] else o.bids.levels[i])
            && r.asks.levels[i] == (if i < s.asks.depth then s.asks.levels[i] else o.asks.levels[i])
            && r.orders == o.orders && r.free == o.free && r.index == o.index
  {
  }

  /** A restored book quotes what the saved one did. */
  lemma BboRestored(old_: Listed, saved: Listed)
    requires Storable(saved) && Sided(old_.book.bids) && Sided(old_.book.asks)
    ensures GetBbo(Overwrite(old_, saved).book) == GetBbo(saved.book)
  {
  }

  // ----- The file -----

  /** The buffer is doubled once for a book that does not fit, and stays so. */
  function Grown(x: Listed, size: nat): (r: nat) {
    if size < Needed(x) then 2 * size else size
  }

  /** The buffer for book `i`, after the doubling it may have caused; it starts with `size` bytes. */
  function BufferFor(saved: seq<Listed>, i: nat, size: nat): (r: nat)
    requires i < |saved|
  {
    var grown := Grown(saved[0], size);
    if i == 0 then grown else BufferFor(saved[1..], i - 1, grown)
  }

  ghost predicate AllStorable(books: seq<Listed>) {
    forall i :: 0 <= i < |books| ==> Storable(books[i])
  }

  ghost predicate AllSided(books: seq<Listed>) {
    forall i :: 0 <= i < |books| ==> Sided(books[i].book.bids) && Sided(books[i].book.asks)
  }

  function Written(saved: seq<Listed>, size: nat): (rs: seq<Bytes>)
    requires AllStorable(saved)
    ensures |rs| == |saved|
  {
    if saved == [] then []
    else
      var grown := Grown(saved[0], size);
      [Serialize(saved[0], grown)] + Written(saved[1..], grown)
  }

  /** Records, each behind its length. */
  function Frames(rs: seq<Bytes>): (b: Bytes) {
    if rs == [] then [] else EncodeLow(|rs[0]|, 4) + rs[0] + Frames(rs[1..])
  }

  function WriteFile(books: seq<Listed>): (b: Bytes)
    requires AllStorable(books)
  {
    EncodeLow(MAGIC, 4) + EncodeLow(|books|, 8) + Frames(Written(books, FIRST_BUFFER))
  }

  /** A file begins with the bytes H, C, T and I and the number of books. */
  lemma FileHead(books: seq<Listed>)
    requires AllStorable(books) && |books| < WORD64
    ensures var b := WriteFile(books);
            |b| >= 12 && b[..4] == ['H' as int, 'C' as int, 'T' as int, 'I' as int] && DecodeLow(b[4..12]) == |books|
  {
    MagicBytes(EncodeLow(MAGIC, 4));
    CountReads(|books|, 8);
    HeadSlices(WriteFile(books), EncodeLow(MAGIC, 4), EncodeLow(|books|, 8), Frames(Written(books, FIRST_BUFFER)));
  }

  lemma MagicBytes(magic: Bytes)
    requires magic == EncodeLow(MAGIC, 4)
    ensures magic == ['H' as int, 'C' as int, 'T' as int, 'I' as int]
  {
    LowFour(MAGIC);
  }

  lemma CountReads(n: nat, width: nat)
    requires n < WORD64 && width == 8
    ensures DecodeLow(EncodeLow(n, width)) == n
  {
    Widths();
    DecodeEncodeLow(n, width);
  }

  lemma HeadSlices(b: Bytes, magic: Bytes, count: Bytes, body: Bytes)
    requires |magic| == 4 && |count| == 8 && b == magic + count + body
    ensures |b| >= 12 && b[..4] == magic && b[4..12] == count
  {
  }

  /** A record begins with the locate code and the depths of the bids and of the asks, each low byte first. */
  lemma RecordHead(x: Listed, size: nat)
    requires Storable(x) && size >= 6 + 64 * x.book.bids.depth + 64 * x.book.asks.depth
    ensures var b := Serialize(x, size);
            && |b| == 6 + 64 * x.book.bids.depth + 64 * x.book.asks.depth
            && b[..6] == [x.locate % 256, x.locate / 256, x.book.bids.depth % 256, x.book.bids.depth / 256,
                          x.book.asks.depth % 256, x.book.asks.depth / 256]
  {
    LowPair(x.locate);
    LowPair(x.book.bids.depth);
    LowPair(x.book.asks.depth);
    SixBytes(Serialize(x, size), EncodeLow(x.locate, 2), EncodeLow(x.book.bids.depth, 2), EncodeLow(x.book.asks.depth, 2),
             EncodeLevels(Shown(x.book.bids)), EncodeLevels(Shown(x.book.asks)));
  }

  lemma SixBytes(b: Bytes, l: Bytes, m: Bytes, n: Bytes, bids: Bytes, asks: Bytes)
    requires |l| == |m| == |n| == 2 && b == l + m + n + bids + asks
    ensures |b| >= 6 && b[..6] == [l[0], l[1], m[0], m[1], n[0], n[1]]
  {
  }

  // ----- Reading, from files of any length -----

  /** What a read of `n` bytes leaves of a file. */
  function Left(b: Bytes, n: nat): (r: Bytes) {
    if |b| < n then [] else b[n..]
  }

  /** A word of `n` bytes, low byte first, that was zero before the read. */
  function ReadWord(b: Bytes, n: nat): (w: nat) {
    if n == 0 || b == [] then 0 else b[0] + 256 * ReadWord(b[1..], n - 1)
  }

  /**
   A buffer after a read of `len` bytes into it: byte by byte that of the file, past its end what the
   buffer held, and past the end of both the zero that the buffer grows by.
   */
  function Loaded(b: Bytes, buf: Bytes, len: nat): (r: Bytes)
    ensures |r| >= len
    decreases len
  {
    if len == 0 then buf
    else [if b != [] then b[0] else if buf != [] then buf[0] else 0] + Loaded(Left(b, 1), Left(buf, 1), len - 1)
  }

  /** A file being read: what is left of it, and the buffer with what the records before left there. */
  datatype Reader = Reader(rest: Bytes, buf: Bytes)

  function Record(r: Reader): (x: Bytes) {
    var len := ReadWord(r.rest, 4);
    Loaded(Left(r.rest, 4), r.buf, len)[..len]
  }

  function Next(r: Reader): (n: Reader) {
    var len := ReadWord(r.rest, 4);
    Reader(Left(Left(r.rest, 4), len), Loaded(Left(r.rest, 4), r.buf, len))
  }

  /** The reader behind `i` records. */
  function After(r: Reader, i: nat): (n: Reader) {
    if i == 0 then r else Next(After(r, i - 1))
  }

  /** The reader behind the header, and the number of records that the header promises. */
  function Opened(b: Bytes): (r: Reader) {
    Reader(Left(Left(b, 4), 8), seq(FIRST_BUFFER, _ => 0))
  }

  function Promised(b: Bytes): (n: nat) {
    ReadWord(Left(b, 4), 8)
  }

  /** Book `i` after a file is read over it. */
  function RestoredAt(b: Bytes, x: Listed, i: nat): (r: Listed)
    requires Sided(x.book.bids) && Sided(x.book.asks)
  {
    if i < Promised(b) then Restore(x, Record(After(Opened(b), i))).listed else x
  }

  datatype Outcome =
    | Restored(books: seq<Listed>)
    | BadMagic

  function ReadFile(b: Bytes, books: seq<Listed>): (r: Outcome)
    requires AllSided(books)
  {
    if ReadWord(b, 4) != MAGIC then BadMagic
    else Restored(seq(|books|, i requires 0 <= i < |books| => RestoredAt(b, books[i], i)))
  }

  // ----- What comes back -----

  /** What book `i` must be: the saved one if it fits its buffer, and itself if not. */
  function Expected(saved: seq<Listed>, old_: seq<Listed>, i: nat): (x: Listed)
    requires i < |old_| && AllStorable(saved) && AllSided(old_)
  {
    if i < |saved| && Needed(saved[i]) <= BufferFor(saved, i, FIRST_BUFFER) then Overwrite(old_[i], saved[i]) else old_[i]
  }

  lemma {:induction false} WrittenAt(saved: seq<Listed>, size: nat, i: nat)
    requires AllStorable(saved) && i < |saved|
    ensures Written(saved, size)[i] == Serialize(saved[i], BufferFor(saved, i, size))
  {
    if i > 0 {
      WrittenAt(saved[1..], Grown(saved[0], size), i - 1);
    }
  }

  lemma WrittenRestores(saved: seq<Listed>, old_: seq<Listed>, i: nat)
    requires AllStorable(saved) && AllSided(old_) && i < |saved| && i < |old_|
    ensures Restore(old_[i], Written(saved, FIRST_BUFFER)[i]).listed == Expected(saved, old_, i)
  {
    var size := BufferFor(saved, i, FIRST_BUFFER);
    WrittenAt(saved, FIRST_BUFFER, i);
    if Needed(saved[i]) <= size {
      BookReads(old_[i], saved[i], size);
    }
  }

  ghost predicate Short(rs: seq<Bytes>) {
    forall i :: 0 <= i < |rs| ==> |rs[i]| < WORD32
  }

  lemma WrittenShort(saved: seq<Listed>, size: nat)
    requires AllStorable(saved)
    ensures Short(Written(saved, size))
  {
    forall i | 0 <= i < |saved| ensures |Written(saved, size)[i]| < WORD32 {
      WrittenAt(saved, size, i);
    }
  }

  lemma {:induction false} WholeWord(w: Bytes, rest: Bytes, n: nat)
    requires |w| == n
    ensures ReadWord(w + rest, n) == DecodeLow(w) && Left(w + rest, n) == rest
  {
    if n > 0 {
      assert (w + rest)[1..] == w[1..] + rest;
      WholeWord(w[1..], rest, n - 1);
    }
  }

  lemma {:induction false} WholeRecord(s: Bytes, rest: Bytes, buf: Bytes)
    ensures Loaded(s + rest, buf, |s|)[..|s|] == s && Left(s + rest, |s|) == rest
  {
    if s != [] {
      assert Left(s + rest, 1) == s[1..] + rest;
      WholeRecord(s[1..], rest, Left(buf, 1));
    }
  }

  /** Behind the magic number and the count. */
  lemma HeadReads(count: nat, body: Bytes)
    requires count < WORD64
    ensures var b := EncodeLow(MAGIC, 4) + EncodeLow(count, 8) + body;
            && ReadWord(b, 4) == MAGIC && Promised(b) == count && Opened(b).rest == body
  {
    var m, c := EncodeLow(MAGIC, 4), EncodeLow(count, 8);
    Widths();
    DecodeEncodeLow(MAGIC, 4);
    DecodeEncodeLow(count, 8);
    assert m + c + body == m + (c + body);
    WholeWord(m, c + body, 4);
    WholeWord(c, body, 8);
  }

  // ----- Files that may end early -----

  /** The bytes in front of record `i`. */
  function Start(rs: seq<Bytes>, i: nat): (n: nat)
    requires i <= |rs|
  {
    if i == 0 then 0 else Start(rs, i - 1) + 4 + |rs[i - 1]|
  }

  lemma {:induction false} AllInFront(rs: seq<Bytes>, i: nat)
    requires i <= |rs|
    ensures Start(rs, i) + |Frames(rs[i..])| == |Frames(rs)|
  {
    if i == 0 {
      assert rs[0..] == rs;
    } else {
      AllInFront(rs, i - 1);
      FramesOpen(rs, i - 1);
    }
  }

  /** The first `k` bytes of some framed records. */
  ghost predicate Front(b: Bytes, rs: seq<Bytes>, k: nat) {
    k <= |Frames(rs)| && b == Frames(rs)[..k]
  }

  /** At the end of the file the length reads as zero. */
  lemma NothingLeft(r: Reader)
    requires r.rest == []
    ensures Record(r) == [] && Next(r).rest == []
  {
  }

  lemma LengthReads(s: Bytes, more: Bytes)
    requires |s| < WORD32
    ensures var b := EncodeLow(|s|, 4) + more; ReadWord(b, 4) == |s| && Left(b, 4) == more
  {
    Widths();
    DecodeEncodeLow(|s|, 4);
    WholeWord(EncodeLow(|s|, 4), more, 4);
  }

  lemma Grouped(p: Bytes, s: Bytes, more: Bytes)
    ensures p + s + more == p + (s + more)
  {
  }

  lemma WholeNext(r: Reader, s: Bytes, more: Bytes)
    requires |s| < WORD32 && r.rest == EncodeLow(|s|, 4) + s + more
    ensures Record(r) == s && Next(r).rest == more
  {
    Grouped(EncodeLow(|s|, 4), s, more);
    LengthReads(s, s + more);
    WholeRecord(s, more, r.buf);
  }

  /** The file ends behind the length of a record. */
  lemma CutNext(r: Reader, s: Bytes, k: nat)
    requires |s| < WORD32 && k < |s| && r.rest == EncodeLow(|s|, 4) + s[..k]
    ensures Record(r) == Loaded(s[..k], r.buf, |s|)[..|s|] && Next(r).rest == []
  {
    LengthReads(s, s[..k]);
  }

  lemma CutBehind(p: Bytes, s: Bytes, more: Bytes, k: nat)
    requires |p| == 4 && k <= 4 + |s| + |more|
    ensures (p + s + more)[..k] == if k < 4 then p[..k] else if k < 4 + |s| then p + s[..k - 4] else p + s + more[..k - 4 - |s|]
  {
  }

  lemma ShortLength(r: Reader)
    requires |r.rest| < 4
    ensures Next(r).rest == []
  {
  }

  lemma FramesOpen(rs: seq<Bytes>, i: nat)
    requires i < |rs|
    ensures Frames(rs[i..]) == EncodeLow(|rs[i]|, 4) + rs[i] + Frames(rs[i + 1..])
  {
    assert rs[i..][1..] == rs[i + 1..];
  }

  /** One record further in a file that ends early. */
  lemma FrontNext(r: Reader, rs: seq<Bytes>, k: nat, i: nat)
    requires Short(rs) && i < |rs| && Front(r.rest, rs[i..], k)
    ensures 4 + |rs[i]| <= k ==>
      Record(r) == rs[i] && Front(Next(r).rest, rs[i + 1..], k - 4 - |rs[i]|)
    ensures k < 4 + |rs[i]| ==> Next(r).rest == []
  {
    var s, more := rs[i], Frames(rs[i + 1..]);
    FramesOpen(rs, i);
    CutBehind(EncodeLow(|s|, 4), s, more, k);
    if k < 4 {
      ShortLength(r);
    } else if k < 4 + |s| {
      CutNext(r, s, k - 4);
    } else {
      WholeNext(r, s, more[..k - 4 - |s|]);
    }
  }

  /** Behind `i` records of a file of `k` bytes: the start of the records that follow, or nothing. */
  ghost predicate Stands(st: Reader, rs: seq<Bytes>, k: nat, i: nat)
    requires i <= |rs|
  {
    if Start(rs, i) <= k then Front(st.rest, rs[i..], k - Start(rs, i)) else st.rest == []
  }

  lemma FrontStep(st: Reader, rs: seq<Bytes>, k: nat, i: nat)
    requires Short(rs) && i < |rs| && Stands(st, rs, k, i)
    ensures Stands(Next(st), rs, k, i + 1)
  {
    if Start(rs, i) <= k {
      FrontNext(st, rs, k - Start(rs, i), i);
    } else {
      NothingLeft(st);
    }
  }

  lemma {:induction false} FrontAfter(r: Reader, rs: seq<Bytes>, k: nat, i: nat)
    requires Short(rs) && i <= |rs| && Front(r.rest, rs, k)
    ensures Stands(After(r, i), rs, k, i)
  {
    if i == 0 {
      assert rs[0..] == rs;
    } else {
      FrontAfter(r, rs, k, i - 1);
      FrontStep(After(r, i - 1), rs, k, i - 1);
    }
  }

  /** A record in front of the cut is read whole, and one behind it is empty. */
  lemma CutRecord(r: Reader, rs: seq<Bytes>, k: nat, i: nat)
    requires Short(rs) && i < |rs| && Front(r.rest, rs, k)
    ensures Start(rs, i + 1) <= k ==> Record(After(r, i)) == rs[i]
    ensures k <= Start(rs, i) ==> Record(After(r, i)) == []
  {
    FrontAfter(r, rs, k, i);
    var st := After(r, i);
    if Start(rs, i + 1) <= k {
      FrontNext(st, rs, k - Start(rs, i), i);
    } else if k <= Start(rs, i) {
      NothingLeft(st);
    }
  }

  /** A file that ends behind its header. */
  lemma CutTail(saved: seq<Listed>, k: nat)
    requires AllStorable(saved) && |saved| < WORD64 && 12 <= k <= |WriteFile(saved)|
    ensures var b := WriteFile(saved)[..k];
            && ReadWord(b, 4) == MAGIC && Promised(b) == |saved|
            && Front(Opened(b).rest, Written(saved, FIRST_BUFFER), k - 12)
  {
    var body := Frames(Written(saved, FIRST_BUFFER));
    assert WriteFile(saved)[..k] == EncodeLow(MAGIC, 4) + EncodeLow(|saved|, 8) + body[..k - 12];
    HeadReads(|saved|, body[..k - 12]);
  }

  lemma CutRestores(saved: seq<Listed>, old_: seq<Listed>, k: nat, i: nat)
    requires AllStorable(saved) && AllSided(old_) && |saved| < WORD64
    requires 12 <= k <= |WriteFile(saved)| && i < |old_|
    ensures var rs, x := Written(saved, FIRST_BUFFER), RestoredAt(WriteFile(saved)[..k], old_[i], i);
            && (i < |saved| && 12 + Start(rs, i + 1) <= k ==> x == Expected(saved, old_, i))
            && (i >= |saved| || k <= 12 + Start(rs, i) ==> x == old_[i])
  {
    CutTail(saved, k);
    if i < |saved| {
      WrittenShort(saved, FIRST_BUFFER);
      WrittenRestores(saved, old_, i);
      CutRecord(Opened(WriteFile(saved)[..k]), Written(saved, FIRST_BUFFER), k - 12, i);
    }
  }

  /** Reading back what was written gives the expected books, for every list of books. */
  lemma RoundTrip(saved: seq<Listed>, old_: seq<Listed>)
    requires AllStorable(saved) && AllSided(old_) && |saved| < WORD64
    ensures var r := ReadFile(WriteFile(saved), old_);
            && r.Restored? && |r.books| == |old_|
            && forall i :: 0 <= i < |old_| ==> r.books[i] == Expected(saved, old_, i)
  {
    var r, k := ReadFile(WriteFile(saved), old_), |WriteFile(saved)|;
    assert WriteFile(saved)[..k] == WriteFile(saved);
    CutTail(saved, k);
    forall i | 0 <= i < |old_| ensures r.books[i] == Expected(saved, old_, i) {
      AllReturns(saved, old_, i);
    }
  }

  lemma AllReturns(saved: seq<Listed>, old_: seq<Listed>, i: nat)
    requires AllStorable(saved) && AllSided(old_) && |saved| < WORD64 && i < |old_|
    ensures RestoredAt(WriteFile(saved), old_[i], i) == Expected(saved, old_, i)
  {
    var b := WriteFile(saved);
    assert b[..|b|] == b;
    CutRestores(saved, old_, |b|, i);
    if i < |saved| {
      AllInFront(Written(saved, FIRST_BUFFER), i + 1);
    }
  }

  /** The number of levels of a book that are in use. */
  function Levels(x: Listed): (n: nat) {
    x.book.bids.depth + x.book.asks.depth
  }

  lemma {:induction false} SmallBookFits(saved: seq<Listed>, i: nat, size: nat)
    requires i < |saved| && size >= FIRST_BUFFER && Levels(saved[i]) <= 127
    ensures Needed(saved[i]) <= BufferFor(saved, i, size)
  {
    if i > 0 {
      SmallBookFits(saved[1..], i - 1, Grown(saved[0], size));
    }
  }

  /** A book of at most 127 levels always comes back, whatever books stand around it. */
  lemma SmallBookReturns(saved: seq<Listed>, old_: seq<Listed>, i: nat)
    requires AllStorable(saved) && AllSided(old_) && i < |saved| && i < |old_|
    requires |saved| < WORD64
    requires Levels(saved[i]) <= 127
    ensures var r := ReadFile(WriteFile(saved), old_);
            r.Restored? && |r.books| == |old_| && r.books[i] == Overwrite(old_[i], saved[i])
            && GetBbo(r.books[i].book) == GetBbo(saved[i].book)
  {
    RoundTrip(saved, old_);
    SmallBookFits(saved, i, FIRST_BUFFER);
    BboRestored(old_[i], saved[i]);
  }

  /** 127 is exact: the first book of a file comes back if and only if it has no more levels. */
  lemma FirstBookReturnsIff(saved: seq<Listed>, old_: seq<Listed>)
    requires AllStorable(saved) && AllSided(old_) && saved != [] && old_ != []
    requires |saved| < WORD64
    ensures var r := ReadFile(WriteFile(saved), old_);
            && r.Restored? && |r.books| == |old_|
            && r.books[0] == if Levels(saved[0]) <= 127 then Overwrite(old_[0], saved[0]) else old_[0]
  {
    RoundTrip(saved, old_);
    assert BufferFor(saved, 0, FIRST_BUFFER) == Grown(saved[0], FIRST_BUFFER);
  }

  // ----- Writing and reading as they run -----

  method Write(books: seq<Listed>) returns (file: Bytes)
    requires AllStorable(books)
    ensures file == WriteFile(books)
  {
    file := EncodeLow(MAGIC, 4) + EncodeLow(|books|, 8);
    var size := FIRST_BUFFER;
    assert books[0..] == books;
    for i := 0 to |books|
      invariant file + Frames(Written(books[i..], size)) == WriteFile(books)
    {
      ghost var before, was := file, size;
      var written := Serialize(books[i], size);
      if |written| == 0 {
        size := size * 2;
        written := Serialize(books[i], size);
      }
      file := file + EncodeLow(|written|, 4) + written;
      assert size == Grown(books[i], was);
      WrittenOpens(books, i, was);
      Joined(before, EncodeLow(|written|, 4), written, Frames(Written(books[i + 1..], size)));
    }
  }

  lemma WrittenOpens(books: seq<Listed>, i: nat, size: nat)
    requires AllStorable(books) && i < |books|
    ensures var grown := Grown(books[i], size);
            var s := Serialize(books[i], grown);
            Frames(Written(books[i..], size)) == EncodeLow(|s|, 4) + s + Frames(Written(books[i + 1..], grown))
  {
    var grown := Grown(books[i], size);
    assert books[i..][1..] == books[i + 1..];
    assert Written(books[i..], size)[1..] == Written(books[i + 1..], grown);
  }

  lemma Joined(a: Bytes, b: Bytes, c: Bytes, d: Bytes)
    ensures a + (b + c + d) == a + b + c + d
  {
  }

  /** Restores books in place from a file. */
  method Read(file: Bytes, books: array<Listed>) returns (ok: bool)
    requires AllSided(books[..])
    modifies books
    ensures ok == ReadFile(file, old(books[..])).Restored?
    ensures books[..] == if ok then ReadFile(file, old(books[..])).books else old(books[..])
  {
    if ReadWord(file, 4) != MAGIC {
      return false;
    }
    ReadRecords(Opened(file), books, if Promised(file) < books.Length then Promised(file) else books.Length);
    return true;
  }

  method ReadRecords(start: Reader, books: array<Listed>, n: nat)
    requires n <= books.Length && AllSided(books[..])
    modifies books
    ensures forall j :: 0 <= j < n ==> books[j] == Restore(old(books[j]), Record(After(start, j))).listed
    ensures forall j :: n <= j < books.Length ==> books[j] == old(books[j])
  {
    ghost var was := books[..];
    var reader := start;
    for i := 0 to n
      invariant reader == After(start, i)
      invariant forall j :: 0 <= j < i ==> books[j] == Restore(was[j], Record(After(start, j))).listed
      invariant forall j :: i <= j < books.Length ==> books[j] == was[j]
    {
      books[i] := Restore(books[i], Record(reader)).listed;
      reader := Next(reader);
    }
  }
}
