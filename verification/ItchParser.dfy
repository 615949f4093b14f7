/**
 The ITCH 5.0 parser: length-prefixed message blocks inside a MoldUDP64 packet, and the fields
 of the messages that change a book.
 */
module ItchParser {
  import opened Wire
  import Feed = FeedMerger

  datatype Body =
    | AddOrder(ref: nat, side: Byte, shares: nat, price: nat, stock: Bytes, attribution: Bytes)
    | Executed(ref: nat, shares: nat, matchNumber: nat)
    | ExecutedPrice(ref: nat, shares: nat, matchNumber: nat, printable: bool, price: nat)
    | Cancel(ref: nat, shares: nat)
    | Delete(ref: nat)
    | Replace(orig: nat, ref: nat, shares: nat, price: nat)
    /** A message that leaves every book alone. */
    | Other

  datatype ItchMsg = ItchMsg(kind: Byte, locate: nat, timestamp: nat, body: Body)

  const ADD: Byte := 0x41 // A
  const ADD_MPID: Byte := 0x46 // F
  const EXECUTED: Byte := 0x45 // E
  const EXECUTED_PRICE: Byte := 0x43 // C
  const CANCEL: Byte := 0x58 // X
  const DELETE: Byte := 0x44 // D
  const REPLACE: Byte := 0x55 // U
  const YES: Byte := 0x59
  const NO: Byte := 0x4E
  const NO_MPID: Bytes := [0, 0, 0, 0]

  // ----- One message -----

  /** The kinds L, V, W, K, J and h, which are taken whatever their length is. */
  predicate AlwaysKnown(kind: Byte) {
    kind in {0x4C, 0x56, 0x57, 0x4B, 0x4A, 0x68}
  }

  /** The shortest message of each remaining kind that leaves the books alone; 0 for unknown kinds. */
  function LeastLength(kind: Byte): (n: nat) {
    if kind == 0x53 then 12 // S
    else if kind == 0x52 then 39 // R
    else if kind == 0x48 then 25 // H
    else if kind == 0x59 then 20 // Y
    else if kind == 0x50 then 44 // P
    else if kind == 0x51 then 40 // Q
    else if kind == 0x42 then 19 // B
    else if kind == 0x49 then 50 // I
    else if kind == 0x4E then 20 // N
    else 0
  }

  /** The fields of a message of `len` bytes, [] when it is too short or of an unknown kind. */
  function ParseBody(d: Bytes, len: nat): (r: seq<Body>)
    requires 1 <= len <= |d|
    ensures |r| <= 1
  {
    var kind := d[0];
    if kind == ADD then
      if len < 36 then [] else [AddOrder(Decode(d[11..19]), d[19], Decode(d[20..24]), Decode(d[32..36]), d[24..32], NO_MPID)]
    else if kind == ADD_MPID then
      if len < 40 then [] else [AddOrder(Decode(d[11..19]), d[19], Decode(d[20..24]), Decode(d[32..36]), d[24..32], d[36..40])]
    else if kind == EXECUTED then
      if len < 31 then [] else [Executed(Decode(d[11..19]), Decode(d[19..23]), Decode(d[23..31]))]
    else if kind == EXECUTED_PRICE then
      if len < 36 then [] else [ExecutedPrice(Decode(d[11..19]), Decode(d[19..23]), Decode(d[23..31]), d[31] == YES, Decode(d[32..36]))]
    else if kind == CANCEL then
      if len < 23 then [] else [Cancel(Decode(d[11..19]), Decode(d[19..23]))]
    else if kind == DELETE then
      if len < 19 then [] else [Delete(Decode(d[11..19]))]
    else if kind == REPLACE then
      if len < 35 then [] else [Replace(Decode(d[11..19]), Decode(d[19..27]), Decode(d[27..31]), Decode(d[31..35]))]
    else if AlwaysKnown(kind) then [Other]
    else if 0 < LeastLength(kind) <= len then [Other]
    else []
  }

  /**
   `d` is what is left of the packet, and the message is its first `len` bytes.  The locate code
   is read whatever `len` is; bytes past the end of the packet are taken to be 0.
   */
  function ParseMessage(d: Bytes, len: nat): (r: seq<ItchMsg>)
    requires 1 <= len <= |d|
    ensures |r| <= 1
  {
    var body := ParseBody(d, len);
    if body == [] then []
    else
      var timestamp := if len >= 11 then Decode(d[5..11]) else 0;
      [ItchMsg(d[0], Decode((d + [0, 0])[1..3]), timestamp, body[0])]
  }

  /**
   Which messages are recognised: those of a known type that are long enough for it, L, V, W, K, J
   and h at any length.
   */
  lemma RecognisedIff(d: Bytes, len: nat)
    requires 1 <= len <= |d|
    ensures ParseMessage(d, len) != [] <==>
            || (d[0] == 'A' as int && len >= 36) || (d[0] == 'F' as int && len >= 40)
            || (d[0] == 'E' as int && len >= 31) || (d[0] == 'C' as int && len >= 36)
            || (d[0] == 'X' as int && len >= 23) || (d[0] == 'D' as int && len >= 19)
            || (d[0] == 'U' as int && len >= 35)
            || d[0] == 'L' as int || d[0] == 'V' as int || d[0] == 'W' as int
            || d[0] == 'K' as int || d[0] == 'J' as int || d[0] == 'h' as int
            || (d[0] == 'S' as int && len >= 12) || (d[0] == 'R' as int && len >= 39)
            || (d[0] == 'H' as int && len >= 25) || (d[0] == 'Y' as int && len >= 20)
            || (d[0] == 'P' as int && len >= 44) || (d[0] == 'Q' as int && len >= 40)
            || (d[0] == 'B' as int && len >= 19) || (d[0] == 'I' as int && len >= 50)
            || (d[0] == 'N' as int && len >= 20)
  {
  }

  /** A recognised message changes no book if and only if its type is none of A, F, E, C, X, D and U. */
  lemma OrderKinds(d: Bytes, len: nat)
    requires 1 <= len <= |d| && ParseMessage(d, len) != []
    ensures var m := ParseMessage(d, len)[0];
            && m.kind == d[0]
            && (m.body.AddOrder? <==> d[0] == 'A' as int || d[0] == 'F' as int)
            && (m.body.Executed? <==> d[0] == 'E' as int)
            && (m.body.ExecutedPrice? <==> d[0] == 'C' as int)
            && (m.body.Cancel? <==> d[0] == 'X' as int)
            && (m.body.Delete? <==> d[0] == 'D' as int)
            && (m.body.Replace? <==> d[0] == 'U' as int)
  {
  }

  lemma BodyIsLocal(b: Bytes, rest: Bytes)
    requires 1 <= |b|
    ensures ParseBody(b + rest, |b|) == ParseBody(b, |b|)
  {
    var d := b + rest;
    assert d[0] == b[0];
    forall i, j | 0 <= i <= j <= |b| ensures d[i..j] == b[i..j] {
    }
  }

  /** The message depends only on its own bytes. */
  ghost predicate Local(b: Bytes)
    requires 1 <= |b|
  {
    forall rest: Bytes :: ParseMessage(b + rest, |b|) == ParseMessage(b, |b|)
  }

  lemma LocateIsLocal(b: Bytes, rest: Bytes)
    requires 3 <= |b|
    ensures ParseMessage(b + rest, |b|) == ParseMessage(b, |b|)
  {
    BodyIsLocal(b, rest);
    var d := b + rest;
    assert (d + [0, 0])[1..3] == b[1..3] == (b + [0, 0])[1..3];
    if |b| >= 11 {
      assert d[5..11] == b[5..11];
    }
  }

  /** Only a one- or two-byte message of an always-known kind reads bytes of its neighbour. */
  lemma LocalIff(b: Bytes)
    requires 1 <= |b|
    ensures Local(b) <==> |b| >= 3 || !AlwaysKnown(b[0])
  {
    if |b| >= 3 {
      forall rest: Bytes ensures ParseMessage(b + rest, |b|) == ParseMessage(b, |b|) {
        LocateIsLocal(b, rest);
      }
    } else if !AlwaysKnown(b[0]) {
      forall rest: Bytes ensures ParseMessage(b + rest, |b|) == ParseMessage(b, |b|) {
        BodyIsLocal(b, rest);
      }
    } else {
      var d := b + [1, 1];
      var e := d + [0, 0];
      var f := b + [0, 0];
      Pair(e[1..3]);
      Pair(f[1..3]);
      assert ParseMessage(d, |b|)[0].locate != ParseMessage(b, |b|)[0].locate;
    }
  }

  // ----- Blocks -----

  function Length(b: Bytes): (n: nat)
    requires |b| >= 2
  {
    Decode(b[..2])
  }

  /** No whole block starts here: too little is left, the length is 0, or the packet is truncated. */
  predicate Stuck(b: Bytes) {
    |b| < 2 || Length(b) == 0 || Length(b) > |b| - 2
  }

  /** Every message that the parser takes from a packet, in order. */
  function Messages(b: Bytes): (r: seq<ItchMsg>)
    decreases |b|
  {
    if Stuck(b) then [] else ParseMessage(b[2..], Length(b)) + Messages(b[2 + Length(b)..])
  }

  // The format, independently of how it is read: blocks, each behind its length.
  function Frame(blocks: seq<Bytes>): (b: Bytes) {
    if blocks == [] then [] else Encode(|blocks[0]|, 2) + blocks[0] + Frame(blocks[1..])
  }

  ghost predicate Framable(blocks: seq<Bytes>) {
    forall i :: 0 <= i < |blocks| ==> 1 <= |blocks[i]| < 0x1_0000
  }

  /** The blocks that the parser visits, and what it leaves unread. */
  function Blocks(b: Bytes): (r: seq<Bytes>)
    decreases |b|
  {
    if Stuck(b) then [] else [b[2..2 + Length(b)]] + Blocks(b[2 + Length(b)..])
  }

  function Unread(b: Bytes): (r: Bytes)
    decreases |b|
  {
    if Stuck(b) then b else Unread(b[2 + Length(b)..])
  }

  lemma FrameStarts(prefix: Bytes, block: Bytes, more: seq<Bytes>)
    requires prefix == Encode(|block|, 2)
    ensures Frame([block] + more) == prefix + block + Frame(more)
  {
    var blocks := [block] + more;
    assert blocks[1..] == more;
  }

  /** Every byte string is blocks, each behind its length, and then a stuck tail. */
  lemma {:induction false} EveryPacketSplits(b: Bytes)
    ensures Framable(Blocks(b)) && Stuck(Unread(b))
    ensures b == Frame(Blocks(b)) + Unread(b)
    decreases |b|
  {
    if !Stuck(b) {
      var n := Length(b);
      var rest := b[2 + n..];
      EveryPacketSplits(rest);
      assert Blocks(b) == [b[2..2 + n]] + Blocks(rest) && Unread(b) == Unread(rest);
      SplitStep(b, n, Blocks(rest), Unread(rest));
      MoreFramable(b[2..2 + n], Blocks(rest));
    }
  }

  lemma MoreFramable(block: Bytes, more: seq<Bytes>)
    requires Framable(more) && 1 <= |block| < 0x1_0000
    ensures Framable([block] + more)
  {
  }

  lemma SplitStep(b: Bytes, n: nat, more: seq<Bytes>, tail: Bytes)
    requires !Stuck(b) && n == Length(b) && b[2 + n..] == Frame(more) + tail
    ensures 1 <= n < 0x1_0000 && b == Frame([b[2..2 + n]] + more) + tail
  {
    PrefixFits(b[..2]);
    FrameStarts(b[..2], b[2..2 + n], more);
    Reassembles(b, n, Frame(more), tail);
  }

  lemma PrefixFits(prefix: Bytes)
    requires |prefix| == 2
    ensures Decode(prefix) < 0x1_0000 && Encode(Decode(prefix), 2) == prefix
  {
    EncodeDecode(prefix);
    Widths();
  }

  lemma Reassembles(b: Bytes, n: nat, more: Bytes, tail: Bytes)
    requires 2 + n <= |b| && b[2 + n..] == more + tail
    ensures b == b[..2] + b[2..2 + n] + more + tail
  {
    assert b == b[..2] + b[2..2 + n] + b[2 + n..];
  }

  lemma BlockSlices(prefix: Bytes, block: Bytes, rest: Bytes)
    requires |prefix| == 2
    ensures var b := prefix + block + rest;
            b[..2] == prefix && b[2..] == block + rest && b[2 + |block|..] == rest && b[2..2 + |block|] == block
  {
  }

  lemma FirstBlock(prefix: Bytes, block: Bytes, rest: Bytes)
    requires |prefix| == 2 && Decode(prefix) == |block| >= 1
    ensures var b := prefix + block + rest;
            !Stuck(b) && Length(b) == |block| && b[2..] == block + rest && b[2 + |block|..] == rest
            && b[2..2 + |block|] == block
  {
    BlockSlices(prefix, block, rest);
  }

  /** A packet of at least one block, taken apart. */
  lemma FrameOpens(blocks: seq<Bytes>, tail: Bytes) returns (prefix: Bytes)
    requires Framable(blocks) && blocks != []
    ensures |prefix| == 2 && Decode(prefix) == |blocks[0]|
    ensures Frame(blocks) + tail == prefix + blocks[0] + (Frame(blocks[1..]) + tail)
  {
    prefix := Encode(|blocks[0]|, 2);
    Widths();
    DecodeEncode(|blocks[0]|, 2);
  }

  lemma BlocksOpen(prefix: Bytes, block: Bytes, rest: Bytes)
    requires |prefix| == 2 && Decode(prefix) == |block| >= 1
    ensures Blocks(prefix + block + rest) == [block] + Blocks(rest) && Unread(prefix + block + rest) == Unread(rest)
  {
    FirstBlock(prefix, block, rest);
  }

  /** That split is the only one. */
  lemma {:induction false} SplitIsUnique(blocks: seq<Bytes>, tail: Bytes)
    requires Framable(blocks) && Stuck(tail)
    ensures Blocks(Frame(blocks) + tail) == blocks && Unread(Frame(blocks) + tail) == tail
  {
    if blocks == [] {
      assert Frame(blocks) + tail == tail;
    } else {
      SplitIsUnique(blocks[1..], tail);
      var prefix := FrameOpens(blocks, tail);
      BlocksOpen(prefix, blocks[0], Frame(blocks[1..]) + tail);
    }
  }

  /** Each block read on its own. */
  function Recognised(blocks: seq<Bytes>): (r: seq<ItchMsg>)
    requires forall i :: 0 <= i < |blocks| ==> 1 <= |blocks[i]|
  {
    if blocks == [] then [] else ParseMessage(blocks[0], |blocks[0]|) + Recognised(blocks[1..])
  }

  /** The parser finds the recognised messages of all blocks, whatever stuck tail follows them. */
  lemma {:induction false} ParsesEveryBlock(blocks: seq<Bytes>, tail: Bytes)
    requires Framable(blocks) && Stuck(tail)
    requires forall i :: 0 <= i < |blocks| ==> |blocks[i]| >= 3 || !AlwaysKnown(blocks[i][0])
    ensures Messages(Frame(blocks) + tail) == Recognised(blocks)
  {
    if blocks == [] {
      assert Frame(blocks) + tail == tail;
    } else {
      ParsesEveryBlock(blocks[1..], tail);
      var prefix := FrameOpens(blocks, tail);
      var rest := Frame(blocks[1..]) + tail;
      FirstBlock(prefix, blocks[0], rest);
      LocalIff(blocks[0]);
      assert ParseMessage(blocks[0] + rest, |blocks[0]|) == ParseMessage(blocks[0], |blocks[0]|);
    }
  }

  // ----- The layout of the order messages -----

  predicate Fits(n: nat, width: nat) {
    n < Pow256(width)
  }

  predicate Encodable(m: ItchMsg) {
    && Fits(m.locate, 2) && Fits(m.timestamp, 6)
    && match m.body
       case AddOrder(ref, _, shares, price, stock, attribution) =>
         && Fits(ref, 8) && Fits(shares, 4) && Fits(price, 4) && |stock| == 8 && |attribution| == 4
         && (m.kind == ADD_MPID || (m.kind == ADD && attribution == NO_MPID))
       case Executed(ref, shares, matchNumber) =>
         m.kind == EXECUTED && Fits(ref, 8) && Fits(shares, 4) && Fits(matchNumber, 8)
       case ExecutedPrice(ref, shares, matchNumber, _, price) =>
         m.kind == EXECUTED_PRICE && Fits(ref, 8) && Fits(shares, 4) && Fits(matchNumber, 8) && Fits(price, 4)
       case Cancel(ref, shares) => m.kind == CANCEL && Fits(ref, 8) && Fits(shares, 4)
       case Delete(ref) => m.kind == DELETE && Fits(ref, 8)
       case Replace(orig, ref, shares, price) =>
         m.kind == REPLACE && Fits(orig, 8) && Fits(ref, 8) && Fits(shares, 4) && Fits(price, 4)
       case Other => false
  }

  /** Type, locate code, tracking number and timestamp. */
  function EncodeHeader(m: ItchMsg, tracking: nat): (d: Bytes)
    ensures |d| == 11
  {
    [m.kind] + Encode(m.locate, 2) + Encode(tracking, 2) + Encode(m.timestamp, 6)
  }

  function EncodeBody(m: ItchMsg): (d: Bytes)
    requires Encodable(m)
  {
    match m.body
    case AddOrder(ref, side, shares, price, stock, attribution) =>
      Encode(ref, 8) + [side] + Encode(shares, 4) + stock + Encode(price, 4)
      + (if m.kind == ADD then [] else attribution)
    case Executed(ref, shares, matchNumber) => Encode(ref, 8) + Encode(shares, 4) + Encode(matchNumber, 8)
    case ExecutedPrice(ref, shares, matchNumber, printable, price) =>
      Encode(ref, 8) + Encode(shares, 4) + Encode(matchNumber, 8) + [if printable then YES else NO] + Encode(price, 4)
    case Cancel(ref, shares) => Encode(ref, 8) + Encode(shares, 4)
    case Delete(ref) => Encode(ref, 8)
    case Replace(orig, ref, shares, price) => Encode(orig, 8) + Encode(ref, 8) + Encode(shares, 4) + Encode(price, 4)
  }

  function EncodeMessage(m: ItchMsg, tracking: nat): (d: Bytes)
    requires Encodable(m)
  {
    EncodeHeader(m, tracking) + EncodeBody(m)
  }

  /** The field behind `before` and in front of `after`. */
  lemma FieldReads(d: Bytes, before: Bytes, field: Bytes, after: Bytes)
    requires d == before + field + after
    ensures |before| + |field| <= |d| && d[|before|..|before| + |field|] == field
  {
  }

  lemma FourFields(head: Bytes, a: Bytes, b: Bytes, c: Bytes, e: Bytes)
    ensures var d := head + (a + b + c + e);
            var i, j, k := |head| + |a|, |head| + |a| + |b|, |head| + |a| + |b| + |c|;
            && |d| == k + |e|
            && d[|head|..i] == a && d[i..j] == b && d[j..k] == c && d[k..k + |e|] == e
  {
    var d := head + (a + b + c + e);
    FieldReads(d, head, a, b + c + e);
    FieldReads(d, head + a, b, c + e);
    FieldReads(d, head + a + b, c, e);
    FieldReads(d, head + a + b + c, e, []);
  }

  /** The layout of an integer field reads as the integer. */
  lemma IntReads(n: nat, width: nat)
    requires Fits(n, width)
    ensures Decode(Encode(n, width)) == n
  {
    DecodeEncode(n, width);
  }

  lemma AddReads(m: ItchMsg, tracking: nat)
    requires Encodable(m) && m.body.AddOrder?
    ensures var d := EncodeMessage(m, tracking);
            |d| >= 11 && ParseBody(d, |d|) == [m.body]
  {
    var h := EncodeHeader(m, tracking);
    var o := m.body;
    var ref, shares, price := Encode(o.ref, 8), Encode(o.shares, 4), Encode(o.price, 4);
    var last := if m.kind == ADD then [] else o.attribution;
    AddLayout(h, ref, o.side, shares, o.stock, price, last);
    IntReads(o.ref, 8);
    IntReads(o.shares, 4);
    IntReads(o.price, 4);
  }

  lemma AddLayout(h: Bytes, ref: Bytes, side: Byte, shares: Bytes, stock: Bytes, price: Bytes, last: Bytes)
    requires |h| == 11 && |ref| == 8 && |shares| == 4 && |stock| == 8 && |price| == 4
    ensures var d := h + (ref + [side] + shares + stock + price + last);
            && |d| == 36 + |last| && d[0] == h[0]
            && d[11..19] == ref && d[19] == side && d[20..24] == shares && d[24..32] == stock && d[32..36] == price
            && d[36..36 + |last|] == last
  {
    var d := h + (ref + [side] + shares + stock + price + last);
    FieldReads(d, h, ref, [side] + shares + stock + price + last);
    FieldReads(d, h + ref + [side], shares, stock + price + last);
    FieldReads(d, h + ref + [side] + shares, stock, price + last);
    FieldReads(d, h + ref + [side] + shares + stock, price, last);
    FieldReads(d, h + ref + [side] + shares + stock + price, last, []);
  }

  lemma ExecutedReads(m: ItchMsg, tracking: nat)
    requires Encodable(m) && m.body.Executed?
    ensures var d := EncodeMessage(m, tracking);
            |d| >= 11 && ParseBody(d, |d|) == [m.body]
  {
    var h := EncodeHeader(m, tracking);
    var o := m.body;
    var ref, shares, number := Encode(o.ref, 8), Encode(o.shares, 4), Encode(o.matchNumber, 8);
    IntReads(o.ref, 8);
    IntReads(o.shares, 4);
    IntReads(o.matchNumber, 8);
    FourFields(h, ref, shares, number, []);
    assert EncodeMessage(m, tracking) == h + (ref + shares + number + []);
  }

  lemma ExecutedPriceReads(m: ItchMsg, tracking: nat)
    requires Encodable(m) && m.body.ExecutedPrice?
    ensures var d := EncodeMessage(m, tracking);
            |d| >= 11 && ParseBody(d, |d|) == [m.body]
  {
    var h := EncodeHeader(m, tracking);
    var o := m.body;
    ExecutedPriceLayout(h, Encode(o.ref, 8), Encode(o.shares, 4), Encode(o.matchNumber, 8),
                        if o.printable then YES else NO, Encode(o.price, 4));
    IntReads(o.ref, 8);
    IntReads(o.shares, 4);
    IntReads(o.matchNumber, 8);
    IntReads(o.price, 4);
  }

  lemma ExecutedPriceLayout(h: Bytes, ref: Bytes, shares: Bytes, number: Bytes, flag: Byte, price: Bytes)
    requires |h| == 11 && |ref| == 8 && |shares| == 4 && |number| == 8 && |price| == 4
    ensures var d := h + (ref + shares + number + [flag] + price);
            && |d| == 36 && d[0] == h[0]
            && d[11..19] == ref && d[19..23] == shares && d[23..31] == number && d[31] == flag && d[32..36] == price
  {
    var d := h + (ref + shares + number + [flag] + price);
    FieldReads(d, h, ref, shares + number + [flag] + price);
    FieldReads(d, h + ref, shares, number + [flag] + price);
    FieldReads(d, h + ref + shares, number, [flag] + price);
    FieldReads(d, h + ref + shares + number + [flag], price, []);
  }

  lemma CancelOrDeleteReads(m: ItchMsg, tracking: nat)
    requires Encodable(m) && (m.body.Cancel? || m.body.Delete?)
    ensures var d := EncodeMessage(m, tracking);
            |d| >= 11 && ParseBody(d, |d|) == [m.body]
  {
    var h := EncodeHeader(m, tracking);
    var o := m.body;
    var ref := Encode(o.ref, 8);
    IntReads(o.ref, 8);
    if o.Cancel? {
      IntReads(o.shares, 4);
      FourFields(h, ref, Encode(o.shares, 4), [], []);
      assert EncodeMessage(m, tracking) == h + (ref + Encode(o.shares, 4) + [] + []);
    } else {
      FourFields(h, ref, [], [], []);
      assert EncodeMessage(m, tracking) == h + (ref + [] + [] + []);
    }
  }

  lemma ReplaceReads(m: ItchMsg, tracking: nat)
    requires Encodable(m) && m.body.Replace?
    ensures var d := EncodeMessage(m, tracking);
            |d| >= 11 && ParseBody(d, |d|) == [m.body]
  {
    var h := EncodeHeader(m, tracking);
    var o := m.body;
    FourFields(h, Encode(o.orig, 8), Encode(o.ref, 8), Encode(o.shares, 4), Encode(o.price, 4));
    IntReads(o.orig, 8);
    IntReads(o.ref, 8);
    IntReads(o.shares, 4);
    IntReads(o.price, 4);
  }

  /** Parsing gives back every order message from its layout. */
  lemma ParseInverts(m: ItchMsg, tracking: nat)
    requires Encodable(m)
    ensures var d := EncodeMessage(m, tracking);
            |d| >= 11 && ParseMessage(d, |d|) == [m]
  {
    var d := EncodeMessage(m, tracking);
    if m.body.AddOrder? {
      AddReads(m, tracking);
    } else if m.body.Replace? {
      ReplaceReads(m, tracking);
    } else if m.body.Cancel? || m.body.Delete? {
      CancelOrDeleteReads(m, tracking);
    } else if m.body.Executed? {
      ExecutedReads(m, tracking);
    } else {
      ExecutedPriceReads(m, tracking);
    }
    HeaderReads(m, tracking);
  }

  lemma HeaderReads(m: ItchMsg, tracking: nat)
    requires Encodable(m)
    ensures var d := EncodeMessage(m, tracking);
            d[0] == m.kind && Decode(d[5..11]) == m.timestamp && Decode((d + [0, 0])[1..3]) == m.locate
  {
    var d := EncodeMessage(m, tracking);
    assert d[5..11] == Encode(m.timestamp, 6);
    assert (d + [0, 0])[1..3] == Encode(m.locate, 2);
    DecodeEncode(m.timestamp, 6);
    DecodeEncode(m.locate, 2);
  }

  /** A feed of order messages, each in its own block. */
  function EncodeAll(ms: seq<ItchMsg>, tracking: nat): (r: seq<Bytes>)
    requires forall i :: 0 <= i < |ms| ==> Encodable(ms[i])
    ensures |r| == |ms|
    ensures forall i :: 0 <= i < |ms| ==> r[i] == EncodeMessage(ms[i], tracking)
  {
    if ms == [] then [] else [EncodeMessage(ms[0], tracking)] + EncodeAll(ms[1..], tracking)
  }

  lemma {:induction false} AllRecognised(ms: seq<ItchMsg>, tracking: nat)
    requires forall i :: 0 <= i < |ms| ==> Encodable(ms[i])
    ensures Framable(EncodeAll(ms, tracking))
    ensures forall i :: 0 <= i < |ms| ==> |EncodeAll(ms, tracking)[i]| >= 3
    ensures Recognised(EncodeAll(ms, tracking)) == ms
  {
    if ms != [] {
      AllRecognised(ms[1..], tracking);
      ParseInverts(ms[0], tracking);
      var blocks := EncodeAll(ms, tracking);
      assert blocks[1..] == EncodeAll(ms[1..], tracking);
      assert ms == [ms[0]] + ms[1..];
    }
  }

  /** Framing order messages and parsing the packet gives the messages back, in order. */
  lemma RoundTrip(ms: seq<ItchMsg>, tracking: nat, tail: Bytes)
    requires forall i :: 0 <= i < |ms| ==> Encodable(ms[i])
    requires Stuck(tail)
    ensures Messages(Frame(EncodeAll(ms, tracking)) + tail) == ms
  {
    AllRecognised(ms, tracking);
    ParsesEveryBlock(EncodeAll(ms, tracking), tail);
  }

  // ----- The parser as it runs -----

  /** The part of a packet that holds blocks: nothing in a short packet or a heartbeat. */
  function MessagePart(packet: Bytes): (b: Bytes) {
    if |packet| < Feed.HEADER || Feed.PeekCount(packet) == Feed.HEARTBEAT then [] else packet[Feed.HEADER..]
  }

  /** By the bytes: nothing is read of a packet shorter than 20 bytes or whose bytes 18 and 19 are all ones. */
  lemma PartByBytes(packet: Bytes)
    ensures MessagePart(packet)
         == if |packet| < 20 || (packet[18] == 255 && packet[19] == 255) then [] else packet[20..]
  {
    if |packet| >= 20 {
      Pair(packet[18..20]);
    }
  }

  function Take<T>(s: seq<T>, n: int): (r: seq<T>)
    ensures r <= s && |r| == if n <= 0 then 0 else if n < |s| then n else |s|
  {
    if n <= 0 then [] else if n < |s| then s[..n] else s
  }

  /** A message with the time at which its packet was received. */
  datatype Stamped = Stamped(msg: ItchMsg, received: nat)

  function Stamp(ms: seq<ItchMsg>, received: nat): (r: seq<Stamped>)
    ensures |r| == |ms| && forall i :: 0 <= i < |ms| ==> r[i] == Stamped(ms[i], received)
  {
    if ms == [] then [] else Stamp(ms[..|ms| - 1], received) + [Stamped(ms[|ms| - 1], received)]
  }

  /** Writes a parsed message behind the `count` ones before it. */
  method Emit(output: array<Stamped>, count: nat, found: seq<ItchMsg>, received: nat, ghost before: seq<ItchMsg>) returns (n: nat)
    requires count < output.Length && |found| <= 1 && output[..count] == Stamp(before, received)
    modifies output
    ensures n == count + |found| && n <= output.Length && output[..n] == Stamp(before + found, received)
  {
    n := count;
    if |found| == 1 {
      output[count] := Stamped(found[0], received);
      n := count + 1;
    } else {
      assert before + found == before;
    }
  }

  /** One whole block: its message, if it is recognised, and what follows it. */
  lemma OneBlock(b: Bytes, len: nat, found: seq<ItchMsg>, rest: Bytes)
    requires !Stuck(b) && len == Length(b) && rest == b[2 + len..]
    requires found == ParseMessage(b[2..], len)
    ensures |found| <= 1 && |rest| < |b| && Messages(b) == found + Messages(rest)
  {
  }

  method Parse(packet: Bytes, received: nat, output: array<Stamped>, maxMsgs: int) returns (count: nat)
    requires maxMsgs <= output.Length
    modifies output
    ensures count <= output.Length && output[..count] == Stamp(Take(Messages(MessagePart(packet)), maxMsgs), received)
  {
    count := 0;
    if maxMsgs <= 0 {
      return;
    }
    var rest := MessagePart(packet);
    ghost var all, emitted := Messages(rest), [];
    while |rest| > 0 && count < maxMsgs
      invariant count == |emitted| <= maxMsgs
      invariant output[..count] == Stamp(emitted, received) && emitted + Messages(rest) == all
      decreases |rest|
    {
      if |rest| < 2 {
        break;
      }
      var len := Length(rest);
      if len == 0 {
        break;
      }
      if len > |rest| - 2 {
        break;
      }
      var found, more := ParseMessage(rest[2..], len), rest[2 + len..];
      OneBlock(rest, len, found, more);
      count := Emit(output, count, found, received, emitted);
      Regrouped(emitted, found, Messages(more));
      emitted, rest := emitted + found, more;
    }
    FirstOnes(emitted, rest, all, maxMsgs);
  }

  lemma Regrouped(a: seq<ItchMsg>, b: seq<ItchMsg>, c: seq<ItchMsg>)
    ensures a + (b + c) == (a + b) + c
  {
  }

  lemma FirstOnes(emitted: seq<ItchMsg>, rest: Bytes, all: seq<ItchMsg>, max: nat)
    requires 0 < max && |emitted| <= max && emitted + Messages(rest) == all
    requires |emitted| == max || Stuck(rest)
    ensures emitted == Take(all, max)
  {
  }
}
