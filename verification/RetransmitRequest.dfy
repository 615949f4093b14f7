/**
 The MoldUDP64 retransmission request, which has the layout of a packet header.
 */
module RetransmitRequest {
  import opened Wire
  import Feed = FeedMerger

  /** The bytes that are sent for a gap; the header reader finds the same gap in them. */
  method BuildRequest(session: Bytes, startSeq: nat, count: nat) returns (request: Bytes)
    requires |session| == 10 && startSeq < Pow256(8) && count < Pow256(2)
    ensures |request| == Feed.HEADER && request[..10] == session
    ensures Feed.PeekSequence(request) == startSeq && Feed.PeekCount(request) == count
    ensures request[17] == startSeq % 256 && request[18] == count / 256 && request[19] == count % 256
  {
    var buf := new Byte[20](_ => 0);
    for k := 0 to 10
      invariant buf[..k] == session[..k]
    {
      buf[k] := session[k];
    }
    WriteNumber(buf, startSeq);
    buf[18] := (count / 256) % 256;
    buf[19] := count % 256;
    request := buf[..];
    assert request[18..20] == Encode(count, 2);
    DecodeEncode(startSeq, 8);
    DecodeEncode(count, 2);
  }

  /** Bytes 10 to 17, from the last to the first, by shifting the number out. */
  method WriteNumber(buf: array<Byte>, startSeq: nat)
    requires buf.Length == 20
    modifies buf
    ensures buf[10..18] == Encode(startSeq, 8) && buf[..10] == old(buf[..10])
  {
    var number := startSeq;
    var i := 7;
    while i >= 0
      invariant -1 <= i <= 7 && buf[..10] == old(buf[..10])
      invariant Encode(startSeq, 8) == Encode(number, i + 1) + buf[11 + i..18]
    {
      ghost var written := buf[11 + i..18];
      buf[10 + i] := number % 256;
      assert buf[10 + i..18] == [number % 256] + written;
      number := number / 256;
      i := i - 1;
    }
  }
}
