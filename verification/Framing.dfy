/** Length-prefixed framing over a byte stream: writeFrame, readFrame and the reading loop. */
module Framing {
  import opened Types
  import opened BigEndian
  import opened Preimages

  const MAX_FRAME: int := 10 * 1024 * 1024
  const TWO_32: int := 0x1_0000_0000
  const PREFIX_WIDTH: nat := 4

  // ----- The two ends of a connection

  /** The sending end. The link carries `capacity` more bytes and then fails for good; a failing
      write still delivers the bytes that fit. */
  class Writer {
    var sent: Bytes
    var capacity: nat

    constructor (capacity: nat)
      ensures sent == [] && this.capacity == capacity
    {
      sent := [];
      this.capacity := capacity;
    }

    method Write(data: Bytes) returns (ok: bool)
      modifies this
      ensures ok <==> |data| <= old(capacity)
      ensures sent == old(sent) + Fitting(data, old(capacity))
      ensures capacity == old(capacity) - |Fitting(data, old(capacity))|
    {
      if |data| <= capacity {
        sent, capacity := sent + data, capacity - |data|;
        return true;
      }
      sent, capacity := sent + data[..capacity], 0;
      ok := false;
    }

    /** The length is converted to 32 bits, so it wraps for payloads of 2^32 bytes and more. */
    method WriteFrame(data: Bytes) returns (ok: bool)
      modifies this
      ensures ok <==> |Frame(data)| <= old(capacity)
      ensures sent == old(sent) + Fitting(Frame(data), old(capacity))
      ensures capacity == old(capacity) - |Fitting(Frame(data), old(capacity))|
    {
      var lenBuf := new u8[4](i => 0);
      PutUint32(lenBuf, |data| % TWO_32);
      FittingConcat(lenBuf[..], data, capacity);
      ok := Write(lenBuf[..]);
      if !ok {
        return;
      }
      ok := Write(data);
    }

    /** Successive frames on one connection, up to the first failure. The frames reported sent are
        exactly those that the link carries whole. */
    method WriteFrames(payloads: seq<Bytes>) returns (sentWhole: nat)
      modifies this
      ensures sent == old(sent) + Fitting(Stream(payloads), old(capacity))
      ensures sentWhole == WholeFrames(payloads, old(capacity))
    {
      sentWhole := 0;
      ghost var done: Bytes := [];
      assert payloads[..0] == [];
      while sentWhole < |payloads|
        invariant 0 <= sentWhole <= |payloads|
        invariant done == Stream(payloads[..sentWhole])
        invariant sent == old(sent) + done && |done| + capacity == old(capacity)
        invariant WholeFrames(payloads, old(capacity)) == sentWhole + WholeFrames(payloads[sentWhole..], capacity)
      {
        StreamFits(payloads, sentWhole, old(capacity));
        ghost var fits := Fitting(Frame(payloads[sentWhole]), capacity);
        Associate(old(sent), done, fits);
        assert payloads[sentWhole..][1..] == payloads[sentWhole + 1..];
        var ok := WriteFrame(payloads[sentWhole]);
        if !ok {
          return;
        }
        done := done + fits;
        sentWhole := sentWhole + 1;
      }
      assert payloads[..sentWhole] == payloads;
    }
  }

  datatype ReadError = EndOfStream | UnexpectedEnd | TooLarge(length: nat)
  datatype ReadResult = Data(data: Bytes) | Failed(error: ReadError)

  /** The receiving end: the bytes that have not been read yet. */
  class Reader {
    var rest: Bytes

    constructor (bytes: Bytes)
      ensures rest == bytes
    {
      rest := bytes;
    }

    /** io.ReadFull into a fresh buffer of n bytes. */
    method ReadFull(n: nat) returns (result: ReadResult)
      modifies this
      ensures n <= |old(rest)| ==> result == Data(old(rest)[..n]) && rest == old(rest)[n..]
      ensures n > |old(rest)| ==> result == Failed(if old(rest) == [] then EndOfStream else UnexpectedEnd) && rest == []
    {
      if n <= |rest| {
        result := Data(rest[..n]);
        rest := rest[n..];
      } else {
        result := Failed(if rest == [] then EndOfStream else UnexpectedEnd);
        rest := [];
      }
    }

    method ReadFrame() returns (result: ReadResult)
      modifies this
      ensures result == FirstFrame(old(rest))
      ensures result.Data? ==> rest == AfterFirst(old(rest))
      ensures result.Data? ==>
        var n := |result.data|;
        && n <= 10_485_760 && |old(rest)| >= n + 4 && BigEndian32(old(rest)[..4]) == n
        && result.data == old(rest)[4..n + 4] && rest == old(rest)[n + 4..]
      ensures result.Failed? && result.error.TooLarge? ==>
        |old(rest)| >= 4 && BigEndian32(old(rest)[..4]) == result.error.length > 10_485_760
    {
      if |rest| >= 4 {
        FourBytes(rest[..4]);
      }
      result := ReadFull(4);
      if result.Failed? {
        return;
      }
      var length := Value(result.data);
      if length > MAX_FRAME {
        return Failed(TooLarge(length));
      }
      result := ReadFull(length);
    }

    /** The reading loop: frames are handed on until the first error. */
    method ReadLoop() returns (frames: seq<Bytes>, error: ReadError)
      modifies this
      ensures frames == Parse(old(rest)) && error == StopError(old(rest))
    {
      frames := [];
      while true
        invariant frames + Parse(rest) == Parse(old(rest)) && StopError(rest) == StopError(old(rest))
        decreases |rest|
      {
        ghost var before := rest;
        var result := ReadFrame();
        if result.Failed? {
          return frames, result.error;
        }
        FrameConsumes(before);
        frames := frames + [result.data];
      }
    }
  }

  // ----- What is written and what is read

  function Fitting(data: Bytes, capacity: nat): Bytes {
    if |data| <= capacity then data else data[..capacity]
  }

  function Frame(data: Bytes): Bytes {
    Fixed(|data| % TWO_32, PREFIX_WIDTH) + data
  }

  function BigEndian32(b: Bytes): int
    requires |b| == 4
  {
    0x100_0000 * (b[0] as int) + 0x1_0000 * (b[1] as int) + 0x100 * (b[2] as int) + b[3] as int
  }

  lemma FourBytes(b: Bytes)
    requires |b| == 4
    ensures Value(b) == BigEndian32(b)
  {
    assert b[..3][..2] == b[..2] && b[..2][..1] == b[..1] && b[..1][..0] == [];
    assert Value(b[..1]) == b[0];
    assert Value(b[..2]) == 256 * Value(b[..1]) + b[1];
    assert Value(b[..3]) == 256 * Value(b[..2]) + b[2];
  }

  function Frames(payloads: seq<Bytes>): seq<Bytes> {
    seq(|payloads|, i requires 0 <= i < |payloads| => Frame(payloads[i]))
  }

  function Stream(payloads: seq<Bytes>): Bytes {
    Concat(Frames(payloads))
  }

  function FirstFrame(b: Bytes): ReadResult {
    if |b| < 4 then Failed(if b == [] then EndOfStream else UnexpectedEnd)
    else
      var length := Value(b[..4]);
      if length > MAX_FRAME then Failed(TooLarge(length))
      else if |b| - 4 < length then Failed(if |b| == 4 then EndOfStream else UnexpectedEnd)
      else Data(b[4..4 + length])
  }

  function AfterFirst(b: Bytes): Bytes
    requires FirstFrame(b).Data?
  {
    b[4 + Value(b[..4])..]
  }

  lemma FrameConsumes(b: Bytes)
    requires FirstFrame(b).Data?
    ensures |AfterFirst(b)| < |b|
  {
  }

  /** The frames read up to the first error, and that error. */
  function Parse(b: Bytes): seq<Bytes>
    decreases |b|
  {
    if FirstFrame(b).Failed? then [] else [FirstFrame(b).data] + Parse(AfterFirst(b))
  }

  function StopError(b: Bytes): ReadError
    decreases |b|
  {
    if FirstFrame(b).Failed? then FirstFrame(b).error else StopError(AfterFirst(b))
  }

  lemma FittingConcat(a: Bytes, b: Bytes, n: nat)
    ensures Fitting(a + b, n) == if n < |a| then Fitting(a, n) else a + Fitting(b, n - |a|)
  {
  }

  lemma StreamAppend(front: seq<Bytes>, back: seq<Bytes>)
    ensures Stream(front + back) == Stream(front) + Stream(back)
  {
    assert Frames(front + back) == Frames(front) + Frames(back);
    ConcatAppend(Frames(front), Frames(back));
  }

  lemma StreamCons(data: Bytes, later: seq<Bytes>)
    ensures Stream([data]) == Frame(data)
    ensures Stream([data] + later) == Frame(data) + Stream(later)
  {
    assert Frames([data]) == [Frame(data)];
    ConcatOne(Frame(data));
    StreamAppend([data], later);
  }

  /** What the link takes of a whole stream, when everything before payload k has fitted. */
  lemma StreamFits(payloads: seq<Bytes>, k: nat, capacity: nat)
    requires k < |payloads| && |Stream(payloads[..k])| <= capacity
    ensures var left := capacity - |Stream(payloads[..k])|;
            && Stream(payloads[..k + 1]) == Stream(payloads[..k]) + Frame(payloads[k])
            && (left < |Frame(payloads[k])| ==>
                  Fitting(Stream(payloads), capacity) == Stream(payloads[..k]) + Fitting(Frame(payloads[k]), left))
  {
    var front, f, back := Stream(payloads[..k]), Frame(payloads[k]), Stream(payloads[k + 1..]);
    assert payloads[..k + 1] == payloads[..k] + [payloads[k]];
    assert payloads == payloads[..k + 1] + payloads[k + 1..];
    StreamCons(payloads[k], []);
    StreamAppend(payloads[..k], [payloads[k]]);
    StreamAppend(payloads[..k + 1], payloads[k + 1..]);
    if capacity - |front| < |f| {
      FitsInMiddle(front, f, back, capacity);
    }
  }

  lemma FitsInMiddle(front: Bytes, f: Bytes, back: Bytes, capacity: nat)
    requires |front| <= capacity < |front| + |f|
    ensures Fitting(front + f + back, capacity) == front + Fitting(f, capacity - |front|)
  {
  }

  // ----- Round trips

  predicate Sendable(data: Bytes) {
    |data| <= MAX_FRAME
  }

  predicate AllSendable(payloads: seq<Bytes>) {
    forall i :: 0 <= i < |payloads| ==> Sendable(payloads[i])
  }

  lemma PrefixValue(data: Bytes)
    ensures |Fixed(|data| % TWO_32, PREFIX_WIDTH)| == 4 && Value(Fixed(|data| % TWO_32, PREFIX_WIDTH)) == |data| % TWO_32
  {
    FixedRoundTrip(|data| % TWO_32, PREFIX_WIDTH);
    assert Pow256(4) == TWO_32 by {
      assert Pow256(2) == 0x1_0000;
    }
  }

  /** A frame byte by byte: the length, most significant byte first, wrapped at 2^32, and the payload. */
  lemma FrameOnWire(data: Bytes)
    ensures |Frame(data)| == 4 + |data| && Frame(data)[4..] == data
    ensures BigEndian32(Frame(data)[..4]) == |data| % 0x1_0000_0000
  {
    PrefixValue(data);
    assert Frame(data)[..4] == Fixed(|data| % TWO_32, PREFIX_WIDTH);
    FourBytes(Frame(data)[..4]);
  }

  lemma FrameCut(data: Bytes, rest: Bytes)
    ensures |Frame(data)| == 4 + |data|
    ensures var b := Frame(data) + rest;
            && Value(b[..4]) == |data| % TWO_32
            && b[4..4 + |data|] == data && b[4 + |data|..] == rest
  {
    PrefixValue(data);
    assert (Frame(data) + rest)[..4] == Fixed(|data| % TWO_32, PREFIX_WIDTH);
  }

  /** The reader gets a payload back exactly when it is at most 10 MiB, whatever follows it. Larger
      ones are refused below 2^32 bytes and misread above. */
  lemma FrameReadBackIff(data: Bytes, rest: Bytes)
    ensures FirstFrame(Frame(data) + rest) == Data(data) <==> |data| <= 10_485_760
    ensures Sendable(data) ==> AfterFirst(Frame(data) + rest) == rest
    ensures MAX_FRAME < |data| < TWO_32 ==> FirstFrame(Frame(data) + rest) == Failed(TooLarge(|data|))
    ensures |data| >= TWO_32 && |data| % TWO_32 <= MAX_FRAME ==>
      FirstFrame(Frame(data) + rest) == Data(data[..|data| % TWO_32])
  {
    FrameCut(data, rest);
    var b := Frame(data) + rest;
    if |data| >= TWO_32 && |data| % TWO_32 <= MAX_FRAME {
      assert b[4..4 + |data| % TWO_32] == data[..|data| % TWO_32];
    }
  }

  /** Reading b yields the given frames one after the other and leaves rest. */
  predicate Reads(b: Bytes, frames: seq<Bytes>, rest: Bytes)
    decreases |frames|
  {
    if frames == [] then b == rest
    else FirstFrame(b) == Data(frames[0]) && Reads(AfterFirst(b), frames[1..], rest)
  }

  lemma {:induction false} ReadsIsParse(b: Bytes, frames: seq<Bytes>, rest: Bytes)
    requires Reads(b, frames, rest)
    ensures Parse(b) == frames + Parse(rest) && StopError(b) == StopError(rest)
    decreases |frames|
  {
    if frames != [] {
      ReadsIsParse(AfterFirst(b), frames[1..], rest);
      assert frames == [frames[0]] + frames[1..];
    }
  }

  lemma {:induction false} StreamReads(payloads: seq<Bytes>, rest: Bytes)
    requires AllSendable(payloads)
    ensures Reads(Stream(payloads) + rest, payloads, rest)
    decreases |payloads|
  {
    if payloads == [] {
      assert Stream(payloads) + rest == rest;
    } else {
      var data, later := payloads[0], payloads[1..];
      StreamReads(later, rest);
      assert payloads == [data] + later;
      StreamWithTail(data, later, rest);
      FrameReadBackIff(data, Stream(later) + rest);
    }
  }

  /** Reading what was written gives the payloads back, then continues with whatever follows. */
  lemma ParseStream(payloads: seq<Bytes>, rest: Bytes)
    requires AllSendable(payloads)
    ensures Parse(Stream(payloads) + rest) == payloads + Parse(rest)
    ensures StopError(Stream(payloads) + rest) == StopError(rest)
  {
    StreamReads(payloads, rest);
    ReadsIsParse(Stream(payloads) + rest, payloads, rest);
  }

  lemma StreamWithTail(data: Bytes, later: seq<Bytes>, rest: Bytes)
    ensures Stream([data] + later) + rest == Frame(data) + (Stream(later) + rest)
  {
    StreamCons(data, later);
    Associate(Frame(data), Stream(later), rest);
  }

  lemma RoundTrip(payloads: seq<Bytes>)
    requires AllSendable(payloads)
    ensures Parse(Stream(payloads)) == payloads && StopError(Stream(payloads)) == EndOfStream
  {
    ParseStream(payloads, []);
    assert Stream(payloads) + [] == Stream(payloads);
    assert payloads + [] == payloads;
  }

  /** The first oversize frame stops the reader after exactly the frames before it. */
  lemma OversizeStops(payloads: seq<Bytes>, data: Bytes, rest: Bytes)
    requires AllSendable(payloads)
    requires MAX_FRAME < |data| < TWO_32
    ensures var b := Stream(payloads) + (Frame(data) + rest);
            Parse(b) == payloads && StopError(b) == TooLarge(|data|)
  {
    ParseStream(payloads, Frame(data) + rest);
    FrameReadBackIff(data, rest);
    assert payloads + [] == payloads;
  }

  /** The number of frames that lie entirely within the first n bytes of the stream. */
  function WholeFrames(payloads: seq<Bytes>, n: nat): (k: nat)
    ensures k <= |payloads|
  {
    if payloads == [] || n < |Frame(payloads[0])| then 0
    else 1 + WholeFrames(payloads[1..], n - |Frame(payloads[0])|)
  }

  /** A connection cut after n bytes yields exactly the payloads whose frames had arrived whole. */
  lemma {:induction false} CutStream(payloads: seq<Bytes>, n: nat)
    requires AllSendable(payloads)
    ensures Parse(Fitting(Stream(payloads), n)) == payloads[..WholeFrames(payloads, n)]
    decreases |payloads|
  {
    if payloads != [] {
      var first, later := payloads[0], payloads[1..];
      StreamCons(first, later);
      assert payloads == [first] + later;
      FittingConcat(Frame(first), Stream(later), n);
      if n < |Frame(first)| {
        PartialFrame(first, n);
      } else {
        var m := n - |Frame(first)|;
        CutStream(later, m);
        FrameReadBackIff(first, Fitting(Stream(later), m));
        assert payloads[..WholeFrames(payloads, n)] == [first] + later[..WholeFrames(later, m)];
      }
    }
  }

  /** The bytes of the last, unfinished frame in the first n bytes of the stream. */
  function LeftOver(payloads: seq<Bytes>, n: nat): nat {
    if payloads == [] then 0
    else if n < |Frame(payloads[0])| then n
    else LeftOver(payloads[1..], n - |Frame(payloads[0])|)
  }

  lemma {:induction false} LeftOverIs(payloads: seq<Bytes>, n: nat)
    ensures |Fitting(Stream(payloads), n)| == |Stream(payloads[..WholeFrames(payloads, n)])| + LeftOver(payloads, n)
    decreases |payloads|
  {
    if payloads != [] {
      var first, later := payloads[0], payloads[1..];
      StreamCons(first, later);
      assert payloads == [first] + later;
      if n >= |Frame(first)| {
        var k := WholeFrames(later, n - |Frame(first)|);
        LeftOverIs(later, n - |Frame(first)|);
        assert payloads[..k + 1] == [first] + later[..k];
        StreamCons(first, later[..k]);
      }
    }
  }

  /** And the error tells where the cut was: the end of the stream between two frames, or between a
      length and its payload, and an unexpected end anywhere else. */
  lemma CutStreamError(payloads: seq<Bytes>, n: nat)
    requires AllSendable(payloads)
    ensures var left := |Fitting(Stream(payloads), n)| - |Stream(payloads[..WholeFrames(payloads, n)])|;
            StopError(Fitting(Stream(payloads), n)) == if left == 0 || left == 4 then EndOfStream else UnexpectedEnd
  {
    LeftOverIs(payloads, n);
    LeftOverDecides(payloads, n);
  }

  lemma {:induction false} LeftOverDecides(payloads: seq<Bytes>, n: nat)
    requires AllSendable(payloads)
    ensures StopError(Fitting(Stream(payloads), n)) == EndAfter(LeftOver(payloads, n))
    decreases |payloads|
  {
    if payloads != [] {
      var first, later := payloads[0], payloads[1..];
      StreamCons(first, later);
      assert payloads == [first] + later;
      FittingConcat(Frame(first), Stream(later), n);
      if n < |Frame(first)| {
        PartialFrameError(first, n);
      } else {
        LeftOverDecides(later, n - |Frame(first)|);
        StopErrorSkips(first, Fitting(Stream(later), n - |Frame(first)|));
      }
    }
  }

  lemma StopErrorSkips(data: Bytes, rest: Bytes)
    requires Sendable(data)
    ensures StopError(Frame(data) + rest) == StopError(rest)
  {
    FrameReadBackIff(data, rest);
  }

  function EndAfter(left: nat): ReadError {
    if left == 0 || left == 4 then EndOfStream else UnexpectedEnd
  }

  lemma PartialFrameError(data: Bytes, n: nat)
    requires Sendable(data) && n < |Frame(data)|
    ensures StopError(Fitting(Frame(data), n)) == if n == 0 || n == 4 then EndOfStream else UnexpectedEnd
  {
    FrameCut(data, []);
    assert Frame(data) + [] == Frame(data);
    if n >= 4 {
      assert Frame(data)[..n][..4] == Frame(data)[..4];
    }
  }

  lemma PartialFrame(data: Bytes, n: nat)
    requires Sendable(data) && n < |Frame(data)|
    ensures FirstFrame(Fitting(Frame(data), n)).Failed?
  {
    FrameCut(data, []);
    assert Frame(data) + [] == Frame(data);
    if n >= 4 {
      assert Frame(data)[..n][..4] == Frame(data)[..4];
    }
  }

  /** The other direction: whatever bytes arrive, the frames read are a prefix of them re-encoded. */
  lemma {:induction false} ReadingIsPrinting(b: Bytes)
    ensures Stream(Parse(b)) <= b
    ensures AllSendable(Parse(b))
    decreases |b|
  {
    if FirstFrame(b).Data? {
      var data, rest := FirstFrame(b).data, AfterFirst(b);
      ReadingIsPrinting(rest);
      FirstFrameIsFrame(b);
      StreamCons(data, Parse(rest));
      SamePrefix(Frame(data), Stream(Parse(rest)), rest);
    }
  }

  lemma FirstFrameIsFrame(b: Bytes)
    requires FirstFrame(b).Data?
    ensures Sendable(FirstFrame(b).data) && b == Frame(FirstFrame(b).data) + AfterFirst(b)
  {
    var data := FirstFrame(b).data;
    FixedOfValue(b[..4]);
    assert |data| % TWO_32 == |data| == Value(b[..4]);
    assert Frame(data) == b[..4] + data;
    assert b == b[..4] + data + AfterFirst(b);
  }

  lemma SamePrefix(a: Bytes, x: Bytes, y: Bytes)
    requires x <= y
    ensures a + x <= a + y
  {
  }

  /** A sender that fails at any point and a reader at the other end: the reader gets exactly the
      payloads reported sent, and all of them if the link carried the whole stream. */
  method SendAndReceive(payloads: seq<Bytes>, capacity: nat) returns (sentWhole: nat, frames: seq<Bytes>)
    requires AllSendable(payloads)
    ensures sentWhole <= |payloads| && frames == payloads[..sentWhole]
    ensures |Stream(payloads)| <= capacity ==> frames == payloads
  {
    var writer := new Writer(capacity);
    sentWhole := writer.WriteFrames(payloads);
    var reader := new Reader(writer.sent);
    var error;
    frames, error := reader.ReadLoop();
    CutStream(payloads, capacity);
    RoundTrip(payloads);
    assert [] + Fitting(Stream(payloads), capacity) == Fitting(Stream(payloads), capacity);
  }
}
