/** Every way a frame can be refused, with the bytes, bounds and status codes written as numbers. */
module FrameVerdicts {
  import opened Machine
  import opened Chunks
  import F = Frames
  import opened FrameReader
  import opened FrameStreams

  /** The bytes an encoded frame starts with. */
  lemma HeadOfEncoded(version: byte, kind: byte, payload: seq<byte>)
    requires |payload| <= 128
    ensures var s := F.Encode(version, kind, payload);
            && |s| == |payload| + 8 && s[0] == 67 && s[1] == 77 && s[2] == version && s[3] == kind
            && s[4] == |payload| && s[5] == 0 && s[6..|payload| + 6] == payload
  {
    hide F.Sum;
    var body := [67, 77, version, kind] + F.Little(|payload|) + payload;
    assert F.Encode(version, kind, payload) == body + F.Little(F.Sum(body));
    assert body[6..] == payload;
  }

  /** A frame of any version but 1 is refused with code 6, whatever its kind and whatever follows. */
  lemma OtherVersion(version: byte, kind: byte, payload: seq<byte>, rest: seq<byte>)
    requires version != 1 && |payload| <= 128
    ensures F.First(F.Encode(version, kind, payload) + rest) == F.Bad(6)
  {
    hide F.Encode, F.Sum;
    HeadOfEncoded(version, kind, payload);
  }

  /** A frame of version 1 and a kind above 2 is refused with code 7. */
  lemma OtherKind(kind: byte, payload: seq<byte>, rest: seq<byte>)
    requires kind > 2 && |payload| <= 128
    ensures F.First(F.Encode(1, kind, payload) + rest) == F.Bad(7)
  {
    hide F.Encode, F.Sum;
    HeadOfEncoded(1, kind, payload);
  }

  /** A frame whose two last bytes are not the ones it was encoded with is refused with code 4. */
  lemma OtherChecksum(kind: byte, payload: seq<byte>, sum: seq<byte>, rest: seq<byte>)
    requires kind <= 2 && |payload| <= 128 && |sum| == 2
    requires sum != F.Encode(1, kind, payload)[|payload| + 6..]
    ensures F.First(F.Encode(1, kind, payload)[..|payload| + 6] + sum + rest) == F.Bad(4)
  {
    hide F.Sum, F.Little, F.U16;
    var n := |payload|;
    var size := F.Little(n);
    var body := [67, 77, 1, kind] + size + payload;
    var frame := F.Encode(1, kind, payload);
    F.LittleReads(n);
    F.LittleReads(F.Sum(body));
    F.LittleOf(sum[0], sum[1]);
    assert frame[..n + 6] == body && frame[n + 6..] == F.Little(F.Sum(body));
    assert sum == [sum[0], sum[1]];
    F.Layout(kind, size, payload, sum, rest, body + sum + rest, body);
  }

  /** Six bytes that do not start with 67 and 77 are refused with code 3. */
  lemma OtherMagic(s: seq<byte>)
    requires |s| >= 6 && (s[0] != 67 || s[1] != 77)
    ensures F.First(s) == F.Bad(3)
  {
    hide F.Sum, F.U16;
  }

  /** A sound header that announces more than 128 bytes is refused with code 3 at once. */
  lemma LongPayload(s: seq<byte>)
    requires |s| >= 6 && s[0] == 67 && s[1] == 77 && s[2] == 1 && s[3] <= 2 && s[4] as int + 256 * s[5] as int > 128
    ensures F.First(s) == F.Bad(3)
  {
    hide F.Sum, F.Doubled;
    F.DoubledEightTimes(s[5]);
  }

  /** Nothing else is refused: bytes are no frame yet exactly when they are fewer than six, or their header
      is sound and announces more than has come. */
  lemma NoFrameYet(s: seq<byte>)
    ensures F.First(s).Incomplete?
            <==> || |s| < 6
                 || (&& s[0] == 67 && s[1] == 77 && s[2] == 1 && s[3] <= 2
                     && s[4] as int + 256 * s[5] as int <= 128 && |s| < s[4] as int + 256 * s[5] as int + 8)
  {
    hide F.Sum, F.Doubled;
    if |s| >= 6 {
      F.DoubledEightTimes(s[5]);
    }
  }

  /** The status of one decoding step, by its number. */
  lemma StepStatus(carry: seq<byte>, view: seq<byte>, eof: bool)
    requires |carry| <= 136 && |view| <= 256
    ensures var status, first := F.Decode(carry + view, |carry|, |view|, eof).status, F.First(carry + view);
            && (status == 0 <==> first.Whole?)
            && (status == 1 <==> first.Incomplete? && !eof)
            && (status == 2 <==> carry + view == [] && eof)
            && (status == 5 <==> first.Incomplete? && carry + view != [] && eof)
            && (first.Bad? ==> status == first.code && status in {3, 4, 6, 7})
  {
    F.FirstSize(carry + view);
    hide F.First;
  }

  // ---------------------------------------------------------------------------------------
  // Whole streams

  /** Whatever is refused after sound frames makes the stream fail with its code. */
  lemma RefusedStream(ms: seq<Message>, s: seq<byte>, code: int)
    requires F.First(s) == F.Bad(code)
    ensures ReadStream(Wire(ms) + s) == Failure(code)
  {
    hide F.First, Parse, Wire, Framed;
    WireParses(ms, 0);
    ContinueClean(Wire(ms), Framed(ms, 0), [], s, |Wire(ms)|);
    assert [] + s == s;
    ParseBad(s, |Wire(ms)|);
    CodeIsError(s, code);
  }

  lemma CodeIsError(s: seq<byte>, code: int)
    requires F.First(s) == F.Bad(code)
    ensures code in {3, 4, 6, 7}
  {
    F.FirstSize(s);
    hide F.First;
  }

  /** A stream that stops inside a frame fails with code 5. */
  lemma TruncatedStream(ms: seq<Message>, m: Message, n: nat)
    requires 0 < n < |m.payload| + 8
    ensures |F.Encode(1, m.kind, m.payload)| == |m.payload| + 8
    ensures ReadStream(Wire(ms) + F.Encode(1, m.kind, m.payload)[..n]) == Failure(5)
  {
    hide F.First, Parse, Wire, Framed, F.Encode;
    HeadOfEncoded(1, m.kind, m.payload);
    var s := F.Encode(1, m.kind, m.payload)[..n];
    NoFrameYet(s);
    WireParses(ms, 0);
    ContinueClean(Wire(ms), Framed(ms, 0), [], s, |Wire(ms)|);
    assert [] + s == s;
    ParseIncomplete(s, |Wire(ms)|);
    JoinsNothing(Framed(ms, 0), s);
  }

  /** Streams of one frame, refused for its version, its kind or its checksum. */
  lemma RefusedFrame(version: byte, kind: byte, payload: seq<byte>)
    requires |payload| <= 128
    ensures version != 1 ==> ReadStream(F.Encode(version, kind, payload)) == Failure(6)
    ensures version == 1 && kind > 2 ==> ReadStream(F.Encode(version, kind, payload)) == Failure(7)
  {
    hide F.First, F.Encode, ReadStream;
    var s := F.Encode(version, kind, payload);
    assert s + [] == s && Wire([]) + s == s;
    if version != 1 {
      OtherVersion(version, kind, payload, []);
      RefusedStream([], s, 6);
    } else if kind > 2 {
      OtherKind(kind, payload, []);
      RefusedStream([], s, 7);
    }
  }

  lemma RefusedChecksum(kind: byte, payload: seq<byte>, sum: seq<byte>)
    requires kind <= 2 && |payload| <= 128 && |sum| == 2
    requires sum != F.Encode(1, kind, payload)[|payload| + 6..]
    ensures ReadStream(F.Encode(1, kind, payload)[..|payload| + 6] + sum) == Failure(4)
  {
    hide F.First, ReadStream;
    var s := F.Encode(1, kind, payload)[..|payload| + 6] + sum;
    assert s + [] == s && Wire([]) + s == s;
    OtherChecksum(kind, payload, sum, []);
    RefusedStream([], s, 4);
  }

  // ---------------------------------------------------------------------------------------
  // Frames as bytes

  lemma SumMore(s: seq<byte>, b: byte)
    ensures F.Total(s + [b]) == F.Total(s) + b as int
  {
    assert (s + [b])[..|s|] == s;
  }

  /** The heartbeat and two frames with payloads, byte by byte. */
  lemma FramesAsBytes()
    ensures F.Encode(1, 2, []) == [67, 77, 1, 2, 0, 0, 147, 0]
    ensures F.Encode(1, 0, [255, 1]) == [67, 77, 1, 0, 2, 0, 255, 1, 147, 1]
  {
    Heartbeat();
    TwoBytes();
  }

  lemma Header(kind: byte, size: byte)
    ensures F.Total([67, 77, 1, kind, size, 0]) == 145 + kind as int + size as int
  {
    hide F.Total;
    SumMore([], 67);
    SumMore([67], 77);
    SumMore([67, 77], 1);
    SumMore([67, 77, 1], kind);
    SumMore([67, 77, 1, kind], size);
    SumMore([67, 77, 1, kind, size], 0);
    assert [67] + [77] == [67, 77] && [] + [67] == [67];
    assert [67, 77] + [1] == [67, 77, 1] && [67, 77, 1] + [kind] == [67, 77, 1, kind];
    assert [67, 77, 1, kind] + [size] == [67, 77, 1, kind, size];
    assert [67, 77, 1, kind, size] + [0] == [67, 77, 1, kind, size, 0];
    TotalOfNothing();
  }

  lemma TotalOfNothing()
    ensures F.Total([]) == 0
  {}

  lemma Heartbeat()
    ensures F.Encode(1, 2, []) == [67, 77, 1, 2, 0, 0, 147, 0]
  {
    hide F.Sum, F.Total;
    var none: seq<byte> := [];
    var body := [67, 77, 1, 2] + F.Little(0) + none;
    assert body == [67, 77, 1, 2, 0, 0];
    Header(2, 0);
    F.SumIsTotal(body);
  }

  lemma TwoBytes()
    ensures F.Encode(1, 0, [255, 1]) == [67, 77, 1, 0, 2, 0, 255, 1, 147, 1]
  {
    hide F.Sum, F.Total;
    var header := [67, 77, 1, 0, 2, 0];
    var body := [67, 77, 1, 0] + F.Little(2) + [255, 1];
    assert body == header + [255] + [1];
    Header(0, 2);
    SumMore(header, 255);
    SumMore(header + [255], 1);
    F.SumIsTotal(body);
  }
}
