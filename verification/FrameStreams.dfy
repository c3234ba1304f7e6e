/** What the frame reader guarantees about whole streams. */
module FrameStreams {
  import opened Machine
  import opened Chunks
  import F = Frames
  import opened FrameReader

  // ---------------------------------------------------------------------------------------
  // Frames and their wire form are in bijection

  datatype Content = Content(kind: byte, payload: seq<byte>)

  /** What a frame can carry: a known kind and at most 128 bytes. */
  type Message = m: Content | m.kind <= 2 && |m.payload| <= 128 witness Content(0, [])

  function Wire(ms: seq<Message>): seq<byte> {
    if ms == [] then [] else F.Encode(1, ms[0].kind, ms[0].payload) + Wire(ms[1..])
  }

  /** The frames a reader should return for messages sent from offset `base` on. */
  function Framed(ms: seq<Message>, base: nat): seq<Frame> {
    if ms == [] then []
    else
      var end := base + 8 + |ms[0].payload|;
      [Frame(1, ms[0].kind, ms[0].payload, base, end)] + Framed(ms[1..], end)
  }

  lemma {:induction false} WireParses(ms: seq<Message>, base: nat)
    ensures Parse(Wire(ms), base) == Parsed(Framed(ms, base), [], NO_ERROR)
    decreases |ms|
  {
    hide F.First, F.Encode, Parse;
    if ms == [] {
      ParseNothing(base);
    } else {
      var m, rest := ms[0], Wire(ms[1..]);
      F.FirstOfEncoded(m.kind, m.payload, rest);
      EncodedLength(m);
      var s := F.Encode(1, m.kind, m.payload) + rest;
      assert s[|m.payload| + 8..] == rest;
      ParseWhole(s, base);
      WireParses(ms[1..], base + |m.payload| + 8);
    }
  }

  lemma EncodedLength(m: Message)
    ensures |F.Encode(1, m.kind, m.payload)| == |m.payload| + 8
  {}

  /** Every list of sendable messages is returned unchanged, each at its own byte range. */
  lemma SentIsRead(ms: seq<Message>)
    ensures ReadStream(Wire(ms)) == Success(Framed(ms, 0))
  {
    hide Parse;
    WireParses(ms, 0);
  }

  /** Conversely: whatever was parsed is the wire form of what was returned, then the rest. */
  lemma {:induction false} ParsedIsWire(s: seq<byte>, base: nat) returns (ms: seq<Message>)
    ensures var p := Parse(s, base);
            p.frames == Framed(ms, base) && s == Wire(ms) + p.rest
    decreases |s|
  {
    hide F.First, F.Encode, Parse;
    match F.First(s)
    case Incomplete =>
      ParseIncomplete(s, base);
      ms := [];
    case Bad(_) =>
      ParseBad(s, base);
      ms := [];
    case Whole(kind, payload, size) =>
      F.WholeIsEncoded(s);
      ParseWhole(s, base);
      var more := ParsedIsWire(s[size..], base + size);
      var m: Message := Content(kind, payload);
      ms := [m] + more;
      assert s == s[..size] + s[size..];
  }

  /** A clean read is exact: the stream is the concatenated encoding of the frames returned, and no
      two streams give the same frames. */
  lemma ReadIsSent(stream: seq<byte>) returns (ms: seq<Message>)
    requires ReadStream(stream).Success?
    ensures stream == Wire(ms) && ReadStream(stream).value == Framed(ms, 0)
  {
    hide Parse;
    ms := ParsedIsWire(stream, 0);
    assert Wire(ms) + [] == Wire(ms);
  }

  /** Each frame returned covers exactly its encoding in the stream, and the next starts where it ends. */
  lemma {:induction false} FramesTile(ms: seq<Message>, base: nat, stream: seq<byte>, i: nat)
    requires i < |ms| && base <= |stream| && stream[base..] == Wire(ms)
    ensures |Framed(ms, base)| == |ms|
    ensures var f := Framed(ms, base)[i];
            && f.byteStart < f.byteEnd <= |stream|
            && stream[f.byteStart..f.byteEnd] == F.Encode(1, ms[i].kind, ms[i].payload)
            && (i == 0 ==> f.byteStart == base)
            && (i + 1 < |ms| ==> Framed(ms, base)[i + 1].byteStart == f.byteEnd)
            && (i + 1 == |ms| ==> f.byteEnd == |stream|)
    decreases |ms|
  {
    hide F.Encode;
    EncodedLength(ms[0]);
    FramedCount(ms, base);
    var end := base + 8 + |ms[0].payload|;
    var code := F.Encode(1, ms[0].kind, ms[0].payload);
    assert stream[base..][..|code|] == code && stream[base..][|code|..] == Wire(ms[1..]);
    assert stream[base..end] == code && stream[end..] == Wire(ms[1..]);
    if i > 0 {
      FramesTile(ms[1..], end, stream, i - 1);
    } else if |ms| > 1 {
      FramesTile(ms[1..], end, stream, 0);
    } else {
      assert Wire(ms[1..]) == [];
    }
  }

  lemma {:induction false} FramedCount(ms: seq<Message>, base: nat)
    ensures |Framed(ms, base)| == |ms|
  {
    if ms != [] {
      FramedCount(ms[1..], base + 8 + |ms[0].payload|);
    }
  }

  // ---------------------------------------------------------------------------------------
  // When no byte is lost

  /** A view loses bytes if and only if its first frame leaves more than 136 bytes behind it. */
  lemma ViewLoses(carry: seq<byte>, view: seq<byte>)
    requires |carry| <= 136 && |view| <= 256
    ensures KeptOfView(carry, view) <= view
    ensures KeptOfView(carry, view) != view
            <==> F.First(carry + view).Whole? && |carry + view| - F.First(carry + view).size > 136
  {
    hide F.Decode, F.First;
    F.StepConserves(carry, view, false);
    KeptIsSeen(carry, view);
  }

  /** Between calls the carry is the beginning of one frame, so a chunk of at most 137 bytes is kept whole. */
  lemma SmallChunkKept(carry: seq<byte>, chunk: seq<byte>)
    requires |carry| <= 136 && F.First(carry).Incomplete? && |chunk| <= 137
    ensures KeptOf(carry, chunk) == chunk
  {
    if chunk != [] {
      SmallViewKept(carry, chunk);
      assert chunk[|chunk|..] == [];
      assert chunk + [] == chunk;
    }
  }

  lemma SmallViewKept(carry: seq<byte>, view: seq<byte>)
    requires |carry| <= 136 && F.First(carry).Incomplete? && |view| <= 137
    ensures KeptOfView(carry, view) == view
  {
    hide KeptOfView;
    ViewLoses(carry, view);
    F.FirstSize(carry + view);
    if F.First(carry + view).Whole? && F.First(carry + view).size <= |carry| {
      FirstOfPrefix(carry + view, |carry|);
      assert (carry + view)[..|carry|] == carry;
    }
  }

  /** The guard of the step that drops nothing. */
  predicate Fits(carry: seq<byte>, view: seq<byte>) {
    F.First(carry + view).Whole? ==> |carry + view| - F.First(carry + view).size <= 136
  }

  /** Every view of a chunk meets the guard, from the carry the views before it leave. */
  predicate AllFit(carry: seq<byte>, chunk: seq<byte>)
    decreases |chunk|
  {
    chunk != [] ==>
      && Fits(carry, FirstView(chunk))
      && AllFit(Parse(carry + FirstView(chunk), 0).rest, chunk[|FirstView(chunk)|..])
  }

  /** A chunk of any size is kept whole if and only if all its views meet the guard (unless it is
      refused with an error anyway). */
  lemma {:induction false} ChunkKept(carry: seq<byte>, chunk: seq<byte>)
    requires |carry| <= 136 && Parse(carry + KeptOf(carry, chunk), 0).error == NO_ERROR
    ensures |KeptOf(carry, chunk)| <= |chunk|
    ensures KeptOf(carry, chunk) == chunk <==> AllFit(carry, chunk)
    decreases |chunk|
  {
    if chunk == [] {
      hide F.First, Parse, KeptOfView;
    } else {
      hide *;
      var view := FirstView(chunk);
      var seen, rest := KeptOfView(carry, view), chunk[|view|..];
      ViewFits(carry, view);
      KeptUnfolds(carry, chunk, seen);
      var p := Parse(carry + seen, 0);
      StaysBad(carry, seen, p, KeptOf(carry, chunk));
      var more := KeptOf(p.rest, rest);
      assert carry + seen + more == carry + (seen + more);
      RestParses(carry + seen, p, more, carry + KeptOf(carry, chunk));
      ChunkKept(p.rest, rest);
      PiecesMatch(chunk, view, rest, seen, more);
      AllFitUnfolds(carry, chunk, p.rest);
    }
  }

  lemma PiecesMatch(chunk: seq<byte>, view: seq<byte>, rest: seq<byte>, seen: seq<byte>, more: seq<byte>)
    requires view <= chunk && rest == chunk[|view|..] && seen <= view && |more| <= |rest|
    ensures |seen + more| <= |chunk|
    ensures seen + more == chunk <==> seen == view && more == rest
  {
    assert chunk == view + rest;
    if seen + more == chunk {
      assert |seen| == |view|;
      assert (seen + more)[|view|..] == more;
    }
  }

  lemma AllFitUnfolds(carry: seq<byte>, chunk: seq<byte>, rest: seq<byte>)
    requires chunk != []
    requires Fits(carry, FirstView(chunk)) ==> rest == Parse(carry + FirstView(chunk), 0).rest
    ensures AllFit(carry, chunk) <==> Fits(carry, FirstView(chunk)) && AllFit(rest, chunk[|FirstView(chunk)|..])
  {
    hide Fits, Parse, FirstView;
  }

  lemma KeptUnfolds(carry: seq<byte>, chunk: seq<byte>, seen: seq<byte>)
    requires |carry| <= 136 && chunk != [] && seen == KeptOfView(carry, FirstView(chunk))
    ensures var p := Parse(carry + seen, 0);
            if p.error != NO_ERROR then KeptOf(carry, chunk) == seen
            else |p.rest| <= 136 && KeptOf(carry, chunk) == seen + KeptOf(p.rest, chunk[|FirstView(chunk)|..])
  {
    hide F.First, Parse, KeptOfView, FirstView;
    ParseSplits(carry + seen, 0);
  }

  lemma ViewFits(carry: seq<byte>, view: seq<byte>)
    requires |carry| <= 136 && |view| <= 256
    ensures KeptOfView(carry, view) <= view && (KeptOfView(carry, view) == view <==> Fits(carry, view))
  {
    hide F.First, KeptOfView;
    ViewLoses(carry, view);
  }

  lemma RestParses(s: seq<byte>, p: Parsed, t: seq<byte>, all: seq<byte>)
    requires p == Parse(s, 0) && p.error == NO_ERROR && all == s + t && Parse(all, 0).error == NO_ERROR
    ensures Parse(p.rest + t, 0).error == NO_ERROR
  {
    hide Parse;
    ParseAppend(s, t, 0);
    ParseElsewhere(p.rest + t, 0, |s| - |p.rest|);
  }

  lemma StaysBad(carry: seq<byte>, seen: seq<byte>, p: Parsed, kept: seq<byte>)
    requires p == Parse(carry + seen, 0) && Parse(carry + kept, 0).error == NO_ERROR
    requires p.error != NO_ERROR ==> kept == seen
    ensures p.error == NO_ERROR
  {}

  // ---------------------------------------------------------------------------------------
  // Whole runs

  /** What a reader keeps of a run of chunks, up to the first error. */
  function KeptStream(chunks: seq<seq<byte>>): seq<byte> {
    if chunks == [] then []
    else
      var before := KeptStream(chunks[..|chunks| - 1]);
      var p := Parse(before, 0);
      ParseSplits(before, 0);
      if p.error != NO_ERROR then before else before + KeptOf(p.rest, chunks[|chunks| - 1])
  }

  /** A new reader, one `feed` per chunk, then `finish`: the answer is that of the bytes kept.  It is
      the stream's own answer when every view meets the guard, and for a stream that reads cleanly only then. */
  method ReadAll(chunks: seq<seq<byte>>) returns (r: Result<seq<Frame>, int>)
    ensures r == ReadStream(KeptStream(chunks))
    ensures ChunksFit(chunks) ==> r == ReadStream(Flatten(chunks))
    ensures ReadStream(Flatten(chunks)).Success? ==> (r == ReadStream(Flatten(chunks)) <==> ChunksFit(chunks))
  {
    hide F.First, Parse, Settled, Ended, KeptOf, Pends, ChunksFit, ReadStream;
    AnswersExactlyWhenFit(chunks);
    var reader := new FrameReader();
    var frames := [];
    assert chunks[..0] == [];
    for i := 0 to |chunks|
      invariant fresh(reader) && reader.Valid()
      invariant reader.kept == KeptStream(chunks[..i]) && reader.emitted == frames
    {
      assert chunks[..i + 1][..i] == chunks[..i];
      ValidCarry(reader.kept, reader.emitted, reader.carry);
      var more := reader.Feed(chunks[i]);
      if more.Failure? {
        ErrorStops(chunks, i + 1, frames, more, reader.carry);
        return more;
      }
      frames := frames + more.value;
    }
    assert chunks[..|chunks|] == chunks;
    reader.ValidIsPending();
    var last := reader.Finish();
    EndedRead(KeptStream(chunks), frames, last);
    if last.Failure? {
      return last;
    }
    return Success(frames + last.value);
  }

  lemma {:induction false} KeptStreamStops(chunks: seq<seq<byte>>, n: nat)
    requires n <= |chunks| && Parse(KeptStream(chunks[..n]), 0).error != NO_ERROR
    ensures KeptStream(chunks) == KeptStream(chunks[..n])
  {
    hide Parse, KeptOf;
    if n == |chunks| {
      assert chunks[..n] == chunks;
    } else {
      assert chunks[..|chunks| - 1][..n] == chunks[..n];
      KeptStreamStops(chunks[..|chunks| - 1], n);
    }
  }

  lemma ErrorStops(chunks: seq<seq<byte>>, n: nat, frames: seq<Frame>, r: Result<seq<Frame>, int>, carry: seq<byte>)
    requires n <= |chunks| && r.Failure? && Settled(Parse(KeptStream(chunks[..n]), 0), frames, r, carry)
    ensures r == ReadStream(KeptStream(chunks))
  {
    hide Parse, KeptStream;
    KeptStreamStops(chunks, n);
  }

  lemma ErrorCodes(s: seq<byte>)
    requires Parse(s, 0).error != NO_ERROR
    ensures Parse(s, 0).error != F.STATUS_TRUNCATED
  {
    hide Parse, F.First;
    ParseSplits(s, 0);
    F.FirstSize(Parse(s, 0).rest);
  }

  lemma ErrorIsFinal(s: seq<byte>, t: seq<byte>, code: int)
    requires ReadStream(s) == Failure(code) && code != F.STATUS_TRUNCATED
    ensures ReadStream(s + t) == Failure(code)
  {
    hide Parse;
    ParseAppend(s, t, 0);
  }

  lemma EndedRead(stream: seq<byte>, frames: seq<Frame>, r: Result<seq<Frame>, int>)
    requires Ended(Parse(stream, 0), frames, r)
    ensures ReadStream(stream) == if r.Success? then Success(frames + r.value) else r
  {
    hide Parse;
  }

  // ---------------------------------------------------------------------------------------
  // Which answers are the stream's own

  /** Every view of every chunk meets the guard, from the carry that the stream before it leaves. */
  predicate ChunksFit(chunks: seq<seq<byte>>) {
    chunks != [] ==>
      && ChunksFit(chunks[..|chunks| - 1])
      && AllFit(Parse(Flatten(chunks[..|chunks| - 1]), 0).rest, chunks[|chunks| - 1])
  }

  lemma ChunksFitUnfolds(chunks: seq<seq<byte>>, front: seq<seq<byte>>, last: seq<byte>)
    requires chunks != [] && front == chunks[..|chunks| - 1] && last == chunks[|chunks| - 1]
    ensures ChunksFit(chunks) <==> ChunksFit(front) && AllFit(Parse(Flatten(front), 0).rest, last)
    ensures Flatten(chunks) == Flatten(front) + last
  {
    hide AllFit, Parse;
  }

  lemma KeptStreamUnfolds(chunks: seq<seq<byte>>, front: seq<seq<byte>>, last: seq<byte>)
    requires chunks != [] && front == chunks[..|chunks| - 1] && last == chunks[|chunks| - 1]
    ensures var before := KeptStream(front); var p := Parse(before, 0);
            if p.error != NO_ERROR then KeptStream(chunks) == before
            else |p.rest| <= 136 && F.First(p.rest).Incomplete? && KeptStream(chunks) == before + KeptOf(p.rest, last)
  {
    hide KeptOf, Parse, F.First;
    ParseSplits(KeptStream(front), 0);
  }

  /** A chunk whose views meet the guard is kept whole, up to the first error in it. */
  lemma {:induction false} FitIsKept(carry: seq<byte>, chunk: seq<byte>)
    requires |carry| <= 136 && AllFit(carry, chunk)
    ensures var kept := KeptOf(carry, chunk);
            kept == chunk || (kept <= chunk && Parse(carry + kept, 0).error != NO_ERROR)
    decreases |chunk|
  {
    hide *;
    if chunk == [] {
      NothingKept(carry);
    } else {
      var view := FirstView(chunk);
      var rest := chunk[|view|..];
      var p := Parse(carry + view, 0);
      AllFitUnfolds(carry, chunk, p.rest);
      ViewFits(carry, view);
      KeptUnfolds(carry, chunk, view);
      if p.error == NO_ERROR {
        FitIsKept(p.rest, rest);
        var more := KeptOf(p.rest, rest);
        ErrorBehind(carry + view, more);
        assert carry + view + more == carry + (view + more);
        assert view + rest == chunk;
      }
    }
  }

  lemma NothingKept(carry: seq<byte>)
    requires |carry| <= 136
    ensures KeptOf(carry, []) == []
  {}

  /** An error in what follows a clean beginning is an error of the whole. */
  lemma ErrorBehind(s: seq<byte>, t: seq<byte>)
    requires Parse(s, 0).error == NO_ERROR
    ensures Parse(Parse(s, 0).rest + t, 0).error == Parse(s + t, 0).error
  {
    hide Parse;
    ParseAppend(s, t, 0);
    ParseElsewhere(Parse(s, 0).rest + t, 0, |s| - |Parse(s, 0).rest|);
  }

  lemma {:induction false} KeptIsShorter(carry: seq<byte>, chunk: seq<byte>)
    requires |carry| <= 136
    ensures |KeptOf(carry, chunk)| <= |chunk|
    decreases |chunk|
  {
    hide *;
    if chunk == [] {
      NothingKept(carry);
    } else {
      var view := FirstView(chunk);
      ViewFits(carry, view);
      KeptUnfolds(carry, chunk, KeptOfView(carry, view));
      var p := Parse(carry + KeptOfView(carry, view), 0);
      if p.error == NO_ERROR {
        KeptIsShorter(p.rest, chunk[|view|..]);
      }
    }
  }

  lemma {:induction false} KeptStreamIsShorter(chunks: seq<seq<byte>>)
    ensures |KeptStream(chunks)| <= |Flatten(chunks)|
  {
    if chunks != [] {
      hide KeptOf, Parse, F.First;
      var front, last := chunks[..|chunks| - 1], chunks[|chunks| - 1];
      KeptStreamUnfolds(chunks, front, last);
      KeptStreamIsShorter(front);
      if Parse(KeptStream(front), 0).error == NO_ERROR {
        KeptIsShorter(Parse(KeptStream(front), 0).rest, last);
      }
    }
  }

  /** When every view meets the guard the answer is that of the stream alone: the same frames, or the
      same error code. */
  lemma {:induction false} FitReadsTheStream(chunks: seq<seq<byte>>)
    requires ChunksFit(chunks)
    ensures ReadStream(KeptStream(chunks)) == ReadStream(Flatten(chunks))
    ensures Parse(KeptStream(chunks), 0).error == NO_ERROR ==> KeptStream(chunks) == Flatten(chunks)
  {
    hide *;
    if chunks == [] {
      NothingStreamed();
    } else {
      var front, last := chunks[..|chunks| - 1], chunks[|chunks| - 1];
      ChunksFitUnfolds(chunks, front, last);
      KeptStreamUnfolds(chunks, front, last);
      FitReadsTheStream(front);
      var before := KeptStream(front);
      var p := Parse(before, 0);
      if p.error == NO_ERROR {
        FitIsKept(p.rest, last);
        var kept := KeptOf(p.rest, last);
        if kept != last {
          ErrorBehind(before, kept);
          assert before + last == before + kept + last[|kept|..];
          ErrorDecides(before + kept, last[|kept|..]);
        }
      } else {
        ErrorDecides(before, []);
        assert before + [] == before;
        ErrorCodes(before);
        ErrorIsFinal(Flatten(front), last, p.error);
      }
    }
  }

  lemma ErrorDecides(s: seq<byte>, t: seq<byte>)
    requires Parse(s, 0).error != NO_ERROR
    ensures ReadStream(s) == ReadStream(s + t) == Failure(Parse(s, 0).error)
  {
    hide Parse;
    ErrorCodes(s);
    ErrorIsFinal(s, t, Parse(s, 0).error);
  }

  /** The beginning of a stream without error has none. */
  lemma CleanPrefix(s: seq<byte>, t: seq<byte>)
    requires Parse(s + t, 0).error == NO_ERROR
    ensures Parse(s, 0).error == NO_ERROR
  {
    hide Parse;
    ParseAppend(s, t, 0);
  }

  /** When nothing of a stream without error was lost, every view met the guard. */
  lemma {:induction false} KeptWholeFits(chunks: seq<seq<byte>>)
    requires Parse(Flatten(chunks), 0).error == NO_ERROR && KeptStream(chunks) == Flatten(chunks)
    ensures ChunksFit(chunks)
  {
    if chunks != [] {
      hide F.First, Parse, KeptOf, KeptStream, ChunksFit, AllFit;
      var front, last := chunks[..|chunks| - 1], chunks[|chunks| - 1];
      ChunksFitUnfolds(chunks, front, last);
      KeptStreamUnfolds(chunks, front, last);
      KeptStreamIsShorter(front);
      CleanPrefix(Flatten(front), last);
      var before := KeptStream(front);
      var p := Parse(before, 0);
      if p.error == NO_ERROR {
        KeptIsShorter(p.rest, last);
        SameParts(before, KeptOf(p.rest, last), Flatten(front), last);
        KeptWholeFits(front);
        ErrorBehind(before, last);
        ChunkKept(p.rest, last);
      }
    }
  }

  lemma SameParts(a: seq<byte>, p: seq<byte>, b: seq<byte>, q: seq<byte>)
    requires a + p == b + q && |a| <= |b| && |p| <= |q|
    ensures a == b && p == q
  {
    assert |a| == |b|;
    assert (a + p)[..|a|] == a && (b + q)[..|b|] == b;
    assert (a + p)[|a|..] == p && (b + q)[|b|..] == q;
  }

  lemma {:induction false} FramedIsInjective(ms: seq<Message>, ns: seq<Message>, base: nat)
    requires Framed(ms, base) == Framed(ns, base)
    ensures ms == ns
    decreases |ms|
  {
    FramedCount(ms, base);
    FramedCount(ns, base);
    if ms != [] {
      assert Framed(ms, base)[0] == Framed(ns, base)[0];
      assert Framed(ms, base)[1..] == Framed(ns, base)[1..];
      FramedIsInjective(ms[1..], ns[1..], base + 8 + |ms[0].payload|);
      assert ms == [ms[0]] + ms[1..] && ns == [ns[0]] + ns[1..];
    }
  }

  /** No two streams give the same frames. */
  lemma FramesDecideTheStream(s: seq<byte>, t: seq<byte>)
    requires ReadStream(s).Success? && ReadStream(s) == ReadStream(t)
    ensures s == t
  {
    hide ReadStream, Wire, Framed;
    var ms := ReadIsSent(s);
    var ns := ReadIsSent(t);
    FramedIsInjective(ms, ns, 0);
  }

  /** The answer for any chunks is the stream's own when every view meets the guard; for a stream that
      reads cleanly, only then: any lost byte changes the frames returned. */
  lemma AnswersExactlyWhenFit(chunks: seq<seq<byte>>)
    ensures ChunksFit(chunks) ==> ReadStream(KeptStream(chunks)) == ReadStream(Flatten(chunks))
    ensures ReadStream(Flatten(chunks)).Success? ==>
              (ReadStream(KeptStream(chunks)) == ReadStream(Flatten(chunks)) <==> ChunksFit(chunks))
    ensures ReadStream(Flatten(chunks)).Success? ==>
              (ReadStream(KeptStream(chunks)) == ReadStream(Flatten(chunks)) <==> KeptStream(chunks) == Flatten(chunks))
  {
    hide ReadStream, KeptStream, ChunksFit, Parse;
    if ChunksFit(chunks) {
      FitReadsTheStream(chunks);
    }
    if ReadStream(Flatten(chunks)).Success? {
      SuccessIsClean(Flatten(chunks));
      if ReadStream(KeptStream(chunks)) == ReadStream(Flatten(chunks)) {
        FramesDecideTheStream(KeptStream(chunks), Flatten(chunks));
      }
      if KeptStream(chunks) == Flatten(chunks) {
        KeptWholeFits(chunks);
      }
    }
  }

  lemma SuccessIsClean(s: seq<byte>)
    requires ReadStream(s).Success?
    ensures Parse(s, 0).error == NO_ERROR
  {
    hide Parse;
  }

  // ---------------------------------------------------------------------------------------
  // Chunks of at most 137 bytes

  lemma SmallChunkFits(carry: seq<byte>, chunk: seq<byte>)
    requires |chunk| <= 137 && (F.First(carry).Bad? || (|carry| <= 136 && F.First(carry).Incomplete?))
    ensures AllFit(carry, chunk)
  {
    hide F.First, Parse, KeptOfView;
    if chunk != [] {
      assert FirstView(chunk) == chunk && chunk[|chunk|..] == [];
      if F.First(carry).Bad? {
        F.FirstStable(carry, chunk);
      } else {
        SmallViewKept(carry, chunk);
        ViewFits(carry, chunk);
      }
    }
  }

  /** Chunk invariance: for chunks of at most 137 bytes the answer is that of the stream alone, the
      same frames or the same error code however it was cut. */
  lemma {:induction false} SmallChunksReadTheStream(chunks: seq<seq<byte>>)
    requires forall i :: 0 <= i < |chunks| ==> |chunks[i]| <= 137
    ensures ChunksFit(chunks)
    ensures ReadStream(KeptStream(chunks)) == ReadStream(Flatten(chunks))
  {
    hide F.First, Parse, ChunksFit, AllFit, ReadStream, KeptStream;
    if chunks == [] {
      NoChunksFit();
    } else {
      var front, last := chunks[..|chunks| - 1], chunks[|chunks| - 1];
      SmallChunksReadTheStream(front);
      ChunksFitUnfolds(chunks, front, last);
      ParseSplits(Flatten(front), 0);
      SmallChunkFits(Parse(Flatten(front), 0).rest, last);
    }
    AnswersExactlyWhenFit(chunks);
  }

  lemma NoChunksFit()
    ensures ChunksFit([])
  {}

  // ---------------------------------------------------------------------------------------
  // Longer chunks

  function Zeros(n: nat): seq<byte> { seq(n, _ => 0) }

  /** A heartbeat, a frame of 129 bytes, and a frame that makes them n + 7 bytes in all. */
  function LongWire(n: nat): seq<Message>
    requires 138 <= n <= 256
  {
    [Content(2, []), Content(0, Zeros(121)), Content(0, Zeros(n - 138))]
  }

  lemma LongWireShape(n: nat) returns (rest: seq<byte>)
    requires 138 <= n <= 256
    ensures Wire(LongWire(n)) == F.Encode(1, 2, []) + rest && |rest| == n - 1 && |F.Encode(1, 2, [])| == 8
  {
    hide F.Encode;
    var ms := LongWire(n);
    rest := Wire(ms[1..]);
    EncodedLength(ms[0]);
    EncodedLength(ms[1]);
    EncodedLength(ms[2]);
    assert ms[1..][1..] == [ms[2]] && [ms[2]][1..] == [];
    assert |Wire([ms[2]])| == n - 130;
  }

  lemma BeatHead(rest: seq<byte>)
    requires |rest| >= 1
    ensures F.First((F.Encode(1, 2, []) + rest)[..7]).Incomplete?
  {
    var s := F.Encode(1, 2, []) + rest;
    assert s[..7][4] == 0 && s[..7][5] == 0;
  }

  /** The bound is exact: for every length from 138 on there is a clean stream and a view of that length
      that loses bytes of it, and with them frames. */
  lemma LongViewLoses(n: nat) returns (carry: seq<byte>, view: seq<byte>)
    requires 138 <= n <= 256
    ensures |carry| <= 136 && F.First(carry).Incomplete? && |view| == n
    ensures KeptOfView(carry, view) != view
    ensures ReadStream(Flatten([carry, view])).Success?
    ensures ReadStream(KeptStream([carry, view])) != ReadStream(Flatten([carry, view]))
  {
    hide F.Encode, F.First, Parse, Wire, ReadStream, KeptStream, ChunksFit, AllFit, KeptOfView;
    var rest := LongWireShape(n);
    var s := Wire(LongWire(n));
    SentIsRead(LongWire(n));
    BeatHead(rest);
    carry, view := s[..7], s[7..];
    assert carry + view == s;
    F.FirstOfEncoded(2, [], rest);
    ViewFits(carry, view);
    ViewLoses(carry, view);
    TwoChunks(carry, view);
    ParseIncomplete(carry, 0);
    LongViewUnfit(carry, view);
    AnswersExactlyWhenFit([carry, view]);
  }

  lemma TwoChunks(s: seq<byte>, t: seq<byte>)
    ensures Flatten([s, t]) == s + t
    ensures ChunksFit([s, t]) ==> AllFit(Parse(s, 0).rest, t)
  {
    hide AllFit, Parse, ChunksFit;
    OneChunk(s);
    ChunksFitUnfolds([s, t], [s], t);
  }

  lemma OneChunk(s: seq<byte>)
    ensures Flatten([s]) == s
  {
    assert Flatten([]) == [] && [] + s == s;
  }

  lemma LongViewUnfit(carry: seq<byte>, view: seq<byte>)
    requires view != [] && |view| <= 256 && !Fits(carry, view)
    ensures !AllFit(carry, view)
  {
    hide Fits, Parse;
  }

  function Beats(k: nat): seq<Message> { if k == 0 then [] else [Content(2, [])] + Beats(k - 1) }

  lemma {:induction false} BeatsWire(a: nat, b: nat)
    ensures Wire(Beats(a + b)) == Wire(Beats(a)) + Wire(Beats(b))
    ensures |Wire(Beats(a))| == 8 * a && |Beats(a)| == a
    decreases a
  {
    hide F.Encode, Wire, Beats;
    EncodedLength(Content(2, []));
    if a == 0 {
      NoBeats();
      assert [] + Wire(Beats(b)) == Wire(Beats(b));
    } else {
      BeatsWire(a - 1, b);
      BeatFirst(a - 1);
      BeatFirst(a + b - 1);
      var beat := F.Encode(1, 2, []);
      assert beat + (Wire(Beats(a - 1)) + Wire(Beats(b))) == beat + Wire(Beats(a - 1)) + Wire(Beats(b));
    }
  }

  lemma NoBeats()
    ensures Beats(0) == [] && Wire([]) == []
  {}

  lemma BeatFirst(k: nat)
    ensures Wire(Beats(k + 1)) == F.Encode(1, 2, []) + Wire(Beats(k)) && |Beats(k + 1)| == 1 + |Beats(k)|
  {
    hide F.Encode;
    assert Beats(k + 1)[1..] == Beats(k);
  }

  /** Thirty-two heartbeats are 256 bytes and read as thirty-two frames; fed as one chunk, the reader
      returns eighteen of them, and reports no error. */
  lemma HeartbeatsAreLost()
    ensures |Wire(Beats(32))| == 256 && |Beats(32)| == 32 && |Beats(18)| == 18
    ensures ReadStream(Flatten([Wire(Beats(32))])) == Success(Framed(Beats(32), 0))
    ensures ReadStream(KeptStream([Wire(Beats(32))])) == Success(Framed(Beats(18), 0))
  {
    hide *;
    var s, t := Wire(Beats(32)), Wire(Beats(18));
    BeatsWire(32, 0);
    BeatsWire(18, 14);
    OneChunk(s);
    SentIsRead(Beats(32));
    SentIsRead(Beats(18));
    BeatFirst(31);
    F.FirstOfEncoded(2, [], Wire(Beats(31)));
    OneViewKept(s);
    assert s[..144] == t;
    WireParses(Beats(18), 0);
    KeptOnce(s, t);
  }

  /** Of a view of 256 bytes that begins with a frame of eight, 144 bytes are kept. */
  lemma OneViewKept(view: seq<byte>)
    requires |view| == 256 && F.First(view).Whole? && F.First(view).size == 8
    ensures KeptOfView([], view) == view[..144]
  {
    hide F.First;
    assert [] + view == view;
  }

  lemma KeptOnce(chunk: seq<byte>, seen: seq<byte>)
    requires 0 < |chunk| <= 256 && seen == KeptOfView([], chunk)
    requires Parse(seen, 0).error == NO_ERROR && Parse(seen, 0).rest == []
    ensures KeptStream([chunk]) == seen
  {
    hide Parse, KeptOfView, KeptOf, KeptStream, F.First;
    ParseNothing(0);
    assert [] + seen == seen;
    KeptUnfolds([], chunk, seen);
    assert FirstView(chunk) == chunk && chunk[|chunk|..] == [];
    NothingKept([]);
    KeptStreamUnfolds([chunk], [], chunk);
    NothingStreamed();
    assert seen + [] == seen;
  }

  lemma NothingStreamed()
    ensures KeptStream([]) == Flatten([]) == []
  {}

  /** A heartbeat and then zeros. */
  lemma BeatThenZeros(n: nat)
    requires n >= 6
    ensures Parse(F.Encode(1, 2, []) + Zeros(n), 0).error == F.STATUS_MALFORMED
  {
    hide F.Encode, F.First, Parse;
    var s := F.Encode(1, 2, []) + Zeros(n);
    F.FirstOfEncoded(2, [], Zeros(n));
    EncodedLength(Content(2, []));
    ParseWhole(s, 0);
    assert s[8..] == Zeros(n);
    ZerosAreBad(n);
    ParseBad(Zeros(n), 8);
  }

  lemma ZerosAreBad(n: nat)
    requires n >= 6
    ensures F.First(Zeros(n)) == F.Bad(F.STATUS_MALFORMED)
  {}

  /** On a stream that does not read cleanly the guard is not necessary: bytes may be lost behind an error
      that is reported all the same. */
  lemma LostBehindAnError() returns (chunk: seq<byte>)
    ensures !ChunksFit([chunk]) && KeptStream([chunk]) != Flatten([chunk])
    ensures ReadStream(KeptStream([chunk])) == ReadStream(Flatten([chunk])) == Failure(F.STATUS_MALFORMED)
  {
    hide F.Encode, F.First, Parse, KeptOfView, KeptOf, KeptStream, ChunksFit, ReadStream;
    chunk := F.Encode(1, 2, []) + Zeros(248);
    EncodedLength(Content(2, []));
    F.FirstOfEncoded(2, [], Zeros(248));
    OneChunk(chunk);
    OneViewKept(chunk);
    var seen := chunk[..144];
    assert seen == F.Encode(1, 2, []) + Zeros(136);
    BeatThenZeros(248);
    BeatThenZeros(136);
    ErrorDecides(chunk, []);
    ErrorDecides(seen, []);
    assert chunk + [] == chunk && seen + [] == seen;
    StoppedAtOnce(chunk, seen);
    BeatUnfit(chunk);
  }

  lemma StoppedAtOnce(chunk: seq<byte>, seen: seq<byte>)
    requires 0 < |chunk| <= 256 && seen == KeptOfView([], chunk) && Parse(seen, 0).error != NO_ERROR
    ensures KeptStream([chunk]) == seen
  {
    hide Parse, KeptOfView, KeptOf, KeptStream, F.First;
    ParseNothing(0);
    assert [] + seen == seen;
    KeptUnfolds([], chunk, seen);
    KeptStreamUnfolds([chunk], [], chunk);
    NothingStreamed();
  }

  lemma BeatUnfit(chunk: seq<byte>)
    requires |chunk| == 256 && F.First(chunk).Whole? && F.First(chunk).size == 8
    ensures !ChunksFit([chunk])
  {
    hide Parse, F.First;
    ParseNothing(0);
    assert [chunk][..0] == [] && Flatten([]) == [];
    assert [] + chunk == chunk;
    assert !Fits([], chunk);
    LongViewUnfit([], chunk);
  }
}
