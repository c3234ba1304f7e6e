/** `src/frames.rs`: the reader that windows a byte stream into views and drives the decoder. */
module FrameReader {
  import opened Machine
  import opened Chunks
  import F = Frames

  /** One decoded frame with its byte range. */
  datatype Frame = Frame(version: u64, kind: u64, payload: seq<byte>, byteStart: nat, byteEnd: nat)

  // ---------------------------------------------------------------------------------------
  // The reference: split a whole stream from the front

  /** Frames read from the front, then either an error code or the bytes that are not yet a frame. */
  datatype Parsed = Parsed(frames: seq<Frame>, rest: seq<byte>, error: int)

  const NO_ERROR := 0

  function Parse(s: seq<byte>, base: nat): (p: Parsed)
    ensures |p.rest| <= |s|
    decreases |s|
  {
    F.FirstSize(s);
    match F.First(s)
    case Incomplete => Parsed([], s, NO_ERROR)
    case Bad(code) => Parsed([], s, code)
    case Whole(kind, payload, size) =>
      var more := Parse(s[size..], base + size);
      more.(frames := [Frame(1, kind, payload, base, base + size)] + more.frames)
  }

  /** What reading a whole stream means, with no chunk in it: the frames, or an error code. */
  function ReadStream(stream: seq<byte>): Result<seq<Frame>, int> {
    var p := Parse(stream, 0);
    if p.error != NO_ERROR then Failure(p.error)
    else if p.rest == [] then Success(p.frames)
    else Failure(F.STATUS_TRUNCATED)
  }

  lemma {:induction false} ParseSplits(s: seq<byte>, base: nat)
    ensures var p := Parse(s, base);
            && (p.error == NO_ERROR ==> F.First(p.rest).Incomplete? && |p.rest| < 136)
            && (p.error != NO_ERROR ==> F.First(p.rest) == F.Bad(p.error))
    decreases |s|
  {
    hide F.First;
    F.FirstSize(s);
    if F.First(s).Whole? {
      ParseSplits(s[F.First(s).size..], base + F.First(s).size);
    }
  }

  function Prepend(fs: seq<Frame>, p: Parsed): Parsed { p.(frames := fs + p.frames) }

  lemma PrependAssoc(a: seq<Frame>, b: seq<Frame>, p: Parsed)
    ensures Prepend(a, Prepend(b, p)) == Prepend(a + b, p)
  {
    assert a + (b + p.frames) == a + b + p.frames;
  }

  function FrameOf(head: F.Head, base: nat): Frame
    requires head.Whole?
  {
    Frame(1, head.kind, head.payload, base, base + head.size)
  }

  lemma ParseWhole(s: seq<byte>, base: nat)
    requires F.First(s).Whole?
    ensures F.First(s).size <= |s|
    ensures Parse(s, base) == Prepend([FrameOf(F.First(s), base)], Parse(s[F.First(s).size..], base + F.First(s).size))
  {
    hide F.First;
    F.FirstSize(s);
  }

  lemma ParseIncomplete(s: seq<byte>, base: nat)
    requires F.First(s).Incomplete?
    ensures Parse(s, base) == Parsed([], s, NO_ERROR)
  {
    hide F.First;
  }

  lemma ParseBad(s: seq<byte>, base: nat)
    requires F.First(s).Bad?
    ensures Parse(s, base) == Parsed([], s, F.First(s).code) && F.First(s).code != NO_ERROR
  {
    F.FirstSize(s);
    hide F.First;
  }

  /** What remains to be parsed once `s` has been and `t` follows. */
  function Continue(p: Parsed, t: seq<byte>, end: nat): Parsed
    requires |p.rest| <= end
  {
    if p.error != NO_ERROR then p.(rest := p.rest + t) else Prepend(p.frames, Parse(p.rest + t, end - |p.rest|))
  }

  /** Parsing more of a stream continues where parsing less of it stopped; an error is final. */
  lemma {:induction false} ParseAppend(s: seq<byte>, t: seq<byte>, base: nat)
    ensures Parse(s + t, base) == Continue(Parse(s, base), t, base + |s|)
    decreases |s|
  {
    F.FirstSize(s);
    hide F.First, Parse;
    match F.First(s)
    case Incomplete =>
      ParseIncomplete(s, base);
      assert Prepend([], Parse(s + t, base)) == Parse(s + t, base);
    case Bad(_) =>
      F.FirstStable(s, t);
      ParseBad(s, base);
      ParseBad(s + t, base);
    case Whole(_, _, size) =>
      F.FirstStable(s, t);
      ParseWhole(s, base);
      ParseWhole(s + t, base);
      assert (s + t)[size..] == s[size..] + t;
      ParseAppend(s[size..], t, base + size);
      ContinueWhole(FrameOf(F.First(s), base), Parse(s[size..], base + size), t, base + |s|);
  }

  lemma ContinueWhole(f: Frame, q: Parsed, t: seq<byte>, end: nat)
    requires |q.rest| <= end
    ensures Continue(Prepend([f], q), t, end) == Prepend([f], Continue(q, t, end))
  {
    hide Parse;
    if q.error == NO_ERROR {
      PrependAssoc([f], q.frames, Parse(q.rest + t, end - |q.rest|));
    }
  }

  // ---------------------------------------------------------------------------------------
  // Which bytes of a chunk the reader keeps

  /** `feed` windows a chunk into views of 256 bytes; of each view it keeps the bytes the step
      consumed and never presents the others again. */
  function KeptOf(carry: seq<byte>, chunk: seq<byte>): seq<byte>
    requires |carry| <= 136
    decreases |chunk|
  {
    if chunk == [] then []
    else
      var view := FirstView(chunk);
      var kept := KeptOfView(carry, view);
      var p := Parse(carry + kept, 0);
      ParseSplits(carry + kept, 0);
      if p.error != NO_ERROR then kept else kept + KeptOf(p.rest, chunk[|view|..])
  }

  function KeptOfView(carry: seq<byte>, view: seq<byte>): seq<byte>
    requires |carry| <= 136 && |view| <= 256
  {
    F.StepConserves(carry, view, false);
    view[..F.Decode(carry + view, |carry|, |view|, false).consumed]
  }

  function Stage(carry: seq<byte>): (staged: F.CarryBuffer)
    requires |carry| <= 136
    ensures staged[..|carry|] == carry
  {
    carry + seq(136 - |carry|, _ => 0)
  }

  function ToFrame(out: F.FrameOut, frameStart: nat): Frame {
    Frame(out.version, out.kind, out.payload, frameStart, frameStart + out.frameLen)
  }

  /** One step on carry and view: what it produced, then what parsing its carry produces, is what
      parsing the bytes it kept produces. */
  predicate Explained(carry: seq<byte>, view: seq<byte>, eof: bool, out: F.FrameOut, base: nat) {
    && (if eof then out.status != F.STATUS_NEED_MORE
        else out.status != F.STATUS_TRUNCATED && out.status != F.STATUS_COMPLETE)
    && out.consumed <= |view| && |out.carry| <= 136
    && var p := Parse(carry + view[..out.consumed], base);
       if out.status == F.STATUS_FRAME then
         && 8 <= out.frameLen && |out.carry| + out.frameLen == |carry| + out.consumed
         && p == Prepend([ToFrame(out, base)], Parse(out.carry, base + out.frameLen))
       else if out.status == F.STATUS_NEED_MORE then
         out.carry == carry + view && out.consumed == |view| && p == Parsed([], carry + view, NO_ERROR)
       else if out.status == F.STATUS_TRUNCATED then F.First(carry + view).Incomplete? && carry + view != []
       else if out.status == F.STATUS_COMPLETE then carry == [] && view == [] && out.carry == []
       else out.consumed == |view| && p.error == out.status != NO_ERROR && p.frames == []
  }

  lemma StepIncomplete(carry: seq<byte>, view: seq<byte>, eof: bool, base: nat)
    requires |carry| <= 136 && |view| <= 256 && F.First(carry + view).Incomplete?
    ensures Explained(carry, view, eof, F.Decode(carry + view, |carry|, |view|, eof), base)
  {
    F.FirstSize(carry + view);
    hide F.First, Parse;
    assert view[..|view|] == view;
    ParseIncomplete(carry + view, base);
  }

  lemma StepBad(carry: seq<byte>, view: seq<byte>, eof: bool, base: nat)
    requires |carry| <= 136 && |view| <= 256 && F.First(carry + view).Bad?
    ensures Explained(carry, view, eof, F.Decode(carry + view, |carry|, |view|, eof), base)
  {
    F.FirstSize(carry + view);
    hide F.First, Parse;
    assert view[..|view|] == view;
    ParseBad(carry + view, base);
  }

  lemma StepWhole(carry: seq<byte>, view: seq<byte>, eof: bool, base: nat)
    requires |carry| <= 136 && |view| <= 256 && F.First(carry + view).Whole?
    ensures Explained(carry, view, eof, F.Decode(carry + view, |carry|, |view|, eof), base)
  {
    F.FirstSize(carry + view);
    hide F.First, Parse;
    var out := F.Decode(carry + view, |carry|, |view|, eof);
    CutParses(carry, view, out.frameLen, |out.carry|, base);
  }

  lemma StepParses(carry: seq<byte>, view: seq<byte>, eof: bool, base: nat)
    requires |carry| <= 136 && |view| <= 256
    ensures Explained(carry, view, eof, F.Decode(carry + view, |carry|, |view|, eof), base)
  {
    hide F.First, F.Decode, Explained;
    match F.First(carry + view)
    case Incomplete => StepIncomplete(carry, view, eof, base);
    case Bad(_) => StepBad(carry, view, eof, base);
    case Whole(_, _, _) => StepWhole(carry, view, eof, base);
  }

  lemma CutParses(carry: seq<byte>, view: seq<byte>, size: nat, keep: nat, base: nat)
    requires F.First(carry + view).Whole? && size == F.First(carry + view).size
    requires |carry| <= size + keep <= |carry + view|
    ensures Parse(carry + view[..size + keep - |carry|], base)
            == Prepend([FrameOf(F.First(carry + view), base)], Parse((carry + view)[size..size + keep], base + size))
  {
    hide F.First, Parse;
    var staged := carry + view;
    var cut := staged[..size + keep];
    CutOfStage(carry, view, size + keep - |carry|);
    FirstOfPrefix(staged, size + keep);
    ParseWhole(cut, base);
    assert cut[size..] == staged[size..size + keep];
  }

  lemma CutOfStage(carry: seq<byte>, view: seq<byte>, k: nat)
    requires k <= |view|
    ensures carry + view[..k] == (carry + view)[..|carry| + k]
  {}

  lemma ParseNothing(base: nat)
    ensures Parse([], base) == Parsed([], [], NO_ERROR)
  {}

  /** A whole frame at the front is also found in any prefix that contains it. */
  lemma FirstOfPrefix(s: seq<byte>, n: nat)
    requires F.First(s).Whole? && F.First(s).size <= n <= |s|
    ensures F.First(s[..n]) == F.First(s)
  {
    hide F.First, F.Encode;
    var f := F.First(s);
    F.WholeIsEncoded(s);
    F.FirstOfEncoded(f.kind, f.payload, s[..n][f.size..]);
    assert s[..n] == s[..f.size] + s[..n][f.size..];
  }

  /** What one step means for a stream `all` that had `fs` before it. */
  lemma StepAdvances(all: Parsed, fs: seq<Frame>, carry: seq<byte>, view: seq<byte>, step: F.FrameOut, base: nat)
    requires Explained(carry, view, false, step, base)
    requires all == Prepend(fs, Parse(carry + view[..step.consumed], base))
    ensures step.consumed <= |view| && |step.carry| <= 136
    ensures if step.status == F.STATUS_FRAME then
              && |step.carry| + step.frameLen == |carry| + step.consumed && 8 <= step.frameLen
              && all == Prepend(fs + [ToFrame(step, base)], Parse(step.carry, base + step.frameLen))
            else if step.status == F.STATUS_NEED_MORE then
              step.consumed == |view| && step.carry == carry + view && all == Parsed(fs, step.carry, NO_ERROR)
            else all.error == step.status != NO_ERROR
  {
    hide Parse;
    if step.status == F.STATUS_FRAME {
      PrependAssoc(fs, [ToFrame(step, base)], Parse(step.carry, base + step.frameLen));
    } else {
      assert fs + [] == fs;
    }
  }

  /** A stream `all` of `end` bytes, of which `carry` is still to be parsed after `before` and `frames`. */
  predicate Pends(all: Parsed, before: seq<Frame>, frames: seq<Frame>, carry: seq<byte>, end: nat) {
    |carry| <= end && all == Prepend(before + frames, Parse(carry, end - |carry|))
  }

  /** The same for a step over the carry alone. */
  lemma DrainAdvances(all: Parsed, before: seq<Frame>, frames: seq<Frame>, carry: seq<byte>, end: nat)
    requires |carry| <= 136 && Pends(all, before, frames, carry, end)
    ensures var step := F.Decode(carry, |carry|, 0, false);
            var frame := ToFrame(step, SaturatingSub(end, |carry|));
            && step.consumed == 0 && |step.carry| <= 136
            && if step.status == F.STATUS_FRAME then
                 |step.carry| < |carry| && Pends(all, before, frames + [frame], step.carry, end)
               else if step.status == F.STATUS_NEED_MORE then Settled(all, before, Success(frames), step.carry)
               else Settled(all, before, Failure(step.status), step.carry)
  {
    hide F.First, F.Decode, Parse, Explained, Prepend;
    var base := end - |carry|;
    var step := F.Decode(carry, |carry|, 0, false);
    EmptyView(carry);
    StepParses(carry, [], false, base);
    ExplainedBounds(carry, [], false, step, base);
    StepAdvances(all, before + frames, carry, [], step, base);
    assert before + (frames + [ToFrame(step, base)]) == before + frames + [ToFrame(step, base)];
  }

  lemma ExplainedBounds(carry: seq<byte>, view: seq<byte>, eof: bool, out: F.FrameOut, base: nat)
    requires Explained(carry, view, eof, out, base)
    ensures out.consumed <= |view| && |out.carry| <= 136
  {}

  // ---------------------------------------------------------------------------------------
  // The reader

  /** `LanguageRuntime::decode_frame`: stages the carry in its fixed buffer and calls the decoder. */
  method RunDecoder(carry: seq<byte>, view: seq<byte>, eof: bool) returns (out: F.FrameOut)
    requires |carry| <= 136 && |view| <= 256
    ensures out == F.Decode(carry + view, |carry|, |view|, eof)
  {
    hide F.Decode;
    out := F.DecodeFrame(Stage(carry), |carry|, view, |view|, eof);
    assert view[..|view|] == view;
  }

  /** A call that read up to `all`, with `before` returned earlier, answers `r` and keeps `carry`. */
  predicate Settled(all: Parsed, before: seq<Frame>, r: Result<seq<Frame>, int>, carry: seq<byte>) {
    if all.error != NO_ERROR then r == Failure(all.error)
    else r.Success? && all == Parsed(before + r.value, carry, NO_ERROR)
  }

  /** End of input after `all`, with `before` returned earlier, answers `r`. */
  predicate Ended(all: Parsed, before: seq<Frame>, r: Result<seq<Frame>, int>) {
    if all.error != NO_ERROR then r == Failure(all.error)
    else if all.rest != [] then r == Failure(F.STATUS_TRUNCATED)
    else r.Success? && all.frames == before + r.value
  }

  /** One step over the carry at end of input. */
  lemma FinishAdvances(all: Parsed, before: seq<Frame>, frames: seq<Frame>, carry: seq<byte>, end: nat)
    requires |carry| <= 136 && Pends(all, before, frames, carry, end)
    ensures var step := F.Decode(carry, |carry|, 0, true);
            var frame := ToFrame(step, SaturatingSub(end, |carry|));
            && step.consumed == 0 && |step.carry| <= 136
            && if step.status == F.STATUS_FRAME then
                 |step.carry| < |carry| && Pends(all, before, frames + [frame], step.carry, end)
               else Ended(all, before, if step.status == F.STATUS_COMPLETE then Success(frames)
                   else Failure(step.status))
  {
    hide F.First, Parse, Explained, Prepend;
    var step := F.Decode(carry, |carry|, 0, true);
    EmptyView(carry);
    match F.First(carry)
    case Incomplete =>
      ParseIncomplete(carry, end - |carry|);
      JoinsNothing(before + frames, carry);
    case Bad(_) =>
      F.FirstSize(carry);
      ParseBad(carry, end - |carry|);
      BadJoins(all, before + frames, Parse(carry, end - |carry|));
    case Whole(_, _, _) =>
      F.FirstSize(carry);
      DrainAdvances(all, before, frames, carry, end);
  }

  lemma JoinsNothing(fs: seq<Frame>, rest: seq<byte>)
    ensures Prepend(fs, Parsed([], rest, NO_ERROR)) == Parsed(fs, rest, NO_ERROR)
  {
    assert fs + [] == fs;
  }

  lemma BadJoins(all: Parsed, fs: seq<Frame>, p: Parsed)
    requires all == Prepend(fs, p)
    ensures all.error == p.error
  {}

  /** Where one step leaves a stream `all` of `end` bytes that had `before` ahead of it. */
  predicate Steps(all: Parsed, before: seq<Frame>, step: F.FrameOut, base: nat, end: nat) {
    if step.status == F.STATUS_FRAME then Pends(all, before, [ToFrame(step, base)], step.carry, end)
    else if step.status == F.STATUS_NEED_MORE then Pends(all, before, [], step.carry, end)
    else Settled(all, before, Failure(step.status), step.carry)
  }

  lemma StepsOn(all: Parsed, before: seq<Frame>, carry: seq<byte>, view: seq<byte>, step: F.FrameOut, base: nat,
      end: nat)
    requires end == base + |carry| + step.consumed
    requires Explained(carry, view, false, step, base)
    requires all == Prepend(before, Parse(carry + view[..step.consumed], base))
    requires F.First(all.rest).Incomplete? || all.error != NO_ERROR
    ensures Steps(all, before, step, base, end)
  {
    hide F.First, Parse, Explained;
    StepAdvances(all, before, carry, view, step, base);
    if step.status == F.STATUS_NEED_MORE {
      PendsCarry(all, before, step.carry, end);
    }
  }

  /** A view after a parsed stream: its first step, then the carry. */
  lemma ViewAdvances(kept: seq<byte>, emitted: seq<Frame>, carry: seq<byte>, view: seq<byte>,
                     step: F.FrameOut, base: nat, end: nat)
    requires Parse(kept, 0) == Parsed(emitted, carry, NO_ERROR) && |view| <= 256 && |carry| <= 136
    requires step == F.Decode(carry + view, |carry|, |view|, false) && step.consumed <= |view|
    requires base + |carry| == |kept| && end == |kept| + step.consumed
    ensures |step.carry| <= 136
    ensures Steps(Parse(kept + view[..step.consumed], 0), emitted, step, base, end)
  {
    hide *;
    var seen := view[..step.consumed];
    StepParses(carry, view, false, base);
    ExplainedBounds(carry, view, false, step, base);
    ContinueClean(kept, emitted, carry, seen, base);
    ParseSplits(kept + seen, 0);
    StepsOn(Parse(kept + seen, 0), emitted, carry, view, step, base, end);
  }

  lemma ContinueClean(kept: seq<byte>, emitted: seq<Frame>, carry: seq<byte>, more: seq<byte>, base: nat)
    requires Parse(kept, 0) == Parsed(emitted, carry, NO_ERROR) && base + |carry| == |kept|
    ensures Parse(kept + more, 0) == Prepend(emitted, Parse(carry + more, base))
  {
    hide Parse;
    ParseAppend(kept, more, 0);
  }

  lemma KeptIsSeen(carry: seq<byte>, view: seq<byte>)
    requires |carry| <= 136 && |view| <= 256
    ensures var k := F.Decode(carry + view, |carry|, |view|, false).consumed;
            k <= |view| && view[..k] == KeptOfView(carry, view)
  {
    hide F.Decode;
    F.StepConserves(carry, view, false);
  }

  lemma PendsCarry(all: Parsed, emitted: seq<Frame>, carry: seq<byte>, end: nat)
    requires all == Parsed(emitted, carry, NO_ERROR) && |carry| <= end && F.First(carry).Incomplete?
    ensures Pends(all, emitted, [], carry, end)
  {
    hide F.First, Parse;
    ParseIncomplete(carry, end - |carry|);
    assert emitted + [] + [] == emitted;
  }

  class FrameReader {
    var carry: seq<byte>
    var streamPos: nat
    /** The bytes kept so far and the frames returned so far. */
    ghost var kept: seq<byte>
    ghost var emitted: seq<Frame>

    /** Between calls: the frames returned and the carry are what parsing the kept bytes gives. */
    ghost predicate Valid()
      reads this
    {
      streamPos == |kept| && Parse(kept, 0) == Parsed(emitted, carry, NO_ERROR)
    }

    /** A state `finish` can start from: the carry is what is left to parse of the bytes kept. */
    ghost predicate Pending()
      reads this
    {
      streamPos == |kept| && |carry| <= 136 && Pends(Parse(kept, 0), emitted, [], carry, streamPos)
    }

    lemma ValidIsPending()
      requires Valid()
      ensures Pending()
    {
      ValidCarry(kept, emitted, carry);
      PendsCarry(Parse(kept, 0), emitted, carry, |kept|);
    }

    constructor ()
      ensures Valid() && kept == [] && emitted == []
    {
      carry := [];
      streamPos := 0;
      kept := [];
      emitted := [];
      new;
      ParseNothing(0);
    }

    /** Empties the carry of whole frames; `saturating_sub` never clamps. */
    method DrainCarry(frames: seq<Frame>) returns (r: Result<seq<Frame>, int>)
      requires streamPos == |kept| && |carry| <= 136 && Pends(Parse(kept, 0), emitted, frames, carry, streamPos)
      modifies this
      ensures kept == old(kept) && emitted == old(emitted) && streamPos == |kept|
      ensures Settled(Parse(kept, 0), emitted, r, carry)
    {
      hide *;
      var out := frames;
      while carry != []
        invariant streamPos == |kept| && kept == old(kept) && emitted == old(emitted)
        invariant |carry| <= 136 && Pends(Parse(kept, 0), emitted, out, carry, streamPos)
        decreases |carry|
      {
        var before := |carry|;
        var step := RunDecoder(carry, [], false);
        EmptyView(carry);
        DrainAdvances(Parse(kept, 0), emitted, out, carry, streamPos);
        carry := step.carry;
        streamPos := streamPos + step.consumed;
        var frameStart := SaturatingSub(SaturatingSub(streamPos, step.consumed), before);
        SubtractNothing(streamPos);
        if step.status == F.STATUS_FRAME {
          out := out + [ToFrame(step, frameStart)];
        } else if step.status == F.STATUS_NEED_MORE {
          return Success(out);
        } else {
          return Failure(step.status);
        }
      }
      PrependNothing(Parse(kept, 0), emitted, out, streamPos);
      return Success(out);
    }

    /** Decodes one view, taking over the carry and the bytes consumed. */
    method TakeStep(view: seq<byte>) returns (step: F.FrameOut, frameStart: nat)
      requires Valid() && |view| <= 256
      modifies this
      ensures |old(carry)| <= 136 && kept == old(kept) + KeptOfView(old(carry), view)
      ensures streamPos == |kept| && emitted == old(emitted) && carry == step.carry && |carry| <= 136
      ensures Steps(Parse(kept, 0), emitted, step, frameStart, streamPos)
    {
      hide *;
      ghost var _, _, _ := Unfold();
      KeptIsSeen(carry, view);
      var before := |carry|;
      step := RunDecoder(carry, view, false);
      ViewAdvances(kept, emitted, carry, view, step, |kept| - before, |kept| + step.consumed);
      carry := step.carry;
      streamPos := streamPos + step.consumed;
      kept := kept + view[..step.consumed];
      frameStart := SaturatingSub(SaturatingSub(streamPos, step.consumed), before);
      SubtractTwice(streamPos, step.consumed, before);
    }

    /** One view of a chunk: one step, then the carry. */
    method FeedView(view: seq<byte>) returns (r: Result<seq<Frame>, int>)
      requires Valid() && |view| <= 256
      modifies this
      ensures |old(carry)| <= 136 && kept == old(kept) + KeptOfView(old(carry), view) && streamPos == |kept|
      ensures Settled(Parse(kept, 0), old(emitted), r, carry)
      ensures r.Success? ==> Valid() && emitted == old(emitted) + r.value
    {
      hide *;
      var step, frameStart := TakeStep(view);
      StepsMeans(Parse(kept, 0), emitted, step, frameStart, streamPos);
      r := StatusFrames(step, frameStart);
      if r.Success? {
        r := DrainCarry(r.value);
      }
      if r.Success? {
        SettledValid(Parse(kept, 0), emitted, r, carry);
        emitted := emitted + r.value;
        Fold();
      }
    }

    ghost method Unfold() returns (kept0: seq<byte>, carry0: seq<byte>, emitted0: seq<Frame>)
      requires Valid()
      ensures kept0 == kept && carry0 == carry && emitted0 == emitted && streamPos == |kept|
      ensures Parse(kept, 0) == Parsed(emitted, carry, NO_ERROR)
      ensures |carry| < 136 && |carry| <= |kept| && F.First(carry).Incomplete?
    {
      kept0, carry0, emitted0 := kept, carry, emitted;
      ValidCarry(kept, emitted, carry);
    }

    lemma Fold()
      requires streamPos == |kept| && Parse(kept, 0) == Parsed(emitted, carry, NO_ERROR)
      ensures Valid()
    {}

    /** One chunk of any size.  The answer and the new state are those of parsing, from the start,
        the bytes kept: everything kept before and `KeptOf` this chunk. */
    method Feed(chunk: seq<byte>) returns (r: Result<seq<Frame>, int>)
      requires Valid()
      modifies this
      ensures |old(carry)| <= 136 && kept == old(kept) + KeptOf(old(carry), chunk) && streamPos == |kept|
      ensures Settled(Parse(kept, 0), old(emitted), r, carry)
      ensures r.Success? ==> Valid() && emitted == old(emitted) + r.value
    {
      hide *;
      ghost var kept0, carry0, emitted0 := Unfold();
      var frames := [];
      var pos := 0;
      FedNothing(kept, carry, emitted, chunk);
      while pos < |chunk|
        invariant 0 <= pos <= |chunk| && Valid() && |carry| <= 136
        invariant Fed(kept0, carry0, emitted0, chunk, kept, carry, emitted, frames, chunk[pos..])
      {
        ghost var kept1, carry1, emitted1 := Unfold();
        var view := FirstView(chunk[pos..]);
        var more := FeedView(view);
        FedOn(kept0, carry0, emitted0, chunk, kept1, carry1, emitted1, frames, chunk[pos..], more, carry);
        if more.Failure? {
          return more;
        }
        ghost var _, _, _ := Unfold();
        RestOfChunk(chunk, pos, |view|);
        frames := frames + more.value;
        pos := pos + |view|;
      }
      ghost var _, _, _ := Unfold();
      FedAll(kept0, carry0, emitted0, chunk, kept, carry, emitted, frames, chunk[pos..]);
      return Success(frames);
    }

    /** End of input: the frames still owed (none, between calls), or the error, or truncation. */
    method Finish() returns (r: Result<seq<Frame>, int>)
      requires Pending()
      modifies this
      ensures kept == old(kept) && emitted == old(emitted)
      ensures Ended(Parse(kept, 0), emitted, r)
    {
      assert streamPos == |kept| && |carry| <= 136 && Pends(Parse(kept, 0), emitted, [], carry, streamPos);
      hide *;
      var frames := [];
      while true
        invariant streamPos == |kept| && kept == old(kept) && emitted == old(emitted)
        invariant |carry| <= 136 && Pends(Parse(kept, 0), emitted, frames, carry, streamPos)
        decreases |carry|
      {
        var before := |carry|;
        var step := RunDecoder(carry, [], true);
        EmptyView(carry);
        FinishAdvances(Parse(kept, 0), emitted, frames, carry, streamPos);
        carry := step.carry;
        streamPos := streamPos + step.consumed;
        var frameStart := SaturatingSub(SaturatingSub(streamPos, step.consumed), before);
        SubtractNothing(streamPos);
        if step.status == F.STATUS_FRAME {
          frames := frames + [ToFrame(step, frameStart)];
        } else if step.status == F.STATUS_COMPLETE {
          return Success(frames);
        } else {
          return Failure(step.status);
        }
      }
    }
  }

  lemma ValidCarry(kept: seq<byte>, emitted: seq<Frame>, carry: seq<byte>)
    requires Parse(kept, 0) == Parsed(emitted, carry, NO_ERROR)
    ensures |carry| < 136 && |carry| <= |kept| && F.First(carry).Incomplete?
  {
    hide Parse, F.First;
    ParseSplits(kept, 0);
  }

  lemma SettledValid(all: Parsed, before: seq<Frame>, r: Result<seq<Frame>, int>, carry: seq<byte>)
    requires Settled(all, before, r, carry) && r.Success?
    ensures all == Parsed(before + r.value, carry, NO_ERROR)
  {}

  lemma SettledError(all: Parsed, before: seq<Frame>, earlier: seq<Frame>, r: Result<seq<Frame>, int>, carry: seq<byte>)
    requires Settled(all, before, r, carry)
    ensures r.Failure? <==> all.error != NO_ERROR
    ensures r.Failure? ==> Settled(all, earlier, r, carry)
    ensures r.Success? ==> all.rest == carry
  {}

  lemma RestOfChunk(chunk: seq<byte>, pos: nat, n: nat)
    requires pos + n <= |chunk|
    ensures chunk[pos..][n..] == chunk[pos + n..]
  {}

  /** `drain_status`: the frame a step produced, nothing, or its status as an error. */
  function StatusFrames(step: F.FrameOut, frameStart: nat): Result<seq<Frame>, int> {
    if step.status == F.STATUS_FRAME then Success([ToFrame(step, frameStart)])
    else if step.status == F.STATUS_NEED_MORE then Success([])
    else Failure(step.status)
  }

  lemma StepsMeans(all: Parsed, before: seq<Frame>, step: F.FrameOut, base: nat, end: nat)
    requires Steps(all, before, step, base, end)
    ensures var r := StatusFrames(step, base);
            if r.Success? then Pends(all, before, r.value, step.carry, end) else Settled(all, before, r, step.carry)
  {}

  /** Part of a chunk has been fed: `rest` is left, and `frames` came out. */
  predicate Fed(kept0: seq<byte>, carry0: seq<byte>, emitted0: seq<Frame>, chunk: seq<byte>,
                kept: seq<byte>, carry: seq<byte>, emitted: seq<Frame>, frames: seq<Frame>, rest: seq<byte>) {
    && |carry0| <= 136 && |carry| <= 136
    && emitted == emitted0 + frames
    && kept + KeptOf(carry, rest) == kept0 + KeptOf(carry0, chunk)
  }

  lemma FedNothing(kept: seq<byte>, carry: seq<byte>, emitted: seq<Frame>, chunk: seq<byte>)
    requires |carry| <= 136
    ensures Fed(kept, carry, emitted, chunk, kept, carry, emitted, [], chunk[0..])
  {
    assert chunk[0..] == chunk;
    assert emitted + [] == emitted;
  }

  lemma FedAll(kept0: seq<byte>, carry0: seq<byte>, emitted0: seq<Frame>, chunk: seq<byte>,
               kept: seq<byte>, carry: seq<byte>, emitted: seq<Frame>, frames: seq<Frame>, rest: seq<byte>)
    requires Fed(kept0, carry0, emitted0, chunk, kept, carry, emitted, frames, rest) && rest == []
    requires Parse(kept, 0) == Parsed(emitted, carry, NO_ERROR)
    ensures kept == kept0 + KeptOf(carry0, chunk) && emitted == emitted0 + frames
    ensures Settled(Parse(kept, 0), emitted0, Success(frames), carry)
  {
    hide Parse;
  }

  lemma FedOn(kept0: seq<byte>, carry0: seq<byte>, emitted0: seq<Frame>, chunk: seq<byte>,
              kept1: seq<byte>, carry1: seq<byte>, emitted1: seq<Frame>, frames: seq<Frame>, rest: seq<byte>,
              more: Result<seq<Frame>, int>, carry: seq<byte>)
    requires Fed(kept0, carry0, emitted0, chunk, kept1, carry1, emitted1, frames, rest) && rest != []
    requires Parse(kept1, 0) == Parsed(emitted1, carry1, NO_ERROR)
    requires Settled(Parse(kept1 + KeptOfView(carry1, FirstView(rest)), 0), emitted1, more, carry)
    ensures var kept := kept1 + KeptOfView(carry1, FirstView(rest));
            if more.Failure? then
              kept == kept0 + KeptOf(carry0, chunk) && Settled(Parse(kept, 0), emitted0, more, carry)
            else
              |carry| <= 136 &&
              Fed(kept0, carry0, emitted0, chunk, kept, carry, emitted1 + more.value, frames + more.value,
                  rest[|FirstView(rest)|..])
  {
    hide F.First, Parse, KeptOf, KeptOfView, FirstView;
    var kept := kept1 + KeptOfView(carry1, FirstView(rest));
    KeptStep(kept1, emitted1, carry1, rest);
    SettledError(Parse(kept, 0), emitted1, emitted0, more, carry);
    if more.Success? {
      assert emitted0 + frames + more.value == emitted0 + (frames + more.value);
    }
  }

  /** Parsing from another offset changes only the offsets. */
  lemma {:induction false} ParseElsewhere(s: seq<byte>, a: nat, b: nat)
    ensures Parse(s, a).rest == Parse(s, b).rest && Parse(s, a).error == Parse(s, b).error
    decreases |s|
  {
    hide F.First;
    F.FirstSize(s);
    if F.First(s).Whole? {
      ParseElsewhere(s[F.First(s).size..], a + F.First(s).size, b + F.First(s).size);
    }
  }

  /** The bytes kept of the rest of a chunk, one view on. */
  lemma KeptStep(kept: seq<byte>, emitted: seq<Frame>, carry: seq<byte>, rest: seq<byte>)
    requires Parse(kept, 0) == Parsed(emitted, carry, NO_ERROR) && |carry| <= 136 && rest != []
    ensures var seen := KeptOfView(carry, FirstView(rest));
            var p := Parse(kept + seen, 0);
            && (p.error != NO_ERROR ==> kept + KeptOf(carry, rest) == kept + seen)
            && (p.error == NO_ERROR ==>
                  && |p.rest| <= 136
                  && kept + KeptOf(carry, rest) == kept + seen + KeptOf(p.rest, rest[|FirstView(rest)|..]))
  {
    hide F.First, Parse, KeptOfView, FirstView;
    var seen := KeptOfView(carry, FirstView(rest));
    ParseSplits(kept, 0);
    ContinueClean(kept, emitted, carry, seen, |kept| - |carry|);
    ParseElsewhere(carry + seen, 0, |kept| - |carry|);
    ParseSplits(kept + seen, 0);
  }

  lemma PrependNothing(all: Parsed, before: seq<Frame>, frames: seq<Frame>, end: nat)
    requires Pends(all, before, frames, [], end)
    ensures Settled(all, before, Success(frames), [])
  {
    ParseNothing(end);
    assert before + frames + [] == before + frames;
  }
}
