/** The length-prefixed frame decoder of `language/mncs/flow/frames.mncs` and the encoder of
    `src/frames.rs`.  A frame is magic "CM", version, kind, payload length (little endian),
    payload, and the sum of all earlier bytes mod 65536. */
module Frames {
  import opened Machine
  import opened Chunks

  const STATUS_FRAME := 0
  const STATUS_NEED_MORE := 1
  const STATUS_COMPLETE := 2
  const STATUS_MALFORMED := 3
  const STATUS_BAD_CHECKSUM := 4
  const STATUS_TRUNCATED := 5
  const STATUS_VERSION := 6
  const STATUS_TAG := 7

  type CarryBuffer = s: seq<byte> | |s| == 136 witness seq(136, _ => 0)

  /** Payload and carry with their lengths are the sequences of live bytes. */
  datatype FrameOut = FrameOut(
    status: int, version: u64, kind: u64, payload: seq<byte>, frameLen: u64,
    carry: seq<byte>, consumed: u64)

  function ReadU16(staged: seq<byte>, offset: u64): u64
    requires offset + 1 < |staged| < U64_LIMIT
  {
    AddWrap(staged[offset], MulWrap256(staged[AddWrap(offset, 1)]))
  }

  function MulWrap256(b: byte): u64 { b as int * 256 }

  /** Two bytes, little endian. */
  function U16(lo: byte, hi: byte): nat { lo as int + Doubled(hi, 8) }

  function Doubled(x: nat, times: nat): nat
    decreases times
  {
    if times == 0 then x else Doubled(x + x, times - 1)
  }

  lemma DoubledEightTimes(x: nat)
    ensures Doubled(x, 8) == 256 * x
  {
    assert Doubled(x, 8) == Doubled(4 * x, 6) == Doubled(16 * x, 4);
    assert Doubled(16 * x, 4) == Doubled(64 * x, 2) == Doubled(256 * x, 0);
  }

  lemma ReadsU16(staged: seq<byte>, offset: u64)
    requires offset + 1 < |staged| < U64_LIMIT
    ensures ReadU16(staged, offset) == U16(staged[offset], staged[offset + 1])
  {
    DoubledEightTimes(staged[offset + 1]);
  }

  /** The sum of the bytes mod 65536, reduced byte by byte. */
  function Sum(s: seq<byte>): (sum: nat)
    ensures sum < 65536
  {
    if s == [] then 0 else Reduced(Sum(s[..|s| - 1]) + s[|s| - 1] as int)
  }

  function Reduced(x: nat): nat { if x >= 65536 then x - 65536 else x }

  /** The plain sum of the bytes. */
  function Total(s: seq<byte>): nat {
    if s == [] then 0 else Total(s[..|s| - 1]) + s[|s| - 1] as int
  }

  lemma {:induction false} SumIsTotal(s: seq<byte>)
    ensures Sum(s) == Total(s) % 65536
  {
    if s != [] {
      var front := s[..|s| - 1];
      SumIsTotal(front);
      ReducedAdd(Total(front), s[|s| - 1]);
    }
  }

  lemma ReducedAdd(x: nat, b: byte)
    ensures Reduced(x % 65536 + b as int) == (x + b as int) % 65536
  {}

  lemma ReducedIsRemainder(x: nat)
    requires x < 131072
    ensures Reduced(x) == x % 65536
  {}

  /** `checksum`: the fold visits all of the stage; lanes from `cover` on change nothing. */
  method Checksum(staged: seq<byte>, cover: u64) returns (acc: u64)
    requires cover <= |staged| <= 392
    ensures acc == Sum(staged[..cover])
  {
    acc := 0;
    for i := 0 to |staged|
      invariant acc == Sum(staged[..if i <= cover then i else cover])
    {
      var live := i < cover;
      var current: byte := if live then staged[i] else 0;
      if live {
        assert staged[..i + 1][..i] == staged[..i];
        ReducedIsRemainder(acc + current as int);
        acc := AddWrap(acc, current) % 65536;
      }
    }
  }

  function FailFrame(code: int, consumed: u64): FrameOut { FrameOut(code, 0, 0, [], 0, [], consumed) }

  function NeedMore(staged: seq<byte>, consumed: u64): FrameOut {
    FrameOut(STATUS_NEED_MORE, 0, 0, [], 0, staged, consumed)
  }

  // ---------------------------------------------------------------------------------------
  // The first frame of some bytes, decided without carries, views or buffers

  datatype Head =
    | Incomplete
    | Bad(code: int)
    | Whole(kind: u64, payload: seq<byte>, size: nat)

  function First(s: seq<byte>): Head {
    if |s| < 6 then Incomplete
    else if s[0] != 67 || s[1] != 77 then Bad(STATUS_MALFORMED)
    else if s[2] != 1 then Bad(STATUS_VERSION)
    else if s[3] > 2 then Bad(STATUS_TAG)
    else
      var n := U16(s[4], s[5]);
      if n > 128 then Bad(STATUS_MALFORMED)
      else if |s| < n + 8 then Incomplete
      else if U16(s[n + 6], s[n + 7]) != Sum(s[..n + 6]) then Bad(STATUS_BAD_CHECKSUM)
      else Whole(s[3], s[6..n + 6], n + 8)
  }

  /** One decoding step over a stage whose first `cc` bytes are carry and last `vc` bytes view. */
  function Decode(staged: seq<byte>, cc: nat, vc: nat, eof: bool): FrameOut
    requires cc <= 136 && vc <= 256 && |staged| == cc + vc
  {
    if staged == [] then FrameOut(if eof then STATUS_COMPLETE else STATUS_NEED_MORE, 0, 0, [], 0, [], 0)
    else
      match First(staged)
      case Incomplete => if eof then FailFrame(STATUS_TRUNCATED, vc) else NeedMore(staged, vc)
      case Bad(code) => FailFrame(code, vc)
      case Whole(kind, payload, size) =>
        WholeAnswer(staged, cc, kind, payload, size)
  }

  /** The answer for a whole frame of `size` bytes: as much of what follows it as a carry can hold. */
  function WholeAnswer(staged: seq<byte>, cc: nat, kind: u64, payload: seq<byte>, size: nat): FrameOut
    requires size <= |staged| <= 392 && cc <= 136
    requires cc <= |staged|
  {
    var keep := if |staged| - size <= 136 then |staged| - size else 136;
    FrameOut(STATUS_FRAME, 1, kind, payload, size, staged[size..size + keep], size + keep - cc)
  }

  method DecodeFrame(carry: CarryBuffer, carryLen: u64, view: seq<byte>, viewLen: u64, eof: bool)
    returns (out: FrameOut)
    requires |view| <= 256
    ensures var cc := if carryLen <= 136 then carryLen else 136;
            var vc := if viewLen <= |view| then viewLen else |view|;
            out == Decode(carry[..cc] + view[..vc], cc, vc, eof)
  {
    hide Sum, U16, ReadU16;
    var cc := if carryLen <= 136 then carryLen else 136;
    var vc := if viewLen <= |view| then viewLen else |view|;
    var total := AddWrap(cc, vc);
    var staged := carry[..cc] + view[..vc];
    if total == 0 {
      return FrameOut(if eof then STATUS_COMPLETE else STATUS_NEED_MORE, 0, 0, [], 0, [], 0);
    }
    if total < 6 {
      if eof {
        return FailFrame(STATUS_TRUNCATED, vc);
      }
      return NeedMore(staged, vc);
    }
    if staged[0] != 67 || staged[1] != 77 {
      return FailFrame(STATUS_MALFORMED, vc);
    }
    var version := staged[2];
    if version != 1 {
      return FailFrame(STATUS_VERSION, vc);
    }
    var kind := staged[3];
    if kind > 2 {
      return FailFrame(STATUS_TAG, vc);
    }
    var payloadLen := ReadU16(staged, 4);
    ReadsU16(staged, 4);
    if payloadLen > 128 {
      return FailFrame(STATUS_MALFORMED, vc);
    }
    var frameLen := AddWrap(AddWrap(6, payloadLen), 2);
    if total < frameLen {
      if eof {
        return FailFrame(STATUS_TRUNCATED, vc);
      }
      return NeedMore(staged, vc);
    }
    var want := ReadU16(staged, AddWrap(6, payloadLen));
    ReadsU16(staged, AddWrap(6, payloadLen));
    var got := Checksum(staged, AddWrap(6, payloadLen));
    if want != got {
      return FailFrame(STATUS_BAD_CHECKSUM, vc);
    }
    hide *;
    out := TakeFrame(staged, total, cc, vc, kind, payloadLen, frameLen);
  }

  /** The end of `decode_frame`, for a whole frame: `covered` never wraps, because the kept tail always
      reaches past the carry. */
  method TakeFrame(staged: seq<byte>, total: u64, cc: u64, vc: u64, kind: u64, payloadLen: u64, frameLen: u64)
    returns (out: FrameOut)
    requires cc <= 136 && vc <= 256 && total == |staged| == cc + vc
    requires payloadLen <= 128 && frameLen == payloadLen + 8 <= total
    ensures out == WholeAnswer(staged, cc, kind, staged[6..6 + payloadLen], frameLen)
  {
    var payload := staged[6..6 + payloadLen];
    var tail := SubWrap(total, frameLen);
    var keep := if tail <= 136 then tail else 136;
    var held := staged[frameLen..frameLen + keep];
    var covered := SubWrap(AddWrap(frameLen, keep), cc);
    var consumed := if covered <= vc then covered else vc;
    return FrameOut(STATUS_FRAME, 1, kind, payload, frameLen, held, consumed);
  }

  /** The bytes consumed are exactly those the answer accounts for: nothing appears twice and
      nothing between frame and carry is lost; what is left of the view is what was not consumed. */
  lemma StepConserves(carry: seq<byte>, view: seq<byte>, eof: bool)
    requires |carry| <= 136 && |view| <= 256
    ensures var out := Decode(carry + view, |carry|, |view|, eof);
            && |out.carry| <= 136 && out.consumed <= |view|
            && (out.status == STATUS_FRAME ==>
                  First(carry + view).Whole? && First(carry + view).size == out.frameLen
                  && carry + view == (carry + view)[..out.frameLen] + out.carry + view[out.consumed..])
            && (out.status == STATUS_NEED_MORE ==> out.carry == carry + view && out.consumed == |view|)
            && (out.consumed < |view| <==> First(carry + view).Whole?
                                           && |carry + view| - First(carry + view).size > 136)
  {
    hide Sum, U16, First;
    var staged := carry + view;
    var out := Decode(staged, |carry|, |view|, eof);
    FirstSize(staged);
    if out.status == STATUS_FRAME {
      CutInThree(staged, out.frameLen, out.frameLen + |out.carry|);
      ViewSuffix(carry, view, out.frameLen + |out.carry|);
    }
  }

  lemma CutInThree(s: seq<byte>, n: nat, m: nat)
    requires n <= m <= |s|
    ensures s == s[..n] + s[n..m] + s[m..]
  {}

  // ---------------------------------------------------------------------------------------
  // Encoding

  function Little(v: nat): seq<byte>
    requires v < 65536
  {
    [v % 256, v / 256]
  }

  /** The wire form of a frame. */
  function Encode(version: byte, kind: byte, payload: seq<byte>): seq<byte>
    requires |payload| <= 128
  {
    var body := [67, 77, version, kind] + Little(|payload|) + payload;
    body + Little(Sum(body))
  }

  method EncodeFrame(version: byte, kind: byte, payload: seq<byte>) returns (frame: seq<byte>)
    requires |payload| <= 128
    ensures frame == Encode(version, kind, payload)
  {
    frame := [67, 77, version, kind];
    frame := frame + Little(|payload|);
    frame := frame + payload;
    var sum: nat := 0;
    for i := 0 to |frame|
      invariant sum == Total(frame[..i])
    {
      assert frame[..i + 1][..i] == frame[..i];
      sum := sum + frame[i] as int;
    }
    assert frame[..|frame|] == frame;
    SumIsTotal(frame);
    frame := frame + Little(sum % 65536);
  }

  lemma LittleReads(v: nat)
    requires v < 65536
    ensures |Little(v)| == 2 && U16(Little(v)[0], Little(v)[1]) == v
  {
    hide Doubled;
    DoubledEightTimes(v / 256);
  }

  /** Decoding undoes encoding, whatever follows. */
  lemma FirstOfEncoded(kind: byte, payload: seq<byte>, rest: seq<byte>)
    requires kind <= 2 && |payload| <= 128
    ensures First(Encode(1, kind, payload) + rest) == Whole(kind, payload, |payload| + 8)
  {
    hide Sum, Little, U16;
    var n := |payload|;
    var size, sum := Little(n), Sum([67, 77, 1, kind] + Little(n) + payload);
    var body := [67, 77, 1, kind] + size + payload;
    LittleReads(n);
    LittleReads(sum);
    Layout(kind, size, payload, Little(sum), rest, Encode(1, kind, payload) + rest, body);
  }

  lemma LittleOf(lo: byte, hi: byte)
    ensures U16(lo, hi) < 65536 && Little(U16(lo, hi)) == [lo, hi]
  {
    hide Doubled;
    DoubledEightTimes(hi);
  }

  /** Where the parts of an encoded frame stand. */
  lemma Layout(kind: byte, size: seq<byte>, payload: seq<byte>, sum: seq<byte>, rest: seq<byte>, s: seq<byte>,
      body: seq<byte>)
    requires |size| == |sum| == 2 && body == [67, 77, 1, kind] + size + payload && s == body + sum + rest
    ensures |s| >= |payload| + 8 && s[0] == 67 && s[1] == 77 && s[2] == 1 && s[3] == kind
    ensures s[4] == size[0] && s[5] == size[1] && s[|payload| + 6] == sum[0] && s[|payload| + 7] == sum[1]
    ensures s[..|payload| + 6] == body && s[6..|payload| + 6] == payload
  {}

  /** Encoding undoes decoding: a whole frame is the encoding of what it decodes to. */
  lemma WholeIsEncoded(s: seq<byte>)
    requires First(s).Whole?
    ensures var f := First(s);
            f.kind <= 2 && |f.payload| <= 128 && f.size == |f.payload| + 8 <= |s|
            && s[..f.size] == Encode(1, f.kind, f.payload)
  {
    hide Sum, Little, U16;
    var f := First(s);
    var n := |f.payload|;
    var body := [67, 77, 1, f.kind] + Little(n) + f.payload;
    LittleOf(s[4], s[5]);
    LittleOf(s[n + 6], s[n + 7]);
    assert s[..n + 6] == body;
    assert s[..f.size] == s[..n + 6] + [s[n + 6], s[n + 7]];
  }

  /** A verdict on the first frame does not depend on the bytes after it. */
  lemma FirstStable(s: seq<byte>, t: seq<byte>)
    requires !First(s).Incomplete?
    ensures First(s + t) == First(s)
  {
    var n := U16(s[4], s[5]);
    if n <= 128 && n + 8 <= |s| {
      assert (s + t)[..n + 6] == s[..n + 6];
      assert (s + t)[6..n + 6] == s[6..n + 6];
    }
  }

  lemma FirstSize(s: seq<byte>)
    ensures First(s).Whole? ==> 8 <= First(s).size <= |s| && First(s).size <= 136
    ensures First(s).Incomplete? ==> |s| < 136
    ensures |s| < 6 ==> First(s).Incomplete?
    ensures First(s).Bad? ==> First(s).code in {STATUS_MALFORMED, STATUS_VERSION, STATUS_TAG, STATUS_BAD_CHECKSUM}
  {}
}
