/** One delimited field at a time: `language/mncs/flow/fields.mncs`. */
module Fields {
  import opened Machine

  const STATUS_FIELD := 0
  const STATUS_END := 1
  const STATUS_MALFORMED := 2
  const STATUS_OVERLONG := 3

  type LineBuffer = s: seq<byte> | |s| == 256 witness seq(256, _ => 0)
  type Buffer = s: seq<byte> | |s| == 64 witness seq(64, _ => 0)

  /** The value buffer with its length is the sequence of live bytes. */
  datatype FieldOut = FieldOut(status: int, value: seq<byte>, nextStart: u64, hasMore: bool)

  datatype FState = FState(buf: Buffer, len: u64, esc: bool, done: bool, comma: bool,
                           endPos: u64, bad: bool, toolong: bool)

  predicate IsBadByte(b: byte) { (b < 32 && b != TAB) || b == NEWLINE || b == RETURN }

  /** No byte that a field may not hold: control bytes other than tab. */
  predicate Tame(s: seq<byte>) { forall i :: 0 <= i < |s| ==> !IsBadByte(s[i]) }

  function Zero64(): Buffer { seq(64, _ => 0) }

  function Seed(length: u64): FState { FState(Zero64(), 0, false, false, false, length, false, false) }

  /** One lane of the fold of `field_at`, with the source's guards. */
  function LaneStep(st: FState, current: byte, i: u64, live: bool): FState {
    var opensEsc := live && !st.esc && current == BACKSLASH;
    var closes := live && !st.esc && current == COMMA;
    var rejected := live && IsBadByte(current);
    var append := live && !st.done && !opensEsc && !closes && !rejected;
    var room := st.len < 63;
    var slot := if st.len < 63 then st.len else 0;
    var keep := st.buf[slot];
    FState(st.buf[slot := if append && room then current else keep],
           if append && room then AddWrap(st.len, 1) else st.len,
           if live then opensEsc else st.esc,
           st.done || closes,
           st.comma || closes,
           if closes then i else st.endPos,
           st.bad || rejected,
           st.toolong || (append && !room))
  }

  /** The fold over the text `t` that starts at lane `i`. */
  function Run(st: FState, t: seq<byte>, i: nat): FState
    requires i + |t| <= 256
    decreases |t|
  {
    if t == [] || st.done then st else Run(LaneStep(st, t[0], i, true), t[1..], i + 1)
  }

  function FieldResult(st: FState): FieldOut
    requires st.len <= 63
  {
    if st.bad || st.esc then FieldOut(STATUS_MALFORMED, [], 0, false)
    else if st.toolong then FieldOut(STATUS_OVERLONG, [], 0, false)
    else FieldOut(STATUS_FIELD, st.buf[..st.len], if st.comma then AddWrap(st.endPos, 1) else st.endPos, st.comma)
  }

  // ---------------------------------------------------------------------------------------
  // The reference: unescape from the front

  /** The field at the front of `t`: its unescaped value, how many bytes of text it takes, whether a
      comma ended it, and whether its text is legal. */
  datatype Taken = Taken(value: seq<byte>, used: nat, comma: bool, ok: bool)

  function Take(t: seq<byte>): (r: Taken)
    ensures r.used <= |t| && (r.comma ==> r.used < |t|) && (!r.comma ==> r.used == |t|)
    decreases |t|
  {
    if t == [] then Taken([], 0, false, true)
    else if t[0] == COMMA then Taken([], 0, true, true)
    else if t[0] == BACKSLASH then
      if |t| == 1 then Taken([], 1, false, false)
      else
        var r := Take(t[2..]);
        Taken([t[1]] + r.value, r.used + 2, r.comma, r.ok && !IsBadByte(t[1]))
    else
      var r := Take(t[1..]);
      Taken([t[0]] + r.value, r.used + 1, r.comma, r.ok && !IsBadByte(t[0]))
  }

  /** The field `line[start..]` begins with, as `field_at` answers; one empty field past the end. */
  function FieldSpec(line: seq<byte>, start: nat): FieldOut
    requires |line| <= 256
  {
    if start == 0 && line == [] then FieldOut(STATUS_END, [], 0, false)
    else if start > |line| then FieldOut(STATUS_FIELD, [], |line|, false)
    else
      var r := Take(line[start..]);
      if !r.ok then FieldOut(STATUS_MALFORMED, [], 0, false)
      else if |r.value| > 63 then FieldOut(STATUS_OVERLONG, [], 0, false)
      else FieldOut(STATUS_FIELD, r.value, start + r.used + if r.comma then 1 else 0, r.comma)
  }

  // ---------------------------------------------------------------------------------------
  // The machine computes the reference

  /** What running `t` from `st` must end in, given what the reference takes. */
  predicate Follows(st: FState, st': FState, r: Taken, i: nat) {
    && st'.len <= 63
    && (st'.bad || st'.esc <==> st.bad || !r.ok)
    && (r.ok && !st.bad ==>
          && (st'.toolong <==> st.toolong || st.len + |r.value| > 63)
          && (!st'.toolong ==> st'.len == st.len + |r.value| && st'.buf[..st'.len] == st.buf[..st.len] + r.value)
          && st'.comma == r.comma
          && st'.endPos == if r.comma then i + r.used else st.endPos)
  }

  predicate Running(st: FState) { !st.done && !st.comma && !st.esc && st.len <= 63 }

  lemma {:induction false} RunTakes(st: FState, t: seq<byte>, i: nat)
    requires Running(st) && i + |t| <= 256
    ensures Follows(st, Run(st, t, i), Take(t), i)
    decreases |t|
  {
    hide *;
    if t == [] || t[0] == COMMA || t == [BACKSLASH] {
      RunStops(st, t, i);
    } else {
      var n := if t[0] == BACKSLASH then 2 else 1;
      var next := LaneStep(st, t[0], i, true);
      if n == 2 {
        next := LaneStep(next, t[1], i + 1, true);
      }
      ValueRuns(st, t, i, n, next);
      TakeValue(t, n);
      RunTakes(next, t[n..], i + n);
      Extends(st, next, Run(next, t[n..], i + n), t[n - 1], Take(t[n..]), i, n);
    }
  }

  lemma RunStops(st: FState, t: seq<byte>, i: nat)
    requires Running(st) && i + |t| <= 256 && (t == [] || t[0] == COMMA || t == [BACKSLASH])
    ensures Follows(st, Run(st, t, i), Take(t), i)
  {
    hide LaneStep;
    assert st.buf[..st.len] + [] == st.buf[..st.len];
    if t != [] && t[0] == COMMA {
      StopsAtComma(st, t, i);
    } else if t != [] {
      LoneEscape(st, t, i);
    }
  }

  lemma TakeValue(t: seq<byte>, n: nat)
    requires t != [] && t[0] != COMMA && t != [BACKSLASH] && n == (if t[0] == BACKSLASH then 2 else 1)
    ensures n <= |t|
    ensures var r := Take(t[n..]);
            Take(t) == Taken([t[n - 1]] + r.value, r.used + n, r.comma, r.ok && !IsBadByte(t[n - 1]))
  {
    hide IsBadByte;
  }

  lemma LoneEscape(st: FState, t: seq<byte>, i: nat)
    requires Running(st) && i + |t| <= 256 && t == [BACKSLASH]
    ensures Run(st, t, i) == st.(esc := true)
  {
    assert LaneStep(st, t[0], i, true) == st.(esc := true);
  }

  /** A plain byte, or a backslash and the byte it escapes. */
  lemma ValueRuns(st: FState, t: seq<byte>, i: nat, n: nat, next: FState)
    requires Running(st) && i + |t| <= 256 && 1 <= n <= |t| && t[0] != COMMA
    requires n == if t[0] == BACKSLASH then 2 else 1
    requires var one := LaneStep(st, t[0], i, true);
             next == if n == 2 then LaneStep(one, t[1], i + 1, true) else one
    ensures Takes(st, next, t[n - 1]) && Running(next) && Run(st, t, i) == Run(next, t[n..], i + n)
    ensures st.len <= 63
  {
    if n == 2 {
      var begun := LaneStep(st, t[0], i, true);
      assert begun == st.(esc := true);
      hide LaneStep;
      EscapedLane(st, t[1], i + 1);
      assert t[1..][1..] == t[2..];
    } else {
      hide LaneStep;
      PlainLane(st, t[0], i);
    }
  }

  lemma StopsAtComma(st: FState, t: seq<byte>, i: nat)
    requires Running(st) && i + |t| <= 256 && t != [] && t[0] == COMMA
    ensures Run(st, t, i) == st.(done := true, comma := true, endPos := i)
  {
    var next := LaneStep(st, t[0], i, true);
    assert next == st.(done := true, comma := true, endPos := i);
  }

  /** What taking one value byte does to the state. */
  predicate Takes(st: FState, next: FState, b: byte) {
    && Running(next) && next.endPos == st.endPos
    && (next.bad <==> st.bad || IsBadByte(b))
    && (!next.bad ==>
          if st.len < 63 then
            next.len == st.len + 1 && next.toolong == st.toolong && next.buf[..next.len] == st.buf[..st.len] + [b]
          else next.len == st.len && next.toolong)
  }

  lemma PlainLane(st: FState, b: byte, i: u64)
    requires Running(st) && b != COMMA && b != BACKSLASH
    ensures Takes(st, LaneStep(st, b, i, true), b)
  {}

  lemma EscapedLane(st: FState, b: byte, i: u64)
    requires Running(st)
    ensures Takes(st, LaneStep(st.(esc := true), b, i, true), b)
  {}

  lemma Extends(st: FState, next: FState, last: FState, b: byte, r: Taken, i: nat, n: nat)
    requires st.len <= 63 && Takes(st, next, b) && Follows(next, last, r, i + n)
    ensures Follows(st, last, Taken([b] + r.value, r.used + n, r.comma, r.ok && !IsBadByte(b)), i)
  {
    assert st.buf[..st.len] + [b] + r.value == st.buf[..st.len] + ([b] + r.value);
  }

  /** `field_at`: the fold visits all 256 lanes; lanes before `start`, after the end or after the
      closing comma change nothing. */
  method FieldAt(line: LineBuffer, lineLen: u64, start: u64) returns (out: FieldOut)
    ensures out == FieldSpec(line[..if lineLen <= 256 then lineLen else 256], start)
  {
    var length := if lineLen <= 256 then lineLen else 256;
    if start == 0 && length == 0 {
      return FieldOut(STATUS_END, [], 0, false);
    }
    hide *;
    ghost var first := if start <= length then start else length;
    ghost var goal := Run(Seed(length), line[first..length], first);
    var st := Seed(length);
    FoldBegins(line, length, first);
    for i := 0 to 256
      invariant Run(st, line[From(i, first, length)..length], From(i, first, length)) == goal
      invariant i >= length ==> st == goal
    {
      var live := i < length && i >= start && !st.done;
      var current: byte := if live then line[i] else 65;
      LaneRuns(st, line, i, first, length);
      st := LaneStep(st, current, i, live);
    }
    FoldAnswers(line, length, start, first);
    out := FieldResult(st);
  }

  lemma FoldBegins(line: LineBuffer, length: nat, first: nat)
    requires first <= length <= 256
    ensures From(0, first, length) == first
    ensures length == 0 ==> Run(Seed(length), line[first..length], first) == Seed(length)
  {}

  lemma FoldAnswers(line: LineBuffer, length: nat, start: nat, first: nat)
    requires length <= 256 && first == (if start <= length then start else length) && !(start == 0 && length == 0)
    ensures var st := Run(Seed(length), line[first..length], first);
            st.len <= 63 && FieldResult(st) == FieldSpec(line[..length], start)
  {
    hide LaneStep, Take, Run;
    var text := line[first..length];
    assert line[..length][first..] == text;
    RunTakes(Seed(length), text, first);
    NothingToTake();
    assert Seed(length).buf[..0] + Take(text).value == Take(text).value;
  }

  lemma NothingToTake()
    ensures Take([]) == Taken([], 0, false, true)
  {}

  /** The first lane still to be run when the fold stands at lane `i`. */
  function From(i: nat, start: nat, length: nat): nat
    requires start <= length
  {
    if i <= start then start else if i <= length then i else length
  }

  lemma LaneRuns(st: FState, line: LineBuffer, i: nat, start: nat, length: nat)
    requires i < 256 && start <= length <= 256
    ensures var live := i < length && i >= start && !st.done;
            var next := LaneStep(st, if live then line[i] else 65, i, live);
            && Run(next, line[From(i + 1, start, length)..length], From(i + 1, start, length))
               == Run(st, line[From(i, start, length)..length], From(i, start, length))
            && (i + 1 >= length ==>
                  Run(next, line[From(i + 1, start, length)..length], From(i + 1, start, length)) == next)
            && (!live ==> next == st)
  {
    var live := i < length && i >= start && !st.done;
    if !live {
      var next := LaneStep(st, 65, i, false);
      assert next.buf == st.buf;
    }
    if i < length && i >= start {
      var t := line[i..length];
      assert t[1..] == line[i + 1..length] && t[0] == line[i];
      assert From(i, start, length) == i && From(i + 1, start, length) == i + 1;
      if !st.done {
        hide LaneStep;
        assert Run(st, t, i) == Run(LaneStep(st, line[i], i, true), t[1..], i + 1);
      }
    }
  }
}
