/** The incremental structural scanner of `language/mncs/flow/nest.mncs`, with the transitions
    exactly as coded.  Containers on the stack are recorded by closer: 1 object, 2 array.
    `expecting` (the source calls it `expect`): 0 value, 1 fresh container (or, in an object, a key),
    2 colon, 3 comma or close, 4 document complete. */
module Nest {
  import opened Machine

  type Stack = s: seq<u64> | |s| == 4 witness [0, 0, 0, 0]

  datatype NestState = NestState(
    depth: u64, stack: Stack, expecting: u64,
    inString: bool, esc: bool, maxDepth: u64,
    seenValue: bool, inLiteral: bool, afterComma: bool)

  datatype Step = Step(state: NestState, bad: bool)
  datatype ScanAcc = ScanAcc(state: NestState, bad: bool, at: nat)
  datatype ScanOut = ScanOut(status: int, state: NestState, position: u64, consumed: u64)

  const STATUS_OK := 0
  const STATUS_COMPLETE := 1
  const STATUS_TRUNCATED := 2
  const STATUS_MALFORMED := 3
  const MAX_NEST: u64 := 4

  const SEED: NestState := NestState(0, [0, 0, 0, 0], 0, false, false, 0, false, false, false)

  predicate IsControl(b: byte) { b < 32 && b != TAB }
  predicate IsOpen(b: byte) { b == OPEN_OBJECT || b == OPEN_ARRAY }

  predicate IsLiteralChar(b: byte) {
    || 65 <= b <= 90 || 97 <= b <= 122 || IsDigit(b)
    || b == 46 || b == 43 || b == 45 || b == 95
  }

  /** The clamped index of the innermost stack entry. */
  function Top(st: NestState): u64 {
    if SubWrap(st.depth, 1) < 4 then SubWrap(st.depth, 1) else 0
  }

  predicate InnermostIsArray(st: NestState) { st.depth != 0 && st.stack[Top(st)] == 2 }

  function StepByte(st: NestState, current: byte): Step {
    if st.inString then StepString(st, current)
    else if IsSpace(current) then Step(st, false)
    else StepToken(st, current)
  }

  function StepString(st: NestState, current: byte): Step {
    if st.esc then
      if current == QUOTE || current == BACKSLASH then Step(st.(esc := false), false)
      else if current == 110 || current == 116 then Step(st.(esc := false), false)
      else Step(st, true)
    else if current == BACKSLASH then Step(st.(esc := true), false)
    else if current == QUOTE then CloseString(st)
    else if IsControl(current) then Step(st, true)
    else Step(st, false)
  }

  function CloseString(st: NestState): Step {
    if st.expecting == 1 && !InnermostIsArray(st) then Step(st.(inString := false, expecting := 2), false)
    else if st.expecting == 0 && st.depth == 0 then Step(st, true)
    else Step(st.(inString := false, expecting := 3, seenValue := true), false)
  }

  function StepToken(st: NestState, current: byte): Step {
    if st.inLiteral && IsLiteralChar(current) then Step(st, false)
    else StepTokenOpen(st.(inLiteral := false), current)
  }

  function StepTokenOpen(st: NestState, current: byte): Step {
    if current == QUOTE then
      if st.expecting == 0 || st.expecting == 1
      then Step(st.(inString := true, esc := false, afterComma := false), false)
      else Step(st, true)
    else if current == OPEN_OBJECT then OpenContainer(st, 1)
    else if current == OPEN_ARRAY then OpenContainer(st, 2)
    else if current == CLOSE_OBJECT then CloseContainer(st, 1)
    else if current == CLOSE_ARRAY then CloseContainer(st, 2)
    else if current == COLON then
      if st.expecting == 2 then Step(st.(expecting := 0, afterComma := false), false) else Step(st, true)
    else if current == COMMA then
      if st.expecting == 3 then Step(AfterComma(st), false) else Step(st, true)
    else if current == 116 || current == 102 || current == MINUS || IsDigit(current) then LiteralToken(st)
    else Step(st, true)
  }

  function OpenContainer(st: NestState, closer: u64): Step {
    if st.expecting != 0 && st.expecting != 1 then Step(st, true)
    else if st.expecting == 1 && st.afterComma then Step(st, true)
    else if st.depth >= MAX_NEST then Step(st, true)
    else
      var slot := if st.depth < 4 then st.depth else 0;
      var keep := st.stack[slot];
      var deeper := AddWrap(st.depth, 1);
      Step(st.(depth := deeper,
               stack := st.stack[slot := if st.depth < 4 then closer else keep],
               expecting := 1,
               maxDepth := if deeper > st.maxDepth then deeper else st.maxDepth,
               seenValue := true), false)
  }

  function CloseContainer(st: NestState, closer: u64): Step {
    if st.depth == 0 then Step(st, true)
    else if st.stack[Top(st)] != closer then Step(st, true)
    else if st.expecting == 0 || st.expecting == 2 || st.expecting == 4 then Step(st, true)
    else if st.expecting == 1 && st.afterComma then Step(st, true)
    else
      Step(st.(depth := SubWrap(st.depth, 1),
               expecting := if st.depth == 1 then 4 else 3,
               seenValue := true,
               afterComma := false), false)
  }

  function AfterComma(st: NestState): NestState {
    if st.depth == 0 then st.(afterComma := true)
    else st.(expecting := if st.stack[Top(st)] == 1 then 1 else 0, afterComma := true)
  }

  function LiteralToken(st: NestState): Step {
    if (st.expecting == 0 && st.depth > 0) || (st.expecting == 1 && InnermostIsArray(st))
    then Step(st.(expecting := 3, seenValue := true, inLiteral := true, afterComma := false), false)
    else Step(st, true)
  }

  /** One lane of the fold: a dead lane, or any lane after the first bad one, changes nothing
      but keeps the first bad index. */
  function AccStep(acc: ScanAcc, current: byte, i: nat, live: bool): ScanAcc {
    var moved := StepByte(acc.state, current);
    ScanAcc(if live && !acc.bad then moved.state else acc.state,
            acc.bad || (live && moved.bad),
            if live && moved.bad && !acc.bad then i else acc.at)
  }

  /** What folding the bytes of `s` from `st` yields. */
  function Scan(st: NestState, s: seq<byte>): (acc: ScanAcc)
    ensures acc.at <= |s|
  {
    if s == [] then ScanAcc(st, false, 0)
    else AccStep(Scan(st, s[..|s| - 1]), s[|s| - 1], |s| - 1, true)
  }

  function FinishScan(acc: ScanAcc, vlen: u64, base: u64, eof: bool): ScanOut
    requires acc.at < U64_LIMIT
  {
    if acc.bad then ScanOut(STATUS_MALFORMED, acc.state, AddWrap(base, acc.at), vlen)
    else
      ScanOut(if !eof then STATUS_OK
              else if acc.state.expecting == 4 && acc.state.depth == 0 then STATUS_COMPLETE
              else STATUS_TRUNCATED,
              acc.state, AddWrap(base, vlen), vlen)
  }

  /** `scan_chunk`: the fold visits every lane of the view, also those beyond `viewLen`. */
  method ScanChunk(state: NestState, view: seq<byte>, viewLen: u64, base: u64, eof: bool)
    returns (out: ScanOut)
    requires |view| <= 256
    ensures viewLen <= |view| ==> out == FinishScan(Scan(state, view[..viewLen]), viewLen, base, eof)
    ensures viewLen > |view| ==> out == FinishScan(Scan(state, view), |view|, base, eof)
  {
    var vlen: u64 := if viewLen <= |view| then viewLen else |view|;
    var acc := ScanAcc(state, false, 0);
    assert view[..0] == [];
    for i := 0 to |view|
      invariant acc == Scan(state, view[..if i <= vlen then i else vlen])
    {
      var live := i < vlen;
      var current: byte := if live then view[i] else SPACE;
      if live {
        assert view[..i + 1][..i] == view[..i];
      }
      acc := AccStep(acc, current, i, live);
    }
    assert view[..|view|] == view;
    return FinishScan(acc, vlen, base, eof);
  }
}
