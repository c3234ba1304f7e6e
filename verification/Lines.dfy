/** The incremental line splitter of `language/mncs/flow/lines.mncs`. */
module Lines {
  import opened Machine
  import opened Chunks

  const STATUS_LINE := 0
  const STATUS_NEED_MORE := 1
  const STATUS_COMPLETE := 2
  const STATUS_MALFORMED := 3
  const STATUS_OVERLONG := 4

  type CarryBuffer = s: seq<byte> | |s| == 256 witness seq(256, _ => 0)

  /** Line and carry with their lengths are the sequences of live bytes. */
  datatype LineOut = LineOut(status: int, line: seq<byte>, carry: seq<byte>, consumed: u64)

  predicate IsControl(b: byte) { b < 32 && b != TAB && b != NEWLINE && b != RETURN }

  predicate NoControl(s: seq<byte>) { forall i :: 0 <= i < |s| ==> !IsControl(s[i]) }

  predicate NoNewline(s: seq<byte>) { forall i :: 0 <= i < |s| ==> s[i] != NEWLINE }

  /** The offset of the first newline, or the length. */
  function LineEnd(s: seq<byte>): (at: nat)
    ensures at <= |s|
    ensures NoNewline(s[..at])
    ensures at < |s| ==> s[at] == NEWLINE
    ensures at == |s| ==> NoNewline(s)
  {
    if s == [] || s[0] == NEWLINE then 0
    else
      var at := 1 + LineEnd(s[1..]);
      assert forall i :: 0 < i < at ==> s[i] == s[1..][i - 1];
      at
  }

  lemma LineEndUnique(s: seq<byte>, at: nat)
    requires at < |s| && s[at] == NEWLINE && NoNewline(s[..at])
    ensures LineEnd(s) == at
  {}

  /** The fold visits every lane of the stage; those from `total` on change nothing. */
  method ScanNewline(staged: seq<byte>, total: u64) returns (nl: int, bad: bool)
    requires total <= |staged| <= 512
    ensures bad <==> !NoControl(staged[..total])
    ensures nl == if LineEnd(staged[..total]) < total then LineEnd(staged[..total]) else -1
  {
    nl, bad := -1, false;
    for i := 0 to |staged|
      invariant nl == -1 ==> NoNewline(staged[..Live(i, total)])
      invariant nl != -1 ==> 0 <= nl < Live(i, total) && staged[nl] == NEWLINE && NoNewline(staged[..nl])
      invariant bad <==> !NoControl(staged[..Live(i, total)])
    {
      var live := i < total;
      var current: byte := if live then staged[i] else NEWLINE;
      var hit := live && current == NEWLINE && nl == -1;
      if live {
        Grows(staged, i);
      }
      nl, bad := if hit then i else nl, bad || (live && IsControl(current));
    }
    if nl != -1 {
      assert staged[..total][..nl] == staged[..nl];
      LineEndUnique(staged[..total], nl);
    }
  }

  function Live(i: nat, total: nat): nat { if i <= total then i else total }

  lemma Grows(s: seq<byte>, i: nat)
    requires i < |s|
    ensures NoNewline(s[..i + 1]) <==> NoNewline(s[..i]) && s[i] != NEWLINE
    ensures NoControl(s[..i + 1]) <==> NoControl(s[..i]) && !IsControl(s[i])
  {
    assert s[..i + 1] == s[..i] + [s[i]];
    assert (s[..i] + [s[i]])[i] == s[i];
    assert forall k :: 0 <= k < i ==> s[..i + 1][k] == s[..i][k];
  }

  /** A raw line may hold a carriage return only as its last byte, and no other control byte but tab. */
  predicate CleanLine(raw: seq<byte>) {
    NoControl(raw) && forall i :: 0 <= i < |raw| - 1 ==> raw[i] != RETURN
  }

  /** The line without its carriage return. */
  function Stripped(raw: seq<byte>): seq<byte> {
    if raw != [] && raw[|raw| - 1] == RETURN then raw[..|raw| - 1] else raw
  }

  method CleanLength(staged: seq<byte>, raw: u64) returns (length: int)
    requires raw <= |staged| <= 512
    ensures CleanLine(staged[..raw]) ==> length == |Stripped(staged[..raw])|
    ensures !CleanLine(staged[..raw]) ==> length == -1
  {
    var bad := false;
    for i := 0 to |staged|
      invariant bad <==> exists k :: 0 <= k < Live(i, raw) && Strikes(staged, raw, k)
    {
      var live := i < raw;
      var current: byte := if live then staged[i] else 65;
      var trailing := raw > 0 && i == SubWrap(raw, 1);
      var struck := live && (IsControl(current) || (current == RETURN && !trailing));
      assert live ==> (struck <==> Strikes(staged, raw, i));
      bad := bad || struck;
    }
    StrikesMeans(staged, raw);
    if bad {
      return -1;
    }
    if raw > 0 && staged[raw - 1] == RETURN {
      return raw - 1;
    }
    return raw;
  }

  predicate Strikes(staged: seq<byte>, raw: nat, k: nat)
    requires k < raw <= |staged|
  {
    IsControl(staged[k]) || (staged[k] == RETURN && k != raw - 1)
  }

  lemma StrikesMeans(staged: seq<byte>, raw: nat)
    requires raw <= |staged|
    ensures CleanLine(staged[..raw]) <==> !exists k :: 0 <= k < raw && Strikes(staged, raw, k)
  {
    assert forall k :: 0 <= k < raw ==> staged[..raw][k] == staged[k];
    if CleanLine(staged[..raw]) {
      forall k | 0 <= k < raw ensures !Strikes(staged, raw, k) {}
    } else if exists k :: 0 <= k < raw && IsControl(staged[..raw][k]) {
      var k :| 0 <= k < raw && IsControl(staged[..raw][k]);
      assert Strikes(staged, raw, k);
    } else {
      var k :| 0 <= k < raw - 1 && staged[..raw][k] == RETURN;
      assert Strikes(staged, raw, k);
    }
  }

  function FailLine(code: int, consumed: u64): LineOut { LineOut(code, [], [], consumed) }

  // ---------------------------------------------------------------------------------------
  // One step, without buffers

  function Step(staged: seq<byte>, cc: nat, vc: nat, eof: bool): LineOut
    requires cc <= 256 && vc <= 256 && |staged| == cc + vc
  {
    var at := LineEnd(staged);
    if !NoControl(staged) then FailLine(STATUS_MALFORMED, vc)
    else if at < |staged| then EmitSpec(staged, cc, vc, at)
    else if eof then TailSpec(staged, vc)
    else if |staged| > 255 then FailLine(STATUS_OVERLONG, vc)
    else LineOut(STATUS_NEED_MORE, [], staged, vc)
  }

  function EmitSpec(staged: seq<byte>, cc: nat, vc: nat, at: nat): LineOut
    requires cc <= 256 && vc <= 256 && |staged| == cc + vc && at < |staged|
  {
    var raw, tail := staged[..at], staged[at + 1..];
    if !CleanLine(raw) then FailLine(STATUS_MALFORMED, vc)
    else if |Stripped(raw)| > 255 then FailLine(STATUS_OVERLONG, vc)
    else
      var keep := if |tail| <= 256 then tail else tail[..256];
      LineOut(STATUS_LINE, Stripped(raw), keep, at + 1 + |keep| - cc)
  }

  function TailSpec(staged: seq<byte>, vc: nat): LineOut
    requires vc <= 256
  {
    if staged == [] then LineOut(STATUS_COMPLETE, [], [], vc)
    else if |staged| > 255 then FailLine(STATUS_OVERLONG, vc)
    else if staged[|staged| - 1] == RETURN || !CleanLine(staged) then FailLine(STATUS_MALFORMED, vc)
    else LineOut(STATUS_LINE, staged, [], vc)
  }

  method NextLine(carry: CarryBuffer, carryLen: u64, view: seq<byte>, viewLen: u64, eof: bool) returns (out: LineOut)
    requires |view| <= 256
    ensures var cc := if carryLen <= 256 then carryLen else 256;
            var vc := if viewLen <= |view| then viewLen else |view|;
            out == Step(carry[..cc] + view[..vc], cc, vc, eof)
  {
    hide CleanLine, NoControl, LineEnd, EmitSpec, TailSpec;
    var cc := if carryLen <= 256 then carryLen else 256;
    var vc := if viewLen <= |view| then viewLen else |view|;
    var total := AddWrap(cc, vc);
    var staged := carry[..cc] + view[..vc];
    assert staged[..total] == staged;
    var nl, bad := ScanNewline(staged, total);
    if bad {
      return FailLine(STATUS_MALFORMED, vc);
    }
    if nl != -1 {
      out := EmitLine(staged, total, cc, vc, nl);
      return;
    }
    if eof {
      out := EmitTail(staged, total, vc);
      return;
    }
    if total > 255 {
      return FailLine(STATUS_OVERLONG, vc);
    }
    return LineOut(STATUS_NEED_MORE, [], staged[..total], vc);
  }

  /** `covered` never wraps: the kept tail always reaches past the carry. */
  method EmitLine(staged: seq<byte>, total: u64, cc: u64, vc: u64, at: u64) returns (out: LineOut)
    requires cc <= 256 && vc <= 256 && total == cc + vc == |staged| && at < total
    ensures out == EmitSpec(staged, cc, vc, at)
  {
    hide CleanLine;
    var clean := CleanLength(staged, at);
    if clean == -1 {
      return FailLine(STATUS_MALFORMED, vc);
    }
    if clean > 255 {
      return FailLine(STATUS_OVERLONG, vc);
    }
    var line := staged[..clean];
    assert line == Stripped(staged[..at]);
    var tail := SubWrap(total, AddWrap(at, 1));
    var keep := if tail <= 256 then tail else 256;
    var held := staged[at + 1..at + 1 + keep];
    var covered := SubWrap(AddWrap(AddWrap(at, 1), keep), cc);
    var consumed := if covered <= vc then covered else vc;
    return LineOut(STATUS_LINE, line, held, consumed);
  }

  method EmitTail(staged: seq<byte>, total: u64, vc: u64) returns (out: LineOut)
    requires vc <= 256 && total == |staged| <= 512
    ensures out == TailSpec(staged, vc)
  {
    hide CleanLine;
    if total == 0 {
      return LineOut(STATUS_COMPLETE, [], [], vc);
    }
    if total > 255 {
      return FailLine(STATUS_OVERLONG, vc);
    }
    if staged[total - 1] == RETURN {
      return FailLine(STATUS_MALFORMED, vc);
    }
    assert staged[..total] == staged;
    var clean := CleanLength(staged, total);
    if clean == -1 {
      return FailLine(STATUS_MALFORMED, vc);
    }
    return LineOut(STATUS_LINE, staged[..clean], [], vc);
  }

  /** Nothing staged appears twice and nothing is lost: line, its one- or two-byte terminator, carry,
      and what is left of the view make up carry ++ view; the view is consumed whole unless more
      than 256 bytes follow the newline. */
  lemma StepConserves(carry: seq<byte>, view: seq<byte>, eof: bool)
    requires |carry| <= 256 && |view| <= 256
    ensures var out := Step(carry + view, |carry|, |view|, eof);
            && |out.carry| <= 256 && out.consumed <= |view|
            && (out.status == 0 && !(eof && NoNewline(carry + view)) ==>
                  && |out.line| <= 255
                  && exists end :: (end == [NEWLINE] || end == [RETURN, NEWLINE])
                                   && carry + view == out.line + end + out.carry + view[out.consumed..])
            && (out.status == 0 && eof && NoNewline(carry + view) ==>
                  out.line == carry + view && out.carry == [] && out.consumed == |view|)
            && (out.status == 1 ==> out.carry == carry + view && out.consumed == |view|)
            && (out.consumed < |view|
                <==> out.status == 0 && |carry + view| - LineEnd(carry + view) - 1 > 256)
  {
    var staged := carry + view;
    var at := LineEnd(staged);
    var out := Step(staged, |carry|, |view|, eof);
    if out.status == STATUS_LINE && at < |staged| {
      LineConserves(carry, view, at);
    }
  }

  lemma LineConserves(carry: seq<byte>, view: seq<byte>, at: nat)
    requires |carry| <= 256 && |view| <= 256 && at == LineEnd(carry + view) < |carry + view|
    requires EmitSpec(carry + view, |carry|, |view|, at).status == STATUS_LINE
    ensures var out := EmitSpec(carry + view, |carry|, |view|, at);
            var end := if Stripped((carry + view)[..at]) == (carry + view)[..at] then [NEWLINE] else [RETURN, NEWLINE];
            && out.consumed <= |view|
            && carry + view == out.line + end + out.carry + view[out.consumed..]
  {
    hide CleanLine, Stripped;
    var staged := carry + view;
    var out := EmitSpec(staged, |carry|, |view|, at);
    var n := at + 1 + |out.carry|;
    assert out.carry == staged[at + 1..n];
    assert |view| - out.consumed == |staged| - n && out.consumed == n - |carry|;
    hide EmitSpec, LineEnd;
    CutInFour(staged, at, n);
    ViewSuffix(carry, view, n);
    Reterminate(staged[..at], out.carry, view[out.consumed..]);
  }

  lemma Reterminate(raw: seq<byte>, held: seq<byte>, left: seq<byte>)
    ensures raw + [NEWLINE] + held + left
            == Stripped(raw) + (if Stripped(raw) == raw then [NEWLINE] else [RETURN, NEWLINE]) + held + left
  {
    Terminated(raw);
  }

  lemma Terminated(raw: seq<byte>)
    ensures raw + [NEWLINE] == Stripped(raw) + if Stripped(raw) == raw then [NEWLINE] else [RETURN, NEWLINE]
  {
    if Stripped(raw) != raw {
      assert raw == Stripped(raw) + [RETURN];
      assert [RETURN] + [NEWLINE] == [RETURN, NEWLINE];
    }
  }

  lemma CutInFour(s: seq<byte>, at: nat, n: nat)
    requires at < n <= |s| && s[at] == NEWLINE
    ensures s == s[..at] + [NEWLINE] + s[at + 1..n] + s[n..]
  {}
}
