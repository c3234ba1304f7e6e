/** `src/csv.rs`: the record reader over a chunked stream, and the one-pass reading it refines. */
module Csv {
  import opened Machine
  import opened Chunks
  import Ln = Lines
  import Fd = Fields

  const MAX_FIELDS: nat := 8

  /** The two error kinds of the source, with the 1-based line they name. */
  datatype CsvError = Malformed(line: nat) | Overlong(line: nat)

  datatype Row = Row(fields: seq<seq<byte>>, lineNo: nat, byteStart: nat, byteEnd: nat)

  // ---------------------------------------------------------------------------------------
  // Fields of a line

  /** The fields of `line` from offset `start` on, `count` of them being known already. */
  function FieldsFrom(line: seq<byte>, start: nat, count: nat, no: nat): Result<seq<seq<byte>>, CsvError>
    requires start <= |line| <= 256
    decreases |line| - start
  {
    var f := Fd.FieldSpec(line, start);
    if f.status == Fd.STATUS_END then Success([])
    else if f.status == Fd.STATUS_MALFORMED then Failure(Malformed(no))
    else if f.status == Fd.STATUS_OVERLONG then Failure(Overlong(no))
    else if count + 1 > MAX_FIELDS then Failure(Malformed(no))
    else if !f.hasMore then Success([f.value])
    else
      match FieldsFrom(line, f.nextStart, count + 1, no)
      case Failure(e) => Failure(e)
      case Success(more) => Success([f.value] + more)
  }

  /** Bytes in a buffer of 256. */
  function Pad(s: seq<byte>): (buffer: seq<byte>)
    requires |s| <= 256
    ensures |buffer| == 256 && buffer[..|s|] == s
  {
    s + seq(256 - |s|, _ => 0)
  }

  method ParseFields(line: seq<byte>, no: nat) returns (r: Result<seq<seq<byte>>, CsvError>)
    requires |line| <= 256
    ensures r == FieldsFrom(line, 0, 0, no)
  {
    var fields := [];
    var start := 0;
    JoinedNothing(FieldsFrom(line, 0, 0, no));
    while true
      invariant start <= |line| && |fields| <= MAX_FIELDS
      invariant FieldsFrom(line, 0, 0, no) == Joined(fields, FieldsFrom(line, start, |fields|, no))
      decreases |line| - start
    {
      var field := Fd.FieldAt(Pad(line), |line|, start);
      if field.status == Fd.STATUS_END {
        assert fields + [] == fields;
        return Success(fields);
      } else if field.status == Fd.STATUS_MALFORMED {
        return Failure(Malformed(no));
      } else if field.status == Fd.STATUS_OVERLONG {
        return Failure(Overlong(no));
      }
      ghost var rest := FieldsFrom(line, start, |fields|, no);
      JoinedMore(fields, field.value, if rest.Success? then Success(rest.value[1..]) else rest);
      fields := fields + [field.value];
      if |fields| > MAX_FIELDS {
        return Failure(Malformed(no));
      }
      if field.hasMore {
        start := field.nextStart;
      } else {
        return Success(fields);
      }
    }
  }

  function Joined(fields: seq<seq<byte>>, more: Result<seq<seq<byte>>, CsvError>): Result<seq<seq<byte>>, CsvError> {
    if more.Failure? then more else Success(fields + more.value)
  }

  lemma JoinedNothing(r: Result<seq<seq<byte>>, CsvError>)
    ensures Joined([], r) == r
  {
    if r.Success? {
      assert [] + r.value == r.value;
    }
  }

  lemma JoinedMore(fields: seq<seq<byte>>, value: seq<byte>, more: Result<seq<seq<byte>>, CsvError>)
    ensures Joined(fields, Joined([value], more)) == Joined(fields + [value], more)
  {
    if more.Success? {
      assert fields + ([value] + more.value) == fields + [value] + more.value;
    }
  }

  // ---------------------------------------------------------------------------------------
  // The reference: split a whole stream at its newlines

  /** The row a line stands for; `start` is the offset of its first byte. */
  function RowOf(line: seq<byte>, no: nat, start: nat): Result<Row, CsvError>
    requires |line| <= 256
  {
    match FieldsFrom(line, 0, 0, no)
    case Failure(e) => Failure(e)
    case Success(fields) => Success(Row(fields, no, start, start + |line|))
  }

  /** Rows of the complete lines, and the bytes after the last newline; `ok` falls at the first line
      that makes no row, and `rest` then starts with it. */
  datatype Split = Split(rows: seq<Row>, rest: seq<byte>, ok: bool)

  function Rows(s: seq<byte>, no: nat, base: nat): (p: Split)
    ensures |p.rest| <= |s|
    decreases |s|
  {
    var at := Ln.LineEnd(s);
    if at == |s| then Split([], s, true)
    else
      var raw := s[..at];
      if !Ln.CleanLine(raw) || |Ln.Stripped(raw)| > 255 then Split([], s, false)
      else
        match RowOf(Ln.Stripped(raw), no + 1, base)
        case Failure(_) => Split([], s, false)
        case Success(row) => Prepend([row], Rows(s[at + 1..], no + 1, base + at + 1))
  }

  function Prepend(rows: seq<Row>, p: Split): Split { p.(rows := rows + p.rows) }

  lemma PrependAssoc(a: seq<Row>, b: seq<Row>, p: Split)
    ensures Prepend(a, Prepend(b, p)) == Prepend(a + b, p)
  {
    assert a + (b + p.rows) == a + b + p.rows;
  }

  lemma PrependNothing(p: Split)
    ensures Prepend([], p) == p
  {}

  /** The unterminated tail, at end of input. */
  function LastRow(tail: seq<byte>, no: nat, start: nat): Result<seq<Row>, CsvError> {
    if tail == [] then Success([])
    else if |tail| > 255 || tail[|tail| - 1] == RETURN || !Ln.CleanLine(tail) then Failure(Malformed(no))
    else
      match RowOf(tail, no, start)
      case Failure(e) => Failure(e)
      case Success(row) => Success([row])
  }

  /** One-pass reading of a whole stream: its rows, or nothing. */
  function ReadStream(stream: seq<byte>): Result<seq<Row>, ()> {
    var p := Rows(stream, 0, 0);
    var last := LastRow(p.rest, |p.rows| + 1, |stream| - |p.rest|);
    if !p.ok || last.Failure? then Failure(()) else Success(p.rows + last.value)
  }

  // ---------------------------------------------------------------------------------------
  // Splitting more of a stream

  lemma RowsWhole(s: seq<byte>, no: nat, base: nat)
    requires Ln.NoNewline(s)
    ensures Rows(s, no, base) == Split([], s, true)
  {}

  /** What splitting `s` does at its first newline. */
  lemma RowsLine(s: seq<byte>, no: nat, base: nat, at: nat, next: nat)
    requires at == Ln.LineEnd(s) < |s| && next == base + at + 1
    ensures var raw := s[..at];
            if Ln.CleanLine(raw) && |Ln.Stripped(raw)| <= 255 && RowOf(Ln.Stripped(raw), no + 1, base).Success? then
              Rows(s, no, base)
              == Prepend([RowOf(Ln.Stripped(raw), no + 1, base).value], Rows(s[at + 1..], no + 1, next))
            else Rows(s, no, base) == Split([], s, false)
  {
    hide Ln.CleanLine, RowOf;
  }

  lemma LineEndAppend(s: seq<byte>, t: seq<byte>)
    requires Ln.LineEnd(s) < |s|
    ensures Ln.LineEnd(s + t) == Ln.LineEnd(s)
  {
    assert (s + t)[..Ln.LineEnd(s)] == s[..Ln.LineEnd(s)];
    Ln.LineEndUnique(s + t, Ln.LineEnd(s));
  }

  /** What remains to be split once `s` has been and `t` follows, `end` being the offset after `s`. */
  function Continue(p: Split, t: seq<byte>, no: nat, end: nat): Split
    requires |p.rest| <= end
  {
    if !p.ok then p.(rest := p.rest + t) else Prepend(p.rows, Rows(p.rest + t, no + |p.rows|, end - |p.rest|))
  }

  lemma ContinuePrepend(row: Row, q: Split, t: seq<byte>, no: nat, end: nat)
    requires |q.rest| <= end
    ensures Continue(Prepend([row], q), t, no, end) == Prepend([row], Continue(q, t, no + 1, end))
  {
    hide Rows;
    if q.ok {
      PrependAssoc([row], q.rows, Rows(q.rest + t, no + 1 + |q.rows|, end - |q.rest|));
    }
  }

  /** Splitting more of a stream continues where splitting less of it stopped. */
  lemma {:induction false} RowsAppend(s: seq<byte>, t: seq<byte>, no: nat, base: nat, end: nat)
    requires end == base + |s|
    ensures Rows(s + t, no, base) == Continue(Rows(s, no, base), t, no, end)
    decreases |s|
  {
    hide Ln.CleanLine, RowOf, Rows, Ln.Stripped;
    var at := Ln.LineEnd(s);
    if at == |s| {
      RowsWhole(s, no, base);
      PrependNothing(Rows(s + t, no, base));
    } else {
      LineEndAppend(s, t);
      RowsLine(s, no, base, at, base + at + 1);
      RowsLine(s + t, no, base, at, base + at + 1);
      assert (s + t)[..at] == s[..at];
      assert (s + t)[at + 1..] == s[at + 1..] + t;
      var q := Rows(s[at + 1..], no + 1, base + at + 1);
      RowsAppend(s[at + 1..], t, no + 1, base + at + 1, end);
      if |Ln.Stripped(s[..at])| <= 255 && RowOf(Ln.Stripped(s[..at]), no + 1, base).Success? {
        ContinuePrepend(RowOf(Ln.Stripped(s[..at]), no + 1, base).value, q, t, no, end);
      }
    }
  }

  lemma {:induction false} RowsRest(s: seq<byte>, no: nat, base: nat)
    ensures var p := Rows(s, no, base);
            && p.rest == s[|s| - |p.rest|..]
            && (p.ok ==> Ln.NoNewline(p.rest))
    decreases |s|
  {
    hide Ln.CleanLine, RowOf, Ln.Stripped, Rows;
    var at := Ln.LineEnd(s);
    if at == |s| {
      RowsWhole(s, no, base);
    } else {
      RowsLine(s, no, base, at, base + at + 1);
      RowsRest(s[at + 1..], no + 1, base + at + 1);
    }
  }

  /** Line numbers and offsets do not decide what splits where. */
  lemma {:induction false} RowsElsewhere(s: seq<byte>, no: nat, base: nat, no': nat, base': nat)
    ensures var p, q := Rows(s, no, base), Rows(s, no', base'); p.ok == q.ok && p.rest == q.rest && |p.rows| == |q.rows|
    decreases |s|
  {
    hide Ln.CleanLine, RowOf, Ln.Stripped, Rows;
    var at := Ln.LineEnd(s);
    if at == |s| {
      RowsWhole(s, no, base);
      RowsWhole(s, no', base');
    } else {
      RowsLine(s, no, base, at, base + at + 1);
      RowsLine(s, no', base', at, base' + at + 1);
      if |Ln.Stripped(s[..at])| <= 255 {
        RowElsewhere(Ln.Stripped(s[..at]), no + 1, base, no' + 1, base');
      }
      RowsElsewhere(s[at + 1..], no + 1, base + at + 1, no' + 1, base' + at + 1);
    }
  }

  lemma RowElsewhere(line: seq<byte>, no: nat, base: nat, no': nat, base': nat)
    requires |line| <= 256
    ensures RowOf(line, no, base).Success? == RowOf(line, no', base').Success?
  {
    FieldsElsewhere(line, 0, 0, no, no');
  }

  lemma {:induction false} FieldsElsewhere(line: seq<byte>, start: nat, count: nat, no: nat, no': nat)
    requires start <= |line| <= 256
    ensures FieldsFrom(line, start, count, no).Success? == FieldsFrom(line, start, count, no').Success?
    ensures FieldsFrom(line, start, count, no).Success? ==>
        FieldsFrom(line, start, count, no) == FieldsFrom(line, start, count, no')
    decreases |line| - start
  {
    hide Fd.Take;
    var f := Fd.FieldSpec(line, start);
    if f.status == Fd.STATUS_FIELD && f.hasMore && count + 1 <= MAX_FIELDS {
      FieldsElsewhere(line, f.nextStart, count + 1, no, no');
    }
  }

  // ---------------------------------------------------------------------------------------
  // One step of the reader

  /** `drain_completed` after a step: the row of the line produced, nothing, or an error. */
  function StepRows(step: Ln.LineOut, no: nat, lineStart: nat): Result<seq<Row>, CsvError>
    requires |step.line| <= 256
  {
    if step.status == Ln.STATUS_LINE then
      match RowOf(step.line, no + 1, lineStart)
      case Failure(e) => Failure(e)
      case Success(row) => Success([row])
    else if step.status == Ln.STATUS_NEED_MORE then Success([])
    else if step.status == Ln.STATUS_OVERLONG then Failure(Overlong(no + 1))
    else Failure(Malformed(no + 1))
  }

  /** What the reader can take of carry ++ view without failing. */
  predicate Passes(staged: seq<byte>) {
    Ln.NoControl(staged) && Rows(staged, 0, 0).ok && |Rows(staged, 0, 0).rest| <= 255
  }

  /** One step means: it consumes the whole view and splits off at most one row, or carry ++ view
      cannot pass. */
  predicate Explained(staged: seq<byte>, vc: nat, step: Ln.LineOut, no: nat, base: nat, end: nat) {
    && step.consumed <= vc && |step.line| <= 256
    && var r := StepRows(step, no, base);
       if r.Success? then
         && step.consumed == vc && |step.carry| <= 255 && |step.carry| <= |staged| && |step.carry| <= end
         && Ln.NoControl(staged) && Ln.NoControl(step.carry)
         && Rows(staged, no, base) == Prepend(r.value, Rows(step.carry, no + |r.value|, end - |step.carry|))
         && (step.status == Ln.STATUS_NEED_MORE ==> Ln.NoNewline(step.carry) && r.value == [])
         && (step.status != Ln.STATUS_NEED_MORE ==> |step.carry| < |staged|)
       else !Passes(staged)
  }

  lemma StepEmits(staged: seq<byte>, cc: nat, vc: nat, at: nat, no: nat, base: nat, end: nat)
    requires cc <= 255 && vc <= 256 && |staged| == cc + vc && end == base + cc + vc
    requires Ln.NoControl(staged) && at == Ln.LineEnd(staged) < |staged|
    requires at >= cc || vc == 0
    ensures Explained(staged, vc, Ln.EmitSpec(staged, cc, vc, at), no, base, end)
  {
    hide Ln.CleanLine, Ln.Stripped, Rows, RowOf, Passes, Prepend, Ln.LineEnd, Ln.NoControl, Ln.NoNewline;
    RowsLine(staged, no, base, at, base + at + 1);
    RowsElsewhere(staged, no, base, 0, 0);
    TailOfStage(staged, at);
    CannotPass(staged);
  }

  lemma TailOfStage(staged: seq<byte>, at: nat)
    requires Ln.NoControl(staged) && at < |staged|
    ensures Ln.NoControl(staged[at + 1..])
  {}

  lemma CannotPass(staged: seq<byte>)
    ensures !Rows(staged, 0, 0).ok ==> !Passes(staged)
  {
    hide Rows;
  }

  lemma StepHolds(staged: seq<byte>, cc: nat, vc: nat, no: nat, base: nat, end: nat)
    requires cc <= 255 && vc <= 256 && |staged| == cc + vc && end == base + cc + vc
    requires !Ln.NoControl(staged) || Ln.NoNewline(staged)
    ensures Explained(staged, vc, Ln.Step(staged, cc, vc, false), no, base, end)
  {
    hide Rows, RowOf, Ln.EmitSpec;
    if Ln.NoControl(staged) {
      assert Ln.LineEnd(staged) == |staged|;
      RowsWhole(staged, no, base);
      RowsWhole(staged, 0, 0);
      PrependNothing(Rows(staged, no, base));
    }
  }

  lemma StepExplained(carry: seq<byte>, view: seq<byte>, no: nat, base: nat, end: nat)
    requires |carry| <= 255 && |view| <= 256 && (Ln.NoNewline(carry) || view == [])
    requires end == base + |carry| + |view|
    ensures Explained(carry + view, |view|, Ln.Step(carry + view, |carry|, |view|, false), no, base, end)
  {
    hide Rows, RowOf, Explained, Ln.EmitSpec, Ln.NoControl, Ln.CleanLine;
    var at := Ln.LineEnd(carry + view);
    if Ln.NoControl(carry + view) && at < |carry + view| {
      assert at < |carry| ==> carry[at] == NEWLINE;
      StepEmits(carry + view, |carry|, |view|, at, no, base, end);
    } else {
      StepHolds(carry + view, |carry|, |view|, no, base, end);
    }
  }

  // ---------------------------------------------------------------------------------------
  // Which error

  /** The error of the first complete line of `s` that makes no row, `no` lines having been read before;
      when all make rows, that of an unfinished line too long to hold. */
  function FirstError(s: seq<byte>, no: nat): CsvError
    decreases |s|
  {
    var at := Ln.LineEnd(s);
    if at == |s| then Overlong(no + 1)
    else if !Ln.CleanLine(s[..at]) then Malformed(no + 1)
    else if |Ln.Stripped(s[..at])| > 255 then Overlong(no + 1)
    else
      match RowOf(Ln.Stripped(s[..at]), no + 1, 0)
      case Failure(e) => e
      case Success(_) => FirstError(s[at + 1..], no + 1)
  }

  /** The error of a view that does not pass: a control byte anywhere in carry ++ view counts against the
      line being read. */
  function ViewError(staged: seq<byte>, no: nat): CsvError {
    if !Ln.NoControl(staged) then Malformed(no + 1) else FirstError(staged, no)
  }

  /** The error of the first view of a chunk that does not pass. */
  function ChunkError(carry: seq<byte>, chunk: seq<byte>, no: nat): CsvError
    decreases |chunk|
  {
    var staged := carry + FirstView(chunk);
    if chunk == [] || !Passes(staged) then ViewError(staged, no)
    else ChunkError(Rows(staged, 0, 0).rest, chunk[|FirstView(chunk)|..], no + |Rows(staged, 0, 0).rows|)
  }

  /** The error at end of input after `carry`. */
  function CloseError(carry: seq<byte>, no: nat): CsvError
    decreases |carry|
  {
    var at := Ln.LineEnd(carry);
    if !Ln.NoControl(carry) then Malformed(no + 1)
    else if at == |carry| then
      if carry == [] || carry[|carry| - 1] == RETURN || !Ln.CleanLine(carry) || |carry| > 255 then Malformed(no + 1)
      else match RowOf(carry, no + 1, 0) case Failure(e) => e case Success(_) => Malformed(no + 1)
    else if !Ln.CleanLine(carry[..at]) then Malformed(no + 1)
    else if |Ln.Stripped(carry[..at])| > 255 then Overlong(no + 1)
    else
      match RowOf(Ln.Stripped(carry[..at]), no + 1, 0)
      case Failure(e) => e
      case Success(_) => CloseError(carry[at + 1..], no + 1)
  }

  /** `line_status`. */
  function LineStatus(status: int, no: nat): CsvError {
    if status == Ln.STATUS_OVERLONG then Overlong(no) else Malformed(no)
  }

  lemma SameError(line: seq<byte>, no: nat, start: nat)
    requires |line| <= 256
    ensures RowOf(line, no, start).Failure? == RowOf(line, no, 0).Failure?
    ensures RowOf(line, no, start).Failure? ==> RowOf(line, no, start).error == RowOf(line, no, 0).error
  {
    hide FieldsFrom;
  }

  lemma StepError(staged: seq<byte>, cc: nat, vc: nat, no: nat, base: nat)
    requires cc <= 255 && vc <= 256 && |staged| == cc + vc
    ensures var step := Ln.Step(staged, cc, vc, false);
            |step.line| <= 256 && (StepRows(step, no, base).Failure? ==>
                StepRows(step, no, base).error == ViewError(staged, no))
  {
    hide Ln.NoControl, Ln.CleanLine, Ln.Stripped, Ln.LineEnd, RowOf;
    var at := Ln.LineEnd(staged);
    if at < |staged| && |Ln.Stripped(staged[..at])| <= 255 {
      SameError(Ln.Stripped(staged[..at]), no + 1, base);
    }
  }

  /** After a step that succeeds, the error to come is that of the carry it leaves. */
  lemma StepGoesOn(staged: seq<byte>, cc: nat, vc: nat, no: nat, base: nat)
    requires cc <= 255 && vc <= 256 && |staged| == cc + vc && Ln.NoControl(staged)
    requires var step := Ln.Step(staged, cc, vc, false);
             |step.line| <= 256 && step.consumed == vc && StepRows(step, no, base).Success?
    ensures var step := Ln.Step(staged, cc, vc, false);
            FirstError(step.carry, no + |StepRows(step, no, base).value|) == FirstError(staged, no)
  {
    hide Ln.NoControl, Ln.CleanLine, Ln.Stripped, Ln.LineEnd, RowOf;
    var at := Ln.LineEnd(staged);
    if at < |staged| && |Ln.Stripped(staged[..at])| <= 255 {
      SameError(Ln.Stripped(staged[..at]), no + 1, base);
    }
  }

  lemma ViewErrorMeans(staged: seq<byte>, no: nat)
    ensures Ln.NoControl(staged) ==> ViewError(staged, no) == FirstError(staged, no)
  {
    hide FirstError;
  }

  lemma ChunkErrorUnfolds(carry: seq<byte>, chunk: seq<byte>, no: nat, rest: seq<byte>, count: nat)
    requires chunk != []
    requires Passes(carry + FirstView(chunk)) ==>
               rest == Rows(carry + FirstView(chunk), 0, 0).rest && count == |Rows(carry + FirstView(chunk), 0, 0).rows|
    ensures ChunkError(carry, chunk, no)
            == if !Passes(carry + FirstView(chunk)) then ViewError(carry + FirstView(chunk), no)
               else ChunkError(rest, chunk[|FirstView(chunk)|..], no + count)
  {
    hide Passes, Rows, FirstView, ViewError;
  }

  /** What a step at end of input that does not end the run says of the error to come. */
  lemma CloseGoesOn(carry: seq<byte>, no: nat, base: nat)
    requires |carry| <= 255
    ensures var step := Ln.Step(carry, |carry|, 0, true);
            |step.line| <= 256
            && (step.status == Ln.STATUS_LINE ==>
                  match RowOf(step.line, no + 1, base)
                  case Failure(e) => e == CloseError(carry, no)
                  case Success(_) => step.carry == [] || CloseError(step.carry, no + 1) == CloseError(carry, no))
            && (step.status != Ln.STATUS_LINE && step.status != Ln.STATUS_COMPLETE ==>
                  LineStatus(step.status, no + 1) == CloseError(carry, no))
  {
    hide Ln.NoControl, Ln.CleanLine, Ln.Stripped, Ln.LineEnd, RowOf;
    var at := Ln.LineEnd(carry);
    if at < |carry| && |Ln.Stripped(carry[..at])| <= 255 {
      SameError(Ln.Stripped(carry[..at]), no + 1, base);
    } else {
      SameError(carry, no + 1, base);
    }
  }

  // ---------------------------------------------------------------------------------------
  // The reader

  /** `LanguageRuntime::next_line`: stages the carry in its fixed buffer and calls the splitter. */
  method RunSplitter(carry: seq<byte>, view: seq<byte>, eof: bool) returns (out: Ln.LineOut)
    requires |carry| <= 256 && |view| <= 256
    ensures out == Ln.Step(carry + view, |carry|, |view|, eof)
  {
    hide Ln.Step;
    out := Ln.NextLine(Pad(carry), |carry|, view, |view|, eof);
    assert view[..|view|] == view;
  }

  /** A stream `all` of `end` bytes, of which `carry` is still to be split after `before` and `rows`. */
  predicate Pends(all: Split, before: seq<Row>, rows: seq<Row>, carry: seq<byte>, no: nat, end: nat) {
    && |carry| <= end && |carry| <= 255 && Ln.NoControl(carry)
    && no == |before + rows|
    && all == Prepend(before + rows, Rows(carry, no, end - |carry|))
  }

  /** Everything complete has been split off: `before` and `rows`, with `carry` as the rest. */
  predicate Drained(all: Split, before: seq<Row>, rows: seq<Row>, carry: seq<byte>, no: nat) {
    && all == Split(before + rows, carry, true) && no == |before + rows|
    && Ln.NoNewline(carry) && Ln.NoControl(carry) && |carry| <= 255
  }

  lemma DrainAdvances(all: Split, before: seq<Row>, rows: seq<Row>, carry: seq<byte>, no: nat, end: nat)
    requires Pends(all, before, rows, carry, no, end)
    ensures var step := Ln.Step(carry, |carry|, 0, false);
            && step.consumed == 0 && |step.line| <= 256
            && var r := StepRows(step, no, SaturatingSub(end, |carry|));
               if r.Failure? then !all.ok
               else if step.status == Ln.STATUS_NEED_MORE then Drained(all, before, rows, step.carry, no)
               else |step.carry| < |carry| && Pends(all, before, rows + r.value, step.carry, no + |r.value|, end)
  {
    hide Ln.Step, Rows, StepRows, RowOf, Passes;
    var step := Ln.Step(carry, |carry|, 0, false);
    var base := end - |carry|;
    assert carry + [] == carry;
    StepExplained(carry, [], no, base, end);
    var r := StepRows(step, no, base);
    if r.Failure? {
      DrainFails(carry, no, base);
    } else {
      PrependAssoc(before + rows, r.value, Rows(step.carry, no + |r.value|, end - |step.carry|));
      assert before + (rows + r.value) == before + rows + r.value;
      if step.status == Ln.STATUS_NEED_MORE {
        RowsWhole(step.carry, no, end - |step.carry|);
        assert before + rows + [] == before + rows;
      }
    }
  }

  lemma DrainFails(carry: seq<byte>, no: nat, base: nat)
    requires |carry| <= 255 && Ln.NoControl(carry) && !Passes(carry)
    ensures !Rows(carry, no, base).ok
  {
    hide Rows;
    RowsElsewhere(carry, 0, 0, no, base);
  }

  /** A step took `staged` in, or `staged` cannot pass. */
  predicate Took(all: Split, rows: seq<Row>, r: Result<seq<Row>, CsvError>, carry: seq<byte>, no: nat, end: nat,
                 staged: seq<byte>) {
    if r.Success? then Ln.NoControl(staged) && Pends(all, rows, r.value, carry, no + |r.value|, end)
    else !Passes(staged)
  }

  lemma TookMeans(all: Split, rows: seq<Row>, r: Result<seq<Row>, CsvError>, carry: seq<byte>, no: nat, end: nat,
                  staged: seq<byte>)
    requires Took(all, rows, r, carry, no, end, staged)
    ensures r.Failure? ==> !Passes(staged)
    ensures r.Success? ==> Ln.NoControl(staged) && Pends(all, rows, r.value, carry, no + |r.value|, end)
  {}

  /** A view after a drained stream: its first step, then the carry. */
  lemma ViewAdvances(fed: seq<byte>, rows: seq<Row>, carry: seq<byte>, no: nat, view: seq<byte>,
                     step: Ln.LineOut, base: nat, end: nat)
    requires Drained(Rows(fed, 0, 0), rows, [], carry, no) && |view| <= 256
    requires step == Ln.Step(carry + view, |carry|, |view|, false)
    requires base + |carry| == |fed| && end == |fed| + |view|
    ensures step.consumed <= |view| && |step.line| <= 256
    ensures var r := StepRows(step, no, base);
            && (r.Success? ==> step.consumed == |view|)
            && Took(Rows(fed + view, 0, 0), rows, r, step.carry, no, end, carry + view)
  {
    hide *;
    DrainedMeans(Rows(fed, 0, 0), rows, carry, no);
    StepExplained(carry, view, no, base, end);
    StreamContinues(fed, rows, carry, no, view, base);
    ExplainedTakes(Rows(fed + view, 0, 0), rows, carry + view, |view|, step, no, base, end);
  }

  lemma DrainedMeans(all: Split, rows: seq<Row>, carry: seq<byte>, no: nat)
    requires Drained(all, rows, [], carry, no)
    ensures Ln.NoNewline(carry) && |carry| <= 255 && no == |rows|
  {
    assert rows + [] == rows;
  }

  lemma ExplainedTakes(all: Split, rows: seq<Row>, staged: seq<byte>, vc: nat, step: Ln.LineOut,
                       no: nat, base: nat, end: nat)
    requires Explained(staged, vc, step, no, base, end) && all == Prepend(rows, Rows(staged, no, base)) && no == |rows|
    ensures step.consumed <= vc && |step.line| <= 256
    ensures var r := StepRows(step, no, base);
            && (r.Success? ==> step.consumed == vc)
            && Took(all, rows, r, step.carry, no, end, staged)
  {
    hide Rows, StepRows, Passes, Prepend, Pends, Ln.NoControl, Ln.NoNewline;
    var r := StepRows(step, no, base);
    if r.Success? {
      PendsMore(all, rows, r.value, Rows(staged, no, base), step.carry, no, end);
    }
  }

  lemma PendsMore(all: Split, before: seq<Row>, rows: seq<Row>, p: Split, carry: seq<byte>, no: nat, end: nat)
    requires all == Prepend(before, p) && |carry| <= 255 && |carry| <= end && Ln.NoControl(carry) && no == |before|
    requires p == Prepend(rows, Rows(carry, no + |rows|, end - |carry|))
    ensures Pends(all, before, rows, carry, no + |rows|, end)
  {
    hide Rows;
    PrependAssoc(before, rows, Rows(carry, no + |rows|, end - |carry|));
  }

  /** After a drained stream, more of it splits as carry ++ view does. */
  lemma StreamContinues(fed: seq<byte>, rows: seq<Row>, carry: seq<byte>, no: nat, view: seq<byte>, base: nat)
    requires Drained(Rows(fed, 0, 0), rows, [], carry, no) && base + |carry| == |fed|
    ensures Rows(fed + view, 0, 0) == Prepend(rows, Rows(carry + view, no, base)) && no == |rows|
    ensures Rows(fed + view, 0, 0).ok == Rows(carry + view, 0, 0).ok
    ensures Rows(fed + view, 0, 0).rest == Rows(carry + view, 0, 0).rest
  {
    hide Rows;
    assert rows + [] == rows;
    RowsAppend(fed, view, 0, 0, |fed|);
    RowsElsewhere(carry + view, no, base, 0, 0);
  }

  /** A view passed and was drained, or did not pass. */
  lemma ViewSettles(fed: seq<byte>, rows: seq<Row>, carry: seq<byte>, no: nat, view: seq<byte>,
                    more: seq<Row>, carry': seq<byte>, no': nat)
    requires Drained(Rows(fed, 0, 0), rows, [], carry, no) && Ln.NoControl(carry + view) && |carry| <= |fed|
    ensures Drained(Rows(fed + view, 0, 0), rows, more, carry', no') ==>
              && Passes(carry + view) && carry' == Rows(carry + view, 0, 0).rest
              && Drained(Rows(fed + view, 0, 0), rows + more, [], carry', no')
              && |more| == |Rows(carry + view, 0, 0).rows| && no == |rows| && no' == no + |more|
    ensures !Rows(fed + view, 0, 0).ok ==> !Passes(carry + view)
  {
    hide Rows;
    StreamContinues(fed, rows, carry, no, view, |fed| - |carry|);
    RowsElsewhere(carry + view, no, |fed| - |carry|, 0, 0);
    assert rows + more + [] == rows + more;
  }

  lemma DrainedRest(fed: seq<byte>, rows: seq<Row>, carry: seq<byte>, no: nat)
    requires Drained(Rows(fed, 0, 0), rows, [], carry, no)
    ensures |carry| <= |fed| && |carry| <= 255 && Ln.NoNewline(carry)
  {
    hide Rows;
  }

  /** Every view of a chunk passes, from the carry the views before it leave. */
  predicate AllPass(carry: seq<byte>, chunk: seq<byte>)
    decreases |chunk|
  {
    chunk != [] ==>
      && Passes(carry + FirstView(chunk))
      && AllPass(Rows(carry + FirstView(chunk), 0, 0).rest, chunk[|FirstView(chunk)|..])
  }

  lemma AllPassUnfolds(carry: seq<byte>, chunk: seq<byte>, rest: seq<byte>)
    requires chunk != []
    requires Passes(carry + FirstView(chunk)) ==> rest == Rows(carry + FirstView(chunk), 0, 0).rest
    ensures AllPass(carry, chunk) <==> Passes(carry + FirstView(chunk)) && AllPass(rest, chunk[|FirstView(chunk)|..])
  {
    hide Passes, Rows, FirstView;
  }

  lemma NothingToPass(carry: seq<byte>, chunk: seq<byte>)
    requires chunk == []
    ensures AllPass(carry, chunk)
  {}

  lemma WholeChunk(chunk: seq<byte>)
    ensures chunk[0..] == chunk && chunk[..0] == [] && chunk[..|chunk|] == chunk
  {}

  lemma RestOfChunk(chunk: seq<byte>, pos: nat, n: nat, view: seq<byte>)
    requires pos + n <= |chunk| && view <= chunk[pos..] && |view| == n
    ensures chunk[pos..][n..] == chunk[pos + n..]
    ensures chunk[..pos] + view == chunk[..pos + n]
  {}

  // End of input

  /** The rows still owed when input ends after `carry`. */
  function Closing(carry: seq<byte>, no: nat, base: nat): Result<seq<Row>, ()> {
    var p := Rows(carry, no, base);
    var last := LastRow(p.rest, no + |p.rows| + 1, base + |carry| - |p.rest|);
    if !p.ok || last.Failure? then Failure(()) else Success(p.rows + last.value)
  }

  function Joining(rows: seq<Row>, r: Result<seq<Row>, ()>): Result<seq<Row>, ()> {
    if r.Failure? then r else Success(rows + r.value)
  }

  lemma ClosingPrepends(row: Row, carry: seq<byte>, rest: seq<byte>, no: nat, base: nat, base': nat)
    requires Rows(carry, no, base) == Prepend([row], Rows(rest, no + 1, base'))
    requires base + |carry| == base' + |rest|
    ensures Closing(carry, no, base) == Joining([row], Closing(rest, no + 1, base'))
  {
    hide Rows, LastRow;
    var p := Rows(rest, no + 1, base');
    var last := LastRow(p.rest, no + 1 + |p.rows| + 1, base' + |rest| - |p.rest|);
    if p.ok && last.Success? {
      assert [row] + p.rows + last.value == [row] + (p.rows + last.value);
    }
  }

  /** What one step at end of input means. */
  predicate Closes(carry: seq<byte>, step: Ln.LineOut, no: nat, base: nat, end: nat) {
    && step.consumed == 0 && |step.line| <= 256
    && if step.status == Ln.STATUS_COMPLETE then Closing(carry, no, base) == Success([])
       else if step.status == Ln.STATUS_LINE && RowOf(step.line, no + 1, base).Success? then
         && |step.carry| < |carry| && |step.carry| <= end
         && Closing(carry, no, base)
            == Joining([RowOf(step.line, no + 1, base).value], Closing(step.carry, no + 1, end - |step.carry|))
       else Closing(carry, no, base) == Failure(())
  }

  lemma ClosesAtLine(carry: seq<byte>, at: nat, no: nat, base: nat, end: nat)
    requires |carry| <= 255 && end == base + |carry| && at == Ln.LineEnd(carry) < |carry|
    ensures Closes(carry, Ln.EmitSpec(carry, |carry|, 0, at), no, base, end)
  {
    hide Ln.CleanLine, Ln.Stripped, Rows, RowOf, LastRow, Prepend, Closing, Closes, Ln.LineEnd, FieldsFrom;
    if Ln.CleanLine(carry[..at]) && |Ln.Stripped(carry[..at])| <= 255 {
      LineCloses(carry, at, no, base, end, end - |carry[at + 1..]|);
    } else {
      RowsLine(carry, no, base, at, base + at + 1);
      BrokenCloses(carry, no, base);
      FailureCloses(carry, Ln.EmitSpec(carry, |carry|, 0, at), no, base, end);
    }
  }

  lemma LineCloses(carry: seq<byte>, at: nat, no: nat, base: nat, end: nat, next: nat)
    requires |carry| <= 255 && at == Ln.LineEnd(carry) < |carry|
    requires Ln.CleanLine(carry[..at]) && |Ln.Stripped(carry[..at])| <= 255
    requires end == base + |carry| && next == end - |carry[at + 1..]|
    ensures Closes(carry, Ln.LineOut(Ln.STATUS_LINE, Ln.Stripped(carry[..at]), carry[at + 1..], 0), no, base, end)
  {
    hide Ln.CleanLine, Ln.Stripped, Rows, RowOf, LastRow, Prepend, Closing;
    var line, rest := Ln.Stripped(carry[..at]), carry[at + 1..];
    RowsLine(carry, no, base, at, next);
    if RowOf(line, no + 1, base).Success? {
      ClosingPrepends(RowOf(line, no + 1, base).value, carry, rest, no, base, next);
    } else {
      BrokenCloses(carry, no, base);
    }
  }

  lemma BrokenCloses(carry: seq<byte>, no: nat, base: nat)
    requires !Rows(carry, no, base).ok
    ensures Closing(carry, no, base) == Failure(())
  {
    hide Rows, LastRow;
  }

  lemma ClosesTail(carry: seq<byte>, no: nat, base: nat, end: nat)
    requires |carry| <= 255 && end == base + |carry| && Ln.NoNewline(carry)
    ensures Closes(carry, Ln.TailSpec(carry, 0), no, base, end)
  {
    hide Ln.CleanLine, Rows, RowOf;
    RowsWhole(carry, no, base);
    RowsWhole([], no + 1, end);
    assert Closing([], no + 1, end) == Success([]) by {
      assert var none: seq<Row> := []; none + [] == [];
    }
    if LastRow(carry, no + 1, base).Success? && carry != [] {
      var row := RowOf(carry, no + 1, base).value;
      assert [] + [row] == [row] + [];
    }
  }

  /** A control byte anywhere in what is left closes nothing. */
  lemma {:induction false} ControlCloses(carry: seq<byte>, no: nat, base: nat)
    requires !Ln.NoControl(carry)
    ensures Closing(carry, no, base) == Failure(())
    decreases |carry|
  {
    hide Rows, RowOf;
    var at := Ln.LineEnd(carry);
    if at == |carry| {
      RowsWhole(carry, no, base);
    } else {
      RowsLine(carry, no, base, at, base + at + 1);
      var raw, rest := carry[..at], carry[at + 1..];
      if Ln.CleanLine(raw) && Rows(carry, no, base).ok {
        ControlAfter(carry, at);
        ControlCloses(rest, no + 1, base + at + 1);
        ClosingPrepends(RowOf(Ln.Stripped(raw), no + 1, base).value, carry, rest, no, base, base + at + 1);
      }
    }
  }

  lemma ControlAfter(s: seq<byte>, at: nat)
    requires !Ln.NoControl(s) && at < |s| && s[at] == NEWLINE && Ln.NoControl(s[..at])
    ensures !Ln.NoControl(s[at + 1..])
  {
    var k :| 0 <= k < |s| && Ln.IsControl(s[k]);
    assert k > at;
    assert s[at + 1..][k - at - 1] == s[k];
  }

  lemma FinishAdvances(carry: seq<byte>, no: nat, base: nat, end: nat)
    requires |carry| <= 255 && end == base + |carry|
    ensures Closes(carry, Ln.Step(carry, |carry|, 0, true), no, base, end)
  {
    hide Closes, Ln.EmitSpec, Ln.TailSpec, Ln.NoControl, Ln.CleanLine;
    var at := Ln.LineEnd(carry);
    if !Ln.NoControl(carry) {
      ControlCloses(carry, no, base);
      FailureCloses(carry, Ln.FailLine(Ln.STATUS_MALFORMED, 0), no, base, end);
    } else if at < |carry| {
      ClosesAtLine(carry, at, no, base, end);
    } else {
      ClosesTail(carry, no, base, end);
    }
  }

  lemma FailureCloses(carry: seq<byte>, step: Ln.LineOut, no: nat, base: nat, end: nat)
    requires Closing(carry, no, base) == Failure(()) && step.consumed == 0 && step.line == []
    requires step.status == Ln.STATUS_MALFORMED || step.status == Ln.STATUS_OVERLONG
    ensures Closes(carry, step, no, base, end)
  {
    hide Closing;
  }

  class CsvReader {
    var carry: seq<byte>
    var lineNo: nat
    var streamPos: nat
    /** Every byte fed and every row returned so far. */
    ghost var fed: seq<byte>
    ghost var rows: seq<Row>

    /** Between calls: the rows returned are those of the stream so far, the carry its unterminated
        rest, of at most 255 bytes and without control bytes. */
    ghost predicate Valid()
      reads this
    {
      streamPos == |fed| && Drained(Rows(fed, 0, 0), rows, [], carry, lineNo)
    }

    constructor ()
      ensures Valid() && fed == [] && rows == []
    {
      carry := [];
      lineNo := 0;
      streamPos := 0;
      fed := [];
      rows := [];
      new;
      assert rows + [] == [];
      RowsWhole([], 0, 0);
    }

    /** Empties the carry of complete lines; `saturating_sub` never clamps. */
    method DrainCarry(more: seq<Row>) returns (r: Result<seq<Row>, CsvError>)
      requires streamPos == |fed| && Pends(Rows(fed, 0, 0), rows, more, carry, lineNo, streamPos)
      modifies this
      ensures fed == old(fed) && rows == old(rows) && streamPos == |fed|
      ensures r.Success? ==> Drained(Rows(fed, 0, 0), rows, r.value, carry, lineNo)
      ensures r.Failure? ==> !Rows(fed, 0, 0).ok && r.error == FirstError(old(carry), old(lineNo))
    {
      hide *;
      var out := more;
      while carry != []
        invariant streamPos == |fed| && fed == old(fed) && rows == old(rows)
        invariant FirstError(carry, lineNo) == FirstError(old(carry), old(lineNo))
        invariant Pends(Rows(fed, 0, 0), rows, out, carry, lineNo, streamPos)
        decreases |carry|
      {
        PendsBounds(Rows(fed, 0, 0), rows, out, carry, lineNo, streamPos);
        var before := |carry|;
        var step := RunSplitter(carry, [], false);
        EmptyView(carry);
        DrainAdvances(Rows(fed, 0, 0), rows, out, carry, lineNo, streamPos);
        ghost var staged := carry;
        carry := step.carry;
        streamPos := streamPos + step.consumed;
        var lineStart := SaturatingSub(SaturatingSub(streamPos, step.consumed), before);
        SubtractNothing(streamPos);
        var produced := StepRows(step, lineNo, lineStart);
        StepError(staged, before, 0, lineNo, lineStart);
        ViewErrorMeans(staged, lineNo);
        if produced.Success? {
          StepGoesOn(staged, before, 0, lineNo, lineStart);
        }
        if produced.Failure? {
          return produced;
        }
        if step.status == Ln.STATUS_NEED_MORE {
          return Success(out);
        }
        out := out + produced.value;
        lineNo := lineNo + |produced.value|;
      }
      NothingPends(Rows(fed, 0, 0), rows, out, lineNo, streamPos);
      return Success(out);
    }

    /** Splits one view, taking over the carry, and reads the line produced. */
    method TakeStep(view: seq<byte>) returns (r: Result<seq<Row>, CsvError>)
      requires Valid() && |view| <= 256
      modifies this
      ensures fed == old(fed) + view && rows == old(rows)
      ensures r.Success? ==> streamPos == |fed| && lineNo == old(lineNo) + |r.value|
      ensures Took(Rows(fed, 0, 0), rows, r, carry, old(lineNo), |fed|, old(carry) + view)
      ensures r.Failure? ==> r.error == ViewError(old(carry) + view, old(lineNo))
      ensures r.Success? ==> FirstError(carry, lineNo) == FirstError(old(carry) + view, old(lineNo))
    {
      hide *;
      Unfold();
      ghost var staged := carry + view;
      var before := |carry|;
      var step := RunSplitter(carry, view, false);
      ViewAdvances(fed, rows, carry, lineNo, view, step, |fed| - before, |fed| + |view|);
      carry := step.carry;
      streamPos := streamPos + step.consumed;
      fed := fed + view;
      var lineStart := SaturatingSub(SaturatingSub(streamPos, step.consumed), before);
      SubtractTwice(streamPos, step.consumed, before);
      r := StepRows(step, lineNo, lineStart);
      StepError(staged, before, |view|, lineNo, lineStart);
      TookMeans(Rows(fed, 0, 0), rows, r, carry, lineNo, |fed|, staged);
      if r.Success? {
        StepGoesOn(staged, before, |view|, lineNo, lineStart);
        lineNo := lineNo + |r.value|;
      }
    }

    lemma Unfold()
      requires Valid()
      ensures streamPos == |fed| && Drained(Rows(fed, 0, 0), rows, [], carry, lineNo)
      ensures |carry| <= |fed| && |carry| <= 255 && Ln.NoNewline(carry)
    {
      DrainedRest(fed, rows, carry, lineNo);
    }

    lemma Fold()
      requires streamPos == |fed| && Drained(Rows(fed, 0, 0), rows, [], carry, lineNo)
      ensures Valid()
    {}

    /** One view of a chunk succeeds if and only if carry ++ view passes; it is always consumed whole.  The
        error is that of its first unreadable line. */
    method FeedView(view: seq<byte>) returns (r: Result<seq<Row>, CsvError>)
      requires Valid() && |view| <= 256
      modifies this
      ensures fed == old(fed) + view
      ensures r.Success? <==> Passes(old(carry) + view)
      ensures r.Success? ==> Valid() && rows == old(rows) + r.value && carry == Rows(old(carry) + view, 0, 0).rest
      ensures r.Success? ==> lineNo == old(lineNo) + |Rows(old(carry) + view, 0, 0).rows|
      ensures r.Failure? ==> r.error == ViewError(old(carry) + view, old(lineNo))
    {
      hide *;
      ViewErrorMeans(carry + view, lineNo);
      Unfold();
      ghost var fed0, carry0, no0, rows0 := fed, carry, lineNo, rows;
      r := TakeStep(view);
      TookMeans(Rows(fed, 0, 0), rows, r, carry, no0, |fed|, carry0 + view);
      if r.Failure? {
        return;
      }
      r := DrainCarry(r.value);
      ViewSettles(fed0, rows0, carry0, no0, view, if r.Success? then r.value else [], carry, lineNo);
      if r.Success? {
        rows := rows + r.value;
        Fold();
      }
    }

    /** One chunk of any size: it succeeds if and only if every 256-byte view of it passes; the error is that
        of the first that does not. */
    method Feed(chunk: seq<byte>) returns (r: Result<seq<Row>, CsvError>)
      requires Valid()
      modifies this
      ensures r.Success? <==> AllPass(old(carry), chunk)
      ensures r.Success? ==> Valid() && fed == old(fed) + chunk && rows == old(rows) + r.value
      ensures r.Failure? ==> r.error == ChunkError(old(carry), chunk, old(lineNo))
    {
      hide *;
      ghost var fed0, carry0, rows0 := fed, carry, rows;
      var out := [];
      var pos := 0;
      WholeChunk(chunk);
      assert fed0 + [] == fed0 && rows0 + [] == rows0;
      while pos < |chunk|
        invariant 0 <= pos <= |chunk| && Valid()
        invariant fed == fed0 + chunk[..pos] && rows == rows0 + out
        invariant AllPass(carry0, chunk) <==> AllPass(carry, chunk[pos..])
        invariant ChunkError(old(carry), chunk, old(lineNo)) == ChunkError(carry, chunk[pos..], lineNo)
      {
        ghost var carry1, no1 := carry, lineNo;
        var view := FirstView(chunk[pos..]);
        var more := FeedView(view);
        AllPassUnfolds(carry1, chunk[pos..], carry);
        ChunkErrorUnfolds(carry1, chunk[pos..], no1, carry, |Rows(carry1 + view, 0, 0).rows|);
        if more.Failure? {
          return more;
        }
        RestOfChunk(chunk, pos, |view|, view);
        assert fed0 + chunk[..pos] + view == fed0 + (chunk[..pos] + view);
        assert rows0 + out + more.value == rows0 + (out + more.value);
        out := out + more.value;
        pos := pos + |view|;
      }
      NothingToPass(carry, chunk[pos..]);
      return Success(out);
    }

    /** End of input: the rows still owed, or an error. */
    method Finish() returns (r: Result<seq<Row>, CsvError>)
      requires |carry| <= 255 && |carry| <= streamPos
      modifies this
      ensures Closing(old(carry), old(lineNo), old(streamPos) - |old(carry)|)
              == if r.Success? then Success(r.value) else Failure(())
      ensures r.Failure? ==> r.error == CloseError(old(carry), old(lineNo))
    {
      hide *;
      ghost var owed := Closing(carry, lineNo, streamPos - |carry|);
      var out := [];
      JoiningNothing(owed);
      while true
        invariant |carry| <= 255 && |carry| <= streamPos
        invariant owed == Joining(out, Closing(carry, lineNo, streamPos - |carry|))
        invariant CloseError(carry, lineNo) == CloseError(old(carry), old(lineNo)) || carry == []
        decreases |carry|
      {
        var before := |carry|;
        var step := RunSplitter(carry, [], true);
        EmptyView(carry);
        FinishAdvances(carry, lineNo, streamPos - before, streamPos);
        ClosesMeans(carry, step, lineNo, streamPos - before, streamPos, out);
        CloseGoesOn(carry, lineNo, streamPos - before);
        ClosedCarry(carry);
        carry := step.carry;
        streamPos := streamPos + step.consumed;
        var lineStart := SaturatingSub(SaturatingSub(streamPos, step.consumed), before);
        SubtractTwice(streamPos, step.consumed, before);
        if step.status == Ln.STATUS_COMPLETE {
          return Success(out);
        }
        var produced := if step.status == Ln.STATUS_LINE then RowOf(step.line, lineNo + 1, lineStart)
                        else Failure(LineStatus(step.status, lineNo + 1));
        if produced.Failure? {
          return Failure(produced.error);
        }
        out := out + [produced.value];
        lineNo := lineNo + 1;
      }
    }
  }

  lemma ClosedCarry(carry: seq<byte>)
    requires |carry| <= 255
    ensures carry == [] ==> Ln.Step(carry, |carry|, 0, true).status == Ln.STATUS_COMPLETE
  {}

  lemma JoiningNothing(r: Result<seq<Row>, ()>)
    ensures Joining([], r) == r
  {
    if r.Success? {
      assert [] + r.value == r.value;
    }
  }

  /** The three ways a step at end of input goes on, with the rows already out. */
  lemma ClosesMeans(carry: seq<byte>, step: Ln.LineOut, no: nat, base: nat, end: nat, out: seq<Row>)
    requires Closes(carry, step, no, base, end)
    ensures step.consumed == 0 && |step.line| <= 256
    ensures var owed := Joining(out, Closing(carry, no, base));
            if step.status == Ln.STATUS_COMPLETE then owed == Success(out)
            else if step.status == Ln.STATUS_LINE && RowOf(step.line, no + 1, base).Success? then
              && |step.carry| < |carry| && |step.carry| <= end
              && owed == Joining(out + [RowOf(step.line, no + 1, base).value], Closing(step.carry, no + 1,
                  end - |step.carry|))
            else owed == Failure(())
  {
    hide Closing, RowOf;
    if step.status == Ln.STATUS_LINE && RowOf(step.line, no + 1, base).Success? {
      var row := RowOf(step.line, no + 1, base).value;
      var more := Closing(step.carry, no + 1, end - |step.carry|);
      if more.Success? {
        assert out + ([row] + more.value) == out + [row] + more.value;
      }
    } else {
      assert out + [] == out;
    }
  }

  lemma PendsBounds(all: Split, before: seq<Row>, rows: seq<Row>, carry: seq<byte>, no: nat, end: nat)
    requires Pends(all, before, rows, carry, no, end)
    ensures |carry| <= 255 && |carry| <= end && Ln.NoControl(carry)
  {}

  lemma NothingPends(all: Split, before: seq<Row>, rows: seq<Row>, no: nat, end: nat)
    requires Pends(all, before, rows, [], no, end)
    ensures Drained(all, before, rows, [], no)
  {
    RowsWhole([], no, end);
    assert before + rows + [] == before + rows;
  }
}
