/** Writing records and reading them back: two layers of escaping undone, under any chunking. */
module CsvRoundTrip {
  import opened Machine
  import opened Chunks
  import Ln = Lines
  import Fd = Fields
  import opened Csv
  import Cs = CsvStreams

  // ---------------------------------------------------------------------------------------
  // Writing

  function Mark(b: byte): seq<byte> { if b == COMMA || b == BACKSLASH then [BACKSLASH, b] else [b] }

  function Escape(field: seq<byte>): seq<byte> {
    if field == [] then [] else Mark(field[0]) + Escape(field[1..])
  }

  function EncodeLine(fields: seq<seq<byte>>): seq<byte> {
    if fields == [] then []
    else if |fields| == 1 then Escape(fields[0])
    else Escape(fields[0]) + ([COMMA] + EncodeLine(fields[1..]))
  }

  function EncodeAll(records: seq<seq<seq<byte>>>): seq<byte> {
    if records == [] then [] else EncodeLine(records[0]) + ([NEWLINE] + EncodeAll(records[1..]))
  }

  predicate AllFit(fields: seq<seq<byte>>) {
    fields == [] || (Fd.Tame(fields[0]) && |fields[0]| <= 63 && AllFit(fields[1..]))
  }

  /** The records the format can hold: at most eight fields, each legal and at most 63 bytes, and not
      the record of one empty field, which is written like the record of none. */
  predicate Storable(fields: seq<seq<byte>>) { |fields| <= MAX_FIELDS && AllFit(fields) && fields != [[]] }

  // ---------------------------------------------------------------------------------------
  // One field

  lemma {:induction false} TakesEscaped(field: seq<byte>, rest: seq<byte>)
    requires rest != [] ==> rest[0] == COMMA
    ensures Fd.Take(Escape(field) + rest) == Fd.Taken(field, |Escape(field)|, rest != [], Fd.Tame(field))
    decreases |field|
  {
    hide *;
    if field == [] {
      TakesNothing(rest);
    } else {
      var more := Escape(field[1..]) + rest;
      TakesEscaped(field[1..], rest);
      TakesMark(field[0], more);
      EscapeFirst(field);
      assert Mark(field[0]) + Escape(field[1..]) + rest == Mark(field[0]) + more;
      assert field == [field[0]] + field[1..];
    }
  }

  lemma TakesNothing(rest: seq<byte>)
    requires rest != [] ==> rest[0] == COMMA
    ensures Escape([]) == [] && [] + rest == rest && Fd.Tame([])
    ensures Fd.Take(rest) == Fd.Taken([], 0, rest != [], true)
  {}

  lemma EscapeFirst(field: seq<byte>)
    requires field != []
    ensures Escape(field) == Mark(field[0]) + Escape(field[1..])
    ensures Fd.Tame(field) <==> !Fd.IsBadByte(field[0]) && Fd.Tame(field[1..])
  {
    hide Fd.IsBadByte, Mark;
  }

  lemma TakesMark(b: byte, more: seq<byte>)
    ensures var r := Fd.Take(more);
            Fd.Take(Mark(b) + more)
            == Fd.Taken([b] + r.value, r.used + |Mark(b)|, r.comma, r.ok && !Fd.IsBadByte(b))
  {
    hide Fd.IsBadByte;
    assert (Mark(b) + more)[|Mark(b)|..] == more;
  }

  // ---------------------------------------------------------------------------------------
  // One line

  /** Reading the fields that were written after `before`, exactly when they fit. */
  lemma {:induction false} FieldsOfEncoded(before: seq<byte>, fields: seq<seq<byte>>, count: nat, no: nat)
    requires fields != [] && |before + EncodeLine(fields)| <= 256
    requires before + EncodeLine(fields) != []
    ensures FieldsFrom(before + EncodeLine(fields), |before|, count, no) == Success(fields)
            <==> AllFit(fields) && count + |fields| <= MAX_FIELDS
    decreases |fields|
  {
    hide Fd.Take, Escape, Fd.Tame, AllFit, EncodeLine, FieldsFrom;
    var line := before + EncodeLine(fields);
    var rest := if |fields| == 1 then [] else [COMMA] + EncodeLine(fields[1..]);
    EncodeUnfolds(fields, rest);
    AllFitUnfolds(fields);
    TakesEscaped(fields[0], rest);
    assert line[|before|..] == Escape(fields[0]) + rest;
    if |fields| == 1 {
      LastFit(fields);
      Final(line, |before|, fields[0], count, no);
    } else {
      var prefix := before + Escape(fields[0]) + [COMMA];
      assert line == prefix + EncodeLine(fields[1..]);
      FieldsOfEncoded(prefix, fields[1..], count + 1, no);
      assert fields == [fields[0]] + fields[1..];
      Headed(line, |before|, fields[0], |prefix|, count, no, fields[1..]);
    }
  }

  lemma EncodeUnfolds(fields: seq<seq<byte>>, rest: seq<byte>)
    requires fields != [] && rest == if |fields| == 1 then [] else [COMMA] + EncodeLine(fields[1..])
    ensures EncodeLine(fields) == Escape(fields[0]) + rest
  {
    hide Escape;
    if |fields| == 1 {
      PlusNothing(Escape(fields[0]));
    }
  }

  lemma PlusNothing(s: seq<byte>)
    ensures s + [] == s
  {}

  lemma AllFitUnfolds(fields: seq<seq<byte>>)
    requires fields != []
    ensures AllFit(fields) <==> Fd.Tame(fields[0]) && |fields[0]| <= 63 && AllFit(fields[1..])
  {}

  lemma LastFit(fields: seq<seq<byte>>)
    requires |fields| == 1
    ensures fields == [fields[0]] && AllFit(fields[1..])
  {}

  /** A field that the end of the line ends is the last one. */
  lemma Final(line: seq<byte>, start: nat, value: seq<byte>, count: nat, no: nat)
    requires start <= |line| <= 256 && line != []
    requires var r := Fd.Take(line[start..]); r.value == value && !r.comma
    ensures FieldsFrom(line, start, count, no) == Success([value])
            <==> Fd.Take(line[start..]).ok && |value| <= 63 && count < MAX_FIELDS
  {
    hide Fd.Take;
  }

  /** A field that a comma ends is put in front of the fields after the comma. */
  lemma Headed(line: seq<byte>, start: nat, value: seq<byte>, next: nat, count: nat, no: nat, want: seq<seq<byte>>)
    requires start <= next <= |line| <= 256 && line != []
    requires var r := Fd.Take(line[start..]); r.value == value && r.comma && next == start + r.used + 1
    ensures FieldsFrom(line, start, count, no) == Success([value] + want)
            <==> Fd.Take(line[start..]).ok && |value| <= 63 && count < MAX_FIELDS
                 && FieldsFrom(line, next, count + 1, no) == Success(want)
  {
    hide Fd.Take;
    var more := FieldsFrom(line, next, count + 1, no);
    if more.Success? && [value] + more.value == [value] + want {
      assert ([value] + more.value)[1..] == more.value;
      assert ([value] + want)[1..] == want;
    }
  }

  /** A written line reads back as the record that was written if and only if the record is storable. */
  lemma LineRoundTrip(fields: seq<seq<byte>>, no: nat)
    requires |EncodeLine(fields)| <= 256
    ensures FieldsFrom(EncodeLine(fields), 0, 0, no) == Success(fields) <==> Storable(fields)
  {
    hide Fd.Take;
    assert [] + EncodeLine(fields) == EncodeLine(fields);
    if EncodeLine(fields) == [] {
      assert FieldsFrom([], 0, 0, no) == Success([]);
      OnlyEmpty(fields);
    } else {
      FieldsOfEncoded([], fields, 0, no);
    }
  }

  lemma OnlyEmpty(fields: seq<seq<byte>>)
    requires EncodeLine(fields) == []
    ensures fields == [] || fields == [[]]
  {
    if |fields| == 1 {
      assert fields == [fields[0]];
    }
  }

  // ---------------------------------------------------------------------------------------
  // Whole streams

  lemma {:induction false} EscapeTame(field: seq<byte>)
    requires Fd.Tame(field)
    ensures Fd.Tame(Escape(field))
    decreases |field|
  {
    if field != [] {
      EscapeTame(field[1..]);
    }
  }

  lemma {:induction false} EncodeTame(fields: seq<seq<byte>>)
    requires AllFit(fields)
    ensures Fd.Tame(EncodeLine(fields))
    decreases |fields|
  {
    if fields != [] {
      hide Escape, Fd.Tame;
      EscapeTame(fields[0]);
      EncodeTame(fields[1..]);
    }
  }

  predicate AllStorable(records: seq<seq<seq<byte>>>) {
    forall k :: 0 <= k < |records| ==> Storable(records[k]) && |EncodeLine(records[k])| <= 255
  }

  function FieldsOf(rows: seq<Row>): seq<seq<seq<byte>>> {
    if rows == [] then [] else [rows[0].fields] + FieldsOf(rows[1..])
  }

  lemma TameLine(line: seq<byte>, rest: seq<byte>)
    requires Fd.Tame(line)
    ensures var s := line + ([NEWLINE] + rest);
            && Ln.LineEnd(s) == |line| < |s| && s[..|line|] == line && s[|line| + 1..] == rest
            && Ln.CleanLine(line) && Ln.Stripped(line) == line
  {
    var s := line + ([NEWLINE] + rest);
    assert s[..|line|] == line;
    Ln.LineEndUnique(s, |line|);
  }

  /** Splitting what was written gives the records, with nothing left over and no long line. */
  lemma {:induction false} RowsOfEncoded(records: seq<seq<seq<byte>>>, no: nat, base: nat)
    requires AllStorable(records)
    ensures var p := Rows(EncodeAll(records), no, base);
            p.ok && p.rest == [] && FieldsOf(p.rows) == records
    ensures Cs.ShortLines(EncodeAll(records))
    decreases |records|
  {
    hide Rows, Storable, FieldsOf, Cs.ShortLines, AllStorable;
    FirstStorable(records);
    if records == [] {
      NoRecords(no, base);
    } else {
      var line, rest := EncodeLine(records[0]), EncodeAll(records[1..]);
      var next := base + |line| + 1;
      hide EncodeLine;
      RowsOfEncoded(records[1..], no + 1, next);
      var row := OneRecord(records[0], rest, no, base, next);
      FieldsOfMore(row, Rows(rest, no + 1, next).rows);
      assert [records[0]] + records[1..] == records;
    }
  }

  lemma FirstStorable(records: seq<seq<seq<byte>>>)
    requires AllStorable(records)
    ensures records != [] ==>
              Storable(records[0]) && |EncodeLine(records[0])| <= 255 && AllStorable(records[1..])
  {
    hide Storable, EncodeLine;
  }

  lemma NoRecords(no: nat, base: nat)
    ensures Rows([], no, base) == Split([], [], true) && FieldsOf([]) == [] && Cs.ShortLines([])
  {}

  lemma OneRecord(fields: seq<seq<byte>>, rest: seq<byte>, no: nat, base: nat, next: nat) returns (row: Row)
    requires Storable(fields) && |EncodeLine(fields)| <= 255 && next == base + |EncodeLine(fields)| + 1
    ensures row.fields == fields
    ensures Rows(EncodeLine(fields) + ([NEWLINE] + rest), no, base) == Prepend([row], Rows(rest, no + 1, next))
    ensures Cs.ShortLines(rest) ==> Cs.ShortLines(EncodeLine(fields) + ([NEWLINE] + rest))
  {
    hide Rows, Storable, Ln.CleanLine, Ln.Stripped, Fd.Tame, FieldsFrom, EncodeLine, Ln.LineEnd, Prepend;
    var line := EncodeLine(fields);
    StorableTame(fields);
    TameLine(line, rest);
    LineRoundTrip(fields, no + 1);
    RowsLine(line + ([NEWLINE] + rest), no, base, |line|, next);
    row := RowOf(line, no + 1, base).value;
  }

  lemma StorableTame(fields: seq<seq<byte>>)
    requires Storable(fields)
    ensures Fd.Tame(EncodeLine(fields))
  {
    EncodeTame(fields);
  }

  lemma FieldsOfMore(row: Row, rows: seq<Row>)
    ensures FieldsOf([row] + rows) == [row.fields] + FieldsOf(rows)
  {
    assert ([row] + rows)[1..] == rows;
  }

  /** What was written reads in one pass, and no chunking can cut it badly. */
  lemma RecordsReadBack(records: seq<seq<seq<byte>>>, chunks: seq<seq<byte>>)
    requires AllStorable(records) && Flatten(chunks) == EncodeAll(records)
    ensures ReadStream(Flatten(chunks)).Success? && Cs.AllCutsFit(chunks)
    ensures FieldsOf(ReadStream(Flatten(chunks)).value) == records
  {
    hide Rows, EncodeAll, AllStorable, FieldsOf, Cs.ShortLines, Cs.AllCutsFit;
    RowsOfEncoded(records, 0, 0);
    Cs.ShortStreamsAreChunkInvariant(chunks);
    var rows := Rows(EncodeAll(records), 0, 0).rows;
    assert rows + [] == rows;
  }

  /** Write records, feed them in any chunks, finish: the same records come back. */
  method ReadWritten(records: seq<seq<seq<byte>>>, chunks: seq<seq<byte>>) returns (rows: seq<Row>)
    requires AllStorable(records) && Flatten(chunks) == EncodeAll(records)
    ensures FieldsOf(rows) == records
    ensures Cs.Tiled(EncodeAll(records), rows, 0, 0)
  {
    hide *;
    RecordsReadBack(records, chunks);
    Cs.RowsTileTheStream(EncodeAll(records));
    var r := Cs.ReadAll(chunks);
    rows := r.value;
  }

  // ---------------------------------------------------------------------------------------
  // The line of 255 bytes ended by CRLF

  /** Such a line reads in one pass, and in any two chunks that cut inside it; fed as one chunk it is
      refused, because the first view ends between the carriage return and the newline. */
  lemma LongLineDependsOnTheCut(line: seq<byte>, cut: nat)
    requires |line| == 255 && Fd.Tame(line) && FieldsFrom(line, 0, 0, 1).Success?
    requires 1 <= cut <= 255
    ensures var s := line + [RETURN, NEWLINE];
            && ReadStream(s).Success? && Flatten([s]) == Flatten([s[..cut], s[cut..]]) == s
            && Cs.AllCutsFit([s[..cut], s[cut..]]) && !Cs.AllCutsFit([s])
  {
    hide FieldsFrom, Ln.LineEnd, Rows, Cs.AllCutsFit, Cs.CutsFit, Flatten;
    var s := line + [RETURN, NEWLINE];
    var raw := line + [RETURN];
    CrlfLine(line);
    RowsLine(s, 0, 0, 256, 257);
    RowsWhole([], 1, 257);
    TwoChunks(s[..cut], s[cut..]);
    OneChunk(s);
    assert s[..cut] + s[cut..] == s;
    ShortCut(line, cut);
    LongCut(line);
  }

  lemma CrlfLine(line: seq<byte>)
    requires |line| == 255 && Fd.Tame(line)
    ensures var s := line + [RETURN, NEWLINE];
            && Ln.LineEnd(s) == 256 < |s| && s[..256] == line + [RETURN] && s[257..] == []
            && Ln.CleanLine(line + [RETURN]) && Ln.Stripped(line + [RETURN]) == line
  {
    var s := line + [RETURN, NEWLINE];
    assert s[..256] == line + [RETURN];
    Ln.LineEndUnique(s, 256);
  }

  lemma OneChunk(s: seq<byte>)
    ensures Flatten([s]) == s
    ensures Cs.AllCutsFit([s]) <==> Cs.CutsFit([], s)
  {
    hide Cs.CutsFit;
    var chunks := [s];
    assert chunks[..0] == [];
    assert [] + s == s;
  }

  lemma TwoChunks(s: seq<byte>, t: seq<byte>)
    ensures Flatten([s, t]) == s + t
    ensures Cs.AllCutsFit([s, t]) <==> Cs.CutsFit([], s) && Cs.CutsFit(s, t)
  {
    hide Cs.CutsFit, Flatten, Cs.AllCutsFit;
    OneChunk(s);
    var chunks := [s, t];
    assert chunks[..1] == [s];
    Unfolds(chunks, [s], t);
  }

  lemma Unfolds(chunks: seq<seq<byte>>, front: seq<seq<byte>>, last: seq<byte>)
    requires chunks != [] && front == chunks[..|chunks| - 1] && last == chunks[|chunks| - 1]
    ensures Flatten(chunks) == Flatten(front) + last
    ensures Cs.AllCutsFit(chunks) <==> Cs.AllCutsFit(front) && Cs.CutsFit(Flatten(front), last)
  {
    hide Cs.CutsFit;
  }

  lemma OneView(before: seq<byte>, chunk: seq<byte>)
    requires chunk != [] && |chunk| <= 256
    ensures Cs.CutsFit(before, chunk) <==> |Cs.Tail(before + chunk)| <= 255
  {
    hide Cs.Tail;
    var rest := chunk[|chunk|..];
    assert Cs.CutsFit(before + chunk, rest);
  }

  lemma ShortCut(line: seq<byte>, cut: nat)
    requires |line| == 255 && Fd.Tame(line) && 1 <= cut <= 255
    ensures var s := line + [RETURN, NEWLINE]; Cs.CutsFit([], s[..cut]) && Cs.CutsFit(s[..cut], s[cut..])
  {
    hide Cs.CutsFit, Ln.LineEnd;
    var s := line + [RETURN, NEWLINE];
    CrlfLine(line);
    OneView([], s[..cut]);
    OneView(s[..cut], s[cut..]);
    assert [] + s[..cut] == s[..cut] && s[..cut] + s[cut..] == s;
    ShortTail(s[..cut]);
    Cs.TailUnfolds(s);
  }

  lemma {:induction false} ShortTail(s: seq<byte>)
    ensures |Cs.Tail(s)| <= |s|
    decreases |s|
  {
    if Ln.LineEnd(s) < |s| {
      ShortTail(s[Ln.LineEnd(s) + 1..]);
    }
  }

  lemma LongCut(line: seq<byte>)
    requires |line| == 255 && Fd.Tame(line)
    ensures !Cs.CutsFit([], line + [RETURN, NEWLINE])
  {
    var s := line + [RETURN, NEWLINE];
    var view := FirstView(s);
    assert view == line + [RETURN];
    assert Ln.NoNewline(view);
    hide Cs.CutsFit, FirstView;
    Cs.CutsFitUnfolds([], s, view, s[|view|..]);
    assert [] + view == view;
  }

  /** Such lines exist: four fields of 63 bytes. */
  lemma LongLineExists() returns (line: seq<byte>)
    ensures |line| == 255 && Fd.Tame(line) && FieldsFrom(line, 0, 0, 1).Success?
  {
    var field: seq<byte> := seq(63, _ => 97);
    PlainEscape(field);
    var fields := [field, field, field, field];
    line := EncodeLine(fields);
    FourFields(fields, field);
    LineRoundTrip(fields, 1);
    StorableTame(fields);
  }

  lemma {:induction false} PlainEscape(field: seq<byte>)
    requires forall i :: 0 <= i < |field| ==> field[i] == 97
    ensures Escape(field) == field && Fd.Tame(field)
    decreases |field|
  {
    if field != [] {
      PlainEscape(field[1..]);
      assert field == [field[0]] + field[1..];
    }
  }

  lemma FourFields(fields: seq<seq<byte>>, field: seq<byte>)
    requires fields == [field, field, field, field] && |field| == 63 && Escape(field) == field && Fd.Tame(field)
    ensures |EncodeLine(fields)| == 255 && Storable(fields)
  {
    hide Escape, Fd.Tame;
    var three, two, one := fields[1..], fields[2..], fields[3..];
    assert three[1..] == two && two[1..] == one;
    assert one == [field] && one[1..] == [];
    assert |EncodeLine(one)| == 63 && AllFit(one);
    assert |EncodeLine(two)| == 127 && AllFit(two);
    assert |EncodeLine(three)| == 191 && AllFit(three);
  }
}
