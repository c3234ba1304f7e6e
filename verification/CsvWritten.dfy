/** What written lines read as, refused ones included, with the bytes and bounds written as numbers. */
module CsvWritten {
  import opened Machine
  import opened Chunks
  import Ln = Lines
  import Fd = Fields
  import opened Csv
  import Cs = CsvStreams
  import opened CsvRoundTrip

  /** No control byte but tab. */
  predicate Legal(s: seq<byte>) { forall i :: 0 <= i < |s| ==> s[i] >= 32 || s[i] == 9 }

  lemma LegalIsTame(s: seq<byte>)
    ensures Legal(s) <==> Fd.Tame(s)
  {
    assert forall i :: 0 <= i < |s| ==> (Fd.IsBadByte(s[i]) <==> !(s[i] >= 32 || s[i] == 9));
  }

  /** What reading a written line of these fields must give, `count` fields having been read before. */
  function Judged(fields: seq<seq<byte>>, count: nat, no: nat): Result<seq<seq<byte>>, CsvError> {
    if fields == [] then Success([])
    else if !Legal(fields[0]) then Failure(Malformed(no))
    else if |fields[0]| > 63 then Failure(Overlong(no))
    else if count >= 8 then Failure(Malformed(no))
    else
      match Judged(fields[1..], count + 1, no)
      case Failure(e) => Failure(e)
      case Success(more) => Success([fields[0]] + more)
  }

  /** The last field of a line. */
  lemma LastJudged(line: seq<byte>, start: nat, field: seq<byte>, count: nat, no: nat)
    requires start <= |line| <= 256 && line != []
    requires Fd.Take(line[start..]) == Fd.Taken(field, |line| - start, false, Legal(field))
    ensures FieldsFrom(line, start, count, no) == Judged([field], count, no)
  {
    hide Fd.Take, Legal;
    assert [field][1..] == [];
    assert [field] + [] == [field];
  }

  /** A field that a comma ends. */
  lemma NextJudged(line: seq<byte>, start: nat, field: seq<byte>, next: nat, count: nat, no: nat,
                   more: seq<seq<byte>>)
    requires start < next <= |line| <= 256 && line != []
    requires Fd.Take(line[start..]) == Fd.Taken(field, next - start - 1, true, Legal(field))
    requires FieldsFrom(line, next, count + 1, no) == Judged(more, count + 1, no)
    ensures FieldsFrom(line, start, count, no) == Judged([field] + more, count, no)
  {
    hide Fd.Take, Legal;
    assert ([field] + more)[1..] == more;
  }

  lemma {:induction false} WrittenAfter(before: seq<byte>, fields: seq<seq<byte>>, count: nat, no: nat)
    requires fields != [] && |before + EncodeLine(fields)| <= 256 && before + EncodeLine(fields) != []
    ensures FieldsFrom(before + EncodeLine(fields), |before|, count, no) == Judged(fields, count, no)
    decreases |fields|
  {
    hide Fd.Take, Escape, Fd.Tame, Legal, EncodeLine, FieldsFrom, Judged;
    var line := before + EncodeLine(fields);
    var rest := if |fields| == 1 then [] else [COMMA] + EncodeLine(fields[1..]);
    EncodeUnfolds(fields, rest);
    TakesEscaped(fields[0], rest);
    LegalIsTame(fields[0]);
    assert line[|before|..] == Escape(fields[0]) + rest;
    if |fields| == 1 {
      LastJudged(line, |before|, fields[0], count, no);
      assert fields == [fields[0]];
    } else {
      var prefix := before + Escape(fields[0]) + [COMMA];
      assert line == prefix + EncodeLine(fields[1..]);
      WrittenAfter(prefix, fields[1..], count + 1, no);
      NextJudged(line, |before|, fields[0], |prefix|, count, no, fields[1..]);
      assert fields == [fields[0]] + fields[1..];
    }
  }

  /** A written line reads as its fields are judged: the first that is illegal, too long or the ninth decides.
      The empty line alone has no fields. */
  lemma WrittenLine(fields: seq<seq<byte>>, no: nat)
    requires |EncodeLine(fields)| <= 256 && fields != [[]]
    ensures FieldsFrom(EncodeLine(fields), 0, 0, no) == Judged(fields, 0, no)
  {
    hide EncodeLine, Judged, FieldsFrom;
    if EncodeLine(fields) == [] {
      OnlyEmpty(fields);
      EmptyLine(no);
    } else {
      assert [] + EncodeLine(fields) == EncodeLine(fields);
      WroteSomething(fields);
      WrittenAfter([], fields, 0, no);
    }
  }

  lemma WroteSomething(fields: seq<seq<byte>>)
    requires EncodeLine(fields) != []
    ensures fields != []
  {}

  lemma EmptyLine(no: nat)
    ensures EncodeLine([]) == [] && FieldsFrom([], 0, 0, no) == Success([]) && Judged([], 0, no) == Success([])
  {}

  predicate Fine(field: seq<byte>) { Legal(field) && |field| <= 63 }

  /** The first field that is not fine, or the ninth, decides. */
  lemma {:induction false} FirstToFail(fields: seq<seq<byte>>, k: nat, count: nat, no: nat)
    requires k < |fields| && count + k <= 8 && (forall j :: 0 <= j < k ==> Fine(fields[j]))
    requires !Fine(fields[k]) || count + k == 8
    ensures Judged(fields, count, no)
            == Failure(if Legal(fields[k]) && |fields[k]| > 63 then Overlong(no) else Malformed(no))
    decreases k
  {
    hide Legal;
    if k > 0 {
      FirstToFail(fields[1..], k - 1, count + 1, no);
    }
  }

  lemma {:induction false} AllFine(fields: seq<seq<byte>>, count: nat, no: nat)
    requires count + |fields| <= 8 && forall j :: 0 <= j < |fields| ==> Fine(fields[j])
    ensures Judged(fields, count, no) == Success(fields)
    decreases |fields|
  {
    hide Legal;
    if fields != [] {
      AllFine(fields[1..], count + 1, no);
      assert [fields[0]] + fields[1..] == fields;
    }
  }

  /** A written line of one to eight legal fields of at most 63 bytes, other than the one empty field, reads
      back; with nine or more such fields it is malformed. */
  lemma EightFieldsAtMost(fields: seq<seq<byte>>, no: nat)
    requires |EncodeLine(fields)| <= 256 && fields != [[]]
    requires forall j :: 0 <= j < |fields| ==> Legal(fields[j]) && |fields[j]| <= 63
    ensures |fields| <= 8 ==> FieldsFrom(EncodeLine(fields), 0, 0, no) == Success(fields)
    ensures |fields| >= 9 ==> FieldsFrom(EncodeLine(fields), 0, 0, no) == Failure(Malformed(no))
  {
    hide EncodeLine, Judged, FieldsFrom, Legal;
    WrittenLine(fields, no);
    if |fields| <= 8 {
      AllFine(fields, 0, no);
    } else {
      FirstToFail(fields, 8, 0, no);
    }
  }

  // ---------------------------------------------------------------------------------------
  // Which line of a stream is blamed, and how

  /** After good records the error is that of what follows, counted from there. */
  lemma {:induction false} ErrorAfterRecords(records: seq<seq<seq<byte>>>, t: seq<byte>, no: nat)
    requires AllStorable(records)
    ensures FirstError(EncodeAll(records) + t, no) == FirstError(t, no + |records|)
    decreases |records|
  {
    hide Storable, EncodeLine, AllStorable, FirstError;
    FirstStorable(records);
    if records == [] {
      assert EncodeAll(records) + t == t;
    } else {
      var line, rest := EncodeLine(records[0]), EncodeAll(records[1..]) + t;
      assert EncodeAll(records) + t == line + ([NEWLINE] + rest);
      ErrorAfterRecords(records[1..], t, no + 1);
      GoodLine(records[0], rest, no);
    }
  }

  lemma GoodLine(fields: seq<seq<byte>>, rest: seq<byte>, no: nat)
    requires Storable(fields) && |EncodeLine(fields)| <= 255
    ensures FirstError(EncodeLine(fields) + ([NEWLINE] + rest), no) == FirstError(rest, no + 1)
  {
    hide Storable, EncodeLine, Ln.CleanLine, Ln.Stripped, Ln.LineEnd, FieldsFrom, Fd.Tame;
    var line := EncodeLine(fields);
    StorableTame(fields);
    TameLine(line, rest);
    LineRoundTrip(fields, no + 1);
  }

  /** The byte may not stand in a line: a control byte other than tab, or a carriage return that is not last. */
  predicate Struck(raw: seq<byte>, i: nat)
    requires i < |raw|
  {
    raw[i] < 32 && raw[i] != 9 && !(raw[i] == 13 && i == |raw| - 1)
  }

  lemma StruckIsUnclean(raw: seq<byte>)
    requires forall i :: 0 <= i < |raw| ==> raw[i] != 10
    ensures Ln.CleanLine(raw) <==> forall i :: 0 <= i < |raw| ==> !Struck(raw, i)
  {
    if !Ln.CleanLine(raw) {
      if !Ln.NoControl(raw) {
        var i :| 0 <= i < |raw| && Ln.IsControl(raw[i]);
        assert Struck(raw, i);
      } else {
        var i :| 0 <= i < |raw| - 1 && raw[i] == RETURN;
        assert Struck(raw, i);
      }
    }
  }

  lemma LineAtNewline(raw: seq<byte>, rest: seq<byte>)
    requires forall i :: 0 <= i < |raw| ==> raw[i] != 10
    ensures var s := raw + ([10] + rest);
            Ln.LineEnd(s) == |raw| < |s| && s[..|raw|] == raw && s[|raw| + 1..] == rest
  {
    var s := raw + ([10] + rest);
    assert s[..|raw|] == raw;
    Ln.LineEndUnique(s, |raw|);
  }

  /** A line that cannot be read is blamed by its number: malformed if a byte may not stand there; otherwise,
      its carriage return left off, overlong above 255 bytes, and else as its fields are judged. */
  lemma BlamedLine(records: seq<seq<seq<byte>>>, raw: seq<byte>, rest: seq<byte>)
    requires AllStorable(records) && forall i :: 0 <= i < |raw| ==> raw[i] != 10
    ensures var line := if raw != [] && raw[|raw| - 1] == 13 then raw[..|raw| - 1] else raw;
            var n := |records| + 1;
            var e := FirstError(EncodeAll(records) + (raw + ([10] + rest)), 0);
            && ((exists i :: 0 <= i < |raw| && Struck(raw, i)) ==> e == Malformed(n))
            && ((forall i :: 0 <= i < |raw| ==> !Struck(raw, i)) ==>
                  && (|line| > 255 ==> e == Overlong(n))
                  && (|line| <= 255 && FieldsFrom(line, 0, 0, n).Failure? ==> e == FieldsFrom(line, 0, 0, n).error))
  {
    hide AllStorable, EncodeAll, Ln.CleanLine, Ln.LineEnd, FieldsFrom, Struck;
    ErrorAfterRecords(records, raw + ([10] + rest), 0);
    LineAtNewline(raw, rest);
    StruckIsUnclean(raw);
    FirstLineError(raw + ([10] + rest), |records|);
  }

  lemma FirstLineError(s: seq<byte>, no: nat)
    requires Ln.LineEnd(s) < |s|
    ensures var raw := s[..Ln.LineEnd(s)];
            var line := Ln.Stripped(raw);
            FirstError(s, no)
            == if !Ln.CleanLine(raw) then Malformed(no + 1)
               else if |line| > 255 then Overlong(no + 1)
               else if FieldsFrom(line, 0, 0, no + 1).Failure? then FieldsFrom(line, 0, 0, no + 1).error
               else FirstError(s[Ln.LineEnd(s) + 1..], no + 1)
  {
    hide Ln.CleanLine, Ln.Stripped, FieldsFrom, Ln.LineEnd;
  }

  lemma LfReads(fields: seq<seq<byte>>, rest: seq<byte>, no: nat, base: nat, next: nat)
    requires Storable(fields) && |EncodeLine(fields)| <= 255 && next == base + |EncodeLine(fields)| + 1
    ensures Rows(EncodeLine(fields) + ([10] + rest), no, base)
            == Prepend([Row(fields, no + 1, base, base + |EncodeLine(fields)|)], Rows(rest, no + 1, next))
  {
    hide Rows, Storable, Ln.CleanLine, Fd.Tame, FieldsFrom, EncodeLine, Ln.LineEnd, Prepend, Ln.Stripped;
    var line := EncodeLine(fields);
    StorableTame(fields);
    TameLine(line, rest);
    LineRoundTrip(fields, no + 1);
    RowsLine(line + ([10] + rest), no, base, |line|, next);
  }

  /** A carriage return before the newline belongs to neither the fields nor the range. */
  lemma CrlfReads(fields: seq<seq<byte>>, rest: seq<byte>, no: nat, base: nat, next: nat)
    requires Storable(fields) && |EncodeLine(fields)| <= 255 && next == base + |EncodeLine(fields)| + 2
    ensures Rows(EncodeLine(fields) + [13] + ([10] + rest), no, base)
            == Prepend([Row(fields, no + 1, base, base + |EncodeLine(fields)|)], Rows(rest, no + 1, next))
  {
    hide Rows, Storable, Ln.CleanLine, Fd.Tame, FieldsFrom, EncodeLine, Ln.LineEnd, Prepend;
    var line := EncodeLine(fields);
    var raw := line + [13];
    StorableTame(fields);
    TameBytes(line);
    LineAtNewline(raw, rest);
    StruckIsUnclean(raw);
    assert raw[..|raw| - 1] == line;
    LineRoundTrip(fields, no + 1);
    RowsLine(raw + ([10] + rest), no, base, |raw|, next);
  }

  lemma TameBytes(line: seq<byte>)
    requires Fd.Tame(line)
    ensures var raw := line + [13];
            && (forall i :: 0 <= i < |raw| ==> raw[i] != 10)
            && (forall i :: 0 <= i < |raw| ==> !Struck(raw, i))
  {
    LegalIsTame(line);
  }

  /** An unterminated last line, at end of input: malformed if a byte may not stand there or it ends in a
      carriage return, and else as its fields are judged. */
  lemma BlamedTail(tail: seq<byte>, no: nat)
    requires 0 < |tail| <= 255 && forall i :: 0 <= i < |tail| ==> tail[i] != 10
    ensures var e := CloseError(tail, no);
            if (exists i :: 0 <= i < |tail| && Struck(tail, i)) || tail[|tail| - 1] == 13 then e == Malformed(no + 1)
            else FieldsFrom(tail, 0, 0, no + 1).Failure? ==> e == FieldsFrom(tail, 0, 0, no + 1).error
  {
    hide FieldsFrom, Struck, Ln.CleanLine;
    assert Ln.LineEnd(tail) == |tail|;
    StruckIsUnclean(tail);
    CleanHasNoControl(tail);
  }

  lemma CleanHasNoControl(raw: seq<byte>)
    ensures Ln.CleanLine(raw) ==> Ln.NoControl(raw)
  {}

  /** The status of one splitting step, by its number. */
  lemma SplitStatus(carry: seq<byte>, view: seq<byte>, eof: bool)
    requires |carry| <= 256 && |view| <= 256
    ensures var staged := carry + view;
            var at, status := Ln.LineEnd(staged), Ln.Step(staged, |carry|, |view|, eof).status;
            if !Ln.NoControl(staged) then status == 3
            else if at == |staged| && !eof then status == if |staged| > 255 then 4 else 1
            else if staged == [] then status == 2
            else if at == |staged| then
              status == if |staged| > 255 then 4
                        else if staged[at - 1] == 13 || !Ln.CleanLine(staged) then 3 else 0
            else
              status == if !Ln.CleanLine(staged[..at]) then 3 else if |Ln.Stripped(staged[..at])| > 255 then 4 else 0
  {
    hide Ln.CleanLine, Ln.NoControl, Ln.Stripped, Ln.LineEnd;
  }

  /** The status of one field, by its number. */
  lemma FieldStatus(line: seq<byte>, start: nat)
    requires |line| <= 256
    ensures var status := Fd.FieldSpec(line, start).status;
            if line == [] && start == 0 then status == 1
            else if start > |line| then status == 0
            else
              var taken := Fd.Take(line[start..]);
              status == if !taken.ok then 2 else if |taken.value| > 63 then 3 else 0
  {
    hide Fd.Take;
  }

  // ---------------------------------------------------------------------------------------
  // Records as bytes

  /** The fields `1` to `8`. */
  const EIGHT: seq<seq<byte>> := [[49], [50], [51], [52], [53], [54], [55], [56]]

  /** `1,2,3,4,5,6,7,8` */
  const EIGHT_LINE: seq<byte> := [49, 44, 50, 44, 51, 44, 52, 44, 53, 44, 54, 44, 55, 44, 56]

  lemma PlainFirst(field: seq<byte>, more: seq<seq<byte>>)
    requires |field| == 1 && field[0] != COMMA && field[0] != BACKSLASH && more != []
    ensures EncodeLine([field] + more) == field + [COMMA] + EncodeLine(more)
    ensures EncodeLine([field]) == field
  {
    hide EncodeLine;
    var rest := [COMMA] + EncodeLine(more);
    assert ([field] + more)[1..] == more && [field][1..] == [];
    EncodeUnfolds([field] + more, rest);
    EncodeUnfolds([field], []);
    assert field[1..] == [] && field == [field[0]];
    assert Escape(field) == field;
  }

  lemma EightEncodes()
    ensures EncodeLine(EIGHT) == EIGHT_LINE
  {
    hide EncodeLine;
    var last: seq<seq<byte>> := [[56]];
    var two := [[55]] + last;
    var three, four := [[54]] + two, [[53]] + ([[54]] + two);
    PlainFirst([56], last);
    PlainFirst([55], last);
    PlainFirst([54], two);
    PlainFirst([53], three);
    assert EncodeLine(four) == [53, 44, 54, 44, 55, 44, 56];
    FourMore(four);
    assert [[49]] + ([[50]] + ([[51]] + ([[52]] + four))) == EIGHT;
  }

  lemma FourMore(four: seq<seq<byte>>)
    requires four != [] && EncodeLine(four) == [53, 44, 54, 44, 55, 44, 56]
    ensures EncodeLine([[49]] + ([[50]] + ([[51]] + ([[52]] + four)))) == EIGHT_LINE
  {
    hide EncodeLine;
    PlainFirst([52], four);
    PlainFirst([51], [[52]] + four);
    PlainFirst([50], [[51]] + ([[52]] + four));
    PlainFirst([49], [[50]] + ([[51]] + ([[52]] + four)));
  }

  lemma EightStorable()
    ensures AllStorable([EIGHT]) && Storable(EIGHT)
  {
    hide EncodeLine, FieldsFrom;
    EightEncodes();
    EightFieldsAtMost(EIGHT, 1);
    LineRoundTrip(EIGHT, 1);
  }

  /** The bytes of `1,2,3,4,5,6,7,8` and a newline, in any chunks, are one record of eight fields. */
  method ReadEightFields(chunks: seq<seq<byte>>) returns (rows: seq<Row>)
    requires Flatten(chunks) == [49, 44, 50, 44, 51, 44, 52, 44, 53, 44, 54, 44, 55, 44, 56, 10]
    ensures rows == [Row([[49], [50], [51], [52], [53], [54], [55], [56]], 1, 0, 15)]
  {
    hide EncodeLine, AllStorable, Storable, Rows, ReadStream, Cs.AllCutsFit;
    EightIsWritten();
    RecordsReadBack([EIGHT], chunks);
    EightRow();
    var r := Cs.ReadAll(chunks);
    rows := r.value;
  }

  lemma EightIsWritten()
    ensures AllStorable([EIGHT])
    ensures EncodeAll([EIGHT]) == [49, 44, 50, 44, 51, 44, 52, 44, 53, 44, 54, 44, 55, 44, 56, 10]
  {
    hide EncodeLine, AllStorable, Storable;
    EightStorable();
    EightEncodes();
    assert [EIGHT][1..] == [];
  }

  lemma EightRow()
    ensures ReadStream([49, 44, 50, 44, 51, 44, 52, 44, 53, 44, 54, 44, 55, 44, 56, 10])
            == Success([Row(EIGHT, 1, 0, 15)])
  {
    hide EncodeLine, Storable, Rows;
    EightStorable();
    EightEncodes();
    LfReads(EIGHT, [], 0, 0, 16);
    assert EIGHT_LINE + ([10] + []) == [49, 44, 50, 44, 51, 44, 52, 44, 53, 44, 54, 44, 55, 44, 56, 10];
    RowsWhole([], 1, 16);
    assert [Row(EIGHT, 1, 0, 15)] + [] == [Row(EIGHT, 1, 0, 15)];
  }
}
