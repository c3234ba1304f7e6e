/** What the record reader guarantees about whole streams. */
module CsvStreams {
  import opened Machine
  import opened Chunks
  import Ln = Lines
  import opened Csv

  // ---------------------------------------------------------------------------------------
  // When a run succeeds

  /** The bytes after the last newline. */
  function Tail(s: seq<byte>): (t: seq<byte>)
    decreases |s|
  {
    if Ln.LineEnd(s) == |s| then s else Tail(s[Ln.LineEnd(s) + 1..])
  }

  /** No complete line is refused and no control byte has been seen. */
  predicate Healthy(s: seq<byte>) { Rows(s, 0, 0).ok && Ln.NoControl(s) }

  lemma {:induction false} RestIsTail(s: seq<byte>, no: nat, base: nat)
    ensures Rows(s, no, base).ok ==> Rows(s, no, base).rest == Tail(s)
    decreases |s|
  {
    hide Rows, RowOf, Ln.CleanLine, Ln.Stripped;
    var at := Ln.LineEnd(s);
    if at == |s| {
      RowsWhole(s, no, base);
    } else {
      RowsLine(s, no, base, at, base + at + 1);
      RestIsTail(s[at + 1..], no + 1, base + at + 1);
    }
  }

  lemma NoControlParts(s: seq<byte>, t: seq<byte>)
    ensures Ln.NoControl(s + t) <==> Ln.NoControl(s) && Ln.NoControl(t)
  {
    assert forall i :: 0 <= i < |s| ==> (s + t)[i] == s[i];
    assert forall i :: 0 <= i < |t| ==> (s + t)[|s| + i] == t[i];
  }

  /** What one view asks, in terms of the stream alone. */
  lemma PassesMeans(before: seq<byte>, carry: seq<byte>, view: seq<byte>)
    requires Healthy(before) && carry == Rows(before, 0, 0).rest
    ensures Passes(carry + view) <==> Healthy(before + view) && |Tail(before + view)| <= 255
    ensures Rows(carry + view, 0, 0).ok ==> Rows(carry + view, 0, 0).rest == Rows(before + view, 0, 0).rest
  {
    hide Rows;
    RowsRest(before, 0, 0);
    NoControlParts(before, view);
    NoControlParts(carry, view);
    NoControlRest(before, carry);
    RowsAppend(before, view, 0, 0, |before|);
    RowsElsewhere(carry + view, |Rows(before, 0, 0).rows|, |before| - |carry|, 0, 0);
    RestIsTail(before + view, 0, 0);
  }

  lemma NoControlRest(s: seq<byte>, t: seq<byte>)
    requires Ln.NoControl(s) && |t| <= |s| && t == s[|s| - |t|..]
    ensures Ln.NoControl(t)
  {}

  /** No view boundary inside `chunk`, fed after `before`, leaves more than 255 bytes of a line. */
  predicate CutsFit(before: seq<byte>, chunk: seq<byte>)
    decreases |chunk|
  {
    chunk != [] ==>
      && |Tail(before + FirstView(chunk))| <= 255
      && CutsFit(before + FirstView(chunk), chunk[|FirstView(chunk)|..])
  }

  lemma NothingToCut(before: seq<byte>)
    ensures CutsFit(before, [])
  {}

  lemma CutsFitUnfolds(before: seq<byte>, chunk: seq<byte>, view: seq<byte>, rest: seq<byte>)
    requires chunk != [] && view == FirstView(chunk) && rest == chunk[|view|..]
    ensures CutsFit(before, chunk) <==> |Tail(before + view)| <= 255 && CutsFit(before + view, rest)
  {
    hide Tail, FirstView;
  }

  lemma HealthyPrefix(s: seq<byte>, t: seq<byte>)
    requires Healthy(s + t)
    ensures Healthy(s)
  {
    hide Rows;
    NoControlParts(s, t);
    RowsAppend(s, t, 0, 0, |s|);
  }

  /** A chunk is accepted if and only if the stream stays healthy and its cuts fit. */
  lemma {:induction false} AllPassMeans(before: seq<byte>, carry: seq<byte>, chunk: seq<byte>)
    requires Healthy(before) && carry == Rows(before, 0, 0).rest
    ensures AllPass(carry, chunk) <==> Healthy(before + chunk) && CutsFit(before, chunk)
    decreases |chunk|
  {
    hide Rows, Passes, Healthy, FirstView, Tail, CutsFit, AllPass;
    if chunk == [] {
      NothingToPass(carry, chunk);
      NothingToCut(before);
      assert before + chunk == before;
    } else {
      var view := FirstView(chunk);
      var rest := chunk[|view|..];
      PassesMeans(before, carry, view);
      AllPassUnfolds(carry, chunk, Rows(carry + view, 0, 0).rest);
      CutsFitUnfolds(before, chunk, view, rest);
      assert before + chunk == before + view + rest;
      if Healthy(before + view) && |Tail(before + view)| <= 255 {
        PassesOk(carry + view);
        AllPassMeans(before + view, Rows(before + view, 0, 0).rest, rest);
      } else if Healthy(before + view + rest) {
        HealthyPrefix(before + view, rest);
      }
    }
  }

  lemma PassesOk(staged: seq<byte>)
    ensures Passes(staged) ==> Rows(staged, 0, 0).ok
  {
    hide Rows;
  }

  predicate AllCutsFit(chunks: seq<seq<byte>>) {
    chunks != [] ==>
      AllCutsFit(chunks[..|chunks| - 1]) && CutsFit(Flatten(chunks[..|chunks| - 1]), chunks[|chunks| - 1])
  }

  lemma {:induction false} PrefixFails(chunks: seq<seq<byte>>, n: nat)
    requires n <= |chunks| && !(Healthy(Flatten(chunks[..n])) && AllCutsFit(chunks[..n]))
    ensures !(Healthy(Flatten(chunks)) && AllCutsFit(chunks))
  {
    if n == |chunks| {
      assert chunks[..n] == chunks;
    } else {
      hide Healthy, CutsFit;
      var front := chunks[..|chunks| - 1];
      assert front[..n] == chunks[..n];
      PrefixFails(front, n);
      if Healthy(Flatten(chunks)) {
        HealthyPrefix(Flatten(front), chunks[|chunks| - 1]);
      }
    }
  }

  /** A stream that reads is healthy; and what closes after it was drained is what reading it gives. */
  lemma ClosingReads(stream: seq<byte>, rows: seq<Row>, carry: seq<byte>, no: nat, base: nat)
    requires Drained(Rows(stream, 0, 0), rows, [], carry, no) && base + |carry| == |stream|
    ensures ReadStream(stream) == Joining(rows, Closing(carry, no, base))
  {
    hide Rows, LastRow, ReadStream, Closing;
    assert rows + [] == rows;
    StreamCloses(stream, rows, carry, no, base);
    CarryCloses(carry, no, base);
  }

  lemma StreamCloses(stream: seq<byte>, rows: seq<Row>, carry: seq<byte>, no: nat, base: nat)
    requires Rows(stream, 0, 0) == Split(rows, carry, true) && no == |rows| && base + |carry| == |stream|
    ensures var last := LastRow(carry, no + 1, base);
            ReadStream(stream) == if last.Failure? then Failure(()) else Success(rows + last.value)
  {
    hide Rows, LastRow;
    assert |stream| - |carry| == base;
  }

  lemma CarryCloses(carry: seq<byte>, no: nat, base: nat)
    requires Ln.NoNewline(carry)
    ensures var last := LastRow(carry, no + 1, base);
            Closing(carry, no, base) == if last.Failure? then Failure(()) else Success(last.value)
  {
    hide Rows, LastRow;
    RowsWhole(carry, no, base);
    assert base + |carry| - |carry| == base && no + |Rows(carry, no, base).rows| + 1 == no + 1;
    var last := LastRow(carry, no + 1, base);
    if last.Success? {
      assert [] + last.value == last.value;
    }
  }

  lemma ReadableIsHealthy(stream: seq<byte>)
    requires ReadStream(stream).Success?
    ensures Healthy(stream)
  {
    hide Rows, Ln.NoControl, LastRow;
    var p := Rows(stream, 0, 0);
    LastRowClean(p.rest, |p.rows| + 1, |stream| - |p.rest|);
    OkThenClean(stream, 0, 0);
  }

  lemma LastRowClean(tail: seq<byte>, no: nat, start: nat)
    requires LastRow(tail, no, start).Success?
    ensures Ln.NoControl(tail)
  {}

  /** When every complete line made a row, a control byte can only be in the rest. */
  lemma {:induction false} OkThenClean(s: seq<byte>, no: nat, base: nat)
    requires Rows(s, no, base).ok && Ln.NoControl(Rows(s, no, base).rest)
    ensures Ln.NoControl(s)
    decreases |s|
  {
    hide Rows, RowOf, Ln.Stripped, Ln.NoControl;
    var at := Ln.LineEnd(s);
    if at == |s| {
      RowsWhole(s, no, base);
    } else {
      RowsLine(s, no, base, at, base + at + 1);
      OkThenClean(s[at + 1..], no + 1, base + at + 1);
      assert s == s[..at] + [NEWLINE] + s[at + 1..];
      NoControlParts(s[..at], [NEWLINE]);
      NoControlParts(s[..at] + [NEWLINE], s[at + 1..]);
      NewlineClean();
    }
  }

  lemma NewlineClean()
    ensures Ln.NoControl([NEWLINE])
  {}

  /** A new reader, one `feed` per chunk, then `finish`.  It succeeds exactly when the stream reads
      in one pass and no view boundary cuts a line past 255 bytes, and then with the same rows. */
  method ReadAll(chunks: seq<seq<byte>>) returns (r: Result<seq<Row>, CsvError>)
    ensures r.Success? <==> ReadStream(Flatten(chunks)).Success? && AllCutsFit(chunks)
    ensures r.Success? ==> r.value == ReadStream(Flatten(chunks)).value
  {
    hide *;
    var reader := new CsvReader();
    var rows := [];
    RunBegins(chunks, reader.fed, reader.rows);
    for i := 0 to |chunks|
      invariant fresh(reader) && reader.Valid()
      invariant reader.fed == Flatten(chunks[..i]) && reader.rows == rows
      invariant AllCutsFit(chunks[..i]) && Healthy(reader.fed)
    {
      reader.Unfold();
      RunGoesOn(chunks, i, reader.rows, reader.carry, reader.lineNo);
      var more := reader.Feed(chunks[i]);
      if more.Failure? {
        PrefixFails(chunks, i + 1);
        UnhealthyFails(Flatten(chunks));
        return more;
      }
      rows := rows + more.value;
    }
    assert chunks[..|chunks|] == chunks;
    reader.Unfold();
    ClosingReads(Flatten(chunks), reader.rows, reader.carry, reader.lineNo, reader.streamPos - |reader.carry|);
    ghost var owed := Closing(reader.carry, reader.lineNo, reader.streamPos - |reader.carry|);
    var last := reader.Finish();
    JoiningMeans(rows, owed);
    if last.Failure? {
      return last;
    }
    return Success(rows + last.value);
  }

  lemma JoiningMeans(rows: seq<Row>, r: Result<seq<Row>, ()>)
    ensures Joining(rows, r) == if r.Failure? then r else Success(rows + r.value)
  {}

  lemma UnhealthyFails(stream: seq<byte>)
    ensures ReadStream(stream).Success? ==> Healthy(stream)
  {
    hide ReadStream, Healthy;
    if ReadStream(stream).Success? {
      ReadableIsHealthy(stream);
    }
  }

  lemma RunBegins(chunks: seq<seq<byte>>, fed: seq<byte>, rows: seq<Row>)
    ensures Flatten(chunks[..0]) == [] && AllCutsFit(chunks[..0]) && Healthy([])
  {
    RowsWhole([], 0, 0);
  }

  /** The state of a run after `i` chunks decides the next chunk. */
  lemma RunGoesOn(chunks: seq<seq<byte>>, i: nat, rows: seq<Row>, carry: seq<byte>, no: nat)
    requires i < |chunks| && AllCutsFit(chunks[..i])
    requires Healthy(Flatten(chunks[..i])) && Drained(Rows(Flatten(chunks[..i]), 0, 0), rows, [], carry, no)
    ensures Flatten(chunks[..i + 1]) == Flatten(chunks[..i]) + chunks[i]
    ensures AllPass(carry, chunks[i]) <==> Healthy(Flatten(chunks[..i + 1])) && AllCutsFit(chunks[..i + 1])
  {
    hide Rows, Healthy, CutsFit, AllPass;
    assert chunks[..i + 1][..i] == chunks[..i];
    AllPassMeans(Flatten(chunks[..i]), carry, chunks[i]);
  }

  // ---------------------------------------------------------------------------------------
  // Chunk invariance

  /** Every raw line, carriage return included, and the tail have at most 255 bytes. */
  predicate ShortLines(s: seq<byte>)
    decreases |s|
  {
    var at := Ln.LineEnd(s);
    at <= 255 && (at < |s| ==> ShortLines(s[at + 1..]))
  }

  lemma {:induction false} ShortPrefix(s: seq<byte>, t: seq<byte>)
    requires ShortLines(s + t)
    ensures |Tail(s)| <= 255
    decreases |s|
  {
    var at := Ln.LineEnd(s);
    if at < |s| {
      LineEndAppend(s, t);
      assert (s + t)[at + 1..] == s[at + 1..] + t;
      ShortPrefix(s[at + 1..], t);
    } else {
      TailInLine(s, t);
    }
  }

  /** Bytes without a newline are the beginning of one line, whatever follows. */
  lemma TailInLine(s: seq<byte>, t: seq<byte>)
    requires Ln.LineEnd(s) == |s|
    ensures |s| <= Ln.LineEnd(s + t) && (s + t)[..Ln.LineEnd(s + t)][..|s|] == s
  {
    assert forall i :: 0 <= i < |s| ==> (s + t)[i] == s[i];
  }

  lemma {:induction false} ShortChunkFits(before: seq<byte>, chunk: seq<byte>, after: seq<byte>)
    requires ShortLines(before + chunk + after)
    ensures CutsFit(before, chunk)
    decreases |chunk|
  {
    if chunk != [] {
      hide ShortLines, Tail, FirstView;
      var view := FirstView(chunk);
      var rest := chunk[|view|..];
      assert before + chunk + after == before + view + (rest + after);
      assert before + chunk + after == before + view + rest + after;
      ShortPrefix(before + view, rest + after);
      ShortChunkFits(before + view, rest, after);
    }
  }

  lemma {:induction false} ShortStreamFits(chunks: seq<seq<byte>>, after: seq<byte>)
    requires ShortLines(Flatten(chunks) + after)
    ensures AllCutsFit(chunks)
  {
    if chunks != [] {
      hide ShortLines, CutsFit;
      var front, last := chunks[..|chunks| - 1], chunks[|chunks| - 1];
      assert Flatten(front) + (last + after) == Flatten(chunks) + after;
      ShortStreamFits(front, last + after);
      ShortChunkFits(Flatten(front), last, after);
    }
  }

  /** For streams whose raw lines have at most 255 bytes the cuts never matter: with `ReadAll`, every
      chunking returns the rows of the one-pass reading, or every chunking fails. */
  lemma ShortStreamsAreChunkInvariant(chunks: seq<seq<byte>>)
    requires ShortLines(Flatten(chunks))
    ensures AllCutsFit(chunks)
  {
    hide ShortLines;
    assert Flatten(chunks) + [] == Flatten(chunks);
    ShortStreamFits(chunks, []);
  }

  /** Where a cut can hurt a stream that reads: only between the carriage return and the newline of a
      line of exactly 255 bytes. */
  lemma {:induction false} BadCut(s: seq<byte>, t: seq<byte>, no: nat, base: nat)
    requires Rows(s + t, no, base).ok
    requires LastRow(Tail(s + t), no, base).Success?
    requires |Tail(s)| > 255
    ensures |Tail(s)| == 256 && Tail(s)[255] == RETURN && t != [] && t[0] == NEWLINE
    decreases |s|
  {
    hide Rows, RowOf, Tail;
    TailUnfolds(s);
    TailUnfolds(s + t);
    var at, end := Ln.LineEnd(s), Ln.LineEnd(s + t);
    if at < |s| {
      LineEndAppend(s, t);
      assert (s + t)[at + 1..] == s[at + 1..] + t;
      RowsLine(s + t, no, base, at, base + at + 1);
      LastRowElsewhere(Tail(s + t), no, base, no + 1, base + at + 1);
      BadCut(s[at + 1..], t, no + 1, base + at + 1);
    } else {
      TailInLine(s, t);
      if end < |s + t| {
        RowsLine(s + t, no, base, end, base + end + 1);
        LongLine((s + t)[..end], s);
      }
    }
  }

  lemma TailUnfolds(s: seq<byte>)
    ensures Tail(s) == if Ln.LineEnd(s) == |s| then s else Tail(s[Ln.LineEnd(s) + 1..])
  {
    hide Ln.LineEnd;
  }

  lemma LongLine(raw: seq<byte>, s: seq<byte>)
    requires |s| > 255 && s <= raw && |Ln.Stripped(raw)| <= 255
    ensures s == raw && |s| == 256 && s[255] == RETURN
  {}

  lemma LastRowElsewhere(tail: seq<byte>, no: nat, base: nat, no': nat, base': nat)
    requires LastRow(tail, no, base).Success?
    ensures LastRow(tail, no', base').Success?
  {
    hide RowOf, Ln.CleanLine;
    if |tail| <= 255 {
      RowElsewhere(tail, no, base, no', base');
    }
  }

  // ---------------------------------------------------------------------------------------
  // Positions

  /** The length of the line terminator at offset `at`: none at the end of the stream. */
  function TerminatorLength(s: seq<byte>, at: nat): nat {
    if at >= |s| then 0
    else if s[at] == NEWLINE then 1
    else 2
  }

  /** Rows cover the stream from `pos` on: each is one line, byte for byte, read into its fields and
      numbered, and between one row and the next stands exactly a line terminator. */
  predicate Tiled(s: seq<byte>, rows: seq<Row>, pos: nat, no: nat)
    decreases |rows|
  {
    if rows == [] then pos == |s|
    else
      var row := rows[0];
      && row.lineNo == no + 1 && row.byteStart == pos <= row.byteEnd <= |s|
      && var line := s[pos..row.byteEnd];
         && |line| <= 255 && Ln.NoNewline(line) && Ln.NoControl(line)
         && FieldsFrom(line, 0, 0, no + 1) == Success(row.fields)
         && var next := row.byteEnd + TerminatorLength(s, row.byteEnd);
            && next <= |s|
            && (row.byteEnd < |s| ==> s[row.byteEnd..next] == [NEWLINE] || s[row.byteEnd..next] == [RETURN, NEWLINE])
            && Tiled(s, rows[1..], next, no + 1)
  }

  lemma {:induction false} RowsTile(stream: seq<byte>, pos: nat, no: nat)
    requires pos <= |stream|
    requires Rows(stream[pos..], no, pos).ok
    requires var p := Rows(stream[pos..], no, pos); LastRow(p.rest, no + |p.rows| + 1, |stream| - |p.rest|).Success?
    ensures var p := Rows(stream[pos..], no, pos);
            var last := LastRow(p.rest, no + |p.rows| + 1, |stream| - |p.rest|);
            Tiled(stream, p.rows + last.value, pos, no)
    decreases |stream| - pos
  {
    hide Rows, RowOf, LastRow, Tiled, Ln.CleanLine, Ln.Stripped;
    var s := stream[pos..];
    var at := Ln.LineEnd(s);
    if at == |s| {
      RowsWhole(s, no, pos);
      TailTiles(stream, pos, no);
    } else {
      var next := pos + at + 1;
      RowsLine(s, no, pos, at, next);
      assert s[at + 1..] == stream[next..];
      var row := RowOf(Ln.Stripped(s[..at]), no + 1, pos).value;
      var more := Rows(stream[next..], no + 1, next);
      assert no + |[row] + more.rows| + 1 == no + 1 + |more.rows| + 1;
      RowsTile(stream, next, no + 1);
      var last := LastRow(more.rest, no + 1 + |more.rows| + 1, |stream| - |more.rest|).value;
      LineTiles(stream, pos, at, no, row, more.rows + last);
      assert [row] + more.rows + last == [row] + (more.rows + last);
    }
  }

  lemma TailTiles(stream: seq<byte>, pos: nat, no: nat)
    requires pos <= |stream| && Ln.NoNewline(stream[pos..])
    requires LastRow(stream[pos..], no + 1, pos).Success?
    ensures Tiled(stream, [] + LastRow(stream[pos..], no + 1, |stream| - |stream[pos..]|).value, pos, no)
  {
    hide FieldsFrom;
    var tail := stream[pos..];
    var rows := LastRow(tail, no + 1, pos).value;
    assert |stream| - |tail| == pos;
    assert [] + rows == rows;
    if tail != [] {
      assert stream[pos..|stream|] == tail;
      assert rows[1..] == [];
    }
  }

  lemma LineTiles(stream: seq<byte>, pos: nat, at: nat, no: nat, row: Row, rest: seq<Row>)
    requires pos <= |stream| && at == Ln.LineEnd(stream[pos..]) < |stream[pos..]|
    requires Ln.CleanLine(stream[pos..][..at]) && |Ln.Stripped(stream[pos..][..at])| <= 255
    requires RowOf(Ln.Stripped(stream[pos..][..at]), no + 1, pos) == Success(row)
    requires Tiled(stream, rest, pos + at + 1, no + 1)
    ensures Tiled(stream, [row] + rest, pos, no)
  {
    hide FieldsFrom, Tiled, Ln.CleanLine, Ln.Stripped, Ln.LineEnd, Ln.NoControl, Ln.NoNewline;
    var raw := stream[pos..][..at];
    var line := Ln.Stripped(raw);
    var end := pos + |line|;
    assert stream[pos..][at] == stream[pos + at];
    LineIsClean(raw, line);
    LineAndTerminator(stream, pos, at, line, end);
    assert ([row] + rest)[1..] == rest;
    TilesMore(stream, row, rest, pos, no, line);
  }

  lemma LineAndTerminator(stream: seq<byte>, pos: nat, at: nat, line: seq<byte>, end: nat)
    requires pos + at < |stream| && stream[pos + at] == NEWLINE
    requires line == Ln.Stripped(stream[pos..][..at]) && end == pos + |line|
    ensures line == stream[pos..end] && end + TerminatorLength(stream, end) == pos + at + 1
    ensures stream[end..pos + at + 1] == [NEWLINE] || stream[end..pos + at + 1] == [RETURN, NEWLINE]
  {
    var raw := stream[pos..pos + at];
    assert raw == stream[pos..][..at];
    if raw != [] && raw[at - 1] == RETURN {
      assert line == raw[..at - 1] && end == pos + at - 1;
      assert stream[pos..end] == raw[..at - 1];
      assert stream[end] == RETURN;
      assert stream[end..pos + at + 1] == [RETURN, NEWLINE];
    } else {
      assert end == pos + at;
      assert stream[end..pos + at + 1] == [NEWLINE];
    }
  }

  lemma TilesMore(stream: seq<byte>, row: Row, rest: seq<Row>, pos: nat, no: nat, line: seq<byte>)
    requires row.lineNo == no + 1 && row.byteStart == pos <= row.byteEnd < |stream| && line == stream[pos..row.byteEnd]
    requires |line| <= 255 && Ln.NoNewline(line) && Ln.NoControl(line)
    requires FieldsFrom(line, 0, 0, no + 1) == Success(row.fields)
    requires var next := row.byteEnd + TerminatorLength(stream, row.byteEnd);
             && next <= |stream| && Tiled(stream, rest, next, no + 1)
             && (stream[row.byteEnd..next] == [NEWLINE] || stream[row.byteEnd..next] == [RETURN, NEWLINE])
    ensures Tiled(stream, [row] + rest, pos, no)
  {
    hide FieldsFrom, TerminatorLength, Ln.NoNewline, Ln.NoControl;
    assert ([row] + rest)[1..] == rest;
  }

  lemma LineIsClean(raw: seq<byte>, line: seq<byte>)
    requires Ln.CleanLine(raw) && Ln.NoNewline(raw) && line == Ln.Stripped(raw)
    ensures Ln.NoNewline(line) && Ln.NoControl(line)
  {}

  /** The rows of a stream tile it. */
  lemma RowsTileTheStream(stream: seq<byte>)
    requires ReadStream(stream).Success?
    ensures Tiled(stream, ReadStream(stream).value, 0, 0)
  {
    hide Rows, LastRow, Tiled;
    assert stream[0..] == stream;
    RowsTile(stream, 0, 0);
  }
}
