/** Canonical record bytes, the identity of a record: `canonical_record_bytes` of `src/envelope.rs`. */
module Envelope {
  import opened Machine
  import Fd = Fields
  import opened Csv
  import Cs = CsvStreams
  import opened Separated

  const UNIT_SEPARATOR: byte := 0x1f

  /** The canonical bytes of a record. */
  function RecordBytes(fields: seq<seq<byte>>): seq<byte> { Join(UNIT_SEPARATOR, fields) }

  method CanonicalRecordBytes(fields: seq<seq<byte>>) returns (out: seq<byte>)
    ensures out == RecordBytes(fields)
  {
    out := [];
    for index := 0 to |fields|
      invariant out == RecordBytes(fields[..index])
    {
      JoinExtends(UNIT_SEPARATOR, fields[..index], fields[index]);
      assert fields[..index + 1] == fields[..index] + [fields[index]];
      if index > 0 {
        out := out + [UNIT_SEPARATOR] + fields[index];
        assert out == RecordBytes(fields[..index]) + ([UNIT_SEPARATOR] + fields[index]);
      } else {
        out := out + fields[index];
      }
    }
    assert fields[..|fields|] == fields;
  }

  // ---------------------------------------------------------------------------------------
  // What the reader returns can be told apart

  lemma {:induction false} TakesTame(t: seq<byte>)
    ensures Fd.Take(t).ok ==> Fd.Tame(Fd.Take(t).value)
    ensures Fd.Take(t).ok && !Fd.Take(t).comma && t != [] ==> Fd.Take(t).value != []
    decreases |t|
  {
    if t != [] && t[0] != COMMA {
      hide Fd.IsBadByte;
      var n := if t[0] == BACKSLASH then 2 else 1;
      if n <= |t| {
        TakesTame(t[n..]);
      }
    }
  }

  predicate Returnable(fields: seq<seq<byte>>) {
    && fields != [[]] && |fields| <= MAX_FIELDS
    && forall k :: 0 <= k < |fields| ==> Fd.Tame(fields[k]) && |fields[k]| <= 63
  }

  lemma {:induction false} FieldsReturnable(line: seq<byte>, start: nat, count: nat, no: nat)
    requires start <= |line| <= 256 && count <= MAX_FIELDS
    requires FieldsFrom(line, start, count, no).Success?
    ensures var fields := FieldsFrom(line, start, count, no).value;
            && count + |fields| <= MAX_FIELDS
            && (forall k :: 0 <= k < |fields| ==> Fd.Tame(fields[k]) && |fields[k]| <= 63)
            && (fields == [[]] ==> start == |line| && line != [])
    decreases |line| - start
  {
    hide Fd.Take, Fd.Tame;
    TakesTame(line[start..]);
    var f := Fd.FieldSpec(line, start);
    if f.status == Fd.STATUS_FIELD && f.hasMore {
      FieldsReturnable(line, f.nextStart, count + 1, no);
    }
  }

  /** Every record read holds at most eight clean fields and is not the record of one empty field. */
  lemma {:induction false} RowsReturnable(s: seq<byte>, rows: seq<Row>, pos: nat, no: nat, k: nat)
    requires Cs.Tiled(s, rows, pos, no) && k < |rows|
    ensures Returnable(rows[k].fields)
    decreases |rows|
  {
    hide FieldsFrom, Fd.Tame;
    var row := rows[0];
    if k == 0 {
      var line := s[pos..row.byteEnd];
      FieldsReturnable(line, 0, 0, no + 1);
    } else {
      RowsReturnable(s, rows[1..], row.byteEnd + Cs.TerminatorLength(s, row.byteEnd), no + 1, k - 1);
    }
  }

  lemma TameIsSeparable(fields: seq<seq<byte>>)
    requires Returnable(fields)
    ensures AllSeparable(UNIT_SEPARATOR, fields)
  {}

  /** Two records read from any two streams have equal canonical bytes if and only if they are equal
      field by field. */
  lemma RecordsAreIdentified(s: seq<byte>, t: seq<byte>, i: nat, j: nat)
    requires ReadStream(s).Success? && i < |ReadStream(s).value|
    requires ReadStream(t).Success? && j < |ReadStream(t).value|
    ensures var a, b := ReadStream(s).value[i].fields, ReadStream(t).value[j].fields;
            RecordBytes(a) == RecordBytes(b) <==> a == b
  {
    hide ReadStream, Join, Cs.Tiled, AllSeparable;
    Cs.RowsTileTheStream(s);
    Cs.RowsTileTheStream(t);
    RowsReturnable(s, ReadStream(s).value, 0, 0, i);
    RowsReturnable(t, ReadStream(t).value, 0, 0, j);
    var a, b := ReadStream(s).value[i].fields, ReadStream(t).value[j].fields;
    TameIsSeparable(a);
    TameIsSeparable(b);
    JoinIsInjective(UNIT_SEPARATOR, a, b);
  }

  /** Splitting the canonical bytes of a record at the byte 31 gives its fields back. */
  lemma FieldsOfBytes(fields: seq<seq<byte>>)
    requires fields != [] && Returnable(fields)
    ensures Units(31, RecordBytes(fields)) == fields
  {
    hide Join, Units, AllSeparable, Returnable;
    TameIsSeparable(fields);
    UnitsOfJoin(UNIT_SEPARATOR, fields);
  }
}
