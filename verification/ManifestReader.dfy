/** `src/manifest.rs`: the host side that feeds the scanner through views and then extracts. */
module ManifestReader {
  import opened Machine
  import N = Nest
  import L = NestLanguage
  import M = Manifest

  datatype ManifestValue = Str(bytes: seq<byte>) | Int(value: int) | Bool(flag: bool) | Nested(start: u64, len: u64)

  /** Spans are (start, length) pairs. */
  datatype ManifestPair = ManifestPair(key: seq<byte>, keySpan: (u64, nat), value: ManifestValue, valueSpan: (u64, u64))

  datatype IngestError =
    | MalformedAt(position: u64)
    | TruncatedAt(position: u64)
    | DocumentOverlong
    | CountOutOfRange(count: int)
    | PairPastEnd(index: nat)
    | PairOverlong(index: nat)
    | PairMalformed(index: nat)

  type Outcome = Result<seq<ManifestPair>, IngestError>

  /** One scanner run.  `fed` is every byte scanned so far, all of them without a bad verdict. */
  class ManifestScanner {
    var state: N.NestState
    var base: u64
    ghost var fed: seq<byte>

    ghost predicate Valid()
      reads this
    {
      |fed| < U64_LIMIT && base == |fed| && !N.Scan(N.SEED, fed).bad && state == N.Scan(N.SEED, fed).state
    }

    constructor ()
      ensures Valid() && fed == []
    {
      state := N.SEED;
      base := 0;
      fed := [];
    }

    /** A malformed verdict carries the offset, in the whole stream, of the first byte no
        transition allows; otherwise the state is that of one scan over everything fed. */
    method Scan(view: seq<byte>, eof: bool) returns (out: N.ScanOut)
      requires Valid() && |view| <= 256 && |fed + view| < U64_LIMIT
      modifies this
      ensures fed == old(fed) + view && base == |fed| && state == out.state && out.consumed == |view|
      ensures out.status == 3 <==> N.Scan(N.SEED, fed).bad
      ensures N.Scan(N.SEED, fed).bad ==> out.position == N.Scan(N.SEED, fed).at
      ensures !N.Scan(N.SEED, fed).bad ==> Valid() && out.position == |fed|
      ensures !N.Scan(N.SEED, fed).bad ==>
                out.status == if !eof then 0 else if L.Accepted(fed) then 1 else 2
    {
      hide N.Scan, N.StepByte;
      L.ScanAppend(N.SEED, fed, view);
      L.ScanAtOnlyWhenBad(state, view);
      assert view[..|view|] == view;
      out := N.ScanChunk(state, view, |view|, base, eof);
      base := base + out.consumed;
      state := out.state;
      fed := fed + view;
    }
  }

  function Stage(doc: M.Doc): (staged: M.Staged)
    ensures M.Live(staged, |doc|) == doc
  {
    doc + seq(512 - |doc|, _ => 0)
  }

  /** The host's reading of one `pair_at` answer. */
  function PairOf(out: M.PairOut, index: nat): Result<ManifestPair, IngestError> {
    if out.status == M.STATUS_END then Failure(PairPastEnd(index))
    else if out.status == M.STATUS_OVERLONG then Failure(PairOverlong(index))
    else if out.status != M.STATUS_OK then Failure(PairMalformed(index))
    else
      var value := if out.kind == M.KIND_STRING then Str(out.sval)
                   else if out.kind == M.KIND_INT then Int(out.ival)
                   else if out.kind == M.KIND_BOOL then Bool(out.bval)
                   else Nested(out.vstart, out.vlen);
      Success(ManifestPair(out.key, (out.kstart, |out.key|), value, (out.vstart, out.vlen)))
  }

  /** The first `n` pairs in order, or the first failure among them. */
  function Collect(doc: M.Doc, n: nat): Outcome
    requires n <= 64
  {
    if n == 0 then Success([])
    else
      match Collect(doc, n - 1)
      case Failure(e) => Failure(e)
      case Success(pairs) =>
        match PairOf(M.PairAtSpec(doc, n - 1), n - 1)
        case Failure(e) => Failure(e)
        case Success(pair) => Success(pairs + [pair])
  }

  function ExtractAllSpec(doc: seq<byte>): Outcome {
    if |doc| > 512 then Failure(DocumentOverlong)
    else
      var count := M.CountTo(doc).count;
      if count < 0 || count > 64 then Failure(CountOutOfRange(count)) else Collect(doc, count)
  }

  method ExtractAll(doc: seq<byte>) returns (r: Outcome)
    ensures r == ExtractAllSpec(doc)
  {
    hide M.PairAtSpec, M.CountTo, PairOf;
    if |doc| > 512 {
      return Failure(DocumentOverlong);
    }
    var count := M.PairCount(Stage(doc), |doc|);
    if count < 0 || count > 64 {
      return Failure(CountOutOfRange(count));
    }
    var pairs := [];
    for index := 0 to count
      invariant Collect(doc, index) == Success(pairs)
    {
      var out := M.PairAt(Stage(doc), |doc|, index);
      match PairOf(out, index) {
        case Failure(e) =>
          CollectStopsAt(doc, index, count, e);
          return Failure(e);
        case Success(pair) =>
          pairs := pairs + [pair];
      }
    }
    r := Success(pairs);
  }

  lemma {:induction false} CollectStopsAt(doc: M.Doc, index: nat, n: nat, e: IngestError)
    requires index < n <= 64 && Collect(doc, index).Success?
    requires PairOf(M.PairAtSpec(doc, index), index) == Failure(e)
    ensures Collect(doc, n) == Failure(e)
  {
    hide M.PairAtSpec, PairOf;
    if index + 1 < n {
      CollectStopsAt(doc, index, n - 1, e);
    }
  }

  /** What ingesting a document means, with no view width in it. */
  function Ingest(doc: seq<byte>): Outcome
    requires |doc| < U64_LIMIT
  {
    var acc := N.Scan(N.SEED, doc);
    if acc.bad then Failure(MalformedAt(acc.at))
    else if !L.Accepted(doc) then Failure(TruncatedAt(|doc|))
    else ExtractAllSpec(doc)
  }

  /** The same pairs, or the same error at the same offset, for every width whose views fit the scanner. */
  method IngestManifest(doc: seq<byte>, width: nat) returns (r: Outcome)
    requires (width <= 256 || |doc| <= 256) && |doc| < U64_LIMIT
    ensures r == Ingest(doc)
  {
    hide N.Scan, N.StepByte, ExtractAllSpec;
    var scanner := new ManifestScanner();
    var step := if width < 1 then 1 else width;
    var pos := 0;
    while pos < |doc|
      invariant 0 <= pos <= |doc|
      invariant scanner.Valid() && scanner.fed == doc[..pos] && fresh(scanner)
    {
      var end := if pos + step <= |doc| then pos + step else |doc|;
      var view := doc[pos..end];
      assert doc[..pos] + view == doc[..end];
      var verdict := scanner.Scan(view, false);
      if verdict.status == N.STATUS_MALFORMED {
        BadStays(doc, end);
        return Failure(MalformedAt(verdict.position));
      }
      pos := end;
    }
    assert doc[..|doc|] == doc;
    assert doc + [] == doc;
    var verdict := scanner.Scan([], true);
    if verdict.status == N.STATUS_COMPLETE {
      r := ExtractAll(doc);
    } else if verdict.status == N.STATUS_TRUNCATED {
      r := Failure(TruncatedAt(verdict.position));
    } else {
      r := Failure(MalformedAt(verdict.position));
    }
  }

  lemma BadStays(doc: seq<byte>, end: nat)
    requires end <= |doc| && N.Scan(N.SEED, doc[..end]).bad
    ensures N.Scan(N.SEED, doc) == N.Scan(N.SEED, doc[..end])
  {
    hide N.Scan;
    L.ScanAppend(N.SEED, doc[..end], doc[end..]);
    assert doc[..end] + doc[end..] == doc;
  }
}
