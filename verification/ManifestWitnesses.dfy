/** Documents at which the manifest machines part from what one would expect of them. */
module ManifestWitnesses {
  import opened Machine
  import opened Numerals
  import N = Nest
  import L = NestLanguage
  import M = Manifest
  import A = ManifestAgreement
  import R = ManifestReader
  import T = ManifestTree
  import P = ManifestRoundTrip
  import V = ManifestVerdicts

  // ---------------------------------------------------------------------------------------
  // Following the scanner byte by byte

  /** After `s` the scanner is clean and the members are read off as in `w`. */
  predicate Reached(s: M.Doc, w: A.Walk) { !N.Scan(N.SEED, s).bad && A.WalkTo(s) == w }

  lemma Begins()
    ensures Reached([], A.START)
  {}

  lemma Next(s: M.Doc, b: byte, w: A.Walk, next: A.Walk)
    requires Reached(s, w) && |s| < 512
    requires !N.StepByte(w.st, b).bad && next == A.WalkStep(w, b, |s|)
    ensures Reached(s + [b], next)
  {
    hide N.StepByte, A.WalkStep;
    assert (s + [b])[..|s|] == s;
    A.WalkIsScan(s);
  }

  lemma Ends(doc: M.Doc, w: A.Walk)
    requires Reached(doc, w) && w.st.expecting == 4 && w.st.depth == 0
    ensures L.Accepted(doc) && A.Members(doc) == w.members
  {
    A.WalkIsScan(doc);
  }

  // ---------------------------------------------------------------------------------------
  // {"a": and what may follow

  /** `{"a":` */
  const OPENING: seq<byte> := [OPEN_OBJECT, QUOTE, 97, QUOTE, COLON]

  /** At a value of the root, its key being the first. */
  const AT_VALUE: A.Walk := A.Walk(N.NestState(1, [1, 0, 0, 0], 0, false, false, 1, true, false, false), [], 2, 3, 0)

  lemma OpeningReached()
    ensures Reached(OPENING, AT_VALUE)
  {
    hide Reached;
    var stack: N.Stack := [1, 0, 0, 0];
    var w1 := A.Walk(N.NestState(1, stack, 1, false, false, 1, true, false, false), [], 0, 0, 0);
    var w2 := A.Walk(N.NestState(1, stack, 1, true, false, 1, true, false, false), [], 2, 0, 0);
    var w3 := A.Walk(N.NestState(1, stack, 2, false, false, 1, true, false, false), [], 2, 3, 0);
    Begins();
    Next([], OPEN_OBJECT, A.START, w1);
    Next([] + [OPEN_OBJECT], QUOTE, w1, w2);
    Next([] + [OPEN_OBJECT] + [QUOTE], 97, w2, w2);
    Next([] + [OPEN_OBJECT] + [QUOTE] + [97], QUOTE, w2, w3);
    Next([] + [OPEN_OBJECT] + [QUOTE] + [97] + [QUOTE], COLON, w3, AT_VALUE);
    assert [] + [OPEN_OBJECT] + [QUOTE] + [97] + [QUOTE] + [COLON] == OPENING;
  }

  lemma OpeningIsKeyed(doc: seq<byte>)
    requires OPENING <= doc
    ensures A.KeyedRoot(doc)
  {
    assert doc[0] == OPEN_OBJECT && doc[1] == QUOTE;
    assert A.FirstToken(doc, 0) == 0 && A.FirstToken(doc, 1) == 1;
  }

  /** `{"a":"` tab `"}` */
  const RAW_TAB: seq<byte> := [OPEN_OBJECT, QUOTE, 97, QUOTE, COLON, QUOTE, TAB, QUOTE, CLOSE_OBJECT]

  lemma RawTabReached()
    ensures L.Accepted(RAW_TAB) && A.Members(RAW_TAB) == [A.Span(2, 3, 5, 8)]
  {
    hide Reached, L.Accepted, A.Members;
    var stack: N.Stack := [1, 0, 0, 0];
    var w1 := A.Walk(N.NestState(1, stack, 0, true, false, 1, true, false, false), [], 2, 3, 5);
    var w2 := A.Walk(N.NestState(1, stack, 3, false, false, 1, true, false, false), [], 2, 3, 5);
    var w3 := A.Walk(N.NestState(0, stack, 4, false, false, 1, true, false, false), [A.Span(2, 3, 5, 8)], 2, 3, 5);
    OpeningReached();
    Next(OPENING, QUOTE, AT_VALUE, w1);
    Next(OPENING + [QUOTE], TAB, w1, w1);
    Next(OPENING + [QUOTE] + [TAB], QUOTE, w1, w2);
    Next(OPENING + [QUOTE] + [TAB] + [QUOTE], CLOSE_OBJECT, w2, w3);
    assert OPENING + [QUOTE] + [TAB] + [QUOTE] + [CLOSE_OBJECT] == RAW_TAB;
    Ends(RAW_TAB, w3);
  }

  /** One member that does not read is the answer. */
  lemma OnlyFault(doc: M.Doc, ms: seq<A.Span>, r: R.Outcome, e: R.IngestError)
    requires |ms| == 1 && A.Inside(ms[0], doc) && V.Collected(doc, ms, 1, r)
        && V.MemberPair(doc, ms[0], 0) == Failure(e)
    ensures r == Failure(e)
  {
    hide V.MemberPair, A.Inside;
    if r.Failure? {
      var i :| 0 <= i < 1 && V.FirstFault(doc, ms, i, r.error);
    }
  }

  /** A raw tab in a string passes the scanner and fails extraction. */
  lemma RawTabIsRefusedLate()
    ensures L.Accepted(RAW_TAB) && A.KeyedRoot(RAW_TAB)
    ensures R.Ingest(RAW_TAB) == Failure(R.PairMalformed(0))
  {
    hide L.Accepted, A.KeyedRoot, A.Members, R.Ingest;
    RawTabReached();
    assert OPENING <= RAW_TAB;
    OpeningIsKeyed(RAW_TAB);
    var text := RAW_TAB[5..8];
    assert text == [QUOTE, TAB, QUOTE] && text[1..] == [TAB, QUOTE] && text[1..][1..] == [QUOTE];
    assert V.Unquote(text[1..]).tab;
    V.KeyedVerdict(RAW_TAB);
    OnlyFault(RAW_TAB, A.Members(RAW_TAB), R.Ingest(RAW_TAB), R.PairMalformed(0));
  }

  /** `{"a":1 }` */
  const SPACED: seq<byte> := [OPEN_OBJECT, QUOTE, 97, QUOTE, COLON, 49, SPACE, CLOSE_OBJECT]

  lemma SpacedReached()
    ensures L.Accepted(SPACED) && A.Members(SPACED) == [A.Span(2, 3, 5, 7)]
  {
    hide Reached, L.Accepted, A.Members;
    var stack: N.Stack := [1, 0, 0, 0];
    var w1 := A.Walk(N.NestState(1, stack, 3, false, false, 1, true, true, false), [], 2, 3, 5);
    var w2 := A.Walk(N.NestState(0, stack, 4, false, false, 1, true, false, false), [A.Span(2, 3, 5, 7)], 2, 3, 5);
    OpeningReached();
    Next(OPENING, 49, AT_VALUE, w1);
    Next(OPENING + [49], SPACE, w1, w1);
    Next(OPENING + [49] + [SPACE], CLOSE_OBJECT, w1, w2);
    assert OPENING + [49] + [SPACE] + [CLOSE_OBJECT] == SPACED;
    Ends(SPACED, w2);
  }

  /** A space after an integer passes the scanner and fails extraction. */
  lemma SpaceAfterIntegerIsRefusedLate()
    ensures L.Accepted(SPACED) && A.KeyedRoot(SPACED)
    ensures R.Ingest(SPACED) == Failure(R.PairMalformed(0))
  {
    hide L.Accepted, A.KeyedRoot, A.Members, R.Ingest;
    SpacedReached();
    assert OPENING <= SPACED;
    OpeningIsKeyed(SPACED);
    var text := SPACED[5..7];
    assert text == [49, SPACE];
    assert V.DigitsOf(text) == text && !IsDigit(text[1]);
    V.KeyedVerdict(SPACED);
    OnlyFault(SPACED, A.Members(SPACED), R.Ingest(SPACED), R.PairMalformed(0));
  }

  /** An open brace, a newline, and `"a":[1.5]}` */
  const BROKEN_LINE: seq<byte> := [123, 10, 34, 97, 34, 58, 91, 49, 46, 53, 93, 125]

  lemma BrokenLineReached()
    ensures L.Accepted(BROKEN_LINE) && A.Members(BROKEN_LINE) == [A.Span(3, 4, 6, 11)]
  {
    hide Reached, L.Accepted, A.Members;
    var one: N.Stack := [1, 0, 0, 0];
    var w1 := A.Walk(N.NestState(1, one, 1, false, false, 1, true, false, false), [], 0, 0, 0);
    var w2 := A.Walk(N.NestState(1, one, 1, true, false, 1, true, false, false), [], 3, 0, 0);
    var w3 := A.Walk(N.NestState(1, one, 2, false, false, 1, true, false, false), [], 3, 4, 0);
    var w4 := A.Walk(N.NestState(1, one, 0, false, false, 1, true, false, false), [], 3, 4, 0);
    Begins();
    Next([], 123, A.START, w1);
    Next([] + [123], 10, w1, w1);
    Next([] + [123] + [10], 34, w1, w2);
    var brace: M.Doc := [123, 10, 34];
    assert [] + [123] + [10] + [34] == brace;
    Next(brace, 97, w2, w2);
    Next(brace + [97], 34, w2, w3);
    Next(brace + [97] + [34], 58, w3, w4);
    var opening: M.Doc := [123, 10, 34, 97, 34, 58];
    assert brace + [97] + [34] + [58] == opening;
    BrokenLineRest(opening, w4);
  }

  lemma BrokenLineRest(opening: M.Doc, w4: A.Walk)
    requires opening == [123, 10, 34, 97, 34, 58] && Reached(opening, w4)
    requires w4 == A.Walk(N.NestState(1, [1, 0, 0, 0], 0, false, false, 1, true, false, false), [], 3, 4, 0)
    ensures L.Accepted(BROKEN_LINE) && A.Members(BROKEN_LINE) == [A.Span(3, 4, 6, 11)]
  {
    hide Reached, L.Accepted, A.Members;
    var two: N.Stack := [1, 2, 0, 0];
    var w5 := A.Walk(N.NestState(2, two, 1, false, false, 2, true, false, false), [], 3, 4, 6);
    var w6 := A.Walk(N.NestState(2, two, 3, false, false, 2, true, true, false), [], 3, 4, 6);
    var w7 := A.Walk(N.NestState(1, two, 3, false, false, 2, true, false, false), [], 3, 4, 6);
    var w8 := A.Walk(N.NestState(0, two, 4, false, false, 2, true, false, false), [A.Span(3, 4, 6, 11)], 3, 4, 6);
    Next(opening, 91, w4, w5);
    Next(opening + [91], 49, w5, w6);
    Next(opening + [91] + [49], 46, w6, w6);
    Next(opening + [91] + [49] + [46], 53, w6, w6);
    Next(opening + [91] + [49] + [46] + [53], 93, w6, w7);
    Next(opening + [91] + [49] + [46] + [53] + [93], 125, w7, w8);
    assert opening + [91] + [49] + [46] + [53] + [93] + [125] == BROKEN_LINE;
    Ends(BROKEN_LINE, w8);
  }

  lemma BrokenLineIsKeyed()
    ensures A.KeyedRoot(BROKEN_LINE)
  {
    assert A.FirstToken(BROKEN_LINE, 0) == 0;
    assert A.FirstToken(BROKEN_LINE, 1) == A.FirstToken(BROKEN_LINE, 2) == 2;
  }

  /** A newline behind the brace and a decimal point in an array element change nothing. */
  lemma BrokenLineReads(doc: seq<byte>)
    requires doc == [123, 10, 34, 97, 34, 58, 91, 49, 46, 53, 93, 125]
    ensures L.Accepted(doc)
    ensures R.Ingest(doc) == Success([R.ManifestPair([97], (3, 1), R.Nested(6, 5), (6, 5))])
  {
    hide L.Accepted, A.KeyedRoot, A.Members, R.Ingest, V.MemberPair, V.Collected;
    assert doc == BROKEN_LINE;
    BrokenLineReached();
    BrokenLineIsKeyed();
    V.KeyedVerdict(BROKEN_LINE);
    BrokenLinePair();
    OnlyPair(BROKEN_LINE, A.Members(BROKEN_LINE), R.Ingest(BROKEN_LINE));
  }

  lemma BrokenLinePair()
    ensures A.Inside(A.Span(3, 4, 6, 11), BROKEN_LINE)
    ensures V.MemberPair(BROKEN_LINE, A.Span(3, 4, 6, 11), 0)
            == Success(R.ManifestPair([97], (3, 1), R.Nested(6, 5), (6, 5)))
  {
    hide V.BareInteger, V.IntegerOf, V.Unquote;
    assert BROKEN_LINE[6..11][0] == 91 && BROKEN_LINE[3..4] == [97];
  }

  lemma OnlyPair(doc: M.Doc, ms: seq<A.Span>, r: R.Outcome)
    requires |ms| == 1 && A.Inside(ms[0], doc) && V.Collected(doc, ms, 1, r) && V.MemberPair(doc, ms[0], 0).Success?
    ensures r == Success([V.MemberPair(doc, ms[0], 0).value])
  {
    hide V.MemberPair, A.Inside;
    V.CollectedOnce(doc, ms, 1, r);
    assert r.value == [r.value[0]];
  }

  // ---------------------------------------------------------------------------------------
  // A root without keys

  /** `{{}}` */
  const UNKEYED: seq<byte> := [OPEN_OBJECT, OPEN_OBJECT, CLOSE_OBJECT, CLOSE_OBJECT]

  /** An object that begins with a container is accepted, has nothing counted, and gives no pair. */
  lemma UnkeyedIsAccepted()
    ensures L.Accepted(UNKEYED) && !A.KeyedRoot(UNKEYED)
    ensures R.Ingest(UNKEYED) == Success([])
  {
    hide L.Accepted, R.Ingest, A.Members, M.CountTo, A.KeyedRoot;
    UnkeyedReached();
    UnkeyedRoot();
    NothingCounted();
    V.UnkeyedVerdict(UNKEYED);
  }

  lemma UnkeyedRoot()
    ensures !A.KeyedRoot(UNKEYED)
  {
    assert A.FirstToken(UNKEYED, 0) == 0 && A.FirstToken(UNKEYED, 1) == 1;
  }

  lemma UnkeyedReached()
    ensures L.Accepted(UNKEYED)
  {
    hide Reached, L.Accepted, A.Members;
    var one: N.Stack := [1, 0, 0, 0];
    var two: N.Stack := [1, 1, 0, 0];
    var w1 := A.Walk(N.NestState(1, one, 1, false, false, 1, true, false, false), [], 0, 0, 0);
    var w2 := A.Walk(N.NestState(2, two, 1, false, false, 2, true, false, false), [], 0, 0, 0);
    var w3 := A.Walk(N.NestState(1, two, 3, false, false, 2, true, false, false), [], 0, 0, 0);
    var last := A.WalkStep(w3, CLOSE_OBJECT, 3);
    Begins();
    Next([], OPEN_OBJECT, A.START, w1);
    Next([] + [OPEN_OBJECT], OPEN_OBJECT, w1, w2);
    Next([] + [OPEN_OBJECT] + [OPEN_OBJECT], CLOSE_OBJECT, w2, w3);
    Next([] + [OPEN_OBJECT] + [OPEN_OBJECT] + [CLOSE_OBJECT], CLOSE_OBJECT, w3, last);
    assert [] + [OPEN_OBJECT] + [OPEN_OBJECT] + [CLOSE_OBJECT] + [CLOSE_OBJECT] == UNKEYED;
    Ends(UNKEYED, last);
  }

  lemma CountMore(s: seq<byte>, b: byte)
    ensures M.CountTo(s + [b]) == M.CountStep(M.CountTo(s), b, true)
  {
    assert (s + [b])[..|s|] == s;
  }

  lemma NothingCounted()
    ensures M.CountTo(UNKEYED).count == 0
  {
    var s1 := [OPEN_OBJECT];
    var s2 := s1 + [OPEN_OBJECT];
    var s3 := s2 + [CLOSE_OBJECT];
    CountMore([], OPEN_OBJECT);
    assert [] + [OPEN_OBJECT] == s1;
    CountMore(s1, OPEN_OBJECT);
    CountMore(s2, CLOSE_OBJECT);
    CountMore(s3, CLOSE_OBJECT);
    assert s3 + [CLOSE_OBJECT] == UNKEYED;
  }

  // ---------------------------------------------------------------------------------------
  // More than 64 pairs

  /** The member `"a":1`, `n` times. */
  function Copies(n: nat): (ms: seq<T.Member>)
    ensures |ms| == n && forall i :: 0 <= i < n ==> ms[i] == T.Member([97], T.Int(1))
  {
    seq(n, _ => T.Member([97], T.Int(1)))
  }

  lemma MemberLength()
    ensures |T.Quoted([97]) + [COLON] + T.Print(T.Int(1))| == 5
  {
    hide T.Quoted, T.Print;
    OneLetter();
    OneDigit();
  }

  lemma OneLetter()
    ensures |T.Quoted([97])| == 3
  {
    assert [97][..0] == [];
    assert T.Escaped([97]) == T.Escaped([]) + T.EscapeByte(97);
  }

  lemma OneDigit()
    ensures |T.Print(T.Int(1))| == 1
  {}

  lemma {:induction false} CopiesLength(ms: seq<T.Member>, first: bool)
    requires forall i :: 0 <= i < |ms| ==> ms[i] == T.Member([97], T.Int(1))
    ensures |T.PrintMembers(ms, first)| <= 6 * |ms|
    decreases |ms|
  {
    hide T.Quoted, T.Print;
    if ms != [] {
      MemberLength();
      CopiesLength(ms[1..], false);
    }
  }

  /** Sixty-five members fit a document of 512 bytes that the scanner takes; the count refuses them. */
  lemma SixtyFivePairsAreRefused()
    ensures P.Ingestible(Copies(65))
    ensures R.Ingest(T.Print(T.Obj(Copies(65)))) == Failure(R.CountOutOfRange(65))
  {
    hide T.PrintMembers, R.Ingest, P.PairsFor, P.Spans;
    CopiesLength(Copies(65), true);
    CopiesFit(Copies(65));
    P.IngestsPrinted(Copies(65));
  }

  lemma CopiesFit(ms: seq<T.Member>)
    requires |ms| <= 65 && forall i :: 0 <= i < |ms| ==> ms[i] == T.Member([97], T.Int(1))
    requires |T.PrintMembers(ms, true)| <= 6 * |ms|
    ensures P.Ingestible(ms)
  {
    hide T.PrintMembers;
    P.RootText(ms);
    LeafFits();
    assert T.Printable(T.Obj(ms));
    assert T.DepthAtMost(T.Obj(ms), 4);
    assert T.Plain(T.Obj(ms));
  }

  lemma LeafFits()
    ensures T.Legible([97]) && T.Printable(T.Int(1)) && T.DepthAtMost(T.Int(1), 3) && T.Plain(T.Int(1))
  {}
}
