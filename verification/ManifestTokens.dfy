/** Manifests as tokens, with every byte of the format written as its number. */
module ManifestTokens {
  import opened Machine
  import opened Numerals
  import opened ManifestTree
  import opened ManifestSpacing
  import N = Nest
  import L = NestLanguage
  import M = Manifest
  import A = ManifestAgreement
  import R = ManifestReader
  import P = ManifestRoundTrip

  /** Brackets, colons and commas; quoted text by its content; numbers and words by their bytes. */
  datatype Token = Mark(b: byte) | Text(content: seq<byte>) | Bare(text: seq<byte>)

  function EscapedByte(b: byte): seq<byte> {
    if b == 34 || b == 92 then [92, b] else if b == 10 then [92, 110] else if b == 9 then [92, 116] else [b]
  }

  function EscapedText(s: seq<byte>): seq<byte> {
    if s == [] then [] else EscapedText(s[..|s| - 1]) + EscapedByte(s[|s| - 1])
  }

  function Spelt(token: Token): seq<byte> {
    match token
    case Mark(b) => [b]
    case Text(content) => [34] + EscapedText(content) + [34]
    case Bare(text) => text
  }

  function Flat(ts: seq<Token>): seq<byte> {
    if ts == [] then [] else Flat(ts[..|ts| - 1]) + Spelt(ts[|ts| - 1])
  }

  function TokensOf(t: Tree): seq<Token>
    decreases t, 1
  {
    match t
    case Str(content) => [Text(content)]
    case Int(value) => [Bare(Decimal(value))]
    case Bool(flag) => [Bare(if flag then [116, 114, 117, 101] else [102, 97, 108, 115, 101])]
    case Obj(members) => [Mark(123)] + MemberTokens(members, true) + [Mark(125)]
    case Arr(items) => [Mark(91)] + ItemTokens(items, true) + [Mark(93)]
  }

  function Comma(first: bool): seq<Token> { if first then [] else [Mark(44)] }

  function MemberTokens(ms: seq<Member>, first: bool): seq<Token>
    decreases ms, 0
  {
    if ms == [] then []
    else Comma(first) + ([Text(ms[0].key)] + [Mark(58)] + TokensOf(ms[0].value)) + MemberTokens(ms[1..], false)
  }

  function ItemTokens(ts: seq<Tree>, first: bool): seq<Token>
    decreases ts, 0
  {
    if ts == [] then [] else Comma(first) + TokensOf(ts[0]) + ItemTokens(ts[1..], false)
  }

  // ---------------------------------------------------------------------------------------
  // The tokens of a tree spell its compact text

  lemma {:induction false} FlatThen(a: seq<Token>, b: seq<Token>)
    ensures Flat(a + b) == Flat(a) + Flat(b)
    decreases |b|
  {
    hide Spelt;
    if b == [] {
      assert a + b == a;
    } else {
      assert (a + b)[..|a + b| - 1] == a + b[..|b| - 1];
      FlatThen(a, b[..|b| - 1]);
    }
  }

  lemma FlatOne(token: Token)
    ensures Flat([token]) == Spelt(token)
  {
    assert [token][..0] == [];
  }

  lemma {:induction false} EscapesAgree(s: seq<byte>)
    ensures EscapedText(s) == Escaped(s)
  {
    if s != [] {
      EscapesAgree(s[..|s| - 1]);
    }
  }

  lemma TextAgrees(s: seq<byte>)
    ensures Flat([Text(s)]) == Quoted(s)
  {
    FlatOne(Text(s));
    EscapesAgree(s);
  }

  lemma BracketsAgree(open: byte, content: seq<Token>, close: byte)
    ensures Flat([Mark(open)] + content + [Mark(close)]) == [open] + Flat(content) + [close]
  {
    hide Flat;
    FlatOne(Mark(open));
    FlatOne(Mark(close));
    FlatThen([Mark(open)], content);
    FlatThen([Mark(open)] + content, [Mark(close)]);
  }

  lemma CommaAgrees(first: bool)
    ensures Flat(Comma(first)) == Separator(first)
  {
    if !first {
      FlatOne(Mark(44));
    }
  }

  lemma {:induction false} FlatTokens(t: Tree)
    ensures Flat(TokensOf(t)) == Print(t)
    decreases t, 1
  {
    hide Flat, Quoted;
    match t
    case Str(content) => TextAgrees(content);
    case Int(value) => FlatOne(Bare(Decimal(value)));
    case Bool(flag) => FlatOne(Bare(Word(flag)));
    case Obj(members) =>
      FlatMembers(members, true);
      BracketsAgree(123, MemberTokens(members, true), 125);
    case Arr(items) =>
      FlatItems(items, true);
      BracketsAgree(91, ItemTokens(items, true), 93);
  }

  lemma {:induction false} FlatMembers(ms: seq<Member>, first: bool)
    ensures Flat(MemberTokens(ms, first)) == PrintMembers(ms, first)
    decreases ms, 0
  {
    if ms != [] {
      hide Flat, Quoted, TokensOf, Print, Comma, Separator;
      var key, value := [Text(ms[0].key)], TokensOf(ms[0].value);
      FlatTokens(ms[0].value);
      FlatMembers(ms[1..], false);
      CommaAgrees(first);
      TextAgrees(ms[0].key);
      FlatOne(Mark(58));
      FlatThen(key, [Mark(58)]);
      FlatThen(key + [Mark(58)], value);
      FlatThen(Comma(first), key + [Mark(58)] + value);
      FlatThen(Comma(first) + (key + [Mark(58)] + value), MemberTokens(ms[1..], false));
    } else {
      assert Flat([]) == [];
    }
  }

  lemma {:induction false} FlatItems(ts: seq<Tree>, first: bool)
    ensures Flat(ItemTokens(ts, first)) == PrintItems(ts, first)
    decreases ts, 0
  {
    if ts != [] {
      hide Flat, Quoted, TokensOf, Print, Comma, Separator;
      FlatTokens(ts[0]);
      FlatItems(ts[1..], false);
      CommaAgrees(first);
      FlatThen(Comma(first), TokensOf(ts[0]));
      FlatThen(Comma(first) + TokensOf(ts[0]), ItemTokens(ts[1..], false));
    } else {
      assert Flat([]) == [];
    }
  }

  // ---------------------------------------------------------------------------------------
  // The scanner between tokens

  predicate LiteralByte(b: byte) {
    48 <= b <= 57 || 65 <= b <= 90 || 97 <= b <= 122 || b == 43 || b == 45 || b == 46 || b == 95
  }

  /** A number or word as far as the scanner is concerned. */
  predicate LiteralText(s: seq<byte>) {
    && s != [] && (s[0] == 116 || s[0] == 102 || s[0] == 45 || 48 <= s[0] <= 57)
    && forall i :: 0 <= i < |s| ==> LiteralByte(s[i])
  }

  predicate Proper(token: Token) {
    match token
    case Mark(b) => b == 123 || b == 125 || b == 91 || b == 93 || b == 58 || b == 44
    case Text(content) => Legible(content)
    case Bare(text) => LiteralText(text)
  }

  lemma {:induction false} TreeProper(t: Tree)
    requires Printable(t)
    ensures forall i :: 0 <= i < |TokensOf(t)| ==> Proper(TokensOf(t)[i])
    decreases t, 1
  {
    hide Proper;
    match t
    case Str(content) => ProperOnes(Text(content), 123, 125);
    case Int(value) =>
      DecimalIsLiteral(value);
      ProperOnes(Bare(Decimal(value)), 123, 125);
    case Bool(flag) => ProperOnes(Bare(Word(flag)), 123, 125);
    case Obj(members) =>
      MembersProper(members, true);
      ProperOnes(Mark(123), 123, 125);
    case Arr(items) =>
      ItemsProper(items, true);
      ProperOnes(Mark(91), 91, 93);
  }

  lemma ProperOnes(token: Token, open: byte, close: byte)
    requires open == 123 || open == 91 || open == 58 || open == 44
    requires close == 125 || close == 93 || close == 58 || close == 44
    ensures Proper(Mark(open)) && Proper(Mark(close))
    ensures (token.Text? && Legible(token.content)) || (token.Bare? && LiteralText(token.text)) ==> Proper(token)
  {}

  lemma DecimalIsLiteral(v: int)
    ensures LiteralText(Decimal(v))
  {
    DecimalShape(v);
  }

  lemma {:induction false} MembersProper(ms: seq<Member>, first: bool)
    requires forall i :: 0 <= i < |ms| ==> Legible(ms[i].key) && Printable(ms[i].value)
    ensures forall i :: 0 <= i < |MemberTokens(ms, first)| ==> Proper(MemberTokens(ms, first)[i])
    decreases ms, 0
  {
    if ms != [] {
      hide Proper, Legible, Printable, TokensOf;
      TreeProper(ms[0].value);
      MembersProper(ms[1..], false);
      ProperOnes(Text(ms[0].key), 58, 44);
    }
  }

  lemma {:induction false} ItemsProper(ts: seq<Tree>, first: bool)
    requires forall i :: 0 <= i < |ts| ==> Printable(ts[i])
    ensures forall i :: 0 <= i < |ItemTokens(ts, first)| ==> Proper(ItemTokens(ts, first)[i])
    decreases ts, 0
  {
    if ts != [] {
      hide Proper, Printable, TokensOf;
      TreeProper(ts[0]);
      ItemsProper(ts[1..], false);
      ProperOnes(Mark(44), 58, 44);
    }
  }

  /** Opening brackets less closing brackets. */
  function Level(ts: seq<Token>): int {
    if ts == [] then 0 else Level(ts[..|ts| - 1]) + Lift(ts[|ts| - 1])
  }

  function Lift(token: Token): int {
    if token == Mark(123) || token == Mark(91) then 1
    else if token == Mark(125) || token == Mark(93) then -1
    else 0
  }

  /** One whole token leads from outside strings to outside strings; the scanner is in a literal exactly
      behind a number or word. */
  lemma TokenScans(st: N.NestState, token: Token)
    requires L.WellFormed(st) && !st.inString && Proper(token) && Clean(st, Spelt(token))
    ensures var st' := After(st, Spelt(token));
            && !st'.inString && (st'.inLiteral <==> token.Bare?) && st'.depth == st.depth + Lift(token)
  {
    hide Clean, After, L.WellFormed;
    match token
    case Mark(b) => MarkScans(st, b);
    case Text(content) => TextScans(st, content);
    case Bare(text) => BareScans(st, text);
  }

  lemma MarkScans(st: N.NestState, b: byte)
    requires L.WellFormed(st) && !st.inString && Proper(Mark(b)) && Clean(st, [b])
    ensures var st' := After(st, [b]);
            !st'.inString && !st'.inLiteral && st'.depth == st.depth + Lift(Mark(b))
  {
    hide Clean, After;
    ScanByte(st, b);
  }

  lemma TextScans(st: N.NestState, content: seq<byte>)
    requires L.WellFormed(st) && !st.inString && Legible(content) && Clean(st, Spelt(Text(content)))
    ensures var st' := After(st, Spelt(Text(content)));
            !st'.inString && !st'.inLiteral && st'.depth == st.depth
  {
    hide Clean, After, L.WellFormed, Legible;
    EscapesAgree(content);
    ScanByte(st, 34);
    Then(st, [34], Escaped(content) + [34]);
    assert Quoted(content) == [34] + (Escaped(content) + [34]);
    ScanQuoted(st, content);
  }

  lemma BareScans(st: N.NestState, text: seq<byte>)
    requires L.WellFormed(st) && !st.inString && LiteralText(text) && Clean(st, text)
    ensures var st' := After(st, text);
            !st'.inString && st'.inLiteral && st'.depth == st.depth
  {
    hide Clean, After, L.WellFormed, LiteralByte;
    AsLiteral(text);
    var begun := N.StepByte(st, text[0]).state;
    assert text == [text[0]] + text[1..];
    ScanByte(st, text[0]);
    Then(st, [text[0]], text[1..]);
    ScanLiteralRest(begun, text[1..]);
  }

  lemma AsLiteral(text: seq<byte>)
    requires LiteralText(text)
    ensures forall i :: 0 <= i < |text| ==> N.IsLiteralChar(text[i])
  {}

  lemma {:induction false} BetweenTokens(ts: seq<Token>, k: nat)
    requires k <= |ts| && Clean(N.SEED, Flat(ts)) && forall i :: 0 <= i < |ts| ==> Proper(ts[i])
    ensures Clean(N.SEED, Flat(ts[..k]))
    ensures var st := After(N.SEED, Flat(ts[..k]));
            && !st.inString && st.depth == Level(ts[..k])
            && (st.inLiteral <==> k > 0 && ts[k - 1].Bare?)
  {
    hide Clean, After, Proper, Spelt, Lift, L.WellFormed;
    assert ts[..k] + ts[k..] == ts;
    FlatThen(ts[..k], ts[k..]);
    Then(N.SEED, Flat(ts[..k]), Flat(ts[k..]));
    if k > 0 {
      var front := ts[..k - 1];
      assert ts[..k][..k - 1] == front;
      BetweenTokens(ts, k - 1);
      Then(N.SEED, Flat(front), Spelt(ts[k - 1]));
      CleanIsWellFormed(Flat(front));
      TokenScans(After(N.SEED, Flat(front)), ts[k - 1]);
    } else {
      NothingScanned();
    }
  }

  lemma CleanIsWellFormed(s: seq<byte>)
    requires Clean(N.SEED, s)
    ensures L.WellFormed(After(N.SEED, s))
  {
    L.ScanWellFormed(s);
  }

  lemma NothingScanned()
    ensures Clean(N.SEED, []) && After(N.SEED, []) == N.SEED
  {}

  // ---------------------------------------------------------------------------------------
  // White space between tokens

  /** The first `k` tokens, each with its gap before it. */
  function Laid(ts: seq<Token>, gaps: seq<seq<byte>>, k: nat): seq<byte>
    requires k <= |ts| < |gaps|
  {
    if k == 0 then [] else Laid(ts, gaps, k - 1) + gaps[k - 1] + Spelt(ts[k - 1])
  }

  /** A gap before every token and one behind the last. */
  function Spaced(ts: seq<Token>, gaps: seq<seq<byte>>): seq<byte>
    requires |gaps| == |ts| + 1
  {
    Laid(ts, gaps, |ts|) + gaps[|ts|]
  }

  predicate AllWhite(gaps: seq<seq<byte>>) { forall k :: 0 <= k < |gaps| ==> White(gaps[k]) }

  /** The tokens before position `k` end in a number or word that is a value of the root. */
  predicate BehindRootScalar(ts: seq<Token>, k: nat)
    requires k <= |ts|
  {
    k > 0 && ts[k - 1].Bare? && Level(ts[..k]) == 1
  }

  /** None of the first `n` gaps separates a number or word of the root from what follows it. */
  predicate Harmless(ts: seq<Token>, gaps: seq<seq<byte>>, n: nat)
    requires n <= |ts| + 1 == |gaps|
  {
    forall k :: 0 <= k < n && gaps[k] != [] ==> !BehindRootScalar(ts, k)
  }

  predicate Readable(ts: seq<Token>) {
    && (forall i :: 0 <= i < |ts| ==> Proper(ts[i]))
    && |Flat(ts)| <= 512 && L.Accepted(Flat(ts)) && A.KeyedRoot(Flat(ts))
  }

  /** The first `k` tokens spaced out, the others compact. */
  function HalfLaid(ts: seq<Token>, gaps: seq<seq<byte>>, k: nat): seq<byte>
    requires k <= |ts| < |gaps|
  {
    Laid(ts, gaps, k) + Flat(ts[k..])
  }

  lemma FlatRest(ts: seq<Token>, k: nat)
    requires k < |ts|
    ensures Flat(ts[k..]) == Spelt(ts[k]) + Flat(ts[k + 1..])
  {
    hide Flat, Spelt;
    assert ts[k..] == [ts[k]] + ts[k + 1..];
    FlatThen([ts[k]], ts[k + 1..]);
    FlatOne(ts[k]);
  }

  lemma OneMoreGap(ts: seq<Token>, gaps: seq<seq<byte>>, k: nat)
    requires k < |ts| < |gaps|
    ensures |Laid(ts, gaps, k)| <= |HalfLaid(ts, gaps, k)|
    ensures HalfLaid(ts, gaps, k + 1) == Spread(HalfLaid(ts, gaps, k), |Laid(ts, gaps, k)|, gaps[k])
    ensures HalfLaid(ts, gaps, k)[..|Laid(ts, gaps, k)|] == Laid(ts, gaps, k)
  {
    hide Flat, Spelt;
    FlatRest(ts, k);
    var before := Laid(ts, gaps, k);
    assert Laid(ts, gaps, k + 1) == before + gaps[k] + Spelt(ts[k]);
  }

  lemma LastGap(ts: seq<Token>, gaps: seq<seq<byte>>)
    requires |gaps| == |ts| + 1
    ensures HalfLaid(ts, gaps, |ts|) == Laid(ts, gaps, |ts|)
    ensures Spaced(ts, gaps) == Spread(HalfLaid(ts, gaps, |ts|), |Laid(ts, gaps, |ts|)|, gaps[|ts|])
    ensures HalfLaid(ts, gaps, |ts|)[..|Laid(ts, gaps, |ts|)|] == Laid(ts, gaps, |ts|)
  {
    hide Laid;
    assert Flat(ts[|ts|..]) == [];
  }

  lemma NoGapYet(ts: seq<Token>, gaps: seq<seq<byte>>)
    requires |ts| < |gaps|
    ensures HalfLaid(ts, gaps, 0) == Flat(ts)
  {
    hide Flat;
    assert ts[0..] == ts;
  }

  /** Where the scanner stands behind the first `k` tokens, spaced out or not. */
  lemma {:induction false} LaidScans(ts: seq<Token>, gaps: seq<seq<byte>>, k: nat)
    requires Readable(ts) && |gaps| == |ts| + 1 && AllWhite(gaps) && k <= |ts|
    ensures Clean(N.SEED, Laid(ts, gaps, k))
    ensures After(N.SEED, Laid(ts, gaps, k)) == After(N.SEED, Flat(ts[..k]))
  {
    hide Clean, After, Spelt, White;
    AcceptedIsClean(ts);
    if k > 0 {
      LaidScans(ts, gaps, k - 1);
      BetweenTokens(ts, k - 1);
      BetweenTokens(ts, k);
      var st := After(N.SEED, Flat(ts[..k - 1]));
      assert ts[..k][..k - 1] == ts[..k - 1];
      GapAfter(st, gaps[k - 1]);
      Then(N.SEED, Laid(ts, gaps, k - 1), gaps[k - 1]);
      Then(N.SEED, Laid(ts, gaps, k - 1) + gaps[k - 1], Spelt(ts[k - 1]));
      Then(N.SEED, Flat(ts[..k - 1]), Spelt(ts[k - 1]));
    } else {
      NothingScanned();
      assert ts[..0] == [];
    }
  }

  lemma AcceptedIsClean(ts: seq<Token>)
    requires Readable(ts)
    ensures Clean(N.SEED, Flat(ts))
    ensures forall i :: 0 <= i < |ts| ==> Proper(ts[i])
  {}

  lemma GapAfter(st: N.NestState, gap: seq<byte>)
    requires White(gap) && !st.inString
    ensures Clean(st, gap) && After(st, gap) == st
  {
    GapScans(st, gap);
  }

  lemma LaidPlace(ts: seq<Token>, gaps: seq<seq<byte>>, k: nat)
    requires Readable(ts) && |gaps| == |ts| + 1 && AllWhite(gaps) && k <= |ts|
    ensures Outside(Laid(ts, gaps, k)) && (AtBareValue(Laid(ts, gaps, k)) <==> BehindRootScalar(ts, k))
  {
    hide Readable, AllWhite, Laid, Level, Flat, N.Scan;
    LaidScans(ts, gaps, k);
    AcceptedIsClean(ts);
    BetweenTokens(ts, k);
  }

  /** What is known of a document with some gaps put in. */
  predicate StillReads(doc: M.Doc, doc': M.Doc, harmless: bool) {
    && L.Accepted(doc') && A.KeyedRoot(doc')
    && if harmless then SameReading(R.Ingest(doc), R.Ingest(doc')) else R.Ingest(doc').Failure?
  }

  lemma GapStep(doc: M.Doc, doc1: M.Doc, n: nat, gap: seq<byte>, harmless: bool)
    requires StillReads(doc, doc1, harmless) && n <= |doc1| && |doc1| + |gap| <= 512
    requires White(gap) && Outside(doc1[..n])
    ensures StillReads(doc, Spread(doc1, n, gap), harmless && !(gap != [] && AtBareValue(doc1[..n])))
  {
    hide L.Accepted, A.KeyedRoot, R.Ingest, Outside, AtBareValue, White, Spread, PairAlike, A.WalkTo;
    if gap == [] {
      SpreadNothing(doc1, n);
    } else if AtBareValue(doc1[..n]) {
      GapSpoilsBareValue(doc1, n, gap);
    } else {
      GapChangesNothing(doc1, n, gap);
      if harmless {
        AlikeTwice(R.Ingest(doc), R.Ingest(doc1), R.Ingest(Spread(doc1, n, gap)));
      }
    }
  }

  lemma SpreadNothing(doc: seq<byte>, n: nat)
    requires n <= |doc|
    ensures Spread(doc, n, []) == doc
  {}

  lemma AlikeTwice(r: R.Outcome, r1: R.Outcome, r2: R.Outcome)
    requires SameReading(r, r1) && SameReading(r1, r2)
    ensures SameReading(r, r2)
  {}

  lemma ReadsItself(doc: M.Doc)
    requires L.Accepted(doc) && A.KeyedRoot(doc)
    ensures StillReads(doc, doc, true)
  {
    hide R.Ingest, L.Accepted, A.KeyedRoot;
  }

  lemma {:induction false} HalfLaidReads(ts: seq<Token>, gaps: seq<seq<byte>>, k: nat)
    requires Readable(ts) && |gaps| == |ts| + 1 && AllWhite(gaps) && k <= |ts| && |HalfLaid(ts, gaps, k)| <= 512
    ensures StillReads(Flat(ts), HalfLaid(ts, gaps, k), Harmless(ts, gaps, k))
  {
    hide StillReads, HalfLaid, L.Accepted, A.KeyedRoot, Flat, Laid, White, BehindRootScalar, Outside, AtBareValue,
        Proper;
    if k == 0 {
      NoGapYet(ts, gaps);
      ReadsItself(Flat(ts));
    } else {
      OneMoreGap(ts, gaps, k - 1);
      HalfLaidReads(ts, gaps, k - 1);
      LaidPlace(ts, gaps, k - 1);
      GapStep(Flat(ts), HalfLaid(ts, gaps, k - 1), |Laid(ts, gaps, k - 1)|, gaps[k - 1], Harmless(ts, gaps, k - 1));
    }
  }

  lemma SpacedTokens(ts: seq<Token>, gaps: seq<seq<byte>>)
    requires Readable(ts) && |gaps| == |ts| + 1 && AllWhite(gaps) && |Spaced(ts, gaps)| <= 512
    ensures StillReads(Flat(ts), Spaced(ts, gaps), Harmless(ts, gaps, |gaps|))
  {
    hide StillReads, HalfLaid, L.Accepted, A.KeyedRoot, Flat, Laid, White, BehindRootScalar, Outside, AtBareValue,
        Proper;
    LastGap(ts, gaps);
    HalfLaidReads(ts, gaps, |ts|);
    LaidPlace(ts, gaps, |ts|);
    GapStep(Flat(ts), HalfLaid(ts, gaps, |ts|), |Laid(ts, gaps, |ts|)|, gaps[|ts|], Harmless(ts, gaps, |ts|));
  }

  /** An ingestible object with a run of the bytes 9, 10, 13 and 32 before every token and behind the last:
      the answer is that of the compact text if no run follows a number or word that is a value of the root,
      and a failure otherwise. */
  lemma SpacedManifest(ms: seq<Member>, gaps: seq<seq<byte>>)
    requires P.Ingestible(ms) && AllWhite(gaps)
    requires |gaps| == |TokensOf(Obj(ms))| + 1 && |Spaced(TokensOf(Obj(ms)), gaps)| <= 512
    ensures L.Accepted(Spaced(TokensOf(Obj(ms)), gaps))
    ensures if Harmless(TokensOf(Obj(ms)), gaps, |gaps|)
            then SameReading(R.Ingest(Print(Obj(ms))), R.Ingest(Spaced(TokensOf(Obj(ms)), gaps)))
            else R.Ingest(Spaced(TokensOf(Obj(ms)), gaps)).Failure?
  {
    hide TokensOf, Print, Proper, L.Accepted, A.KeyedRoot, A.Members, P.Spans, R.Ingest, Harmless, SameReading, Flat,
        Spaced, Printable, DepthAtMost, Plain, AllWhite;
    TreeProper(Obj(ms));
    FlatTokens(Obj(ms));
    P.IngestibleAccepted(ms);
    SpacedTokens(TokensOf(Obj(ms)), gaps);
  }

  /** The pair is member `m`, offsets aside. */
  predicate Carries(pair: R.ManifestPair, m: Member) {
    && pair.key == m.key
    && match m.value
       case Str(content) => pair.value == R.Str(content)
       case Int(v) => pair.value == R.Int(v)
       case Bool(flag) => pair.value == R.Bool(flag)
       case _ => pair.value.Nested?
  }

  /** So at most 64 typed members within the bounds come back, in order, through any such white space. */
  lemma SpacedRoundTrip(ms: seq<Member>, gaps: seq<seq<byte>>)
    requires P.Ingestible(ms) && |ms| <= 64 && forall i :: 0 <= i < |ms| ==> P.WithinBounds(ms[i])
    requires |gaps| == |TokensOf(Obj(ms))| + 1 && |Spaced(TokensOf(Obj(ms)), gaps)| <= 512
    requires AllWhite(gaps) && Harmless(TokensOf(Obj(ms)), gaps, |gaps|)
    ensures var r := R.Ingest(Spaced(TokensOf(Obj(ms)), gaps));
            r.Success? && |r.value| == |ms| && forall i :: 0 <= i < |ms| ==> Carries(r.value[i], ms[i])
  {
    hide TokensOf, Print, Spaced, R.Ingest, P.Ingestible, P.WithinBounds, Harmless, AllWhite, P.Denotes, PairAlike,
        Carries;
    P.IngestibleFits(ms);
    SpacedManifest(ms, gaps);
    P.RoundTrip(ms);
    var r, r' := R.Ingest(Print(Obj(ms))), R.Ingest(Spaced(TokensOf(Obj(ms)), gaps));
    forall i | 0 <= i < |ms| ensures Carries(r'.value[i], ms[i]) {
      assert PairAlike(r.value[i], r'.value[i]);
      DenotesCarries(r.value[i], r'.value[i], ms[i], Print(Obj(ms)));
    }
  }

  lemma DenotesCarries(pair: R.ManifestPair, pair': R.ManifestPair, m: Member, doc: M.Doc)
    requires P.Denotes(pair, m, doc) && PairAlike(pair, pair')
    ensures Carries(pair', m)
  {
    hide Print, P.Slice;
  }

  // ---------------------------------------------------------------------------------------
  // Elements of arrays

  /** Directly inside an array, before an element. */
  predicate AtElement(a: seq<byte>) {
    !N.Scan(N.SEED, a).bad && var st := N.Scan(N.SEED, a).state;
    !st.inString && st.expecting <= 1 && N.InnermostIsArray(st)
  }

  /** The state behind any number or word. */
  function Begun(st: N.NestState): N.NestState {
    st.(expecting := 3, seenValue := true, inLiteral := true, afterComma := false)
  }

  lemma ElementScans(a: seq<byte>, e: seq<byte>)
    requires AtElement(a) && LiteralText(e)
    ensures Clean(N.SEED, a + e) && After(N.SEED, a + e) == Begun(After(N.SEED, a))
  {
    hide LiteralByte, N.Scan;
    var st := After(N.SEED, a);
    L.ScanWellFormed(a);
    AsLiteral(e);
    assert e == [e[0]] + e[1..];
    ScanByte(st, e[0]);
    Then(st, [e[0]], e[1..]);
    ScanLiteralRest(Begun(st), e[1..]);
    Then(N.SEED, a, e);
  }

  /** An array element that begins with t, f, a minus or a digit and goes on with letters, digits and the
      bytes 43, 45, 46 and 95 is scanned as one element: whatever follows, the document is accepted with
      it exactly when it is with the digit 1. */
  lemma OneElement(a: seq<byte>, e: seq<byte>, b: seq<byte>)
    requires AtElement(a) && LiteralText(e)
    ensures L.Accepted(a + e + b) <==> L.Accepted(a + [49] + b)
  {
    hide N.Scan, AtElement, Begun;
    ElementScans(a, e);
    ElementScans(a, [49]);
    L.ScanAppend(N.SEED, a + e, b);
    L.ScanAppend(N.SEED, a + [49], b);
  }

  /** Behind it the scanner takes exactly its further bytes, white space, a comma and the array's closer;
      the bytes and the white space leave it where it is. */
  lemma AfterElement(a: seq<byte>, e: seq<byte>, b: byte)
    requires AtElement(a) && LiteralText(e)
    ensures Clean(N.SEED, a + e + [b])
            <==> LiteralByte(b) || b == 9 || b == 10 || b == 13 || b == 32 || b == 44 || b == 93
    ensures LiteralByte(b) || b == 9 || b == 10 || b == 13 || b == 32 ==>
              After(N.SEED, a + e + [b]) == After(N.SEED, a + e)
  {
    hide N.Scan;
    ElementScans(a, e);
    L.ScanWellFormed(a);
    var st := After(N.SEED, a + e);
    ScanByte(st, b);
    Then(N.SEED, a + e, [b]);
  }

  /** Only a bracket or a quote may open a document, after white space: any other byte is refused on the spot. */
  lemma FirstByte(gap: seq<byte>, b: byte, rest: seq<byte>)
    requires White(gap) && |gap| + 1 + |rest| < U64_LIMIT
    requires b != 9 && b != 10 && b != 13 && b != 32 && b != 34 && b != 91 && b != 123
    ensures R.Ingest(gap + [b] + rest) == Failure(R.MalformedAt(|gap|))
  {
    hide N.Scan;
    GapScans(N.SEED, gap);
    RefusedAtOnce(b);
    L.ScanAppend(N.SEED, gap, [b]);
    L.ScanAppend(N.SEED, gap + [b], rest);
  }

  lemma RefusedAtOnce(b: byte)
    requires b != 9 && b != 10 && b != 13 && b != 32 && b != 34 && b != 91 && b != 123
    ensures N.Scan(N.SEED, [b]).bad && N.Scan(N.SEED, [b]).at == 0
  {
    assert [b][..0] == [];
  }
}
