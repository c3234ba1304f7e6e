/** What `ingest_manifest` can answer on documents nobody printed: every accepted document. */
module ManifestVerdicts {
  import opened Machine
  import opened Numerals
  import N = Nest
  import L = NestLanguage
  import M = Manifest
  import A = ManifestAgreement
  import R = ManifestReader

  // ---------------------------------------------------------------------------------------
  // Quoted text

  /** What a text means after its opening quote, up to the first quote that no backslash escapes: its
      content, whether a raw tab stands there, whether control bytes other than tab or escapes other
      than the four do, and whether that quote comes at all. */
  datatype Quoted = Quoted(content: seq<byte>, tab: bool, legal: bool, closed: bool)

  predicate IsEscape(b: byte) { b == QUOTE || b == BACKSLASH || b == 110 || b == 116 }

  function Unescaped(b: byte): byte { if b == 110 then NEWLINE else if b == 116 then TAB else b }

  function Unquote(t: seq<byte>): Quoted
    decreases |t|
  {
    if t == [] then Quoted([], false, true, false)
    else if t[0] == QUOTE then Quoted([], false, true, true)
    else if t[0] == BACKSLASH then
      if |t| == 1 then Quoted([], false, true, false)
      else
        var q := Unquote(t[2..]);
        Quoted([Unescaped(t[1])] + q.content, q.tab, q.legal && IsEscape(t[1]), q.closed)
    else
      var q := Unquote(t[1..]);
      Quoted([t[0]] + q.content, q.tab || t[0] == TAB, q.legal && !N.IsControl(t[0]), q.closed)
  }

  // The string machine reads quoted text

  /** The string machine from any state, front to back. */
  function StringRun(st: M.StrSt, t: seq<byte>): M.StrSt
    decreases |t|
  {
    if t == [] then st else StringRun(M.StringStep(st, t[0], !st.closed && !st.bad), t[1..])
  }

  lemma {:induction false} RunLast(st: M.StrSt, t: seq<byte>, b: byte)
    ensures var before := StringRun(st, t);
            StringRun(st, t + [b]) == M.StringStep(before, b, !before.closed && !before.bad)
    decreases |t|
  {
    hide M.StringStep;
    if t == [] {
      assert [] + [b] == [b] && [b][1..] == [];
    } else {
      assert (t + [b])[1..] == t[1..] + [b];
      RunLast(M.StringStep(st, t[0], !st.closed && !st.bad), t[1..], b);
    }
  }

  lemma {:induction false} StringToIsRun(t: seq<byte>)
    ensures M.StringTo(t) == StringRun(M.StringSeed(), t)
    decreases |t|
  {
    hide M.StringStep;
    if t != [] {
      StringToIsRun(t[..|t| - 1]);
      RunLast(M.StringSeed(), t[..|t| - 1], t[|t| - 1]);
      assert t[..|t| - 1] + [t[|t| - 1]] == t;
    }
  }

  /** Between two bytes of content. */
  predicate Reading(st: M.StrSt) { !st.esc && !st.bad && !st.closed && st.len <= 64 && (st.toolong ==> st.len == 64) }

  /** Where the machine must end, given what the text means. */
  predicate ReadsTo(st: M.StrSt, last: M.StrSt, q: Quoted) {
    && last.len <= 64
    && (last.bad <==> q.tab || !q.legal)
    && (!last.bad ==>
          && last.closed == q.closed
          && (last.toolong <==> st.toolong || st.len + |q.content| > 64)
          && (!last.toolong ==>
                last.len == st.len + |q.content| && last.buf[..last.len] == st.buf[..st.len] + q.content))
  }

  lemma {:induction false} StaysClosed(st: M.StrSt, t: seq<byte>)
    requires st.closed || st.bad
    ensures StringRun(st, t) == st
    decreases |t|
  {
    if t != [] {
      StaysClosed(st, t[1..]);
    }
  }

  lemma {:induction false} RunReads(st: M.StrSt, t: seq<byte>)
    requires Reading(st)
    ensures ReadsTo(st, StringRun(st, t), Unquote(t))
    decreases |t|
  {
    hide *;
    if t == [] || t[0] == QUOTE || t == [BACKSLASH] {
      RunEnds(st, t);
    } else {
      var n := if t[0] == BACKSLASH then 2 else 1;
      var b := if n == 2 then Unescaped(t[1]) else t[0];
      RunTakes(st, t, n, b);
      UnquoteTakes(t, n, b);
      if Takes(t) {
        RunReads(M.AppendByte(st, b), t[n..]);
        ReadsMore(st, M.AppendByte(st, b), StringRun(st, t), b, Unquote(t[n..]));
      } else {
        Refused(st, StringRun(st, t), Unquote(t));
      }
    }
  }

  lemma RunEnds(st: M.StrSt, t: seq<byte>)
    requires Reading(st) && (t == [] || t[0] == QUOTE || t == [BACKSLASH])
    ensures ReadsTo(st, StringRun(st, t), Unquote(t))
  {
    assert st.buf[..st.len] + [] == st.buf[..st.len];
    if t != [] && t[0] == QUOTE {
      StaysClosed(M.StringStep(st, QUOTE, true), t[1..]);
    } else if t != [] {
      assert t[1..] == [];
    }
  }

  /** The first byte, or pair, of the text is one the string machine takes. */
  predicate Takes(t: seq<byte>)
    requires t != []
  {
    if t[0] == BACKSLASH then |t| > 1 && IsEscape(t[1]) else t[0] >= 32
  }

  lemma RunTakes(st: M.StrSt, t: seq<byte>, n: nat, b: byte)
    requires Reading(st) && t != [] && t[0] != QUOTE && t != [BACKSLASH]
    requires n == (if t[0] == BACKSLASH then 2 else 1) && b == if n == 2 then Unescaped(t[1]) else t[0]
    ensures n <= |t|
    ensures if Takes(t) then StringRun(st, t) == StringRun(M.AppendByte(st, b), t[n..]) && Reading(M.AppendByte(st, b))
            else StringRun(st, t).bad && StringRun(st, t).len == st.len
  {
    var one := M.StringStep(st, t[0], true);
    if n == 2 {
      assert one == st.(esc := true);
      var two := M.StringStep(one, t[1], true);
      assert t[1..][1..] == t[2..] && t[1..][0] == t[1];
      assert StringRun(st, t) == StringRun(one, t[1..]) == StringRun(two, t[2..]);
      EscapeClears(st, b);
      if !Takes(t) {
        StaysClosed(two, t[2..]);
      }
    } else if !Takes(t) {
      StaysClosed(one, t[1..]);
    }
  }

  lemma EscapeClears(st: M.StrSt, b: byte)
    requires !st.esc
    ensures M.AppendByte(st.(esc := true), b) == M.AppendByte(st, b)
  {}

  lemma UnquoteTakes(t: seq<byte>, n: nat, b: byte)
    requires t != [] && t[0] != QUOTE && t != [BACKSLASH]
    requires n == (if t[0] == BACKSLASH then 2 else 1) && n <= |t| && b == if n == 2 then Unescaped(t[1]) else t[0]
    ensures var q := Unquote(t[n..]);
            if Takes(t) then Unquote(t) == q.(content := [b] + q.content)
            else Unquote(t).tab || !Unquote(t).legal
  {}

  lemma ReadsMore(st: M.StrSt, next: M.StrSt, last: M.StrSt, b: byte, q: Quoted)
    requires Reading(st) && next == M.AppendByte(st, b) && ReadsTo(next, last, q)
    ensures ReadsTo(st, last, q.(content := [b] + q.content))
  {
    if st.len < 64 {
      assert next.buf[..next.len] == st.buf[..st.len] + [b];
      assert st.buf[..st.len] + [b] + q.content == st.buf[..st.len] + ([b] + q.content);
    }
  }

  lemma Refused(st: M.StrSt, last: M.StrSt, q: Quoted)
    requires last.bad && last.len == st.len && Reading(st) && (q.tab || !q.legal)
    ensures ReadsTo(st, last, q)
  {}

  /** The verdict of `read_string` on any text after the opening quote, in terms of what it means. */
  lemma StringVerdict(t: seq<byte>, key: seq<byte>, found: M.Loc)
    ensures var q := Unquote(t);
            M.StringResult(M.StringTo(t), key, found)
            == if q.tab || !q.legal || !q.closed then M.FailPair(2)
               else if |q.content| > 64 then M.FailPair(3)
               else M.PairOut(0, key, found.kstart, 1, q.content, 0, false, found.vstart,
                   found.vlen)
  {
    hide Unquote, StringRun, M.StringTo;
    StringToIsRun(t);
    RunReads(M.StringSeed(), t);
    assert M.StringSeed().buf[..0] + Unquote(t).content == Unquote(t).content;
  }

  // ---------------------------------------------------------------------------------------
  // Where the scanner stands at both ends of a value

  function StateAt(doc: M.Doc, n: nat): N.NestState
    requires n <= |doc|
  {
    N.Scan(N.SEED, doc[..n]).state
  }

  predicate ValueStarts(doc: M.Doc, v: nat) {
    v < |doc| && var st := StateAt(doc, v); st.depth == 1 && st.expecting == 0 && !st.inString
  }

  predicate ValueEnds(doc: M.Doc, e: nat) {
    e < |doc| && var st := StateAt(doc, e); st.depth == 1 && st.expecting == 3 && !st.inString
  }

  predicate Anchored(doc: M.Doc, w: A.Walk) {
    && (forall j :: 0 <= j < |w.members| ==> ValueStarts(doc, w.members[j].vstart) && ValueEnds(doc, w.members[j].vend))
    && (A.InValue(w.st) ==> ValueStarts(doc, w.vs))
  }

  lemma StepAnchored(doc: M.Doc, w: A.Walk, n: nat)
    requires n < |doc| && w.st == StateAt(doc, n) && A.Allowed(w.st, doc[n]) && Anchored(doc, w)
    ensures Anchored(doc, A.WalkStep(w, doc[n], n))
  {
    hide N.StepByte, StateAt, L.WellFormed;
    if A.InValue(w.st) {
      A.ValueTransition(w.st, doc[n]);
    } else {
      A.OuterTransition(w.st, doc[n]);
    }
  }

  lemma {:induction false} WalkAnchored(doc: M.Doc, n: nat)
    requires L.Accepted(doc) && A.KeyedRoot(doc) && n <= |doc|
    ensures Anchored(doc, A.WalkTo(doc[..n]))
  {
    hide A.WalkStep, N.StepByte, L.Accepted, A.KeyedRoot;
    if n == 0 {
      assert doc[..0] == [];
    } else {
      hide A.WalkTo, Anchored;
      A.WalkToLast(doc, n);
      WalkAnchored(doc, n - 1);
      A.ScanAllowed(doc, n - 1);
      A.WalkIsScan(doc[..n - 1]);
      StepAnchored(doc, A.WalkTo(doc[..n - 1]), n - 1);
    }
  }

  // ---------------------------------------------------------------------------------------
  // The strings the scanner lets through

  lemma ScanFirst(st: N.NestState, t: seq<byte>, n: nat)
    requires n <= |t| && !N.Scan(st, t).bad
    ensures !N.Scan(st, t[..n]).bad && !N.Scan(N.Scan(st, t[..n]).state, t[n..]).bad
    ensures N.Scan(N.Scan(st, t[..n]).state, t[n..]).state == N.Scan(st, t).state
  {
    hide N.Scan;
    L.ScanAppend(st, t[..n], t[n..]);
    assert t[..n] + t[n..] == t;
  }

  lemma ScanOne(st: N.NestState, t: seq<byte>)
    requires |t| >= 1 && !N.Scan(st, t[..1]).bad
    ensures !N.StepByte(st, t[0]).bad && N.Scan(st, t[..1]).state == N.StepByte(st, t[0]).state
  {
    hide N.StepByte;
    assert t[..1][..0] == [];
    assert t[..1][0] == t[0];
  }

  /** A string value that scans holds only legal bytes and escapes, tab apart; and it is closed where the
      scanner has left it. */
  lemma {:induction false} ScannedIsLegal(st: N.NestState, t: seq<byte>)
    requires st.inString && !st.esc && !N.Scan(st, t).bad
    ensures Unquote(t).legal
    ensures !N.Scan(st, t).state.inString ==> Unquote(t).closed
    decreases |t|
  {
    hide N.Scan, N.StepByte;
    if t == [] {
      NothingScanned(st);
    } else {
      ScanFirst(st, t, 1);
      ScanOne(st, t);
      var next := N.StepByte(st, t[0]).state;
      StringByte(st, t[0]);
      if t[0] == BACKSLASH && |t| > 1 {
        var u := t[1..];
        ScanFirst(next, u, 1);
        ScanOne(next, u);
        StringByte(next, u[0]);
        assert u[1..] == t[2..];
        ScannedIsLegal(st, t[2..]);
      } else if t[0] == BACKSLASH {
        assert t[1..] == [];
        NothingScanned(next);
      } else if t[0] != QUOTE {
        ScannedIsLegal(st, t[1..]);
      }
    }
  }

  lemma NothingScanned(st: N.NestState)
    ensures N.Scan(st, []).state == st && !N.Scan(st, []).bad
  {}

  /** The scanner's transitions inside a string. */
  lemma StringByte(st: N.NestState, b: byte)
    requires st.inString && !N.StepByte(st, b).bad
    ensures var st' := N.StepByte(st, b).state;
            if st.esc then IsEscape(b) && st' == st.(esc := false)
            else if b == BACKSLASH then st' == st.(esc := true)
            else if b == QUOTE then true
            else st' == st && !N.IsControl(b)
  {}

  lemma StateNext(doc: M.Doc, n: nat)
    requires L.Accepted(doc) && n < |doc|
    ensures !N.StepByte(StateAt(doc, n), doc[n]).bad
    ensures StateAt(doc, n + 1) == N.StepByte(StateAt(doc, n), doc[n]).state
  {
    hide N.StepByte, L.Accepted;
    L.PrefixVerdict(doc, n);
    L.PrefixVerdict(doc, n + 1);
    assert doc[..n + 1][..n] == doc[..n];
  }

  /** The text of a string member of an accepted document, after its opening quote, is legal and closed. */
  lemma MemberIsLegal(doc: M.Doc, v: nat, e: nat)
    requires L.Accepted(doc) && ValueStarts(doc, v) && ValueEnds(doc, e) && doc[v] == QUOTE && v < e
    ensures Unquote(doc[v + 1..e]).legal && Unquote(doc[v + 1..e]).closed
  {
    hide L.Accepted, N.Scan, Unquote, N.StepByte;
    StateNext(doc, v);
    QuoteOpens(StateAt(doc, v), StateAt(doc, v + 1));
    L.PrefixVerdict(doc, e);
    ScanFirst(N.SEED, doc[..e], v + 1);
    assert doc[..e][..v + 1] == doc[..v + 1] && doc[..e][v + 1..] == doc[v + 1..e];
    ScannedIsLegal(StateAt(doc, v + 1), doc[v + 1..e]);
  }

  lemma QuoteOpens(st: N.NestState, st': N.NestState)
    requires st.depth == 1 && st.expecting == 0 && !st.inString && st' == N.StepByte(st, QUOTE).state
    ensures st'.inString && !st'.esc
  {}

  lemma MemberAnchored(doc: M.Doc, index: nat)
    requires L.Accepted(doc) && A.KeyedRoot(doc) && index < |A.Members(doc)|
    ensures ValueStarts(doc, A.Members(doc)[index].vstart) && ValueEnds(doc, A.Members(doc)[index].vend)
  {
    assert doc[..|doc|] == doc;
    WalkAnchored(doc, |doc|);
  }

  // ---------------------------------------------------------------------------------------
  // An integer value reads exactly when its text is a bare integer

  /** An optional minus and one to five digits, with nothing after them, not even a space. */
  predicate BareInteger(s: seq<byte>) {
    1 <= |DigitsOf(s)| <= 5 && AllDigits(DigitsOf(s))
  }

  lemma {:induction false} NumeralBound(s: seq<byte>)
    requires AllDigits(s) && |s| <= 5
    ensures 0 <= Numeral(s) <= (if |s| == 0 then 0 else if |s| == 1 then 9 else if |s| == 2 then 99
                                else if |s| == 3 then 999 else if |s| == 4 then 9999 else 99999)
  {
    if s != [] {
      NumeralBound(s[..|s| - 1]);
    }
  }

  function DigitsOf(s: seq<byte>): seq<byte> { if s != [] && s[0] == MINUS then s[1..] else s }

  function IntegerOf(s: seq<byte>): int {
    if s != [] && s[0] == MINUS then -Numeral(DigitsOf(s)) else Numeral(DigitsOf(s))
  }

  /** The integer machine in closed form. */
  predicate Tallies(st: M.IntSt, s: seq<byte>) {
    && st.digits <= |s|
    && (st.bad <==> !AllDigits(DigitsOf(s)))
    && (!st.bad ==> st.neg == (s != [] && s[0] == MINUS) && st.digits == |DigitsOf(s)|)
    && (!st.bad && |DigitsOf(s)| <= 5 ==> st.value == Numeral(DigitsOf(s)))
  }

  lemma TalliesMore(st: M.IntSt, s: seq<byte>, b: byte)
    requires s != [] && |s| < 512 && Tallies(st, s)
    ensures Tallies(M.IntStep(st, b, |s|, 0, true), s + [b])
  {
    hide M.IntStep, Numeral, AllDigits;
    var before := DigitsOf(s);
    assert DigitsOf(s + [b]) == before + [b];
    DigitsGrow(before, b);
    LaterIntStep(st, b, |s|);
    if AllDigits(before) && |before| <= 4 {
      NumeralBound(before);
      NumeralGrows(before, b);
    }
  }

  lemma NumeralGrows(s: seq<byte>, b: byte)
    ensures Numeral(s + [b]) == Numeral(s) * 10 + (b as int - 48)
  {
    var t := s + [b];
    assert t[..|t| - 1] == s;
  }

  /** No digit count, and no value while the answer depends on it, is lost to wrap-around. */
  lemma {:induction false} IntToMeans(s: M.Doc)
    ensures Tallies(M.IntTo(s), s)
  {
    hide M.IntStep;
    if s != [] {
      var front, b := s[..|s| - 1], s[|s| - 1];
      if front == [] {
        FirstIntStep(b);
        SingleTally(b);
        assert s == [b];
      } else {
        hide M.IntTo, Tallies;
        IntToMeans(front);
        IntToLast(s);
        TalliesMore(M.IntTo(front), front, b);
        assert front + [b] == s;
      }
    }
  }

  lemma IntToLast(s: M.Doc)
    requires s != []
    ensures M.IntTo(s) == M.IntStep(M.IntTo(s[..|s| - 1]), s[|s| - 1], |s| - 1, 0, true)
  {
    hide M.IntStep;
  }

  lemma SingleTally(b: byte)
    ensures Tallies(M.IntStep(M.IntSt(0, 0, false, false), b, 0, 0, true), [b])
  {
    FirstIntStep(b);
    if b != MINUS {
      NumeralGrows([], b);
      assert [] + [b] == [b];
    }
  }

  lemma DigitsGrow(s: seq<byte>, b: byte)
    ensures AllDigits(s + [b]) <==> AllDigits(s) && IsDigit(b)
  {
    var t := s + [b];
    assert t[|s|] == b;
    assert forall i :: 0 <= i < |s| ==> t[i] == s[i];
  }

  lemma FirstIntStep(b: byte)
    ensures M.IntStep(M.IntSt(0, 0, false, false), b, 0, 0, true)
            == if b == MINUS then M.IntSt(0, 0, true, false)
               else if IsDigit(b) then M.IntSt(b - 48, 1, false, false)
               else M.IntSt(0, 0, false, true)
  {}

  lemma LaterIntStep(st: M.IntSt, b: byte, i: u64)
    requires 0 < i && st.digits < 512
    ensures var st' := M.IntStep(st, b, i, 0, true);
            && (st'.bad <==> st.bad || !IsDigit(b))
            && st'.digits <= st.digits + 1
            && (IsDigit(b) ==> st'.neg == st.neg && st'.digits == st.digits + 1)
            && (IsDigit(b) && 0 <= st.value <= 9999 ==> st'.value == st.value * 10 + (b - 48))
  {}

  /** `read_int` accepts a value text if and only if it is a bare integer, and then returns it. */
  lemma IntegerValue(s: M.Doc, key: seq<byte>, found: M.Loc)
    ensures var out := M.IntResult(M.IntTo(s), key, found);
            && (out.status == 0 <==> BareInteger(s))
            && (out.status == 0 ==>
                  && out.ival == IntegerOf(s)
                  && out == M.PairOut(0, key, found.kstart, 2, [], out.ival, false, found.vstart,
                      found.vlen))
            && (out.status != 0 ==> out == M.FailPair(2))
  {
    hide M.IntTo, Numeral;
    IntToMeans(s);
    var digits := DigitsOf(s);
    if AllDigits(digits) && |digits| <= 5 {
      NumeralBound(digits);
    }
  }

  // ---------------------------------------------------------------------------------------
  // The verdict on any document

  /** A document that scans but is not keyed yields no pair: the answer is the empty list when
      nothing is counted, and otherwise a failure on the first pair or on the count. */
  lemma UnkeyedVerdict(doc: M.Doc)
    requires L.Accepted(doc) && !A.KeyedRoot(doc)
    ensures var count := M.CountTo(doc).count;
            R.Ingest(doc) == if count == 0 then Success([])
                             else if 0 < count <= 64 then Failure(R.PairMalformed(0))
                             else Failure(R.CountOutOfRange(count))
  {
    hide N.Scan, L.Accepted, A.KeyedRoot, M.CountTo, M.PairAtSpec;
    Unhidden(doc);
    var count := M.CountTo(doc).count;
    if 0 < count <= 64 {
      FirstPairMalformed(doc);
      CollectFailsAtFirst(doc, count);
    }
  }

  lemma Unhidden(doc: M.Doc)
    requires L.Accepted(doc)
    ensures !N.Scan(N.SEED, doc).bad
  {}

  lemma FirstPairMalformed(doc: M.Doc)
    requires L.Accepted(doc) && !A.KeyedRoot(doc)
    ensures R.PairOf(M.PairAtSpec(doc, 0), 0) == Failure(R.PairMalformed(0))
  {
    hide L.Accepted, A.KeyedRoot, M.Locate;
    A.AgreementExactlyWhenKeyed(doc, 0);
  }

  lemma {:induction false} CollectFailsAtFirst(doc: M.Doc, n: nat)
    requires 0 < n <= 64
    requires R.PairOf(M.PairAtSpec(doc, 0), 0) == Failure(R.PairMalformed(0))
    ensures R.Collect(doc, n) == Failure(R.PairMalformed(0))
  {
    hide M.PairAtSpec, R.PairOf;
    if n == 1 {
      assert R.Collect(doc, 0) == Success([]);
    } else {
      CollectFailsAtFirst(doc, n - 1);
    }
  }

  // ---------------------------------------------------------------------------------------
  // The exact verdict on keyed documents

  /** Why a member does not read: a part is too long, or its value text means nothing. */
  datatype Fault = TooLong | Unreadable

  /** What the text of a value stands for; `at` is its offset. */
  function ValueOf(text: seq<byte>, at: u64): Result<R.ManifestValue, Fault>
    requires 0 < |text| <= 512
  {
    if N.IsOpen(text[0]) then Success(R.Nested(at, |text|))
    else if text == M.TRUE then Success(R.Bool(true))
    else if text == M.FALSE then Success(R.Bool(false))
    else if BareInteger(text) then Success(R.Int(IntegerOf(text)))
    else if text[0] == QUOTE then
      var q := Unquote(text[1..]);
      if q.tab then Failure(Unreadable) else if |q.content| > 64 then Failure(TooLong) else Success(R.Str(q.content))
    else Failure(Unreadable)
  }

  /** The pair a member is, or the error it gives. */
  function MemberPair(doc: M.Doc, sp: A.Span, index: nat): Result<R.ManifestPair, R.IngestError>
    requires A.Inside(sp, doc)
  {
    if A.KeyLength(sp) > 32 then Failure(R.PairOverlong(index))
    else
      match ValueOf(doc[sp.vstart..sp.vend], sp.vstart)
      case Failure(TooLong) => Failure(R.PairOverlong(index))
      case Failure(Unreadable) => Failure(R.PairMalformed(index))
      case Success(value) =>
        Success(R.ManifestPair(doc[sp.kstart..sp.kend], (sp.kstart, sp.kend - sp.kstart), value,
                               (sp.vstart, sp.vend - sp.vstart)))
  }

  /** One pair of a keyed document is read as the text of its member says. */
  lemma PairIsMember(doc: M.Doc, index: u64)
    requires L.Accepted(doc) && A.KeyedRoot(doc) && index < |A.Members(doc)|
    ensures A.Inside(A.Members(doc)[index], doc)
    ensures R.PairOf(M.PairAtSpec(doc, index), index) == MemberPair(doc, A.Members(doc)[index], index)
  {
    hide L.Accepted, A.KeyedRoot, A.Members, M.Locate, ValueOf, M.PairAtSpec, R.PairOf, MemberPair, ValueStarts,
        ValueEnds;
    var sp := A.Members(doc)[index];
    A.LocateAgrees(doc, index);
    if A.KeyLength(sp) > 32 {
      OverlongKey(doc, sp, index);
    } else {
      MemberAnchored(doc, index);
      if doc[sp.vstart] == QUOTE {
        MemberIsLegal(doc, sp.vstart, sp.vend);
      }
      FoundPair(doc, sp, index);
    }
  }

  lemma OverlongKey(doc: M.Doc, sp: A.Span, index: u64)
    requires A.Inside(sp, doc) && A.KeyLength(sp) > 32 && M.Locate(doc, index).status == M.STATUS_OVERLONG
    ensures R.PairOf(M.PairAtSpec(doc, index), index) == MemberPair(doc, sp, index)
  {
    hide M.Locate, M.StringTo, M.IntTo, Unquote;
  }

  lemma FoundPair(doc: M.Doc, sp: A.Span, index: u64)
    requires A.Inside(sp, doc) && A.KeyLength(sp) <= 32 && M.Locate(doc, index) == A.LocOf(sp)
    requires doc[sp.vstart] == QUOTE ==> var q := Unquote(doc[sp.vstart + 1..sp.vend]); q.legal && q.closed
    ensures R.PairOf(M.PairAtSpec(doc, index), index) == MemberPair(doc, sp, index)
  {
    hide M.Locate, M.StringTo, M.IntTo, M.StringResult, M.IntResult, Unquote, BareInteger, IntegerOf;
    var text := doc[sp.vstart..sp.vend];
    var key := doc[sp.kstart..sp.kend];
    var found := A.LocOf(sp);
    assert text[1..] == doc[sp.vstart + 1..sp.vend];
    StringVerdict(text[1..], key, found);
    IntegerValue(text, key, found);
    BareStart(text);
    WordStart(text);
  }

  lemma BareStart(text: seq<byte>)
    requires text != []
    ensures BareInteger(text) ==> text[0] == MINUS || IsDigit(text[0])
  {
    if BareInteger(text) && text[0] != MINUS {
      assert DigitsOf(text)[0] == text[0];
    }
  }

  lemma WordStart(text: seq<byte>)
    requires text != []
    ensures text == M.TRUE ==> text[0] == 116
    ensures text == M.FALSE ==> text[0] == 102
  {}

  /** How collecting the pairs of the first `n` members must go. */
  predicate Collected(doc: M.Doc, ms: seq<A.Span>, n: nat, r: R.Outcome)
    requires n <= |ms| && forall i :: 0 <= i < n ==> A.Inside(ms[i], doc)
  {
    match r
    case Success(pairs) =>
      |pairs| == n && forall i :: 0 <= i < n ==> MemberPair(doc, ms[i], i) == Success(pairs[i])
    case Failure(e) =>
      exists i :: 0 <= i < n && FirstFault(doc, ms, i, e)
  }

  /** Member `i` is the first that does not read, with this error. */
  predicate FirstFault(doc: M.Doc, ms: seq<A.Span>, i: nat, e: R.IngestError)
    requires i < |ms| && forall j :: 0 <= j <= i ==> A.Inside(ms[j], doc)
  {
    MemberPair(doc, ms[i], i) == Failure(e) && forall j :: 0 <= j < i ==> MemberPair(doc, ms[j], j).Success?
  }

  lemma {:induction false} CollectsMembers(doc: M.Doc, n: nat)
    requires L.Accepted(doc) && A.KeyedRoot(doc) && n <= |A.Members(doc)| && n <= 64
    ensures forall i :: 0 <= i < n ==> A.Inside(A.Members(doc)[i], doc)
    ensures Collected(doc, A.Members(doc), n, R.Collect(doc, n))
  {
    hide L.Accepted, A.KeyedRoot, A.Members, M.PairAtSpec, R.PairOf, MemberPair, A.Inside;
    if n > 0 {
      CollectsMembers(doc, n - 1);
      PairIsMember(doc, n - 1);
      CollectedMore(doc, A.Members(doc), n, R.Collect(doc, n - 1), R.Collect(doc, n));
    }
  }

  lemma CollectedMore(doc: M.Doc, ms: seq<A.Span>, n: nat, before: R.Outcome, r: R.Outcome)
    requires 0 < n <= |ms| && forall i :: 0 <= i < n ==> A.Inside(ms[i], doc)
    requires Collected(doc, ms, n - 1, before)
    requires r == if before.Failure? then before
                  else match MemberPair(doc, ms[n - 1], n - 1)
                       case Failure(e) => Failure(e)
                       case Success(pair) => Success(before.value + [pair])
    ensures Collected(doc, ms, n, r)
  {
    hide MemberPair, A.Inside;
    if before.Failure? {
      var i :| 0 <= i < n - 1 && FirstFault(doc, ms, i, before.error);
      assert FirstFault(doc, ms, i, r.error);
    } else if r.Failure? {
      assert FirstFault(doc, ms, n - 1, r.error);
    }
  }

  /** A failure and a success exclude each other, and so do two first failures. */
  lemma CollectedOnce(doc: M.Doc, ms: seq<A.Span>, n: nat, r: R.Outcome)
    requires n <= |ms| && (forall i :: 0 <= i < n ==> A.Inside(ms[i], doc)) && Collected(doc, ms, n, r)
    ensures r.Success? <==> forall i :: 0 <= i < n ==> MemberPair(doc, ms[i], i).Success?
  {
    hide MemberPair, A.Inside;
    if r.Failure? {
      var i :| 0 <= i < n && FirstFault(doc, ms, i, r.error);
      assert !MemberPair(doc, ms[i], i).Success?;
    }
  }

  /** The outcome on any keyed document that scans.  It succeeds if and only if there are at most 64
      members and each reads: a key of at most 32 bytes, and a value text that is a container, a word, a
      bare integer, or a quoted text without raw tab and with at most 64 bytes of content.  The pairs
      are then those of the members, values included; otherwise the error is that of the first member
      that does not read. */
  lemma KeyedVerdict(doc: M.Doc)
    requires L.Accepted(doc) && A.KeyedRoot(doc)
    ensures forall i :: 0 <= i < |A.Members(doc)| ==> A.Inside(A.Members(doc)[i], doc)
    ensures var r, ms := R.Ingest(doc), A.Members(doc);
            if |ms| > 64 then r == Failure(R.CountOutOfRange(|ms|))
            else
              && Collected(doc, ms, |ms|, r)
              && (r.Success? <==> forall i :: 0 <= i < |ms| ==> MemberPair(doc, ms[i], i).Success?)
  {
    hide N.Scan, L.Accepted, A.KeyedRoot, A.Members, M.CountTo, R.Collect, MemberPair, Collected, A.Inside;
    Unhidden(doc);
    A.CountAgrees(doc);
    A.MembersInOrder(doc);
    if |A.Members(doc)| <= 64 {
      CollectsMembers(doc, |A.Members(doc)|);
      CollectedOnce(doc, A.Members(doc), |A.Members(doc)|, R.Ingest(doc));
    }
  }

  /** A string member of an accepted document, key of at most 32 bytes: malformed if and only if a raw tab
      stands before its closing quote, otherwise overlong if and only if its content exceeds 64 bytes,
      otherwise read as its content. */
  lemma StringMember(doc: M.Doc, index: u64)
    requires L.Accepted(doc) && A.KeyedRoot(doc) && index < |A.Members(doc)|
    requires A.Inside(A.Members(doc)[index], doc) && A.KeyLength(A.Members(doc)[index]) <= 32
    requires doc[A.Members(doc)[index].vstart] == QUOTE
    ensures var sp := A.Members(doc)[index]; var q := Unquote(doc[sp.vstart + 1..sp.vend]);
            var out := M.PairAtSpec(doc, index);
            && q.legal && q.closed
            && (out.status == 2 <==> q.tab)
            && (out.status == 3 <==> !q.tab && |q.content| > 64)
            && (out.status == 0 <==> !q.tab && |q.content| <= 64)
            && (out.status == 0 ==> out.sval == q.content && out.kind == 1)
  {
    hide L.Accepted, A.KeyedRoot, A.Members, M.Locate, M.StringTo, M.StringResult, Unquote, ValueStarts, ValueEnds;
    var sp := A.Members(doc)[index];
    A.LocateAgrees(doc, index);
    MemberAnchored(doc, index);
    MemberIsLegal(doc, sp.vstart, sp.vend);
    var found := A.LocOf(sp);
    assert M.Value(doc, found)[1..] == doc[sp.vstart + 1..sp.vend];
    StringVerdict(doc[sp.vstart + 1..sp.vend], M.Key(doc, found), found);
  }

  // ---------------------------------------------------------------------------------------
  // Answers by their numbers

  /** A lookup that succeeds answers 0 with the kind of its value: 1 for a quoted text, 2 for an integer, 3 for
      a word, 4 for a container; one that fails answers 1 past the end, 2 or 3. */
  lemma KindOfValue(doc: M.Doc, index: u64)
    ensures var found, out := M.Locate(doc, index), M.PairAtSpec(doc, index);
            && (found.status != 0 ==> out.status == found.status)
            && (found.status == 0 ==>
                  var first := doc[found.vstart];
                  && (first == 91 || first == 123 ==> out.status == 0)
                  && (out.status == 0 ==>
                        && (first == 34 <==> out.kind == 1)
                        && (first == 45 || 48 <= first <= 57 <==> out.kind == 2)
                        && (first == 116 || first == 102 <==> out.kind == 3)
                        && (first == 91 || first == 123 <==> out.kind == 4)))
  {
    hide M.Locate, M.StringTo, M.IntTo;
  }

  /** What the host makes of an answer. */
  lemma AnswersByNumber(out: M.PairOut, index: nat)
    ensures out.status == 1 ==> R.PairOf(out, index) == Failure(R.PairPastEnd(index))
    ensures out.status == 2 ==> R.PairOf(out, index) == Failure(R.PairMalformed(index))
    ensures out.status == 3 ==> R.PairOf(out, index) == Failure(R.PairOverlong(index))
    ensures out.status == 0 ==>
              R.PairOf(out, index).Success? &&
              var value := R.PairOf(out, index).value.value;
              && (value.Str? <==> out.kind == 1) && (value.Int? <==> out.kind == 2) && (value.Bool? <==> out.kind == 3)
  {}

  /** No lookup runs past the last member: of all documents, none is answered with that error. */
  lemma NeverPastEnd(doc: seq<byte>, index: nat)
    requires |doc| < U64_LIMIT
    ensures R.Ingest(doc) != Failure(R.PairPastEnd(index))
  {
    hide L.Accepted, A.KeyedRoot, A.Members, M.CountTo, MemberPair, A.Inside, N.Scan, R.Collect;
    if L.Accepted(doc) && |doc| <= 512 {
      if A.KeyedRoot(doc) {
        KeyedVerdict(doc);
        NoFaultPastEnd(doc, A.Members(doc), R.Ingest(doc), index);
      } else {
        UnkeyedVerdict(doc);
      }
    }
  }

  lemma NoFaultPastEnd(doc: M.Doc, ms: seq<A.Span>, r: R.Outcome, index: nat)
    requires forall i :: 0 <= i < |ms| ==> A.Inside(ms[i], doc)
    requires Collected(doc, ms, |ms|, r) || r == Failure(R.CountOutOfRange(|ms|))
    ensures r != Failure(R.PairPastEnd(index))
  {
    hide ValueOf, A.Inside;
  }

  /** A document that scans but has more than 512 bytes is refused for its length. */
  lemma LongDocument(doc: seq<byte>)
    requires L.Accepted(doc) && 512 < |doc| < U64_LIMIT
    ensures R.Ingest(doc) == Failure(R.DocumentOverlong)
  {
    hide N.Scan;
  }

  /** An accepted document cut short of its end is truncated where it was cut. */
  lemma CutDocument(doc: seq<byte>, n: nat)
    requires L.Accepted(doc) && n <= |doc| < U64_LIMIT && !L.Accepted(doc[..n])
    ensures R.Ingest(doc[..n]) == Failure(R.TruncatedAt(n))
  {
    hide N.Scan, L.Accepted;
    L.PrefixVerdict(doc, n);
  }

  // ---------------------------------------------------------------------------------------
  // What is counted in documents without keys

  /** The colons outside strings and directly inside one container. */
  function ColonsAtTop(doc: seq<byte>): nat {
    if doc == [] then 0
    else
      var front, m := doc[..|doc| - 1], L.Match(doc[..|doc| - 1]);
      ColonsAtTop(front) + if doc[|doc| - 1] == 58 && !m.inString && |m.stack| == 1 then 1 else 0
  }

  predicate CountsLike(c: M.CountSt, st: N.NestState) {
    c.depth == st.depth && c.instr == st.inString && c.esc == st.esc
  }

  lemma StepCountsLike(c: M.CountSt, st: N.NestState, b: byte)
    requires L.WellFormed(st) && CountsLike(c, st) && 0 <= c.count < 512 && !N.StepByte(st, b).bad
    ensures CountsLike(M.CountStep(c, b, true), N.StepByte(st, b).state)
    ensures M.CountStep(c, b, true).count == c.count + if b == 58 && !st.inString && st.depth == 1 then 1 else 0
  {}

  lemma {:induction false} CountsTo(s: M.Doc)
    requires !N.Scan(N.SEED, s).bad
    ensures CountsLike(M.CountTo(s), N.Scan(N.SEED, s).state)
    ensures M.CountTo(s).count == ColonsAtTop(s) <= |s|
  {
    hide N.StepByte, M.CountStep, L.WellFormed, L.MatchStep;
    if s != [] {
      var front := s[..|s| - 1];
      CountsTo(front);
      L.ScanWellFormed(front);
      L.ScanMirrors(front);
      StepCountsLike(M.CountTo(front), N.Scan(N.SEED, front).state, s[|s| - 1]);
    }
  }

  /** On any document that scans, `pair_count` is the number of colons outside strings and directly inside one
      container, keyed or not. */
  lemma CountIsColons(doc: M.Doc)
    requires L.Accepted(doc)
    ensures M.CountTo(doc).count == ColonsAtTop(doc)
  {
    hide N.StepByte;
    CountsTo(doc);
  }
}
