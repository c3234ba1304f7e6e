/** White space between the tokens of a manifest: by the numbers of its bytes, on any document the
    scanner accepts. */
module ManifestSpacing {
  import opened Machine
  import N = Nest
  import L = NestLanguage
  import M = Manifest
  import A = ManifestAgreement
  import R = ManifestReader
  import V = ManifestVerdicts

  /** Tabs, newlines, carriage returns and spaces. */
  predicate White(s: seq<byte>) { forall i :: 0 <= i < |s| ==> s[i] == 9 || s[i] == 10 || s[i] == 13 || s[i] == 32 }

  /** `doc` with the run `gap` put in at offset `n`. */
  function Spread(doc: seq<byte>, n: nat, gap: seq<byte>): (r: seq<byte>)
    requires n <= |doc|
    ensures |r| == |doc| + |gap|
    ensures forall i :: 0 <= i < n ==> r[i] == doc[i]
    ensures forall i :: 0 <= i < |gap| ==> r[n + i] == gap[i]
    ensures forall i :: n <= i < |doc| ==> r[i + |gap|] == doc[i]
  {
    doc[..n] + gap + doc[n..]
  }

  /** After `a` the scanner is outside strings. */
  predicate Outside(a: seq<byte>) { !N.Scan(N.SEED, a).bad && !N.Scan(N.SEED, a).state.inString }

  /** `a` ends in or behind the text of a number or word that is a value of the root. */
  predicate AtBareValue(a: seq<byte>) { N.Scan(N.SEED, a).state.depth == 1 && N.Scan(N.SEED, a).state.inLiteral }

  // ---------------------------------------------------------------------------------------
  // The scanner and the first tokens

  lemma {:induction false} GapScans(st: N.NestState, gap: seq<byte>)
    requires White(gap) && !st.inString
    ensures !N.Scan(st, gap).bad && N.Scan(st, gap).state == st
    decreases |gap|
  {
    if gap != [] {
      GapScans(st, gap[..|gap| - 1]);
    }
  }

  /** Outside strings a run of white space is invisible to the scanner, even inside a number or a word:
      `1 2` scans exactly as `12`. */
  lemma GapInvisible(doc: seq<byte>, n: nat, gap: seq<byte>)
    requires n <= |doc| && Outside(doc[..n]) && White(gap)
    ensures N.Scan(N.SEED, Spread(doc, n, gap)).bad <==> N.Scan(N.SEED, doc).bad
    ensures N.Scan(N.SEED, Spread(doc, n, gap)).state == N.Scan(N.SEED, doc).state
    ensures L.Accepted(Spread(doc, n, gap)) <==> L.Accepted(doc)
  {
    hide N.Scan;
    var a, b := doc[..n], doc[n..];
    assert a + b == doc && a + gap + b == Spread(doc, n, gap);
    GapScans(N.Scan(N.SEED, a).state, gap);
    L.ScanAppend(N.SEED, a, b);
    L.ScanAppend(N.SEED, a, gap);
    L.ScanAppend(N.SEED, a + gap, b);
  }

  lemma {:induction false} FirstTokenIs(s: seq<byte>, from: nat, p: nat)
    requires from <= p <= |s| && (forall i :: from <= i < p ==> IsSpace(s[i])) && (p < |s| ==> !IsSpace(s[p]))
    ensures A.FirstToken(s, from) == p
    decreases p - from
  {
    hide IsSpace;
    if from < p {
      FirstTokenIs(s, from + 1, p);
    }
  }

  lemma {:induction false} FirstTokenBound(s: seq<byte>, from: nat)
    requires from <= |s|
    ensures A.FirstToken(s, from) <= |s|
    decreases |s| - from
  {
    if from < |s| && IsSpace(s[from]) {
      FirstTokenBound(s, from + 1);
    }
  }

  /** Where an offset of the document comes to stand. */
  function Moves(x: nat, n: nat, d: nat): nat { if x < n then x else x + d }

  lemma FirstTokenMoves(doc: seq<byte>, n: nat, gap: seq<byte>, from: nat)
    requires n <= |doc| && White(gap) && from <= |doc|
    ensures A.FirstToken(Spread(doc, n, gap), if from <= n then from else from + |gap|)
            == Moves(A.FirstToken(doc, from), n, |gap|)
  {
    hide A.FirstToken;
    var doc' := Spread(doc, n, gap);
    var p := A.FirstToken(doc, from);
    FirstTokenBound(doc, from);
    var from' := if from <= n then from else from + |gap|;
    var p' := Moves(p, n, |gap|);
    forall i | from' <= i < p' ensures IsSpace(doc'[i]) {
      MovedByte(doc, n, gap, i);
    }
    FirstTokenIs(doc', from', p');
  }

  lemma MovedByte(doc: seq<byte>, n: nat, gap: seq<byte>, i: nat)
    requires n <= |doc| && White(gap) && i < |doc| + |gap|
    ensures Spread(doc, n, gap)[i] == if i < n then doc[i] else if i < n + |gap| then gap[i - n] else doc[i - |gap|]
    ensures n <= i < n + |gap| ==> IsSpace(Spread(doc, n, gap)[i])
  {}

  lemma StillKeyed(doc: seq<byte>, n: nat, gap: seq<byte>)
    requires n <= |doc| && White(gap) && A.KeyedRoot(doc)
    ensures A.KeyedRoot(Spread(doc, n, gap))
  {
    hide A.FirstToken, Spread;
    var p := A.FirstToken(doc, 0);
    FirstTokenMoves(doc, n, gap, 0);
    FirstTokenMoves(doc, n, gap, p + 1);
    FirstTokenBound(doc, p + 1);
  }

  // ---------------------------------------------------------------------------------------
  // The members of the spread document

  predicate KeyMoved(ks: nat, ke: nat, ks': nat, ke': nat, n: nat, d: nat) {
    if ke < n then ks' == ks && ke' == ke else ks > n && ks' == ks + d && ke' == ke + d
  }

  /** A key stays or moves as a whole; so does a value, unless the gap stands in it or right behind. */
  predicate SpanMoved(sp: A.Span, sp': A.Span, n: nat, d: nat) {
    && KeyMoved(sp.kstart, sp.kend, sp'.kstart, sp'.kend, n, d)
    && sp'.vstart == Moves(sp.vstart, n, d) && sp'.vend == Moves(sp.vend, n, d)
  }

  /** The value that is open where the gap goes in. */
  predicate OpenAt(w0: A.Walk, vs: nat, m: nat) { A.InValue(w0.st) && vs == w0.vs && m == |w0.members| }

  /** The walks over both documents, past the gap; `w0` is where it goes in. */
  predicate Moved(w0: A.Walk, w: A.Walk, w': A.Walk, n: nat, d: nat) {
    var st, m := w.st, |w.members|;
    && w'.st == st && |w'.members| == m
    && (forall j :: 0 <= j < m ==> SpanMoved(w.members[j], w'.members[j], n, d))
    && (forall j :: 0 <= j < m ==>
          w.members[j].vstart < n <= w.members[j].vend ==> OpenAt(w0, w.members[j].vstart, j))
    && (st.depth == 1 && st.expecting == 1 && st.inString ==> w.ks > n && w'.ks == w.ks + d)
    && (A.ReachedColon(st) ==> KeyMoved(w.ks, w.ke, w'.ks, w'.ke, n, d))
    && (A.InValue(st) ==> w'.vs == Moves(w.vs, n, d) && (w.vs < n ==> OpenAt(w0, w.vs, m)))
  }

  lemma MovesFrom(w0: A.Walk, n: nat, d: nat)
    requires A.Ordered(w0, n) && !w0.st.inString
    ensures Moved(w0, w0, w0, n, d)
  {}

  lemma StepMoves(w0: A.Walk, w: A.Walk, w': A.Walk, b: byte, n: nat, d: nat, i: nat)
    requires n <= i && A.Allowed(w.st, b) && A.Ordered(w, i) && Moved(w0, w, w', n, d)
    ensures Moved(w0, A.WalkStep(w, b, i), A.WalkStep(w', b, i + d), n, d)
  {
    hide N.StepByte, L.WellFormed;
    if A.InValue(w.st) {
      A.ValueTransition(w.st, b);
    } else {
      A.OuterTransition(w.st, b);
    }
  }

  lemma SpaceWalks(w: A.Walk, b: byte, i: nat)
    requires !w.st.inString && White([b])
    ensures A.WalkStep(w, b, i) == w
  {
    assert [b][0] == b;
  }

  lemma {:induction false} GapWalks(doc: M.Doc, n: nat, gap: seq<byte>, k: nat)
    requires n <= |doc| && |doc| + |gap| <= 512 && k <= |gap| && White(gap) && Outside(doc[..n])
    ensures A.WalkTo(Spread(doc, n, gap)[..n + k]) == A.WalkTo(doc[..n])
  {
    hide N.Scan, A.WalkTo, A.WalkStep;
    var doc' := Spread(doc, n, gap);
    if k == 0 {
      assert doc'[..n] == doc[..n];
    } else {
      GapWalks(doc, n, gap, k - 1);
      A.WalkToLast(doc', n + k);
      A.WalkIsScan(doc[..n]);
      SpaceWalks(A.WalkTo(doc[..n]), gap[k - 1], n + k - 1);
    }
  }

  lemma {:induction false} WalksMove(doc: M.Doc, n: nat, gap: seq<byte>, i: nat)
    requires L.Accepted(doc) && A.KeyedRoot(doc) && n <= i <= |doc| && |doc| + |gap| <= 512
    requires White(gap) && Outside(doc[..n])
    ensures Moved(A.WalkTo(doc[..n]), A.WalkTo(doc[..i]), A.WalkTo(Spread(doc, n, gap)[..i + |gap|]), n, |gap|)
  {
    hide *;
    var doc' := Spread(doc, n, gap);
    if i == n {
      GapWalks(doc, n, gap, |gap|);
      A.WalkOrdered(doc, n);
      OutsideWalk(doc[..n]);
      MovesFrom(A.WalkTo(doc[..n]), n, |gap|);
    } else {
      WalksMove(doc, n, gap, i - 1);
      A.WalkToLast(doc, i);
      A.WalkToLast(doc', i + |gap|);
      A.WalkOrdered(doc, i - 1);
      A.ScanAllowed(doc, i - 1);
      A.WalkIsScan(doc[..i - 1]);
      StepMoves(A.WalkTo(doc[..n]), A.WalkTo(doc[..i - 1]), A.WalkTo(doc'[..i - 1 + |gap|]), doc[i - 1], n, |gap|,
        i - 1);
    }
  }

  lemma OutsideWalk(a: M.Doc)
    requires Outside(a)
    ensures !A.WalkTo(a).st.inString && A.WalkTo(a).st == N.Scan(N.SEED, a).state
  {
    hide N.Scan, A.WalkTo;
    A.WalkIsScan(a);
  }

  lemma MembersMove(doc: M.Doc, n: nat, gap: seq<byte>)
    requires L.Accepted(doc) && A.KeyedRoot(doc) && n <= |doc| && |doc| + |gap| <= 512
    requires White(gap) && Outside(doc[..n])
    ensures var ms, ms', w0 := A.Members(doc), A.Members(Spread(doc, n, gap)), A.WalkTo(doc[..n]);
            && |ms'| == |ms|
            && forall j :: 0 <= j < |ms| ==>
                 && SpanMoved(ms[j], ms'[j], n, |gap|)
                 && (ms[j].vstart < n <= ms[j].vend ==> OpenAt(w0, ms[j].vstart, j))
  {
    hide A.WalkTo, L.Accepted, A.KeyedRoot, Outside, White, SpanMoved, Spread, OpenAt;
    WalksMove(doc, n, gap, |doc|);
    var doc' := Spread(doc, n, gap);
    assert doc[..|doc|] == doc && doc'[..|doc'|] == doc';
  }

  // ---------------------------------------------------------------------------------------
  // What kind of value the gap can stand in

  /** The value does not begin with a quote or an opening bracket. */
  predicate Bare(b: byte) { b != QUOTE && !N.IsOpen(b) }

  /** Inside a value of the root, the scanner is in a literal at the top level exactly when the value is
      neither quoted nor bracketed. */
  predicate BareInLiteral(w: A.Walk, doc: M.Doc) {
    A.InValue(w.st) && w.vs < |doc| ==>
      && (Bare(doc[w.vs]) <==> w.st.depth == 1 && w.st.inLiteral)
      && (Bare(doc[w.vs]) ==> !w.st.inString)
  }

  lemma StepBare(w: A.Walk, doc: M.Doc, i: nat)
    requires i < |doc| && A.Allowed(w.st, doc[i]) && BareInLiteral(w, doc) && A.Ordered(w, i)
    ensures BareInLiteral(A.WalkStep(w, doc[i], i), doc)
  {
    hide L.WellFormed, N.StepByte;
    if A.InValue(w.st) {
      A.ValueTransition(w.st, doc[i]);
      ValueLiteral(w.st, doc[i]);
    } else {
      A.OuterTransition(w.st, doc[i]);
      ValueBegins(w.st, doc[i]);
    }
  }

  lemma ValueLiteral(st: N.NestState, b: byte)
    requires A.Allowed(st, b) && A.InValue(st)
    ensures var st' := N.StepByte(st, b).state;
            && (st.depth == 1 && st'.depth == 1 && st'.expecting != 1 ==> st'.inLiteral == st.inLiteral)
            && (st.depth == 2 && st'.depth == 1 ==> !st'.inLiteral)
            && (st.depth == 1 && st.inLiteral ==> st'.depth < 2)
  {}

  lemma ValueBegins(st: N.NestState, b: byte)
    requires A.Allowed(st, b) && !A.InValue(st)
    ensures var st' := N.StepByte(st, b).state;
            A.InValue(st') ==> (Bare(b) <==> st'.depth == 1 && st'.inLiteral) && (Bare(b) ==> !st'.inString)
  {}

  lemma {:induction false} WalkBare(doc: M.Doc, n: nat)
    requires L.Accepted(doc) && A.KeyedRoot(doc) && n <= |doc|
    ensures BareInLiteral(A.WalkTo(doc[..n]), doc)
  {
    hide *;
    if n == 0 {
      NotYetInValue(doc);
    } else {
      WalkBare(doc, n - 1);
      A.WalkToLast(doc, n);
      A.WalkOrdered(doc, n - 1);
      A.ScanAllowed(doc, n - 1);
      A.WalkIsScan(doc[..n - 1]);
      StepBare(A.WalkTo(doc[..n - 1]), doc, n - 1);
    }
  }

  lemma NotYetInValue(doc: M.Doc)
    ensures BareInLiteral(A.WalkTo(doc[..0]), doc)
  {
    assert doc[..0] == [];
  }

  /** What follows the closing quote does not count. */
  lemma {:induction false} UnquoteStops(s: seq<byte>, t: seq<byte>)
    requires V.Unquote(s).closed
    ensures V.Unquote(s + t) == V.Unquote(s)
    decreases |s|
  {
    if s[0] != QUOTE {
      var k := if s[0] == BACKSLASH then 2 else 1;
      assert (s + t)[k..] == s[k..] + t;
      UnquoteStops(s[k..], t);
    }
  }

  /** A quoted value is closed before any place outside strings. */
  lemma ClosedBefore(doc: M.Doc, v: nat, n: nat)
    requires L.Accepted(doc) && V.ValueStarts(doc, v) && doc[v] == QUOTE && v < n <= |doc| && Outside(doc[..n])
    ensures V.Unquote(doc[v + 1..n]).closed
  {
    hide L.Accepted, N.Scan, V.Unquote, N.StepByte;
    V.StateNext(doc, v);
    V.QuoteOpens(V.StateAt(doc, v), V.StateAt(doc, v + 1));
    L.PrefixVerdict(doc, n);
    V.ScanFirst(N.SEED, doc[..n], v + 1);
    assert doc[..n][..v + 1] == doc[..v + 1] && doc[..n][v + 1..] == doc[v + 1..n];
    V.ScannedIsLegal(V.StateAt(doc, v + 1), doc[v + 1..n]);
  }

  // ---------------------------------------------------------------------------------------
  // The same readings

  /** Equal values; of nested containers only the offsets differ. */
  predicate ValueAlike(v: R.ManifestValue, v': R.ManifestValue) { if v.Nested? then v'.Nested? else v' == v }

  predicate PairAlike(p: R.ManifestPair, p': R.ManifestPair) { p'.key == p.key && ValueAlike(p.value, p'.value) }

  /** The same error, or pairs with the same keys and values in the same order. */
  predicate SameReading(r: R.Outcome, r': R.Outcome) {
    match r
    case Failure(e) => r' == Failure(e)
    case Success(ps) =>
      r'.Success? && |r'.value| == |ps| && forall i :: 0 <= i < |ps| ==> PairAlike(ps[i], r'.value[i])
  }

  predicate MemberAlike(m: Result<R.ManifestPair, R.IngestError>, m': Result<R.ManifestPair, R.IngestError>) {
    match m
    case Failure(e) => m' == Failure(e)
    case Success(p) => m'.Success? && PairAlike(p, m'.value)
  }

  predicate SameFault(r: Result<R.ManifestValue, V.Fault>, r': Result<R.ManifestValue, V.Fault>) {
    match r
    case Failure(e) => r' == Failure(e)
    case Success(v) => r'.Success? && ValueAlike(v, r'.value)
  }

  /** White space in or behind a quoted or bracketed value. */
  lemma GrownValue(front: seq<byte>, gap: seq<byte>, back: seq<byte>, at: u64, at': u64)
    requires front != [] && !Bare(front[0]) && |front + gap + back| <= 512
    requires front[0] == QUOTE ==> V.Unquote(front[1..]).closed
    ensures SameFault(V.ValueOf(front + back, at), V.ValueOf(front + gap + back, at'))
  {
    hide V.BareInteger, V.IntegerOf, V.Unquote;
    var text, text' := front + back, front + gap + back;
    assert text[0] == text'[0] == front[0];
    V.BareStart(text);
    V.BareStart(text');
    if front[0] == QUOTE {
      assert text[1..] == front[1..] + back && text'[1..] == front[1..] + (gap + back);
      UnquoteStops(front[1..], back);
      UnquoteStops(front[1..], gap + back);
    }
  }

  /** White space in or behind a number or word. */
  lemma GrownBareValue(front: seq<byte>, gap: seq<byte>, back: seq<byte>, at: u64)
    requires front != [] && Bare(front[0]) && White(gap) && gap != [] && |front + gap + back| <= 512
    ensures V.ValueOf(front + gap + back, at) == Failure(V.Unreadable)
  {
    hide V.IntegerOf, V.Unquote;
    var text := front + gap + back;
    assert text[|front|] == gap[0] && text[0] == front[0];
    assert V.DigitsOf(text)[if text[0] == MINUS then |front| - 1 else |front|] == gap[0];
  }

  lemma SameValue(text: seq<byte>, at: u64, at': u64)
    requires 0 < |text| <= 512
    ensures SameFault(V.ValueOf(text, at), V.ValueOf(text, at'))
  {
    hide V.BareInteger, V.IntegerOf, V.Unquote;
  }

  lemma MovedKeyText(doc: M.Doc, n: nat, gap: seq<byte>, sp: A.Span, sp': A.Span)
    requires n <= |doc| && |doc| + |gap| <= 512 && SpanMoved(sp, sp', n, |gap|) && A.Inside(sp, doc)
    ensures A.Inside(sp', Spread(doc, n, gap))
    ensures Spread(doc, n, gap)[sp'.kstart..sp'.kend] == doc[sp.kstart..sp.kend]
  {}

  lemma SpreadSlice(doc: seq<byte>, n: nat, gap: seq<byte>, from: nat, to: nat)
    requires n <= |doc| && from <= to <= |doc|
    ensures to <= n ==> Spread(doc, n, gap)[from..to] == doc[from..to]
    ensures n <= from ==> Spread(doc, n, gap)[from + |gap|..to + |gap|] == doc[from..to]
    ensures from <= n <= to ==> Spread(doc, n, gap)[from..to + |gap|] == doc[from..n] + gap + doc[n..to]
  {
    hide White;
    if from <= n <= to {
      SpreadAcross(doc, n, gap, from, to);
    }
  }

  lemma SpreadAcross(doc: seq<byte>, n: nat, gap: seq<byte>, from: nat, to: nat)
    requires from <= n <= to <= |doc|
    ensures Spread(doc, n, gap)[from..to + |gap|] == doc[from..n] + gap + doc[n..to]
  {
    assert Spread(doc, n, gap) == doc[..from] + (doc[from..n] + gap + doc[n..to]) + doc[to..];
  }

  lemma MovedValueText(doc: M.Doc, n: nat, gap: seq<byte>, sp: A.Span, sp': A.Span)
    requires n <= |doc| && |doc| + |gap| <= 512 && SpanMoved(sp, sp', n, |gap|) && A.Inside(sp, doc)
    requires A.Inside(sp', Spread(doc, n, gap))
    ensures var text, text' := doc[sp.vstart..sp.vend], Spread(doc, n, gap)[sp'.vstart..sp'.vend];
            if sp.vstart < n <= sp.vend
            then text == doc[sp.vstart..n] + doc[n..sp.vend] && text' == doc[sp.vstart..n] + gap + doc[n..sp.vend]
            else text' == text
  {
    hide Spread, KeyMoved;
    SpreadSlice(doc, n, gap, sp.vstart, sp.vend);
    if sp.vstart < n <= sp.vend {
      assert doc[sp.vstart..sp.vend] == doc[sp.vstart..n] + doc[n..sp.vend];
    }
  }

  lemma SameMember(doc: M.Doc, doc': M.Doc, sp: A.Span, sp': A.Span, i: nat)
    requires A.Inside(sp, doc) && A.Inside(sp', doc') && doc'[sp'.kstart..sp'.kend] == doc[sp.kstart..sp.kend]
    requires SameFault(V.ValueOf(doc[sp.vstart..sp.vend], sp.vstart), V.ValueOf(doc'[sp'.vstart..sp'.vend], sp'.vstart))
    ensures MemberAlike(V.MemberPair(doc, sp, i), V.MemberPair(doc', sp', i))
  {
    hide V.ValueOf;
    assert |doc'[sp'.kstart..sp'.kend]| == |doc[sp.kstart..sp.kend]|;
  }

  /** A member keeps its key, and its value too unless it is a number or word the gap stands in or behind. */
  lemma MemberMoves(doc: M.Doc, n: nat, gap: seq<byte>, j: nat)
    requires L.Accepted(doc) && A.KeyedRoot(doc) && n <= |doc| && |doc| + |gap| <= 512
    requires White(gap) && Outside(doc[..n])
    requires j < |A.Members(doc)| == |A.Members(Spread(doc, n, gap))|
    requires AtBareValue(doc[..n]) ==> j != |A.WalkTo(doc[..n]).members|
    ensures var doc' := Spread(doc, n, gap);
            var sp, sp' := A.Members(doc)[j], A.Members(doc')[j];
            && A.Inside(sp, doc) && A.Inside(sp', doc')
            && MemberAlike(V.MemberPair(doc, sp, j), V.MemberPair(doc', sp', j))
  {
    hide *;
    var doc' := Spread(doc, n, gap);
    var sp, sp' := A.Members(doc)[j], A.Members(doc')[j];
    A.MembersInOrder(doc);
    MembersMove(doc, n, gap);
    MovedKeyText(doc, n, gap, sp, sp');
    MovedValueText(doc, n, gap, sp, sp');
    MemberValueMoves(doc, n, gap, j, sp, sp');
    SameMember(doc, doc', sp, sp', j);
  }

  lemma MemberValueMoves(doc: M.Doc, n: nat, gap: seq<byte>, j: nat, sp: A.Span, sp': A.Span)
    requires L.Accepted(doc) && A.KeyedRoot(doc) && n <= |doc| && |doc| + |gap| <= 512
    requires White(gap) && Outside(doc[..n])
    requires j < |A.Members(doc)| && sp == A.Members(doc)[j]
    requires AtBareValue(doc[..n]) ==> j != |A.WalkTo(doc[..n]).members|
    requires sp.vstart < n <= sp.vend ==> OpenAt(A.WalkTo(doc[..n]), sp.vstart, j)
    requires A.Inside(sp, doc) && A.Inside(sp', Spread(doc, n, gap))
    requires var text, text' := doc[sp.vstart..sp.vend], Spread(doc, n, gap)[sp'.vstart..sp'.vend];
             if sp.vstart < n <= sp.vend
             then text == doc[sp.vstart..n] + doc[n..sp.vend] && text' == doc[sp.vstart..n] + gap + doc[n..sp.vend]
             else text' == text
    ensures SameFault(V.ValueOf(doc[sp.vstart..sp.vend], sp.vstart),
                      V.ValueOf(Spread(doc, n, gap)[sp'.vstart..sp'.vend], sp'.vstart))
  {
    hide N.Scan, L.Accepted, A.KeyedRoot, A.WalkTo, A.Members, V.ValueOf, V.Unquote, White, V.ValueStarts, Outside,
        V.ValueEnds;
    if sp.vstart < n <= sp.vend {
      var front := doc[sp.vstart..n];
      WalkBare(doc, n);
      OutsideWalk(doc[..n]);
      V.MemberAnchored(doc, j);
      if front[0] == QUOTE {
        ClosedBefore(doc, sp.vstart, n);
        assert front[1..] == doc[sp.vstart + 1..n];
      }
      GrownValue(front, gap, doc[n..sp.vend], sp.vstart, sp'.vstart);
    } else {
      SameValue(doc[sp.vstart..sp.vend], sp.vstart, sp'.vstart);
    }
  }

  /** Two collections over members that read alike. */
  lemma CollectedAlike(doc: M.Doc, doc': M.Doc, ms: seq<A.Span>, ms': seq<A.Span>, r: R.Outcome, r': R.Outcome)
    requires |ms'| == |ms| && forall j :: 0 <= j < |ms| ==> A.Inside(ms[j], doc) && A.Inside(ms'[j], doc')
    requires forall j :: 0 <= j < |ms| ==> MemberAlike(V.MemberPair(doc, ms[j], j), V.MemberPair(doc', ms'[j], j))
    requires V.Collected(doc, ms, |ms|, r) && V.Collected(doc', ms', |ms|, r')
    ensures SameReading(r, r')
  {
    hide V.MemberPair, A.Inside, PairAlike;
    V.CollectedOnce(doc, ms, |ms|, r);
    V.CollectedOnce(doc', ms', |ms|, r');
    if r.Failure? {
      var i :| 0 <= i < |ms| && V.FirstFault(doc, ms, i, r.error);
      assert V.MemberPair(doc', ms'[i], i) == Failure(r.error);
      var k :| 0 <= k < |ms| && V.FirstFault(doc', ms', k, r'.error);
      assert MemberAlike(V.MemberPair(doc, ms[k], k), V.MemberPair(doc', ms'[k], k));
    }
  }

  /** A run of the bytes 9, 10, 13 and 32 put in outside strings, and not in or behind a number or word that
      is a value of the root, changes no answer: the same error, or the same keys and values in order. */
  lemma GapChangesNothing(doc: M.Doc, n: nat, gap: seq<byte>)
    requires L.Accepted(doc) && A.KeyedRoot(doc) && n <= |doc| && |doc| + |gap| <= 512
    requires White(gap) && Outside(doc[..n]) && !AtBareValue(doc[..n])
    ensures L.Accepted(Spread(doc, n, gap)) && A.KeyedRoot(Spread(doc, n, gap))
    ensures SameReading(R.Ingest(doc), R.Ingest(Spread(doc, n, gap)))
  {
    hide L.Accepted, A.KeyedRoot, A.Members, R.Ingest, Outside, AtBareValue, White, Spread, V.Collected,
        V.MemberPair, A.Inside, SpanMoved, OpenAt, MemberAlike, N.Scan, A.WalkTo;
    var doc' := Spread(doc, n, gap);
    GapInvisible(doc, n, gap);
    StillKeyed(doc, n, gap);
    MembersMove(doc, n, gap);
    V.KeyedVerdict(doc);
    V.KeyedVerdict(doc');
    var ms, ms' := A.Members(doc), A.Members(doc');
    if |ms| <= 64 {
      forall j | 0 <= j < |ms| ensures MemberAlike(V.MemberPair(doc, ms[j], j), V.MemberPair(doc', ms'[j], j)) {
        MemberMoves(doc, n, gap, j);
      }
      CollectedAlike(doc, doc', ms, ms', R.Ingest(doc), R.Ingest(doc'));
    }
  }

  // ---------------------------------------------------------------------------------------
  // When the gap stands in or behind a number or word of the root

  /** The value open at `w0` is still open, or has been recorded as the next member. */
  predicate Kept(w0: A.Walk, w: A.Walk, n: nat) {
    var m := |w0.members|;
    if |w.members| <= m then |w.members| == m && A.InValue(w.st) && w.vs == w0.vs
    else w.members[m].vstart == w0.vs && w.members[m].vend >= n
  }

  lemma StepKept(w0: A.Walk, w: A.Walk, b: byte, n: nat, i: nat)
    requires n <= i && A.Allowed(w.st, b) && A.Ordered(w, i) && Kept(w0, w, n)
    ensures Kept(w0, A.WalkStep(w, b, i), n)
  {
    hide N.StepByte, L.WellFormed;
    if A.InValue(w.st) {
      A.ValueTransition(w.st, b);
    } else {
      A.OuterTransition(w.st, b);
    }
  }

  lemma {:induction false} WalkKept(doc: M.Doc, n: nat, i: nat)
    requires L.Accepted(doc) && A.KeyedRoot(doc) && n <= i <= |doc| && A.InValue(A.WalkTo(doc[..n]).st)
    ensures Kept(A.WalkTo(doc[..n]), A.WalkTo(doc[..i]), n)
  {
    hide A.WalkTo, L.Accepted, A.KeyedRoot, A.WalkStep, A.InValue, A.Ordered, A.Allowed, N.Scan;
    if i > n {
      WalkKept(doc, n, i - 1);
      A.WalkToLast(doc, i);
      A.WalkOrdered(doc, i - 1);
      A.ScanAllowed(doc, i - 1);
      A.WalkIsScan(doc[..i - 1]);
      StepKept(A.WalkTo(doc[..n]), A.WalkTo(doc[..i - 1]), doc[i - 1], n, i - 1);
    }
  }

  /** The number or word that is open where the gap goes in is a member. */
  lemma OpenIsMember(doc: M.Doc, n: nat)
    requires L.Accepted(doc) && A.KeyedRoot(doc) && n <= |doc| && Outside(doc[..n]) && AtBareValue(doc[..n])
    ensures var ms, m := A.Members(doc), |A.WalkTo(doc[..n]).members|;
            m < |ms| && ms[m].vstart < n <= ms[m].vend && ms[m].vstart < |doc| && Bare(doc[ms[m].vstart])
  {
    hide A.WalkTo, A.KeyedRoot, N.StepByte, IsSpace;
    OutsideWalk(doc[..n]);
    L.ScanWellFormed(doc[..n]);
    WalkKept(doc, n, |doc|);
    WalkBare(doc, n);
    A.WalkOrdered(doc, n);
    A.WalkIsScan(doc);
    assert doc[..|doc|] == doc;
  }

  lemma SpoiledMember(doc: M.Doc, n: nat, gap: seq<byte>)
    requires L.Accepted(doc) && A.KeyedRoot(doc) && n <= |doc| && |doc| + |gap| <= 512
    requires White(gap) && gap != [] && Outside(doc[..n]) && AtBareValue(doc[..n])
    ensures var ms, ms', m := A.Members(doc), A.Members(Spread(doc, n, gap)), |A.WalkTo(doc[..n]).members|;
            && m < |ms| == |ms'| && A.Inside(ms[m], doc) && A.Inside(ms'[m], Spread(doc, n, gap))
            && (A.KeyLength(ms[m]) <= 32 ==>
                  V.MemberPair(Spread(doc, n, gap), ms'[m], m) == Failure(R.PairMalformed(m)))
  {
    hide L.Accepted, A.KeyedRoot, A.Members, Outside, AtBareValue, White, Spread, OpenAt, N.Scan, A.WalkTo, V.ValueOf;
    var doc' := Spread(doc, n, gap);
    var m := |A.WalkTo(doc[..n]).members|;
    OpenIsMember(doc, n);
    A.MembersInOrder(doc);
    MembersMove(doc, n, gap);
    var sp, sp' := A.Members(doc)[m], A.Members(doc')[m];
    MovedKeyText(doc, n, gap, sp, sp');
    MovedValueText(doc, n, gap, sp, sp');
    GrownBareValue(doc[sp.vstart..n], gap, doc[n..sp.vend], sp'.vstart);
  }

  lemma FaultIsFirst(doc: M.Doc, ms: seq<A.Span>, m: nat, r: R.Outcome, e: R.IngestError)
    requires m < |ms| && (forall i :: 0 <= i < |ms| ==> A.Inside(ms[i], doc)) && V.Collected(doc, ms, |ms|, r)
    requires V.FirstFault(doc, ms, m, e)
    ensures r == Failure(e)
  {
    hide V.MemberPair, A.Inside;
    if r.Failure? {
      var i :| 0 <= i < |ms| && V.FirstFault(doc, ms, i, r.error);
    }
  }

  /** In or right behind a number or word that is a value of the root, the same run is still scanned but
      makes that member, and so the document, fail. */
  lemma GapSpoilsBareValue(doc: M.Doc, n: nat, gap: seq<byte>)
    requires L.Accepted(doc) && A.KeyedRoot(doc) && n <= |doc| && |doc| + |gap| <= 512
    requires White(gap) && gap != [] && Outside(doc[..n]) && AtBareValue(doc[..n])
    ensures L.Accepted(Spread(doc, n, gap)) && A.KeyedRoot(Spread(doc, n, gap))
    ensures R.Ingest(Spread(doc, n, gap)).Failure?
    ensures R.Ingest(doc).Success? ==>
              R.Ingest(Spread(doc, n, gap)) == Failure(R.PairMalformed(|A.WalkTo(doc[..n]).members|))
  {
    hide L.Accepted, A.KeyedRoot, A.Members, R.Ingest, Outside, AtBareValue, White, Spread, V.Collected,
        V.MemberPair, A.Inside, N.Scan, A.WalkTo;
    GapInvisible(doc, n, gap);
    StillKeyed(doc, n, gap);
    SpoiledMember(doc, n, gap);
    V.KeyedVerdict(Spread(doc, n, gap));
    var ms, m := A.Members(doc), |A.WalkTo(doc[..n]).members|;
    if A.KeyLength(ms[m]) > 32 {
      LongKeyStays(doc, n, gap, m);
    }
    if R.Ingest(doc).Success? {
      SpoilsReading(doc, n, gap);
    }
  }

  lemma LongKeyStays(doc: M.Doc, n: nat, gap: seq<byte>, m: nat)
    requires L.Accepted(doc) && A.KeyedRoot(doc) && n <= |doc| && |doc| + |gap| <= 512
    requires White(gap) && Outside(doc[..n])
    requires m < |A.Members(doc)| == |A.Members(Spread(doc, n, gap))|
    requires A.Inside(A.Members(doc)[m], doc) && A.KeyLength(A.Members(doc)[m]) > 32
    requires A.Inside(A.Members(Spread(doc, n, gap))[m], Spread(doc, n, gap))
    ensures !V.MemberPair(Spread(doc, n, gap), A.Members(Spread(doc, n, gap))[m], m).Success?
  {
    hide L.Accepted, A.KeyedRoot, A.Members, Outside, White, Spread, OpenAt, N.Scan, A.WalkTo, V.ValueOf;
    MembersMove(doc, n, gap);
  }

  lemma SpoilsReading(doc: M.Doc, n: nat, gap: seq<byte>)
    requires L.Accepted(doc) && A.KeyedRoot(doc) && n <= |doc| && |doc| + |gap| <= 512
    requires White(gap) && gap != [] && Outside(doc[..n]) && AtBareValue(doc[..n])
    requires L.Accepted(Spread(doc, n, gap)) && A.KeyedRoot(Spread(doc, n, gap))
    requires R.Ingest(doc).Success?
    ensures R.Ingest(Spread(doc, n, gap)) == Failure(R.PairMalformed(|A.WalkTo(doc[..n]).members|))
  {
    hide *;
    var doc': M.Doc := Spread(doc, n, gap);
    var ms, ms', m := A.Members(doc), A.Members(doc'), |A.WalkTo(doc[..n]).members|;
    ShortDocument(doc');
    SpoiledMember(doc, n, gap);
    V.KeyedVerdict(doc);
    V.KeyedVerdict(doc');
    forall j | 0 <= j < m ensures V.MemberPair(doc', ms'[j], j).Success? {
      MemberMoves(doc, n, gap, j);
      AlikeSucceeds(V.MemberPair(doc, ms[j], j), V.MemberPair(doc', ms'[j], j));
    }
    SpoiledFault(doc, doc', ms[m], ms', m);
    FaultIsFirst(doc', ms', m, R.Ingest(doc'), R.PairMalformed(m));
  }

  lemma ShortDocument(doc: M.Doc)
    ensures |doc| < U64_LIMIT
  {}

  lemma AlikeSucceeds(m: Result<R.ManifestPair, R.IngestError>, m': Result<R.ManifestPair, R.IngestError>)
    requires MemberAlike(m, m') && m.Success?
    ensures m'.Success?
  {}

  lemma SpoiledFault(doc: M.Doc, doc': M.Doc, sp: A.Span, ms': seq<A.Span>, m: nat)
    requires m < |ms'| && A.Inside(sp, doc) && V.MemberPair(doc, sp, m).Success?
    requires forall i :: 0 <= i < |ms'| ==> A.Inside(ms'[i], doc')
    requires A.KeyLength(sp) <= 32 ==> V.MemberPair(doc', ms'[m], m) == Failure(R.PairMalformed(m))
    requires forall j :: 0 <= j < m ==> V.MemberPair(doc', ms'[j], j).Success?
    ensures V.FirstFault(doc', ms', m, R.PairMalformed(m))
  {
    hide V.ValueOf;
  }
}
