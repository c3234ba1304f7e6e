/** Printing and ingesting: what `ingest_manifest` returns on the compact text of any object the
    scanner accepts. */
module ManifestRoundTrip {
  import opened Machine
  import opened Numerals
  import opened ManifestTree
  import N = Nest
  import L = NestLanguage
  import M = Manifest
  import A = ManifestAgreement
  import R = ManifestReader

  // ---------------------------------------------------------------------------------------
  // The member walk over a piece of text that starts at offset `base`

  function WalkOver(w: A.Walk, s: seq<byte>, base: nat): A.Walk {
    if s == [] then w
    else A.WalkStep(WalkOver(w, s[..|s| - 1], base), s[|s| - 1], base + |s| - 1)
  }

  lemma {:induction false} WalkThen(w: A.Walk, a: seq<byte>, b: seq<byte>, base: nat)
    ensures WalkOver(w, a + b, base) == WalkOver(WalkOver(w, a, base), b, base + |a|)
  {
    hide A.WalkStep;
    if b == [] {
      assert a + b == a;
    } else {
      assert (a + b)[..|a + b| - 1] == a + b[..|b| - 1];
      WalkThen(w, a, b[..|b| - 1], base);
    }
  }

  lemma {:induction false} WalkToIsOver(s: M.Doc)
    ensures A.WalkTo(s) == WalkOver(A.START, s, 0)
  {
    hide A.WalkStep;
    if s != [] {
      WalkToIsOver(s[..|s| - 1]);
    }
  }

  lemma WalkByte(w: A.Walk, b: byte, base: nat)
    ensures WalkOver(w, [b], base) == A.WalkStep(w, b, base)
  {
    hide A.WalkStep;
    var s := [b];
    assert s[..|s| - 1] == [];
    assert WalkOver(w, s, base) == A.WalkStep(WalkOver(w, [], base), b, base);
  }

  /** Below the top level nothing is recorded. */
  lemma {:induction false} WalkDeep(w: A.Walk, s: seq<byte>, base: nat)
    requires Clean(w.st, s) && Above(w.st, s, 2)
    ensures WalkOver(w, s, base) == w.(st := After(w.st, s))
  {
    hide N.StepByte;
    if s != [] {
      WalkDeep(w, s[..|s| - 1], base);
    }
  }

  /** Inside a string nothing is recorded until its closing quote. */
  lemma {:induction false} WalkContent(w: A.Walk, s: seq<byte>, base: nat)
    requires w.st.inString && !w.st.esc && Legible(s)
    ensures WalkOver(w, Escaped(s), base) == w
  {
    hide A.WalkStep, N.StepByte;
    if s != [] {
      hide WalkOver, Legible;
      var front, b := s[..|s| - 1], s[|s| - 1];
      assert Legible(front) && (b >= 32 || b == TAB || b == NEWLINE) by { LegibleParts(s); }
      WalkContent(w, front, base);
      WalkThen(w, Escaped(front), EscapeByte(b), base);
      WalkEscape(w, b, base + |Escaped(front)|);
    } else {
      assert Escaped(s) == [];
    }
  }

  lemma LegibleParts(s: seq<byte>)
    requires s != [] && Legible(s)
    ensures Legible(s[..|s| - 1])
    ensures var b := s[|s| - 1]; b >= 32 || b == TAB || b == NEWLINE
  {}

  lemma WalkEscape(w: A.Walk, b: byte, base: nat)
    requires w.st.inString && !w.st.esc && (b >= 32 || b == TAB || b == NEWLINE)
    ensures WalkOver(w, EscapeByte(b), base) == w
  {
    hide WalkOver;
    if |EscapeByte(b)| == 2 {
      var c := EscapeByte(b)[1];
      assert EscapeByte(b) == [BACKSLASH] + [c];
      WalkThen(w, [BACKSLASH], [c], base);
      WalkByte(w, BACKSLASH, base);
      WalkByte(w.(st := w.st.(esc := true)), c, base + 1);
    } else {
      WalkByte(w, b, base);
    }
  }

  lemma {:induction false} WalkLiteralRest(w: A.Walk, s: seq<byte>, base: nat)
    requires !w.st.inString && w.st.inLiteral && w.st.expecting == 3
    requires forall i :: 0 <= i < |s| ==> N.IsLiteralChar(s[i])
    ensures WalkOver(w, s, base) == w
  {
    if s != [] {
      WalkLiteralRest(w, s[..|s| - 1], base);
    }
  }

  /** At the top level, where a member's value may start. */
  predicate AtMemberValue(w: A.Walk) {
    AtValue(w.st) && w.st.depth == 1 && w.st.expecting == 0 && !w.st.inLiteral && !w.st.afterComma
  }

  lemma WalkScalar(w: A.Walk, t: Tree, base: nat)
    requires AtMemberValue(w) && Printable(t) && !t.Container()
    ensures WalkOver(w, Print(t), base).(st := w.st) == w.(vs := base)
  {
    hide WalkOver;
    match t
    case Str(content) =>
      var body := w.(st := w.st.(inLiteral := false, inString := true, esc := false, afterComma := false), vs := base);
      WalkThen(w, [QUOTE], Escaped(content), base);
      WalkThen(w, [QUOTE] + Escaped(content), [QUOTE], base);
      WalkByte(w, QUOTE, base);
      WalkContent(body, content, base + 1);
      WalkByte(body, QUOTE, base + 1 + |Escaped(content)|);
    case Int(value) => WalkLiteral(w, Decimal(value), base);
    case Bool(flag) => WalkLiteral(w, Word(flag), base);
  }

  lemma WalkLiteral(w: A.Walk, s: seq<byte>, base: nat)
    requires AtMemberValue(w) && s != []
    requires s[0] == 116 || s[0] == 102 || s[0] == MINUS || IsDigit(s[0])
    requires forall i :: 0 <= i < |s| ==> N.IsLiteralChar(s[i])
    ensures WalkOver(w, s, base).(st := w.st) == w.(vs := base)
  {
    hide WalkOver;
    var begun := w.(st := w.st.(expecting := 3, seenValue := true, inLiteral := true, afterComma := false), vs := base);
    assert s == [s[0]] + s[1..];
    WalkThen(w, [s[0]], s[1..], base);
    WalkByte(w, s[0], base);
    WalkLiteralRest(begun, s[1..], base + 1);
  }

  // ---------------------------------------------------------------------------------------
  // Members of printed objects

  /** Offsets of the members of `PrintMembers(ms, first)` when it starts at `base`. */
  function Spans(ms: seq<Member>, first: bool, base: nat): (spans: seq<A.Span>)
    ensures |spans| == |ms|
  {
    if ms == [] then []
    else
      var kstart := base + (if first then 0 else 1) + 1;
      var kend := kstart + |Escaped(ms[0].key)|;
      var vend := kend + 2 + |Print(ms[0].value)|;
      [A.Span(kstart, kend, kend + 2, vend)] + Spans(ms[1..], false, vend)
  }

  /** The members recorded once the open one ends at offset `end`. */
  function Recorded(w: A.Walk, end: nat): seq<A.Span> { w.members + [A.Span(w.ks, w.ke, w.vs, end)] }

  lemma WalkContainer(w: A.Walk, t: Tree, base: nat)
    requires AtMemberValue(w) && Printable(t) && t.Container() && Fits(t, 1, false, false)
    ensures WalkOver(w, Print(t), base).(st := w.st) == w.(vs := base)
  {
    hide WalkOver, L.WellFormed, Clean, After, Above, Printable, Print, PrintMembers, PrintItems, MembersFit,
        ItemsFit, Fits;
    var closer := CloserOf(t);
    var open := [if t.Obj? then OPEN_OBJECT else OPEN_ARRAY];
    var close := [if t.Obj? then CLOSE_OBJECT else CLOSE_ARRAY];
    var content := if t.Obj? then PrintMembers(t.members, true) else PrintItems(t.items, true);
    ContainerText(t, open, content, close);
    ScanOpen(w.st, closer);
    EnteredTop(w.st, closer);
    ContentFits(w.st, t);
    var begun := w.(st := Entered(w.st, closer), vs := base);
    WalkThen(w, open, content, base);
    WalkThen(w, open + content, close, base);
    WalkOpen(w, open[0], closer, base);
    WalkDeep(begun, content, base + 1);
    WalkDeepByte(begun.(st := After(begun.st, content)), close[0], base + 1 + |content|);
  }

  lemma ContainerText(t: Tree, open: seq<byte>, content: seq<byte>, close: seq<byte>)
    requires t.Container()
    requires open == [if t.Obj? then OPEN_OBJECT else OPEN_ARRAY]
    requires close == [if t.Obj? then CLOSE_OBJECT else CLOSE_ARRAY]
    requires content == if t.Obj? then PrintMembers(t.members, true) else PrintItems(t.items, true)
    ensures Print(t) == open + content + close
  {}

  lemma ContentFits(st: N.NestState, t: Tree)
    requires t.Container() && Printable(t) && AtValue(st) && MayOpen(st)
        && Fits(t, st.depth, st.afterComma, st.expecting == 1)
    requires Within(Entered(st, CloserOf(t)), CloserOf(t))
    ensures var content := if t.Obj? then PrintMembers(t.members, true) else PrintItems(t.items, true);
            var inner := Entered(st, CloserOf(t));
            Clean(inner, content) && Above(inner, content, inner.depth) && After(inner, content).depth == inner.depth
  {
    hide Clean, After, Above, L.WellFormed;
    if t.Obj? {
      ScanMembers(Entered(st, 1), t.members, true);
    } else {
      ScanItems(Entered(st, 2), t.items, true);
    }
  }

  lemma WalkOpen(w: A.Walk, b: byte, closer: u64, base: nat)
    requires AtMemberValue(w) && (closer == 1 || closer == 2) && b == if closer == 1 then OPEN_OBJECT else OPEN_ARRAY
    ensures WalkOver(w, [b], base) == w.(st := Entered(w.st, closer), vs := base)
  {
    hide WalkOver;
    WalkByte(w, b, base);
  }

  lemma WalkDeepByte(w: A.Walk, b: byte, base: nat)
    requires w.st.depth >= 2
    ensures WalkOver(w, [b], base) == w.(st := N.StepByte(w.st, b).state)
  {
    hide WalkOver, N.StepByte;
    WalkByte(w, b, base);
  }

  /** A whole value at the top level: only its start is recorded. */
  lemma WalkValue(w: A.Walk, t: Tree, base: nat)
    requires AtMemberValue(w) && Printable(t) && Fits(t, 1, false, false)
    ensures WalkOver(w, Print(t), base) == w.(st := After(w.st, Print(t)), vs := base)
    ensures Closed(w.st, After(w.st, Print(t)))
  {
    hide WalkOver, L.WellFormed, Clean, After, Above, Printable;
    ScanTree(w.st, t);
    WalkKeepsState(w, Print(t), base);
    if t.Container() {
      WalkContainer(w, t, base);
    } else {
      WalkScalar(w, t, base);
    }
  }

  lemma {:induction false} WalkKeepsState(w: A.Walk, s: seq<byte>, base: nat)
    requires Clean(w.st, s)
    ensures WalkOver(w, s, base).st == After(w.st, s)
  {
    hide N.StepByte;
    if s != [] {
      WalkKeepsState(w, s[..|s| - 1], base);
    }
  }

  /** A key and its colon. */
  lemma WalkKey(w: A.Walk, key: seq<byte>, base: nat)
    requires Within(w.st, 1) && w.st.depth == 1 && w.st.expecting == 1 && Legible(key)
    ensures var s := Quoted(key) + [COLON];
            && WalkOver(w, s, base) == w.(st := After(w.st, s), ks := base + 1, ke := base + 1 + |Escaped(key)|)
            && AtMemberValue(WalkOver(w, s, base)) && SameNest(w.st, After(w.st, s))
  {
    hide WalkOver, Clean, After, Above, Legible;
    var s := Quoted(key) + [COLON];
    ScanKey(w.st, key);
    WalkKeepsState(w, s, base);
    var body := w.(st := w.st.(inLiteral := false, inString := true, esc := false, afterComma := false),
        ks := base + 1);
    var named := body.(st := body.st.(inString := false, expecting := 2), ke := base + 1 + |Escaped(key)|);
    WalkByte(w, QUOTE, base);
    WalkContent(body, key, base + 1);
    WalkByte(body, QUOTE, base + 1 + |Escaped(key)|);
    WalkByte(named, COLON, base + 2 + |Escaped(key)|);
    WalkThen(w, [QUOTE], Escaped(key), base);
    WalkThen(w, [QUOTE] + Escaped(key), [QUOTE], base);
    WalkThen(w, Quoted(key), [COLON], base);
  }

  lemma WalkSeparator(w: A.Walk, first: bool, base: nat)
    requires Within(w.st, 1) && w.st.depth == 1 && w.st.expecting == (if first then 1 else 3)
    ensures WalkOver(w, Separator(first), base)
            == w.(st := After(w.st, Separator(first)), members := if first then w.members else Recorded(w, base))
    ensures var st' := After(w.st, Separator(first));
            Within(st', 1) && st'.expecting == 1 && SameNest(w.st, st')
  {
    ScanSeparator(w.st, first);
    if !first {
      WalkByte(w, COMMA, base);
      ScanByte(w.st, COMMA);
    }
  }

  function MemberText(m: Member, first: bool): seq<byte> {
    Separator(first) + (Quoted(m.key) + [COLON] + Print(m.value))
  }

  /** One member with its separator: the one before is recorded, this one is left open. */
  lemma WalkMember(w: A.Walk, m: Member, first: bool, base: nat)
    requires Within(w.st, 1) && w.st.depth == 1 && w.st.expecting == (if first then 1 else 3) && (!first ==>
        !w.st.afterComma)
    requires Legible(m.key) && Printable(m.value) && Fits(m.value, 1, false, false)
    ensures var w' := WalkOver(w, MemberText(m, first), base);
            && Filled(w.st, w'.st, 1)
            && w'.members == (if first then w.members else Recorded(w, base))
            && [A.Span(w'.ks, w'.ke, w'.vs, base + |MemberText(m, first)|)] == Spans([m], first, base)
  {
    hide WalkOver, Clean, After, Above, Legible, L.WellFormed, Printable, Fits, Print, Escaped, Spans;
    OneSpan(m, first, base);
    var sep, named, value := Separator(first), Quoted(m.key) + [COLON], Print(m.value);
    WalkSeparator(w, first, base);
    var w1 := WalkOver(w, sep, base);
    WalkKey(w1, m.key, base + |sep|);
    var w2 := WalkOver(w1, named, base + |sep|);
    WalkValue(w2, m.value, base + |sep| + |named|);
    var w3 := WalkOver(w2, value, base + |sep| + |named|);
    WalkThen(w, sep, named + value, base);
    WalkThen(w1, named, value, base + |sep|);
    NestTrans(w.st, w1.st, w2.st);
    NestTrans(w.st, w2.st, w3.st);
    StillWithin(w.st, w3.st, 1);
  }

  /** Walking members: each is recorded when the next one, or the closer, comes. */
  predicate Walked(w: A.Walk, ms: seq<Member>, first: bool, base: nat) {
    var w' := WalkOver(w, PrintMembers(ms, first), base);
    if ms == [] then w' == w
    else
      && Filled(w.st, w'.st, 1)
      && Recorded(w', base + |PrintMembers(ms, first)|)
         == (if first then w.members else Recorded(w, base)) + Spans(ms, first, base)
  }

  lemma {:induction false} WalkMembers(w: A.Walk, ms: seq<Member>, first: bool, base: nat)
    requires Within(w.st, 1) && w.st.depth == 1 && w.st.expecting == (if first then 1 else 3) && (!first ==>
        !w.st.afterComma)
    requires forall i :: 0 <= i < |ms| ==> Legible(ms[i].key) && Printable(ms[i].value)
    requires MembersFit(ms, 1)
    ensures Walked(w, ms, first, base)
    decreases |ms|
  {
    hide A.WalkStep, Legible, L.WellFormed, Printable, Fits, MemberText, N.InnermostIsArray, N.StepByte, WalkOver,
        Walked;
    if ms == [] {
      WalkedNothing(w, ms, first, base);
    } else {
      WalkMember(w, ms[0], first, base);
      WalkMembers(WalkOver(w, MemberText(ms[0], first), base), ms[1..], false, base + |MemberText(ms[0], first)|);
      WalkedMore(w, ms, first, base);
    }
  }

  lemma WalkedNothing(w: A.Walk, ms: seq<Member>, first: bool, base: nat)
    requires ms == []
    ensures Walked(w, ms, first, base)
  {}

  lemma WalkedMore(w: A.Walk, ms: seq<Member>, first: bool, base: nat)
    requires ms != []
    requires var text := MemberText(ms[0], first);
             var w1 := WalkOver(w, text, base);
             && Filled(w.st, w1.st, 1)
             && w1.members == (if first then w.members else Recorded(w, base))
             && [A.Span(w1.ks, w1.ke, w1.vs, base + |text|)] == Spans([ms[0]], first, base)
             && Walked(w1, ms[1..], false, base + |text|)
    ensures Walked(w, ms, first, base)
  {
    hide WalkOver, PrintMembers, Spans, L.WellFormed, MemberText, N.InnermostIsArray;
    var text, rest := MemberText(ms[0], first), PrintMembers(ms[1..], false);
    var w1 := WalkOver(w, text, base);
    FirstMember(ms, first, base);
    WalkThen(w, text, rest, base);
    var before := if first then w.members else Recorded(w, base);
    assert Recorded(w1, base + |text|) == before + Spans([ms[0]], first, base);
    if ms[1..] == [] {
      assert Spans(ms, first, base) == Spans([ms[0]], first, base) + [];
    } else {
      NestTrans(w.st, w1.st, WalkOver(w1, rest, base + |text|).st);
      assert before + Spans([ms[0]], first, base) + Spans(ms[1..], false, base + |text|)
          == before + Spans(ms, first, base);
    }
  }

  lemma FirstMember(ms: seq<Member>, first: bool, base: nat)
    requires ms != []
    ensures var text := MemberText(ms[0], first);
            && PrintMembers(ms, first) == text + PrintMembers(ms[1..], false)
            && Spans(ms, first, base) == Spans([ms[0]], first, base) + Spans(ms[1..], false, base + |text|)
    ensures ms[1..] == [] ==> PrintMembers(ms[1..], false) == [] && forall b :: Spans(ms[1..], false, b) == []
  {
    hide Escaped, Print;
    OneSpan(ms[0], first, base);
    TextLength(ms[0], first);
  }

  lemma TextLength(m: Member, first: bool)
    ensures |MemberText(m, first)| == (if first then 0 else 1) + 3 + |Escaped(m.key)| + |Print(m.value)|
  {
    hide Escaped, Print;
  }

  /** The members the scanner saw in the text of an object are the ones printed. */
  lemma PrintedMembers(ms: seq<Member>)
    requires Printable(Obj(ms)) && Fits(Obj(ms), 0, false, false) && |Print(Obj(ms))| <= 512
    ensures A.Members(Print(Obj(ms))) == Spans(ms, true, 1)
  {
    hide WalkOver, Legible, L.WellFormed, Printable, Fits, PrintMembers;
    var text := PrintMembers(ms, true);
    var root := A.START.(st := Entered(N.SEED, 1));
    WalkByte(A.START, OPEN_OBJECT, 0);
    RootText(ms);
    WalkThen(A.START, [OPEN_OBJECT], text, 0);
    WalkThen(A.START, [OPEN_OBJECT] + text, [CLOSE_OBJECT], 0);
    RootEntered();
    WalkMembers(root, ms, true, 1);
    var full := WalkOver(root, text, 1);
    WalkByte(full, CLOSE_OBJECT, 1 + |text|);
    WalkToIsOver(Print(Obj(ms)));
    CloseRecords(full, 1 + |text|);
  }

  lemma RootText(ms: seq<Member>)
    ensures Print(Obj(ms)) == [OPEN_OBJECT] + PrintMembers(ms, true) + [CLOSE_OBJECT]
    ensures Printable(Obj(ms)) ==> forall i :: 0 <= i < |ms| ==> Legible(ms[i].key) && Printable(ms[i].value)
    ensures Fits(Obj(ms), 0, false, false) ==> MembersFit(ms, 1)
  {}

  lemma RootEntered()
    ensures Within(Entered(N.SEED, 1), 1) && Entered(N.SEED, 1).depth == 1
    ensures A.WalkStep(A.START, OPEN_OBJECT, 0) == A.START.(st := Entered(N.SEED, 1))
  {
    L.StepKeepsWellFormed(N.SEED, OPEN_OBJECT);
  }

  lemma CloseRecords(w: A.Walk, i: nat)
    requires w.st.depth == 1 && !w.st.inString && (w.st.expecting == 1 || w.st.expecting == 3)
    ensures A.WalkStep(w, CLOSE_OBJECT, i).members == if w.st.expecting == 3 then Recorded(w, i) else w.members
  {
    hide N.StepByte;
  }

  // ---------------------------------------------------------------------------------------
  // Slicing and reading back

  /** Member `i` of the printed text: its spans slice to the text of its key and value. */
  lemma {:induction false} SpanSlices(ms: seq<Member>, first: bool, base: nat, i: nat, doc: seq<byte>)
    requires i < |ms| && base + |PrintMembers(ms, first)| <= |doc|
    requires doc[base..base + |PrintMembers(ms, first)|] == PrintMembers(ms, first)
    ensures var sp := Spans(ms, first, base)[i];
            && base < sp.kstart <= sp.kend < sp.vstart <= sp.vend <= base + |PrintMembers(ms, first)|
            && doc[sp.kstart..sp.kend] == Escaped(ms[i].key)
            && doc[sp.vstart..sp.vend] == Print(ms[i].value)
    decreases |ms|
  {
    hide Print, Escaped, Quoted, PrintMembers, Spans, MemberText;
    var text := MemberText(ms[0], first);
    FirstMember(ms, first, base);
    TextSplits(ms, first, base, text, doc);
    OneSpan(ms[0], first, base);
    if i == 0 {
      FirstSlices(ms[0], first, base, doc, text);
    } else {
      SpanSlices(ms[1..], false, base + |text|, i - 1, doc);
      assert ms[1..][i - 1] == ms[i];
    }
  }

  lemma OneSpan(m: Member, first: bool, base: nat)
    ensures var kstart := base + (if first then 0 else 1) + 1;
            var kend := kstart + |Escaped(m.key)|;
            Spans([m], first, base) == [A.Span(kstart, kend, kend + 2, kend + 2 + |Print(m.value)|)]
  {
    hide Escaped, Print;
    assert [m][1..] == [];
  }

  lemma TextSplits(ms: seq<Member>, first: bool, base: nat, text: seq<byte>, doc: seq<byte>)
    requires ms != [] && PrintMembers(ms, first) == text + PrintMembers(ms[1..], false)
    requires base + |PrintMembers(ms, first)| <= |doc|
    requires doc[base..base + |PrintMembers(ms, first)|] == PrintMembers(ms, first)
    ensures doc[base..base + |text|] == text
    ensures base + |text| + |PrintMembers(ms[1..], false)| == base + |PrintMembers(ms, first)|
    ensures doc[base + |text|..base + |PrintMembers(ms, first)|] == PrintMembers(ms[1..], false)
  {
    hide PrintMembers;
    var all := PrintMembers(ms, first);
    SubSlice(doc, base, all, 0, |text|);
    SubSlice(doc, base, all, |text|, |all|);
  }

  lemma SubSlice(doc: seq<byte>, base: nat, text: seq<byte>, a: nat, b: nat)
    requires base + |text| <= |doc| && doc[base..base + |text|] == text && a <= b <= |text|
    ensures doc[base + a..base + b] == text[a..b]
  {
    forall i | a <= i < b ensures doc[base + i] == text[i] {
      assert doc[base..base + |text|][i] == text[i];
    }
  }

  lemma FirstSlices(m: Member, first: bool, base: nat, doc: seq<byte>, text: seq<byte>)
    requires text == MemberText(m, first) && base + |text| <= |doc| && doc[base..base + |text|] == text
    ensures var kstart := base + (if first then 0 else 1) + 1;
            var kend := kstart + |Escaped(m.key)|;
            var vend := kend + 2 + |Print(m.value)|;
            && vend == base + |text|
            && doc[kstart..kend] == Escaped(m.key) && doc[kend + 2..vend] == Print(m.value)
  {
    hide Escaped, Print, MemberText;
    var o := if first then 0 else 1;
    var k, v := Escaped(m.key), Print(m.value);
    TextShape(m, first, k, v);
    KeyAndValue(Separator(first), k, v, text);
    SubSlice(doc, base, text, o + 1, o + 1 + |k|);
    SubSlice(doc, base, text, o + 3 + |k|, |text|);
  }

  lemma TextShape(m: Member, first: bool, k: seq<byte>, v: seq<byte>)
    requires k == Escaped(m.key) && v == Print(m.value)
    ensures MemberText(m, first) == Separator(first) + [QUOTE] + k + [QUOTE, COLON] + v
    ensures |Separator(first)| == if first then 0 else 1
  {
    hide Escaped, Print;
  }

  lemma KeyAndValue(sep: seq<byte>, k: seq<byte>, v: seq<byte>, text: seq<byte>)
    requires text == sep + [QUOTE] + k + [QUOTE, COLON] + v
    ensures text[|sep| + 1..|sep| + 1 + |k|] == k && text[|sep| + 3 + |k|..] == v
  {}

  /** The string machine has taken in `s`, up to the 64-byte bound. */
  predicate Holds(st: M.StrSt, s: seq<byte>) {
    && !st.esc && !st.bad && !st.closed
    && st.len == (if |s| <= 64 then |s| else 64) && (st.toolong <==> |s| > 64)
    && st.buf[..st.len] == s[..st.len]
  }

  lemma AppendHolds(st: M.StrSt, s: seq<byte>, b: byte)
    requires Holds(st, s)
    ensures Holds(M.AppendByte(st, b), s + [b])
  {
    AppendKeeps(st, b);
    if |s| < 64 {
      assert (s + [b])[..|s| + 1] == s[..|s|] + [b];
    } else {
      assert (s + [b])[..64] == s[..64];
    }
  }

  /** Reading escaped text back. */
  lemma {:induction false} ReadsContent(s: seq<byte>)
    requires Legible(s)
    ensures Holds(M.StringTo(Escaped(s)), s)
  {
    if s != [] {
      hide M.StringTo, M.AppendByte, Legible, EscapeByte;
      var front, b := s[..|s| - 1], s[|s| - 1];
      LegibleParts(s);
      ReadsContent(front);
      ReadsByte(Escaped(front), b);
      AppendHolds(M.StringTo(Escaped(front)), front, b);
      assert front + [b] == s;
    }
  }

  lemma ReadsByte(t: seq<byte>, b: byte)
    requires b >= 32 || b == TAB || b == NEWLINE
    requires var st := M.StringTo(t); !st.esc && !st.bad && !st.closed
    ensures M.StringTo(t + EscapeByte(b)) == M.AppendByte(M.StringTo(t), b)
  {
    hide M.AppendByte, M.StringTo;
    var st := M.StringTo(t);
    if |EscapeByte(b)| == 2 {
      var code := EscapeByte(b)[1];
      assert t + EscapeByte(b) == t + [BACKSLASH] + [code];
      ReadsOneMore(t, BACKSLASH);
      ReadsOneMore(t + [BACKSLASH], code);
      AppendClearsEscape(st, b);
    } else {
      ReadsOneMore(t, b);
    }
  }

  lemma ReadsOneMore(t: seq<byte>, b: byte)
    ensures var st := M.StringTo(t); M.StringTo(t + [b]) == M.StringStep(st, b, !st.closed && !st.bad)
  {
    hide M.StringStep;
    assert (t + [b])[..|t + [b]| - 1] == t;
  }

  lemma AppendClearsEscape(st: M.StrSt, b: byte)
    ensures M.AppendByte(st.(esc := true), b) == M.AppendByte(st.(esc := false), b)
  {}

  lemma AppendKeeps(st: M.StrSt, b: byte)
    requires st.len <= 64
    ensures var st' := M.AppendByte(st, b);
            && !st'.esc && st'.bad == st.bad && st'.closed == st.closed
            && st'.len == (if st.len < 64 then st.len + 1 else 64)
            && (st'.toolong <==> st.toolong || st.len == 64)
            && st'.buf[..st'.len] == if st.len < 64 then st.buf[..st.len] + [b] else st.buf[..64]
  {}

  lemma ReadsQuoted(s: seq<byte>, key: seq<byte>, found: M.Loc)
    requires Legible(s)
    ensures M.StringResult(M.StringTo(Quoted(s)[1..]), key, found)
            == if |s| > 64 then M.FailPair(M.STATUS_OVERLONG)
               else M.PairOut(M.STATUS_OK, key, found.kstart, M.KIND_STRING, s, 0, false, found.vstart, found.vlen)
  {
    hide M.StringStep;
    var t := Quoted(s)[1..];
    ReadsContent(s);
    assert t[..|t| - 1] == Escaped(s);
    var st := M.StringTo(Escaped(s));
    CloseQuote(st);
    assert M.StringTo(t) == st.(closed := true);
  }

  lemma CloseQuote(st: M.StrSt)
    requires !st.esc
    ensures M.StringStep(st, QUOTE, true) == st.(closed := true)
  {}

  /** The integer machine over a sign and the digits of `n`. */
  lemma {:induction false} ReadsDigits(sign: seq<byte>, n: nat)
    requires sign == [] || sign == [MINUS]
    requires |sign + Digits(n)| <= 512
    ensures var st := M.IntTo(sign + Digits(n));
            && !st.bad && st.neg == (sign != []) && st.digits == |Digits(n)|
            && (n <= 99999 ==> st.value == n)
  {
    hide WrapSigned;
    var text := sign + Digits(n);
    var last := text[|text| - 1];
    assert last == 48 + n % 10;
    if n < 10 {
      assert text[..|text| - 1] == sign;
      SignOnly(sign);
      StepDigit(M.IntTo(sign), last, |sign|);
    } else {
      assert text[..|text| - 1] == sign + Digits(n / 10);
      ReadsDigits(sign, n / 10);
      StepDigit(M.IntTo(sign + Digits(n / 10)), last, |text| - 1);
    }
  }

  lemma SignOnly(sign: seq<byte>)
    requires sign == [] || sign == [MINUS]
    ensures M.IntTo(sign) == M.IntSt(0, 0, sign != [], false)
  {
    if sign != [] {
      assert sign[..|sign| - 1] == [];
    }
  }

  lemma StepDigit(st: M.IntSt, b: byte, i: u64)
    requires IsDigit(b) && st.digits < 512
    ensures var st' := M.IntStep(st, b, i, 0, true);
            && st'.bad == st.bad && st'.neg == st.neg && st'.digits == st.digits + 1
            && (0 <= st.value <= 9999 ==> st'.value == st.value * 10 + (b - 48))
  {}

  lemma {:induction false} DigitCount(n: nat)
    ensures |Digits(n)| <= 5 <==> n <= 99999
    ensures n <= 9 ==> |Digits(n)| == 1
    ensures |Digits(n)| <= 1 ==> n <= 9
    ensures |Digits(n)| <= 2 <==> n <= 99
    ensures |Digits(n)| <= 3 <==> n <= 999
    ensures |Digits(n)| <= 4 <==> n <= 9999
  {
    if n >= 10 {
      DigitCount(n / 10);
    }
  }

  /** A printed integer reads back if and only if it is within +-99999. */
  lemma ReadsDecimal(v: int, key: seq<byte>, found: M.Loc)
    requires |Decimal(v)| <= 512
    ensures M.IntResult(M.IntTo(Decimal(v)), key, found)
            == if -99999 <= v <= 99999
               then M.PairOut(M.STATUS_OK, key, found.kstart, M.KIND_INT, [], v, false, found.vstart, found.vlen)
               else M.FailPair(M.STATUS_MALFORMED)
  {
    hide M.IntTo;
    var sign, n := if v < 0 then [MINUS] else [], if v < 0 then -v else v;
    assert Decimal(v) == sign + Digits(n);
    ReadsDigits(sign, n);
    DigitCount(n);
  }

  // ---------------------------------------------------------------------------------------
  // What ingesting printed text returns

  predicate InDocument(sp: A.Span) { sp.kstart <= sp.kend <= sp.vstart <= sp.vend <= 512 }

  /** The pair, or the error, that member `m` at `sp` stands for.  Keys come back as written. */
  function PairFor(m: Member, sp: A.Span, index: nat): Result<R.ManifestPair, R.IngestError>
    requires InDocument(sp)
  {
    var out := (value: R.ManifestValue) =>
      Success(R.ManifestPair(Escaped(m.key), (sp.kstart, |Escaped(m.key)|), value, (sp.vstart, sp.vend - sp.vstart)));
    if |Escaped(m.key)| > 32 then Failure(R.PairOverlong(index))
    else
      match m.value
      case Str(content) => if |content| > 64 then Failure(R.PairOverlong(index)) else out(R.Str(content))
      case Int(v) => if -99999 <= v <= 99999 then out(R.Int(v)) else Failure(R.PairMalformed(index))
      case Bool(flag) => out(R.Bool(flag))
      case _ => out(R.Nested(sp.vstart, sp.vend - sp.vstart))
  }

  /** The first `n` members as pairs, or the first error among them. */
  function PairsFor(ms: seq<Member>, spans: seq<A.Span>, n: nat): R.Outcome
    requires n <= |ms| == |spans|
    requires forall i :: 0 <= i < |ms| ==> InDocument(spans[i])
  {
    if n == 0 then Success([])
    else
      match PairsFor(ms, spans, n - 1)
      case Failure(e) => Failure(e)
      case Success(pairs) =>
        match PairFor(ms[n - 1], spans[n - 1], n - 1)
        case Failure(e) => Failure(e)
        case Success(pair) => Success(pairs + [pair])
  }

  lemma PrintedIsKeyed(ms: seq<Member>)
    ensures A.KeyedRoot(Print(Obj(ms)))
  {
    hide Print, PrintMembers;
    RootText(ms);
    PrintStart(ms);
    var doc := Print(Obj(ms));
    assert !IsSpace(doc[0]) && !IsSpace(doc[1]);
  }

  lemma PrintStart(ms: seq<Member>)
    ensures PrintMembers(ms, true) == [] || PrintMembers(ms, true)[0] == QUOTE
  {}

  /** The located text of a printed member reads back as that member. */
  lemma PairAtReads(doc: M.Doc, m: Member, sp: A.Span, index: u64)
    requires sp.kstart <= sp.kend < sp.vstart < sp.vend < |doc|
    requires doc[sp.kstart..sp.kend] == Escaped(m.key) && doc[sp.vstart..sp.vend] == Print(m.value)
    requires Printable(m.value)
    requires if sp.kend - sp.kstart <= 32 then M.Locate(doc, index) == A.LocOf(sp)
             else M.Locate(doc, index).status == M.STATUS_OVERLONG
    ensures R.PairOf(M.PairAtSpec(doc, index), index) == PairFor(m, sp, index)
  {
    hide M.Locate, M.StringTo, M.IntTo, Escaped, Quoted, Decimal;
    if sp.kend - sp.kstart <= 32 {
      var found := A.LocOf(sp);
      assert M.Value(doc, found) == Print(m.value);
      match m.value
      case Str(content) =>
        ReadsQuoted(content, M.Key(doc, found), found);
        QuotedStart(content);
      case Int(v) =>
        DecimalStart(v);
        ReadsDecimal(v, M.Key(doc, found), found);
      case Bool(flag) =>
        assert Word(flag) == if flag then M.TRUE else M.FALSE;
      case _ =>
    }
  }

  lemma QuotedStart(s: seq<byte>)
    ensures Quoted(s)[0] == QUOTE
  {}

  lemma DecimalStart(v: int)
    ensures Decimal(v)[0] == MINUS || IsDigit(Decimal(v)[0])
  {}

  /** An object the scanner can take: legible, at most four deep, its array items tame. */
  predicate Ingestible(ms: seq<Member>) {
    && Printable(Obj(ms)) && DepthAtMost(Obj(ms), 4) && Plain(Obj(ms))
    && |Print(Obj(ms))| <= 512
  }

  lemma IngestibleAccepted(ms: seq<Member>)
    requires Ingestible(ms)
    ensures L.Accepted(Print(Obj(ms))) && A.KeyedRoot(Print(Obj(ms)))
    ensures A.Members(Print(Obj(ms))) == Spans(ms, true, 1)
  {
    hide L.Accepted, A.KeyedRoot, A.Members, Print, Printable, DepthAtMost, Plain, Fits;
    AcceptedTrees(Obj(ms));
    PrintedIsKeyed(ms);
    FitsMeans(Obj(ms), 0, false, false);
    PrintedMembers(ms);
  }

  lemma PrintedSlices(ms: seq<Member>, i: nat)
    requires i < |ms| && |Print(Obj(ms))| <= 512
    ensures var doc, sp := Print(Obj(ms)), Spans(ms, true, 1)[i];
            && sp.kstart <= sp.kend < sp.vstart <= sp.vend < |doc| && InDocument(sp)
            && doc[sp.kstart..sp.kend] == Escaped(ms[i].key) && doc[sp.vstart..sp.vend] == Print(ms[i].value)
  {
    hide Spans, Print, PrintMembers;
    RootText(ms);
    SpanSlices(ms, true, 1, i, Print(Obj(ms)));
  }

  lemma PrintNonEmpty(t: Tree)
    ensures Print(t) != []
  {}

  lemma PrintedPair(ms: seq<Member>, i: u64)
    requires Ingestible(ms) && i < |ms| && InDocument(Spans(ms, true, 1)[i])
    ensures R.PairOf(M.PairAtSpec(Print(Obj(ms)), i), i) == PairFor(ms[i], Spans(ms, true, 1)[i], i)
  {
    hide L.Accepted, A.KeyedRoot, A.Members, Print, Spans, M.PairAtSpec, PairFor, R.PairOf, Escaped, M.Locate;
    PrintedSlices(ms, i);
    PrintNonEmpty(ms[i].value);
    IngestibleAccepted(ms);
    A.LocateAgrees(Print(Obj(ms)), i);
    PairAtReads(Print(Obj(ms)), ms[i], Spans(ms, true, 1)[i], i);
  }

  lemma {:induction false} CollectsPrinted(ms: seq<Member>, n: nat)
    requires Ingestible(ms) && n <= |ms| <= 64
    requires forall i :: 0 <= i < |ms| ==> InDocument(Spans(ms, true, 1)[i])
    ensures R.Collect(Print(Obj(ms)), n) == PairsFor(ms, Spans(ms, true, 1), n)
  {
    hide Ingestible, Print, Spans, M.PairAtSpec, PairFor, R.PairOf;
    if n > 0 {
      CollectsPrinted(ms, n - 1);
      PrintedPair(ms, n - 1);
    }
  }

  /** Ingesting the compact text of any ingestible object gives exactly its members as pairs, or
      the error of the first member past a bound: key text over 32 bytes, string over 64 bytes,
      integer beyond +-99999; more than 64 members are refused. */
  lemma IngestsPrinted(ms: seq<Member>)
    requires Ingestible(ms)
    ensures forall i :: 0 <= i < |ms| ==> InDocument(Spans(ms, true, 1)[i])
    ensures R.Ingest(Print(Obj(ms)))
            == if |ms| > 64 then Failure(R.CountOutOfRange(|ms|))
               else PairsFor(ms, Spans(ms, true, 1), |ms|)
  {
    hide N.Scan, L.Accepted, A.KeyedRoot, A.Members, Print, Spans, M.CountTo, PairsFor, R.Collect;
    forall i | 0 <= i < |ms| ensures InDocument(Spans(ms, true, 1)[i]) {
      PrintedSlices(ms, i);
    }
    IngestibleAccepted(ms);
    A.CountAgrees(Print(Obj(ms)));
    AcceptedIsClean(Print(Obj(ms)));
    if |ms| <= 64 {
      CollectsPrinted(ms, |ms|);
    }
  }

  lemma AcceptedIsClean(doc: seq<byte>)
    requires L.Accepted(doc)
    ensures !N.Scan(N.SEED, doc).bad
  {}

  /** Keys that need no escape. */
  predicate PlainKey(key: seq<byte>) {
    |key| <= 32 && forall i :: 0 <= i < |key| ==> key[i] >= 32 && key[i] != QUOTE && key[i] != BACKSLASH
  }

  predicate WithinBounds(m: Member) {
    && PlainKey(m.key)
    && (m.value.Str? ==> |m.value.content| <= 64)
    && (m.value.Int? ==> -99999 <= m.value.value <= 99999)
  }

  lemma {:induction false} PlainKeyIsItsText(key: seq<byte>)
    requires forall i :: 0 <= i < |key| ==> key[i] >= 32 && key[i] != QUOTE && key[i] != BACKSLASH
    ensures Escaped(key) == key
  {
    if key != [] {
      PlainKeyIsItsText(key[..|key| - 1]);
    }
  }

  /** Whether `pair` is member `m`, with spans that slice back to its text in `doc`. */
  predicate Denotes(pair: R.ManifestPair, m: Member, doc: M.Doc) {
    && pair.key == m.key
    && Slice(doc, pair.keySpan.0, pair.keySpan.1) == m.key
    && Slice(doc, pair.valueSpan.0, pair.valueSpan.1) == Print(m.value)
    && match m.value
       case Str(content) => pair.value == R.Str(content)
       case Int(v) => pair.value == R.Int(v)
       case Bool(flag) => pair.value == R.Bool(flag)
       case _ => pair.value == R.Nested(pair.valueSpan.0, pair.valueSpan.1)
  }

  function Slice(doc: M.Doc, start: nat, len: nat): seq<byte> {
    if start + len <= |doc| then doc[start..start + len] else []
  }

  lemma {:induction false} PairsWithinBounds(ms: seq<Member>, n: nat)
    requires Ingestible(ms) && n <= |ms| && forall i :: 0 <= i < |ms| ==> WithinBounds(ms[i])
    requires forall i :: 0 <= i < |ms| ==> InDocument(Spans(ms, true, 1)[i])
    ensures var r := PairsFor(ms, Spans(ms, true, 1), n);
            && r.Success? && |r.value| == n
            && forall i :: 0 <= i < n ==> Denotes(r.value[i], ms[i], Print(Obj(ms)))
  {
    hide Spans, Print, Escaped, Denotes, Ingestible, InDocument, PairFor, WithinBounds;
    if n > 0 {
      PairsWithinBounds(ms, n - 1);
      PairDenotes(ms, n - 1);
    }
  }

  lemma PairDenotes(ms: seq<Member>, i: nat)
    requires Ingestible(ms) && i < |ms| && WithinBounds(ms[i]) && InDocument(Spans(ms, true, 1)[i])
    ensures var r := PairFor(ms[i], Spans(ms, true, 1)[i], i);
            r.Success? && Denotes(r.value, ms[i], Print(Obj(ms)))
  {
    hide *;
    IngestibleFits(ms);
    PrintedSlices(ms, i);
    PairForDenotes(ms[i], Spans(ms, true, 1)[i], i, Print(Obj(ms)));
  }

  lemma PairForDenotes(m: Member, sp: A.Span, i: nat, doc: M.Doc)
    requires WithinBounds(m) && InDocument(sp) && sp.kstart <= sp.kend < sp.vstart <= sp.vend < |doc|
    requires doc[sp.kstart..sp.kend] == Escaped(m.key) && doc[sp.vstart..sp.vend] == Print(m.value)
    ensures PairFor(m, sp, i).Success? && Denotes(PairFor(m, sp, i).value, m, doc)
  {
    hide Print, Escaped;
    PlainKeyIsItsText(m.key);
  }

  lemma IngestibleFits(ms: seq<Member>)
    requires Ingestible(ms)
    ensures |Print(Obj(ms))| <= 512
  {}

  /** Round trip: at most 64 typed members within the bounds come back as themselves, in order. */
  lemma RoundTrip(ms: seq<Member>)
    requires Ingestible(ms) && |ms| <= 64 && forall i :: 0 <= i < |ms| ==> WithinBounds(ms[i])
    ensures var r := R.Ingest(Print(Obj(ms)));
            && r.Success? && |r.value| == |ms|
            && forall i :: 0 <= i < |ms| ==> Denotes(r.value[i], ms[i], Print(Obj(ms)))
  {
    hide R.Ingest, Spans, Print, Denotes, Ingestible, InDocument, WithinBounds;
    IngestsPrinted(ms);
    PairsWithinBounds(ms, |ms|);
  }
}
