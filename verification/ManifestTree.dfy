/** Values as trees, their compact text, and which of those texts the scanner accepts. */
module ManifestTree {
  import opened Machine
  import opened Numerals
  import N = Nest
  import L = NestLanguage

  datatype Tree =
    | Str(content: seq<byte>)
    | Int(value: int)
    | Bool(flag: bool)
    | Obj(members: seq<Member>)
    | Arr(items: seq<Tree>)
  {
    predicate Container() { Obj? || Arr? }
    predicate Empty() { (Obj? && members == []) || (Arr? && items == []) }
  }

  datatype Member = Member(key: seq<byte>, value: Tree)

  // ---------------------------------------------------------------------------------------
  // Compact text

  /** The four escapes the format has. */
  function EscapeByte(b: byte): seq<byte> {
    if b == QUOTE then [BACKSLASH, QUOTE]
    else if b == BACKSLASH then [BACKSLASH, BACKSLASH]
    else if b == NEWLINE then [BACKSLASH, 110]
    else if b == TAB then [BACKSLASH, 116]
    else [b]
  }

  function Escaped(s: seq<byte>): seq<byte> {
    if s == [] then [] else Escaped(s[..|s| - 1]) + EscapeByte(s[|s| - 1])
  }

  function Quoted(s: seq<byte>): seq<byte> { [QUOTE] + Escaped(s) + [QUOTE] }

  function Word(flag: bool): seq<byte> {
    if flag then [116, 114, 117, 101] else [102, 97, 108, 115, 101]
  }

  function Print(t: Tree): seq<byte>
    decreases t, 1
  {
    match t
    case Str(content) => Quoted(content)
    case Int(value) => Decimal(value)
    case Bool(flag) => Word(flag)
    case Obj(members) => [OPEN_OBJECT] + PrintMembers(members, true) + [CLOSE_OBJECT]
    case Arr(items) => [OPEN_ARRAY] + PrintItems(items, true) + [CLOSE_ARRAY]
  }

  function Separator(first: bool): seq<byte> { if first then [] else [COMMA] }

  function PrintMembers(ms: seq<Member>, first: bool): seq<byte>
    decreases ms, 0
  {
    if ms == [] then []
    else Separator(first) + (Quoted(ms[0].key) + [COLON] + Print(ms[0].value)) + PrintMembers(ms[1..], false)
  }

  function PrintItems(ts: seq<Tree>, first: bool): seq<byte>
    decreases ts, 0
  {
    if ts == [] then []
    else Separator(first) + Print(ts[0]) + PrintItems(ts[1..], false)
  }

  /** Every byte can be written: only tab and newline among the control bytes have an escape. */
  predicate Legible(s: seq<byte>) { forall i :: 0 <= i < |s| ==> s[i] >= 32 || s[i] == TAB || s[i] == NEWLINE }

  predicate Printable(t: Tree) {
    match t
    case Str(content) => Legible(content)
    case Int(_) => true
    case Bool(_) => true
    case Obj(members) => forall i :: 0 <= i < |members| ==> Legible(members[i].key) && Printable(members[i].value)
    case Arr(items) => forall i :: 0 <= i < |items| ==> Printable(items[i])
  }

  // ---------------------------------------------------------------------------------------
  // Which trees fit

  /** `flag` says that the last token before the tree, openers aside, was a comma; `first` that the
      tree is the first item of an array. */
  predicate Fits(t: Tree, depth: nat, flag: bool, first: bool)
    decreases t, 1
  {
    t.Container() ==>
      && depth < 4
      && !(first && flag)
      && !(t.Empty() && flag)
      && match t
         case Obj(members) => MembersFit(members, depth + 1)
         case Arr(items) => ItemsFit(items, depth + 1, flag, true)
         case _ => true
  }

  predicate MembersFit(ms: seq<Member>, depth: nat)
    decreases ms, 0
  {
    ms != [] ==> Fits(ms[0].value, depth, false, false) && MembersFit(ms[1..], depth)
  }

  predicate ItemsFit(ts: seq<Tree>, depth: nat, flag: bool, first: bool)
    decreases ts, 0
  {
    ts != [] ==> Fits(ts[0], depth, flag, first) && ItemsFit(ts[1..], depth, true, false)
  }

  // ---------------------------------------------------------------------------------------
  // Scanning text from a given state

  predicate Clean(st: N.NestState, s: seq<byte>) { !N.Scan(st, s).bad }

  function After(st: N.NestState, s: seq<byte>): N.NestState { N.Scan(st, s).state }

  lemma ScanByte(st: N.NestState, b: byte)
    ensures Clean(st, [b]) <==> !N.StepByte(st, b).bad
    ensures After(st, [b]) == N.StepByte(st, b).state
  {
    hide N.StepByte;
    var s := [b];
    assert s[..|s| - 1] == [];
    assert N.Scan(st, s) == N.AccStep(N.Scan(st, []), b, 0, true);
  }

  lemma Then(st: N.NestState, a: seq<byte>, b: seq<byte>)
    ensures Clean(st, a + b) <==> Clean(st, a) && Clean(After(st, a), b)
    ensures Clean(st, a) ==> After(st, a + b) == After(After(st, a), b)
  {
    hide N.Scan;
    L.ScanAppend(st, a, b);
  }

  /** No byte of `s` is met at a depth below `d`. */
  predicate Above(st: N.NestState, s: seq<byte>, d: nat) {
    s != [] ==> Above(st, s[..|s| - 1], d) && After(st, s[..|s| - 1]).depth >= d
  }

  lemma AboveByte(st: N.NestState, b: byte, d: nat)
    requires st.depth >= d
    ensures Above(st, [b], d)
  {
    hide N.StepByte;
    var s := [b];
    assert s[..|s| - 1] == [];
  }

  lemma {:induction false} AboveThen(st: N.NestState, a: seq<byte>, b: seq<byte>, d: nat)
    requires Clean(st, a) && Above(st, a, d) && Above(After(st, a), b, d)
    ensures Above(st, a + b, d)
  {
    hide Clean, After;
    if b == [] {
      assert a + b == a;
    } else {
      var front := b[..|b| - 1];
      assert (a + b)[..|a + b| - 1] == a + front;
      AboveThen(st, a, front, d);
      Then(st, a, front);
    }
  }

  /** The state in which a value may start. */
  predicate AtValue(st: N.NestState) {
    && L.WellFormed(st) && !st.inString
    && ((st.expecting == 0 && st.depth > 0) || (st.expecting == 1 && N.InnermostIsArray(st)))
  }

  /** The state in which the root may start. */
  predicate AtRoot(st: N.NestState) {
    L.WellFormed(st) && !st.inString && st.expecting == 0 && st.depth == 0 && !st.afterComma
  }

  predicate SameNest(st: N.NestState, st': N.NestState) {
    st'.depth == st.depth && forall k :: 0 <= k < st.depth && k < 4 ==> st'.stack[k] == st.stack[k]
  }

  /** What follows a complete value: the same nesting, and a comma or closer expected. */
  predicate Closed(st: N.NestState, st': N.NestState) {
    && L.WellFormed(st') && SameNest(st, st') && !st'.inString && !st'.afterComma
    && st'.expecting == if st.depth == 0 then 4 else 3
  }

  lemma {:induction false} ScanContent(st: N.NestState, s: seq<byte>)
    requires st.inString && !st.esc && Legible(s)
    ensures Clean(st, Escaped(s)) && After(st, Escaped(s)) == st && Above(st, Escaped(s), st.depth)
  {
    if s != [] {
      hide Clean, After;
      var front, b := s[..|s| - 1], s[|s| - 1];
      ScanContent(st, front);
      ScanEscape(st, b);
      Then(st, Escaped(front), EscapeByte(b));
      AboveThen(st, Escaped(front), EscapeByte(b), st.depth);
    }
  }

  lemma ScanEscape(st: N.NestState, b: byte)
    requires st.inString && !st.esc && (b >= 32 || b == TAB || b == NEWLINE)
    ensures Clean(st, EscapeByte(b)) && After(st, EscapeByte(b)) == st && Above(st, EscapeByte(b), st.depth)
  {
    hide Clean, After, Above;
    if |EscapeByte(b)| == 2 {
      var c := EscapeByte(b)[1];
      assert EscapeByte(b) == [BACKSLASH] + [c];
      ScanByte(st, BACKSLASH);
      ScanByte(st.(esc := true), c);
      Then(st, [BACKSLASH], [c]);
      AboveByte(st, BACKSLASH, st.depth);
      AboveByte(st.(esc := true), c, st.depth);
      AboveThen(st, [BACKSLASH], [c], st.depth);
    } else {
      ScanByte(st, b);
      AboveByte(st, b, st.depth);
    }
  }

  lemma ScanQuoted(st: N.NestState, s: seq<byte>)
    requires !st.inString && st.expecting <= 1 && Legible(s)
    ensures var body := st.(inLiteral := false, inString := true, esc := false, afterComma := false);
            && (Clean(st, Quoted(s)) <==> !N.CloseString(body).bad)
            && After(st, Quoted(s)) == N.CloseString(body).state
    ensures Above(st, Quoted(s), st.depth)
  {
    hide Clean, After, Above;
    var body := st.(inLiteral := false, inString := true, esc := false, afterComma := false);
    ScanByte(st, QUOTE);
    ScanByte(body, QUOTE);
    ScanContent(body, s);
    Then(st, [QUOTE], Escaped(s));
    Then(st, [QUOTE] + Escaped(s), [QUOTE]);
    AboveByte(st, QUOTE, st.depth);
    AboveByte(body, QUOTE, st.depth);
    AboveThen(st, [QUOTE], Escaped(s), st.depth);
    AboveThen(st, [QUOTE] + Escaped(s), [QUOTE], st.depth);
  }

  lemma {:induction false} ScanLiteralRest(st: N.NestState, s: seq<byte>)
    requires !st.inString && st.inLiteral && forall i :: 0 <= i < |s| ==> N.IsLiteralChar(s[i])
    ensures Clean(st, s) && After(st, s) == st && Above(st, s, st.depth)
  {
    if s != [] {
      ScanLiteralRest(st, s[..|s| - 1]);
    }
  }

  lemma ScanLiteral(st: N.NestState, s: seq<byte>)
    requires AtValue(st) && !st.inLiteral && s != []
    requires s[0] == 116 || s[0] == 102 || s[0] == MINUS || IsDigit(s[0])
    requires forall i :: 0 <= i < |s| ==> N.IsLiteralChar(s[i])
    ensures Clean(st, s) && Closed(st, After(st, s)) && Above(st, s, st.depth)
  {
    hide Clean, After, Above;
    var begun := st.(expecting := 3, seenValue := true, inLiteral := true, afterComma := false);
    assert s == [s[0]] + s[1..];
    Then(st, [s[0]], s[1..]);
    ScanByte(st, s[0]);
    assert N.StepByte(st, s[0]) == N.Step(begun, false);
    ScanLiteralRest(begun, s[1..]);
    AboveByte(st, s[0], st.depth);
    AboveThen(st, [s[0]], s[1..], st.depth);
  }

  lemma ScanScalar(st: N.NestState, t: Tree)
    requires AtValue(st) && !st.inLiteral && Printable(t) && !t.Container()
    ensures Clean(st, Print(t)) && Closed(st, After(st, Print(t))) && Above(st, Print(t), st.depth)
  {
    hide Clean, After, Above;
    match t
    case Str(content) => ScanQuoted(st, content);
    case Int(value) => ScanLiteral(st, Decimal(value));
    case Bool(flag) => ScanLiteral(st, Word(flag));
  }

  // ---------------------------------------------------------------------------------------
  // Containers

  function CloserOf(t: Tree): u64 { if t.Obj? then 1 else 2 }

  /** Just inside a container that `t` opened from `st`. */
  function Entered(st: N.NestState, closer: u64): N.NestState
    requires st.depth < 4
  {
    st.(inLiteral := false, depth := st.depth + 1, stack := st.stack[st.depth := closer], expecting := 1,
        maxDepth := if st.depth + 1 > st.maxDepth then st.depth + 1 else st.maxDepth, seenValue := true)
  }

  lemma ScanOpen(st: N.NestState, closer: u64)
    requires AtValue(st) || AtRoot(st)
    requires closer == 1 || closer == 2
    ensures var b := if closer == 1 then OPEN_OBJECT else OPEN_ARRAY;
            && (Clean(st, [b]) <==> st.depth < 4 && !(st.expecting == 1 && st.afterComma))
            && (Clean(st, [b]) ==> After(st, [b]) == Entered(st, closer) && L.WellFormed(After(st, [b])))
  {
    var b := if closer == 1 then OPEN_OBJECT else OPEN_ARRAY;
    ScanByte(st, b);
    if Clean(st, [b]) {
      L.StepKeepsWellFormed(st, b);
    }
  }

  /** Directly inside a container, at its first slot or after a complete entry. */
  predicate Within(st: N.NestState, closer: u64) {
    && L.WellFormed(st) && !st.inString && st.depth > 0 && N.InnermostIsArray(st) == (closer == 2)
    && (st.expecting == 1 || st.expecting == 3)
  }

  lemma ScanClose(st: N.NestState, closer: u64)
    requires Within(st, closer) && (closer == 1 || closer == 2)
    requires st.expecting == 3 ==> !st.afterComma
    ensures var b := if closer == 1 then CLOSE_OBJECT else CLOSE_ARRAY;
            && (Clean(st, [b]) <==> !(st.expecting == 1 && st.afterComma))
            && (Clean(st, [b]) ==>
                  var st' := After(st, [b]);
                  && L.WellFormed(st') && st'.depth == st.depth - 1 && st'.stack == st.stack
                  && !st'.inString && !st'.afterComma && st'.expecting == if st.depth == 1 then 4 else 3)
  {
    var b := if closer == 1 then CLOSE_OBJECT else CLOSE_ARRAY;
    ScanByte(st, b);
    if Clean(st, [b]) {
      L.StepKeepsWellFormed(st, b);
    }
  }

  /** A key and its colon, at the first slot of an object or after a comma. */
  lemma ScanKey(st: N.NestState, key: seq<byte>)
    requires Within(st, 1) && st.expecting == 1 && Legible(key)
    ensures var s := Quoted(key) + [COLON];
            && Clean(st, s)
            && AtValue(After(st, s)) && SameNest(st, After(st, s)) && !After(st, s).inLiteral
            && After(st, s).expecting == 0 && !After(st, s).afterComma
            && Above(st, s, st.depth)
  {
    hide Clean, After, Above;
    var body := st.(inLiteral := false, inString := true, esc := false, afterComma := false);
    ScanQuoted(st, key);
    var named := After(st, Quoted(key));
    assert named == body.(inString := false, expecting := 2);
    ScanByte(named, COLON);
    Then(st, Quoted(key), [COLON]);
    AboveByte(named, COLON, st.depth);
    AboveThen(st, Quoted(key), [COLON], st.depth);
  }

  /** A comma after a complete entry. */
  lemma ScanComma(st: N.NestState, closer: u64)
    requires Within(st, closer) && st.expecting == 3 && (closer == 1 || closer == 2)
    ensures Above(st, [COMMA], st.depth)
    ensures var st' := After(st, [COMMA]);
            && Clean(st, [COMMA]) && SameNest(st, st') && st'.afterComma && !st'.inLiteral
            && if closer == 1 then Within(st', 1) && st'.expecting == 1
               else AtValue(st') && st'.expecting == 0
  {
    hide Clean, After, Above;
    ScanByte(st, COMMA);
    AboveByte(st, COMMA, st.depth);
    L.StepKeepsWellFormed(st, COMMA);
  }

  /** Where scanning the entries of a container leaves off. */
  predicate Filled(st: N.NestState, st': N.NestState, closer: u64) {
    Within(st', closer) && SameNest(st, st') && st'.expecting == 3 && !st'.afterComma
  }

  predicate MayOpen(st: N.NestState) { st.depth < 4 && !(st.expecting == 1 && st.afterComma) }

  function Bracketed(closer: u64, content: seq<byte>): seq<byte> {
    if closer == 1 then [OPEN_OBJECT] + content + [CLOSE_OBJECT] else [OPEN_ARRAY] + content + [CLOSE_ARRAY]
  }

  /** Putting brackets around entries whose own scan is known. */
  lemma ScanBracketed(st: N.NestState, closer: u64, content: seq<byte>, empty: bool, fit: bool)
    requires (AtValue(st) || AtRoot(st)) && (closer == 1 || closer == 2)
    requires MayOpen(st) ==> (Clean(Entered(st, closer), content) <==> fit)
    requires MayOpen(st) && fit ==>
               if empty then After(Entered(st, closer), content) == Entered(st, closer)
               else Filled(Entered(st, closer), After(Entered(st, closer), content), closer)
    requires MayOpen(st) && fit ==> Above(Entered(st, closer), content, st.depth + 1)
    ensures Clean(st, Bracketed(closer, content)) <==> MayOpen(st) && !(empty && st.afterComma) && fit
    ensures Clean(st, Bracketed(closer, content)) ==>
              Closed(st, After(st, Bracketed(closer, content))) && Above(st, Bracketed(closer, content), st.depth)
  {
    hide Clean, After, Above, L.WellFormed;
    ScanOpen(st, closer);
    var open, close := [if closer == 1 then OPEN_OBJECT else OPEN_ARRAY], [if closer == 1 then CLOSE_OBJECT
        else CLOSE_ARRAY];
    Then(st, open, content);
    Then(st, open + content, close);
    if MayOpen(st) && fit {
      var full := After(Entered(st, closer), content);
      EnteredTop(st, closer);
      ScanClose(full, closer);
      if Clean(full, close) {
        ReturnsToNest(st, closer, full, After(full, close));
        AboveLower(Entered(st, closer), content, st.depth + 1, st.depth);
        AboveByte(st, open[0], st.depth);
        AboveByte(full, close[0], st.depth);
        AboveThen(st, open, content, st.depth);
        AboveThen(st, open + content, close, st.depth);
      }
    }
  }

  lemma {:induction false} AboveLower(st: N.NestState, s: seq<byte>, d: nat, e: nat)
    requires Above(st, s, d) && e <= d
    ensures Above(st, s, e)
  {
    hide After;
    if s != [] {
      AboveLower(st, s[..|s| - 1], d, e);
    }
  }

  lemma EnteredTop(st: N.NestState, closer: u64)
    requires (AtValue(st) || AtRoot(st)) && MayOpen(st) && (closer == 1 || closer == 2)
    requires L.WellFormed(Entered(st, closer))
    ensures Within(Entered(st, closer), closer)
  {}

  lemma ReturnsToNest(st: N.NestState, closer: u64, full: N.NestState, st': N.NestState)
    requires st.depth < 4 && SameNest(Entered(st, closer), full)
    requires st'.depth == full.depth - 1 && st'.stack == full.stack
    ensures SameNest(st, st')
  {
    forall k | 0 <= k < st.depth ensures st'.stack[k] == st.stack[k] {
      assert Entered(st, closer).stack[k] == st.stack[k];
    }
  }

  lemma NestTrans(a: N.NestState, b: N.NestState, c: N.NestState)
    requires SameNest(a, b) && SameNest(b, c)
    ensures SameNest(a, c)
  {}

  lemma {:induction false} ScanTree(st: N.NestState, t: Tree)
    requires AtValue(st) || (AtRoot(st) && t.Container())
    requires !st.inLiteral && Printable(t)
    ensures Clean(st, Print(t)) <==> Fits(t, st.depth, st.afterComma, st.expecting == 1)
    ensures Clean(st, Print(t)) ==> Closed(st, After(st, Print(t))) && Above(st, Print(t), st.depth)
    decreases t, 1
  {
    hide Clean, After, Above, L.WellFormed, Print, PrintMembers, PrintItems, Fits, MembersFit, ItemsFit;
    if t.Container() {
      TreeUnfolds(t, st.depth, st.afterComma, st.expecting == 1);
      PartsPrintable(t);
      hide Printable;
      var closer := CloserOf(t);
      var content := if t.Obj? then PrintMembers(t.members, true) else PrintItems(t.items, true);
      var fit := if t.Obj? then MembersFit(t.members, st.depth + 1)
          else ItemsFit(t.items, st.depth + 1, st.afterComma, true);
      ScanOpen(st, closer);
      if MayOpen(st) {
        EnteredTop(st, closer);
        if t.Obj? {
          ScanMembers(Entered(st, closer), t.members, true);
        } else {
          ScanItems(Entered(st, closer), t.items, true);
        }
      }
      ScanBracketed(st, closer, content, t.Empty(), fit);
    } else {
      ScanScalar(st, t);
      ScalarFits(t, st.depth, st.afterComma, st.expecting == 1);
    }
  }

  lemma TreeUnfolds(t: Tree, depth: nat, flag: bool, first: bool)
    requires t.Container()
    ensures Print(t) == Bracketed(CloserOf(t), if t.Obj? then PrintMembers(t.members, true)
                                               else PrintItems(t.items, true))
    ensures Fits(t, depth, flag, first)
            <==> && depth < 4 && !(first && flag) && !(t.Empty() && flag)
                 && if t.Obj? then MembersFit(t.members, depth + 1) else ItemsFit(t.items, depth + 1, flag, true)
  {
    hide PrintMembers, PrintItems, MembersFit, ItemsFit;
  }

  lemma PartsPrintable(t: Tree)
    requires Printable(t)
    ensures t.Obj? ==> forall i :: 0 <= i < |t.members| ==> Legible(t.members[i].key) && Printable(t.members[i].value)
    ensures t.Arr? ==> forall i :: 0 <= i < |t.items| ==> Printable(t.items[i])
  {
    hide Legible;
  }

  lemma ScalarFits(t: Tree, depth: nat, flag: bool, first: bool)
    requires !t.Container()
    ensures Fits(t, depth, flag, first)
  {}

  lemma {:induction false} ScanMembers(st: N.NestState, ms: seq<Member>, first: bool)
    requires Within(st, 1) && st.expecting == (if first then 1 else 3) && (!first ==> !st.afterComma)
    requires forall i :: 0 <= i < |ms| ==> Legible(ms[i].key) && Printable(ms[i].value)
    ensures Clean(st, PrintMembers(ms, first)) <==> MembersFit(ms, st.depth)
    ensures Clean(st, PrintMembers(ms, first)) ==>
              if ms == [] then After(st, PrintMembers(ms, first)) == st
              else Filled(st, After(st, PrintMembers(ms, first)), 1)
    ensures Clean(st, PrintMembers(ms, first)) ==> Above(st, PrintMembers(ms, first), st.depth)
    decreases ms, 0
  {
    if ms == [] {
      return;
    }
    hide Clean, After, Above, L.WellFormed, Legible, Printable;
    var m, rest := ms[0], PrintMembers(ms[1..], false);
    var named := Quoted(m.key) + [COLON];
    var st1 := After(st, Separator(first));
    var st2 := After(st1, named);
    ScanSeparator(st, first);
    ScanKey(st1, m.key);
    ScanTree(st2, m.value);
    Then(st1, named, Print(m.value));
    Then(st, Separator(first), named + Print(m.value));
    Then(st, Separator(first) + (named + Print(m.value)), rest);
    if Fits(m.value, st.depth, false, false) {
      var st3 := After(st2, Print(m.value));
      NestTrans(st, st1, st2);
      NestTrans(st, st2, st3);
      StillWithin(st, st3, 1);
      ScanMembers(st3, ms[1..], false);
      AboveThen(st1, named, Print(m.value), st.depth);
      AboveThen(st, Separator(first), named + Print(m.value), st.depth);
      if MembersFit(ms[1..], st.depth) {
        NestTrans(st, st3, After(st3, rest));
        AboveThen(st, Separator(first) + (named + Print(m.value)), rest, st.depth);
      }
    }
  }

  lemma ScanSeparator(st: N.NestState, first: bool)
    requires Within(st, 1) && st.expecting == (if first then 1 else 3)
    ensures var st' := After(st, Separator(first));
            && Clean(st, Separator(first)) && Above(st, Separator(first), st.depth)
            && Within(st', 1) && st'.expecting == 1 && SameNest(st, st')
  {
    if !first {
      ScanComma(st, 1);
    }
  }

  lemma StillWithin(st: N.NestState, st': N.NestState, closer: u64)
    requires Within(st, closer) && Closed(st, st')
    ensures Filled(st, st', closer)
  {}

  lemma {:induction false} ScanItems(st: N.NestState, ts: seq<Tree>, first: bool)
    requires Within(st, 2) && st.expecting == (if first then 1 else 3)
    requires if first then !st.inLiteral else !st.afterComma
    requires forall i :: 0 <= i < |ts| ==> Printable(ts[i])
    ensures Clean(st, PrintItems(ts, first)) <==> ItemsFit(ts, st.depth, !first || st.afterComma, first)
    ensures Clean(st, PrintItems(ts, first)) ==>
              if ts == [] then After(st, PrintItems(ts, first)) == st
              else Filled(st, After(st, PrintItems(ts, first)), 2)
    ensures Clean(st, PrintItems(ts, first)) ==> Above(st, PrintItems(ts, first), st.depth)
    decreases ts, 0
  {
    if ts == [] {
      return;
    }
    var t, rest := ts[0], PrintItems(ts[1..], false);
    var st1 := if first then st else After(st, [COMMA]);
    if !first {
      ScanComma(st, 2);
    }
    hide Clean, After, Above, L.WellFormed, Printable;
    ScanTree(st1, t);
    Then(st, Separator(first), Print(t));
    Then(st, Separator(first) + Print(t), rest);
    if Fits(t, st.depth, !first || st.afterComma, first) {
      var st2 := After(st1, Print(t));
      NestTrans(st, st1, st2);
      StillWithin(st, st2, 2);
      ScanItems(st2, ts[1..], false);
      AboveThen(st, Separator(first), Print(t), st.depth);
      if ItemsFit(ts[1..], st.depth, true, false) {
        NestTrans(st, st2, After(st2, rest));
        AboveThen(st, Separator(first) + Print(t), rest, st.depth);
      }
    }
  }

  // ---------------------------------------------------------------------------------------
  // The accepted trees, in the tree's own terms

  /** At most `n` containers on any path. */
  predicate DepthAtMost(t: Tree, n: nat) {
    match t
    case Obj(members) => n > 0 && forall i :: 0 <= i < |members| ==> DepthAtMost(members[i].value, n - 1)
    case Arr(items) => n > 0 && forall i :: 0 <= i < |items| ==> DepthAtMost(items[i], n - 1)
    case _ => true
  }

  /** Not an empty container, nor an array that starts with a container. */
  predicate Tame(t: Tree) {
    t.Container() ==> !t.Empty() && !(t.Arr? && t.items[0].Container())
  }

  /** Every array item but the first is tame. */
  predicate Plain(t: Tree) {
    match t
    case Obj(members) => forall i :: 0 <= i < |members| ==> Plain(members[i].value)
    case Arr(items) =>
      && (forall i :: 0 <= i < |items| ==> Plain(items[i]))
      && (forall i :: 0 < i < |items| ==> Tame(items[i]))
    case _ => true
  }

  lemma {:induction false} FitsMeans(t: Tree, depth: nat, flag: bool, first: bool)
    requires depth <= 4
    ensures Fits(t, depth, flag, first)
            <==> DepthAtMost(t, 4 - depth) && Plain(t) && (flag && t.Container() ==> !first && Tame(t))
    decreases t, 1
  {
    if t.Obj? && depth < 4 {
      MembersFitMeans(t.members, depth + 1);
    } else if t.Arr? && depth < 4 {
      ItemsFitMeans(t.items, depth + 1, flag, true);
    }
  }

  lemma {:induction false} MembersFitMeans(ms: seq<Member>, depth: nat)
    requires depth <= 4
    ensures MembersFit(ms, depth)
            <==> forall i :: 0 <= i < |ms| ==> DepthAtMost(ms[i].value, 4 - depth) && Plain(ms[i].value)
    decreases ms, 0
  {
    if ms != [] {
      hide Fits, DepthAtMost, Plain;
      FitsMeans(ms[0].value, depth, false, false);
      MembersFitMeans(ms[1..], depth);
      assert forall i :: 0 < i < |ms| ==> ms[i] == ms[1..][i - 1];
    }
  }

  lemma {:induction false} ItemsFitMeans(ts: seq<Tree>, depth: nat, flag: bool, first: bool)
    requires depth <= 4 && (!first ==> flag)
    ensures ItemsFit(ts, depth, flag, first)
            <==> && (forall i :: 0 <= i < |ts| ==> DepthAtMost(ts[i], 4 - depth) && Plain(ts[i]))
                 && (forall i :: (if first then 1 else 0) <= i < |ts| ==> Tame(ts[i]))
                 && (first && flag && ts != [] ==> !ts[0].Container())
    decreases ts, 0
  {
    if ts != [] {
      hide Fits, DepthAtMost, Plain, Tame;
      FitsMeans(ts[0], depth, flag, first);
      ItemsFitMeans(ts[1..], depth, true, false);
      assert forall i :: 0 < i < |ts| ==> ts[i] == ts[1..][i - 1];
      if !first && !ts[0].Container() {
        ScalarIsTame(ts[0]);
      }
    }
  }

  lemma ScalarIsTame(t: Tree)
    requires !t.Container()
    ensures Tame(t)
  {}

  /** The compact text of a container is a complete document if and only if the tree is at most
      four deep and every array item but the first is tame. */
  lemma AcceptedTrees(t: Tree)
    requires t.Container() && Printable(t)
    ensures L.Accepted(Print(t)) <==> DepthAtMost(t, 4) && Plain(t)
  {
    hide Print, Printable, Fits, DepthAtMost, Plain, L.WellFormed, Tame, N.Scan;
    SeedAtRoot();
    ScanTree(N.SEED, t);
    FitsMeans(t, 0, false, false);
  }

  lemma SeedAtRoot()
    ensures AtRoot(N.SEED)
  {}
}
