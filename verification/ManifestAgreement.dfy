/** The scanner, `pair_count` and `locate_pair` are four automata written apart.  On every document
    the scanner accepts they agree on where the top-level members are, exactly when the root is
    an object whose first token is not a container. */
module ManifestAgreement {
  import opened Machine
  import N = Nest
  import L = NestLanguage
  import M = Manifest

  type Doc = M.Doc

  // ---------------------------------------------------------------------------------------
  // The reference: members read off the scanner's own states

  /** Key content is [kstart..kend), value text is [vstart..vend). */
  datatype Span = Span(kstart: nat, kend: nat, vstart: nat, vend: nat)

  datatype Walk = Walk(st: N.NestState, members: seq<Span>, ks: nat, ke: nat, vs: nat)

  const START: Walk := Walk(N.SEED, [], 0, 0, 0)

  /** What the byte at offset `i` means to a reader who knows the scanner state before it. */
  function WalkStep(w: Walk, b: byte, i: nat): Walk {
    var st := w.st;
    var next := w.(st := N.StepByte(st, b).state);
    if st.depth != 1 then next
    else if st.inString then
      if st.expecting == 1 && b == QUOTE && !st.esc then next.(ke := i) else next
    else if IsSpace(b) then next
    else if st.expecting == 1 && b == QUOTE then next.(ks := i + 1)
    else if st.expecting == 0 then next.(vs := i)
    else if st.expecting == 3 && (b == COMMA || b == CLOSE_OBJECT) then
      next.(members := w.members + [Span(w.ks, w.ke, w.vs, i)])
    else next
  }

  function WalkTo(s: Doc): Walk {
    if s == [] then START else WalkStep(WalkTo(s[..|s| - 1]), s[|s| - 1], |s| - 1)
  }

  function Members(doc: Doc): seq<Span> { WalkTo(doc).members }

  lemma {:induction false} WalkIsScan(s: Doc)
    requires !N.Scan(N.SEED, s).bad
    ensures WalkTo(s).st == N.Scan(N.SEED, s).state
  {
    hide N.StepByte;
    if s != [] {
      WalkIsScan(s[..|s| - 1]);
    }
  }

  // ---------------------------------------------------------------------------------------
  // The condition, checkable before the call

  function FirstToken(s: seq<byte>, from: nat): (p: nat)
    ensures from <= p
    ensures forall i :: from <= i < p && i < |s| ==> IsSpace(s[i])
    ensures p < |s| ==> !IsSpace(s[p])
    decreases |s| - from
  {
    if from < |s| && IsSpace(s[from]) then FirstToken(s, from + 1) else from
  }

  /** The root is an object and its first token is not itself a container. */
  predicate KeyedRoot(doc: seq<byte>) {
    var p := FirstToken(doc, 0);
    var q := FirstToken(doc, p + 1);
    p < |doc| && doc[p] == OPEN_OBJECT && (q < |doc| ==> !N.IsOpen(doc[q]))
  }

  const ROOT_OPEN: N.NestState :=
    N.NestState(1, [1, 0, 0, 0], 1, false, false, 1, true, false, false)

  /** At the top level of the root with no member begun and no comma seen. */
  predicate Fresh(st: N.NestState) {
    st.depth == 1 && st.expecting == 1 && !st.afterComma && !st.inString
  }

  /** Where a keyed document can be after `n` bytes. */
  predicate Keyed(st: N.NestState, doc: seq<byte>, n: nat) {
    var p := FirstToken(doc, 0);
    var q := FirstToken(doc, p + 1);
    && (n <= p ==> st == N.SEED)
    && (p < n <= q ==> st == ROOT_OPEN)
    && (p < n ==> !(st.depth == 0 && st.expecting == 0) && (st.depth > 0 ==> st.stack[0] == 1))
    && (q < n ==> !Fresh(st))
  }

  lemma StepKeepsKeyed(st: N.NestState, doc: seq<byte>, n: nat)
    requires KeyedRoot(doc) && n < |doc| && L.WellFormed(st) && Keyed(st, doc, n)
    requires !N.StepByte(st, doc[n]).bad
    ensures Keyed(N.StepByte(st, doc[n]).state, doc, n + 1)
  {
    hide N.StepByte, L.WellFormed;
    var p := FirstToken(doc, 0);
    var q := FirstToken(doc, p + 1);
    if n < p || p < n < q {
      SpaceStays(st, doc[n]);
    } else if n == p {
      RootOpens();
    } else {
      RootStays(st, doc[n]);
    }
  }

  lemma SpaceStays(st: N.NestState, b: byte)
    requires !st.inString && IsSpace(b)
    ensures N.StepByte(st, b).state == st
  {}

  lemma RootOpens()
    ensures N.StepByte(N.SEED, OPEN_OBJECT).state == ROOT_OPEN
  {}

  /** Past its first token a keyed root stays an object and is not fresh again. */
  lemma RootStays(st: N.NestState, b: byte)
    requires L.WellFormed(st) && !N.StepByte(st, b).bad
    requires !(st.depth == 0 && st.expecting == 0) && (st.depth > 0 ==> st.stack[0] == 1)
    requires Fresh(st) ==> !IsSpace(b) && !N.IsOpen(b)
    ensures var st' := N.StepByte(st, b).state;
            && !(st'.depth == 0 && st'.expecting == 0) && (st'.depth > 0 ==> st'.stack[0] == 1)
            && !Fresh(st')
  {
    hide N.StepByte, L.WellFormed;
    if st.inString {
      InStringStays(st, b);
    } else if !IsSpace(b) && N.IsOpen(b) {
      OpenStays(st, b);
    } else {
      TokenStays(st, b);
    }
  }

  /** Past the first token: not before the root, within it at the bottom, and not fresh. */
  predicate PastFirst(st: N.NestState) {
    !(st.depth == 0 && st.expecting == 0) && (st.depth > 0 ==> st.stack[0] == 1) && !Fresh(st)
  }

  lemma InStringStays(st: N.NestState, b: byte)
    requires L.WellFormed(st) && !N.StepByte(st, b).bad && st.inString
    requires !(st.depth == 0 && st.expecting == 0) && (st.depth > 0 ==> st.stack[0] == 1)
    ensures PastFirst(N.StepByte(st, b).state)
  {
    hide N.StepToken;
  }

  lemma OpenStays(st: N.NestState, b: byte)
    requires L.WellFormed(st) && !N.StepByte(st, b).bad && !st.inString && N.IsOpen(b) && PastFirst(st)
    ensures PastFirst(N.StepByte(st, b).state)
  {
    hide N.StepString, N.CloseContainer, N.LiteralToken, N.AfterComma;
  }

  lemma TokenStays(st: N.NestState, b: byte)
    requires L.WellFormed(st) && !N.StepByte(st, b).bad && !st.inString && !N.IsOpen(b)
    requires !(st.depth == 0 && st.expecting == 0) && (st.depth > 0 ==> st.stack[0] == 1)
    requires Fresh(st) ==> !IsSpace(b)
    ensures PastFirst(N.StepByte(st, b).state)
  {
    hide N.StepString, N.OpenContainer;
  }

  lemma {:induction false} ScanKeyed(doc: Doc, n: nat)
    requires KeyedRoot(doc) && n <= |doc| && !N.Scan(N.SEED, doc[..n]).bad
    ensures Keyed(N.Scan(N.SEED, doc[..n]).state, doc, n)
  {
    hide N.StepByte;
    if n > 0 {
      assert doc[..n][..n - 1] == doc[..n - 1];
      ScanKeyed(doc, n - 1);
      L.ScanWellFormed(doc[..n - 1]);
      StepKeepsKeyed(N.Scan(N.SEED, doc[..n - 1]).state, doc, n - 1);
    }
  }

  /** What one transition from a reachable, keyed state can be assumed to satisfy. */
  predicate Reachable(st: N.NestState) {
    && L.WellFormed(st)
    && (st.depth > 0 ==> st.stack[0] == 1)
    && (st.depth == 0 && st.expecting == 0 ==> st == N.SEED)
  }

  predicate Allowed(st: N.NestState, b: byte) {
    && Reachable(st)
    && !N.StepByte(st, b).bad
    && (st == N.SEED ==> IsSpace(b) || b == OPEN_OBJECT)
    && (Fresh(st) ==> !N.IsOpen(b))
  }

  lemma ScanAllowed(doc: Doc, n: nat)
    requires L.Accepted(doc) && KeyedRoot(doc) && n < |doc|
    ensures !N.Scan(N.SEED, doc[..n]).bad
    ensures Allowed(N.Scan(N.SEED, doc[..n]).state, doc[n])
  {
    hide N.StepByte, L.WellFormed;
    L.PrefixVerdict(doc, n);
    L.PrefixVerdict(doc, n + 1);
    L.ScanWellFormed(doc[..n]);
    ScanKeyed(doc, n);
    assert doc[..n + 1][..n] == doc[..n];
  }

  // ---------------------------------------------------------------------------------------
  // Counting agrees

  /** Between a member's colon and the delimiter after its value. */
  predicate Pending(st: N.NestState) {
    st.depth >= 2 || (st.depth == 1 && (st.expecting == 0 || st.expecting == 3))
  }

  predicate Counts(w: Walk, c: M.CountSt) {
    && c.depth == w.st.depth && c.instr == w.st.inString && c.esc == w.st.esc
    && c.count == |w.members| + if Pending(w.st) then 1 else 0
  }

  lemma StepCounts(w: Walk, c: M.CountSt, b: byte, i: nat)
    requires Allowed(w.st, b) && Counts(w, c) && i < 512 && |w.members| <= i
    ensures Counts(WalkStep(w, b, i), M.CountStep(c, b, true))
    ensures |WalkStep(w, b, i).members| <= i + 1
  {
    hide N.StepByte, M.CountStep, WalkStep, Counts, Allowed;
    if w.st.inString {
      StringCounts(w, c, b, i);
    } else {
      TokenCounts(w, c, b, i);
    }
  }

  lemma StringCounts(w: Walk, c: M.CountSt, b: byte, i: nat)
    requires Allowed(w.st, b) && Counts(w, c) && i < 512 && |w.members| <= i && w.st.inString
    ensures Counts(WalkStep(w, b, i), M.CountStep(c, b, true)) && |WalkStep(w, b, i).members| <= i + 1
  {
    hide N.StepToken;
  }

  lemma TokenCounts(w: Walk, c: M.CountSt, b: byte, i: nat)
    requires Allowed(w.st, b) && Counts(w, c) && i < 512 && |w.members| <= i && !w.st.inString
    ensures Counts(WalkStep(w, b, i), M.CountStep(c, b, true)) && |WalkStep(w, b, i).members| <= i + 1
  {
    hide N.StepByte, L.WellFormed;
    ShallowMeans(w.st);
    if InValue(w.st) {
      ValueTransition(w.st, b);
      if w.st.depth == 1 {
        NoColonInValue(w.st, b);
      }
    } else {
      OuterTransition(w.st, b);
    }
  }

  lemma NoColonInValue(st: N.NestState, b: byte)
    requires Allowed(st, b) && InValue(st) && st.depth == 1 && !st.inString
    ensures b != COLON
  {}

  lemma ShallowMeans(st: N.NestState)
    requires Reachable(st)
    ensures st.depth <= 4 && st.expecting <= 4
    ensures st.depth > 0 ==> st.stack[0] == 1
    ensures st.esc ==> st.inString
  {}

  lemma {:induction false} WalkCounts(doc: Doc, n: nat)
    requires L.Accepted(doc) && KeyedRoot(doc) && n <= |doc|
    ensures Counts(WalkTo(doc[..n]), M.CountTo(doc[..n])) && |WalkTo(doc[..n]).members| <= n
  {
    hide N.StepByte, L.WellFormed;
    if n > 0 {
      assert doc[..n][..n - 1] == doc[..n - 1];
      WalkCounts(doc, n - 1);
      ScanAllowed(doc, n - 1);
      WalkIsScan(doc[..n - 1]);
      StepCounts(WalkTo(doc[..n - 1]), M.CountTo(doc[..n - 1]), doc[n - 1], n - 1);
    }
  }

  /** `pair_count` is the number of members the scanner saw. */
  lemma CountAgrees(doc: Doc)
    requires L.Accepted(doc) && KeyedRoot(doc)
    ensures M.CountTo(doc).count == |Members(doc)|
  {
    hide N.StepByte;
    WalkCounts(doc, |doc|);
    WalkIsScan(doc);
    assert doc[..|doc|] == doc;
  }

  // ---------------------------------------------------------------------------------------
  // Locating agrees

  /** Inside the value of a member: its text has begun and its delimiter has not come. */
  predicate InValue(st: N.NestState) {
    st.depth >= 2 || (st.depth == 1 && (st.expecting == 3 || (st.expecting == 0 && st.inString)))
  }

  /** The locator between members: `locate_step` mirrors the scanner. */
  predicate Between(w: Walk, ls: M.LocSt) {
    var st := w.st;
    && !ls.skipping
    && ls.instr == ls.inkey == st.inString
    && ls.esc == st.esc
    && (st.depth == 0 && st.expecting == 0 ==> ls.depth == 0 && ls.phase == 0)
    && (st.depth == 1 ==> ls.depth == 1 && ls.stack[0] == 1)
    && (st.depth == 1 && st.expecting == 1 ==>
          if st.inString then ls.phase == 1 && ls.kstart == w.ks else ls.phase == 0)
    && (st.depth == 1 && st.expecting == 2 ==> ls.phase == 2 && ls.kstart == w.ks && ls.kend == w.ke)
    && (st.depth == 1 && st.expecting == 0 ==> ls.phase == 3 && ls.kstart == w.ks && ls.kend == w.ke)
  }

  /** The locator inside a value: `skip_step` only follows strings and nesting. */
  predicate Skipping(w: Walk, ls: M.LocSt, index: nat) {
    && ls.skipping && ls.phase == 5 && ls.depth == 1 && ls.stack[0] == 1
    && ls.instr == w.st.inString && ls.esc == w.st.esc && !ls.inkey
    && ls.skipDepth == w.st.depth - 1
    && (ls.want <==> |w.members| == index)
    && (ls.want ==> ls.fkstart == w.ks && ls.fkend == w.ke && ls.vstart == w.vs && w.ke - w.ks <= 32)
  }

  predicate Answers(sp: Span, ls: M.LocSt) {
    && sp.kstart <= sp.kend <= sp.vstart <= sp.vend
    && ls.fkstart == sp.kstart && ls.fkend == sp.kend && ls.vstart == sp.vstart && ls.vend == sp.vend
    && sp.kend - sp.kstart <= 32
  }

  predicate Follows(w: Walk, ls: M.LocSt, index: nat) {
    && !ls.bad
    && (if ls.done then index < |w.members| && Answers(w.members[index], ls) && !ls.oversize
        else if ls.oversize then
          || (index < |w.members| && w.members[index].kend - w.members[index].kstart > 32)
          || (index == |w.members| && InValue(w.st) && w.ke - w.ks > 32)
        else
          && |w.members| <= index
          && (w.st.expecting != 4 ==> ls.pair == |w.members|)
          && (if InValue(w.st) then Skipping(w, ls, index) else Between(w, ls)))
  }

  /** Offsets recorded so far are in order and behind offset `n`. */
  predicate Ordered(w: Walk, n: nat) {
    var st := w.st;
    var m := |w.members|;
    && m <= n
    && (forall j :: 0 <= j < m ==>
          var sp := w.members[j]; sp.kstart <= sp.kend < sp.vstart < sp.vend < n)
    && (forall j :: 0 < j < m ==> w.members[j - 1].vend < w.members[j].kstart)
    && (Reached(st) ==> w.ks <= n && (m > 0 ==> w.members[m - 1].vend < w.ks))
    && (ReachedColon(st) ==> w.ks <= w.ke < n)
    && (InValue(st) ==> w.ke < w.vs < n)
  }

  /** A key has been opened and its member not yet recorded. */
  predicate Reached(st: N.NestState) {
    (st.depth == 1 && st.expecting == 1 && st.inString) || ReachedColon(st)
  }

  predicate ReachedColon(st: N.NestState) {
    (st.depth == 1 && (st.expecting == 2 || st.expecting == 0)) || InValue(st)
  }

  /** The scanner's transitions out of a value, as far as a walker needs them. */
  lemma ValueTransition(st: N.NestState, b: byte)
    requires Allowed(st, b) && InValue(st)
    ensures var st' := N.StepByte(st, b).state;
            if st.inString then
              && InValue(st') && st'.depth == st.depth
              && st'.esc == (!st.esc && b == BACKSLASH)
              && st'.inString == (st.esc || b != QUOTE)
            else
              && st'.inString == (b == QUOTE) && !st'.esc && !st.esc
              && (st.depth == 1 ==> st.expecting == 3 && b != QUOTE && !N.IsOpen(b) && b != CLOSE_ARRAY)
              && if st.depth == 1 && b == COMMA then st'.depth == 1 && st'.expecting == 1
                 else if st.depth == 1 && b == CLOSE_OBJECT then st'.depth == 0 && st'.expecting == 4
                 else
                   && InValue(st')
                   && st'.depth == if N.IsOpen(b) then st.depth + 1
                                   else if b == CLOSE_OBJECT || b == CLOSE_ARRAY then st.depth - 1
                                   else st.depth
  {}

  /** The scanner's transitions everywhere else. */
  lemma OuterTransition(st: N.NestState, b: byte)
    requires Allowed(st, b) && !InValue(st)
    ensures st.depth == 0 || (st.depth == 1 && st.expecting <= 2)
    ensures var st' := N.StepByte(st, b).state;
            if st.inString then
              && st.depth == 1 && st.expecting == 1
              && st'.depth == 1 && !InValue(st')
              && st'.esc == (!st.esc && b == BACKSLASH)
              && st'.inString == (st.esc || b != QUOTE)
              && st'.expecting == if st'.inString then 1 else 2
            else if IsSpace(b) then st' == st && !st.esc
            else
              && !st.esc && !st'.esc
              && (st.depth == 0 ==> st.expecting == 0 && b == OPEN_OBJECT && st'.depth == 1
                                    && st'.expecting == 1 && !st'.inString)
              && (st.depth == 1 && st.expecting == 1 ==>
                    if b == QUOTE then st'.depth == 1 && st'.expecting == 1 && st'.inString
                    else b == CLOSE_OBJECT && st'.depth == 0 && st'.expecting == 4 && !st'.inString)
              && (st.depth == 1 && st.expecting == 2 ==>
                    b == COLON && st'.depth == 1 && st'.expecting == 0 && !st'.inString)
              && (st.depth == 1 && st.expecting == 0 ==>
                    InValue(st') && st'.inString == (b == QUOTE)
                    && st'.depth == (if N.IsOpen(b) then 2 else 1)
                    && (b == QUOTE || N.IsOpen(b) || b == 116 || b == 102 || b == MINUS || IsDigit(b)))
  {}

  lemma StepOrdered(w: Walk, b: byte, n: nat)
    requires Allowed(w.st, b) && Ordered(w, n)
    ensures Ordered(WalkStep(w, b, n), n + 1)
  {
    hide N.StepByte, L.WellFormed;
    var w' := WalkStep(w, b, n);
    var m := |w.members|;
    assert w'.members == w.members || w'.members == w.members + [Span(w.ks, w.ke, w.vs, n)];
    assert forall j :: 0 <= j < m ==> w'.members[j] == w.members[j];
    assert m > 0 ==> w.members[m - 1].vend < n;
    if InValue(w.st) {
      ValueTransition(w.st, b);
    } else {
      OuterTransition(w.st, b);
    }
  }

  /** In the value: one byte keeps following, or ends the value at its delimiter. */
  lemma StepSkips(w: Walk, ls: M.LocSt, index: u64, b: byte, n: nat)
    requires Allowed(w.st, b) && Ordered(w, n) && n < 512 && M.Walking(ls)
    requires Follows(w, ls, index) && InValue(w.st)
    ensures Follows(WalkStep(w, b, n), M.SkipStep(ls, b, n), index)
  {
    hide N.StepByte;
    ValueTransition(w.st, b);
    var w' := WalkStep(w, b, n);
    if w'.members != w.members {
      assert w'.members[|w.members|] == Span(w.ks, w.ke, w.vs, n);
    }
  }

  /** Outside values: one byte keeps following. */
  lemma StepBetween(w: Walk, ls: M.LocSt, index: u64, b: byte, n: nat)
    requires Allowed(w.st, b) && Ordered(w, n) && n < 512 && M.Walking(ls)
    requires Follows(w, ls, index) && !InValue(w.st)
    ensures Follows(WalkStep(w, b, n), M.LocateStep(ls, b, n, true, index), index)
  {
    hide N.StepByte, L.WellFormed, M.SkipStep;
    OuterTransition(w.st, b);
  }

  lemma StepFollows(w: Walk, ls: M.LocSt, index: u64, b: byte, n: nat)
    requires Allowed(w.st, b) && Ordered(w, n) && n < 512
    requires Follows(w, ls, index)
    ensures Follows(WalkStep(w, b, n), M.LocateStep(ls, b, n, M.Walking(ls), index), index)
  {
    if !M.Walking(ls) {
      hide N.StepByte, M.SkipStep, M.BeginValue, M.CloseStep;
      FrozenFollows(w, ls, index, b, n);
    } else if InValue(w.st) {
      hide N.StepByte, M.SkipStep;
      StepSkips(w, ls, index, b, n);
    } else {
      hide *;
      StepBetween(w, ls, index, b, n);
    }
  }

  /** After the answer is fixed the dead lanes change nothing, and neither does the walk. */
  lemma FrozenFollows(w: Walk, ls: M.LocSt, index: u64, b: byte, n: nat)
    requires Allowed(w.st, b) && Ordered(w, n) && Follows(w, ls, index) && !M.Walking(ls)
    ensures Follows(WalkStep(w, b, n), ls, index)
  {
    hide N.StepByte, L.WellFormed;
    var w' := WalkStep(w, b, n);
    assert forall j :: 0 <= j < |w.members| ==> w'.members[j] == w.members[j];
    if InValue(w.st) {
      ValueTransition(w.st, b);
      if w'.members != w.members {
        assert w'.members[|w.members|] == Span(w.ks, w.ke, w.vs, n);
      }
    }
  }

  lemma NothingWalked(doc: Doc, index: u64)
    ensures Ordered(WalkTo(doc[..0]), 0) && Follows(WalkTo(doc[..0]), M.LocateTo(doc[..0], index), index)
  {
    assert doc[..0] == [];
    assert WalkTo([]) == START && M.LocateTo([], index) == M.LOC_SEED;
    SeedFollows(index);
  }

  lemma SeedFollows(index: u64)
    ensures Ordered(START, 0) && Follows(START, M.LOC_SEED, index)
  {}

  lemma {:induction false} WalkOrdered(doc: Doc, n: nat)
    requires L.Accepted(doc) && KeyedRoot(doc) && n <= |doc|
    ensures Ordered(WalkTo(doc[..n]), n)
  {
    hide *;
    if n == 0 {
      NothingWalked(doc, 0);
    } else {
      WalkToLast(doc, n);
      WalkOrdered(doc, n - 1);
      ScanAllowed(doc, n - 1);
      WalkIsScan(doc[..n - 1]);
      StepOrdered(WalkTo(doc[..n - 1]), doc[n - 1], n - 1);
    }
  }

  lemma {:induction false} WalkFollows(doc: Doc, n: nat, index: u64)
    requires L.Accepted(doc) && KeyedRoot(doc) && n <= |doc|
    ensures Follows(WalkTo(doc[..n]), M.LocateTo(doc[..n], index), index)
  {
    hide *;
    if n == 0 {
      NothingWalked(doc, index);
    } else {
      WalkToLast(doc, n);
      LocateToLast(doc, n, index);
      WalkFollows(doc, n - 1, index);
      WalkOrdered(doc, n - 1);
      ScanAllowed(doc, n - 1);
      WalkIsScan(doc[..n - 1]);
      StepFollows(WalkTo(doc[..n - 1]), M.LocateTo(doc[..n - 1], index), index, doc[n - 1], n - 1);
    }
  }

  lemma WalkToLast(doc: Doc, n: nat)
    requires 0 < n <= |doc|
    ensures WalkTo(doc[..n]) == WalkStep(WalkTo(doc[..n - 1]), doc[n - 1], n - 1)
  {
    hide WalkStep;
    assert doc[..n][..n - 1] == doc[..n - 1];
  }

  lemma LocateToLast(doc: Doc, n: nat, index: u64)
    requires 0 < n <= |doc|
    ensures var st := M.LocateTo(doc[..n - 1], index);
            M.LocateTo(doc[..n], index) == M.LocateStep(st, doc[n - 1], n - 1, M.Walking(st), index)
  {
    hide M.LocateStep;
    assert doc[..n][..n - 1] == doc[..n - 1];
  }

  /** A span that lies in the document. */
  predicate Inside(sp: Span, doc: Doc) { sp.kstart <= sp.kend < sp.vstart < sp.vend < |doc| }

  /** `locate_pair` answers for the scanner's members: the span of member `index`, `overlong` when
      its key has more than 32 bytes, and `end` past the last one; never `malformed`. */
  lemma LocateAgrees(doc: Doc, index: u64)
    requires L.Accepted(doc) && KeyedRoot(doc)
    ensures index < |Members(doc)| ==> Inside(Members(doc)[index], doc)
    ensures index < |Members(doc)| && KeyLength(Members(doc)[index]) <= 32 ==>
              M.Locate(doc, index) == LocOf(Members(doc)[index])
    ensures index < |Members(doc)| && KeyLength(Members(doc)[index]) > 32 ==>
              M.Locate(doc, index).status == 3
    ensures index >= |Members(doc)| ==> M.Locate(doc, index).status == 1
  {
    hide N.StepByte, M.LocateStep;
    assert doc[..|doc|] == doc;
    WalkFollows(doc, |doc|, index);
    WalkOrdered(doc, |doc|);
    WalkIsScan(doc);
  }

  function KeyLength(sp: Span): int { sp.kend - sp.kstart }

  function LocOf(sp: Span): M.Loc
    requires sp.kstart <= sp.kend <= sp.vstart <= sp.vend < U64_LIMIT
  {
    M.Loc(0, sp.kstart, sp.kend - sp.kstart, sp.vstart, sp.vend - sp.vstart)
  }

  /** Key and value spans lie in the document, do not overlap, and follow member order. */
  lemma MembersInOrder(doc: Doc)
    requires L.Accepted(doc) && KeyedRoot(doc)
    ensures forall j :: 0 <= j < |Members(doc)| ==> Inside(Members(doc)[j], doc)
    ensures forall i, j :: 0 <= i < j < |Members(doc)| ==> Members(doc)[i].vend < Members(doc)[j].kstart
  {
    assert doc[..|doc|] == doc;
    WalkOrdered(doc, |doc|);
    forall i, j | 0 <= i < j < |Members(doc)| ensures Members(doc)[i].vend < Members(doc)[j].kstart {
      ConsecutiveThenOrdered(Members(doc), i, j);
    }
  }

  lemma {:induction false} ConsecutiveThenOrdered(ms: seq<Span>, i: nat, j: nat)
    requires i < j < |ms|
    requires forall k :: 0 <= k < |ms| ==> ms[k].kstart <= ms[k].kend < ms[k].vstart < ms[k].vend
    requires forall k :: 0 < k < |ms| ==> ms[k - 1].vend < ms[k].kstart
    ensures ms[i].vend < ms[j].kstart
  {
    if i + 1 < j {
      ConsecutiveThenOrdered(ms, i, j - 1);
    }
  }

  // ---------------------------------------------------------------------------------------
  // When the condition fails

  lemma {:induction false} LocateSpaces(s: Doc, index: u64)
    requires forall i :: 0 <= i < |s| ==> IsSpace(s[i])
    ensures M.LocateTo(s, index) == M.LOC_SEED && !N.Scan(N.SEED, s).bad && N.Scan(N.SEED, s).state == N.SEED
  {
    if s != [] {
      LocateSpaces(s[..|s| - 1], index);
    }
  }

  lemma {:induction false} LocateRootThenSpaces(s: Doc, p: nat, index: u64)
    requires p < |s| && s[p] == OPEN_OBJECT
    requires forall i :: 0 <= i < |s| && i != p ==> IsSpace(s[i])
    ensures M.LocateTo(s, index) == M.LOC_SEED.(depth := 1, stack := [1, 0, 0, 0])
  {
    var front := s[..|s| - 1];
    if |s| == p + 1 {
      LocateSpaces(front, index);
      assert M.LOC_SEED.stack[0 := 1] == [1, 0, 0, 0];
    } else {
      LocateRootThenSpaces(front, p, index);
    }
  }

  lemma {:induction false} LocateStaysBad(s: Doc, n: nat, index: u64)
    requires n <= |s| && M.LocateTo(s[..n], index).bad
    ensures M.LocateTo(s, index).bad
  {
    if n == |s| {
      assert s[..n] == s;
    } else {
      assert s[..|s| - 1][..n] == s[..n];
      LocateStaysBad(s[..|s| - 1], n, index);
    }
  }

  /** An array root, a scalar, or an object that opens with an unkeyed container: every lookup
      is malformed, whatever the index. */
  lemma UnkeyedRootIsMalformed(doc: Doc, index: u64)
    requires FirstToken(doc, 0) < |doc| && !KeyedRoot(doc)
    ensures M.Locate(doc, index).status == M.STATUS_MALFORMED
  {
    hide M.LocateTo, M.LocateStep, FirstToken;
    var cut := FirstRefused(doc, index);
    LocateStaysBad(doc, cut + 1, index);
  }

  lemma FirstRefused(doc: Doc, index: u64) returns (cut: nat)
    requires FirstToken(doc, 0) < |doc| && !KeyedRoot(doc)
    ensures cut < |doc| && M.LocateTo(doc[..cut + 1], index).bad
  {
    hide M.LocateTo, FirstToken;
    var p := FirstToken(doc, 0);
    if doc[p] != OPEN_OBJECT {
      cut := p;
      LocateSpaces(doc[..p], index);
    } else {
      cut := FirstToken(doc, p + 1);
      LocateRootThenSpaces(doc[..cut], p, index);
    }
    LocateToLast(doc, cut + 1, index);
  }

  /** On accepted documents the extractor agrees with the scanner if and only if the root is keyed. */
  lemma AgreementExactlyWhenKeyed(doc: Doc, index: u64)
    requires L.Accepted(doc)
    ensures M.Locate(doc, index).status != 2 <==> KeyedRoot(doc)
  {
    hide N.StepByte, M.LocateStep;
    if KeyedRoot(doc) {
      LocateAgrees(doc, index);
    } else {
      if FirstToken(doc, 0) >= |doc| {
        LocateSpaces(doc, index);
      }
      UnkeyedRootIsMalformed(doc, index);
    }
  }
}
