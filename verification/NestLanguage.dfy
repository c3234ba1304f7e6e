/** What the structural scanner accepts, whatever the views it is fed through. */
module NestLanguage {
  import opened Machine
  import opened Nest

  /** The scanner, fed all of `doc` and then end of input, answers `complete`. */
  predicate Accepted(doc: seq<byte>) {
    var acc := Scan(SEED, doc);
    !acc.bad && acc.state.expecting == 4 && acc.state.depth == 0
  }

  // ---------------------------------------------------------------------------------------
  // Feeding in pieces

  /** Scanning a ++ b is scanning a and then b, with the bad index moved by |a|. */
  lemma {:induction false} ScanAppend(st: NestState, a: seq<byte>, b: seq<byte>)
    ensures Scan(st, a).bad ==> Scan(st, a + b) == Scan(st, a)
    ensures !Scan(st, a).bad ==>
              var rest := Scan(Scan(st, a).state, b);
              var all := Scan(st, a + b);
              && all.state == rest.state && all.bad == rest.bad
              && all.at == if rest.bad then |a| + rest.at else 0
    decreases |b|
  {
    hide StepByte;
    ScanAtOnlyWhenBad(st, a);
    if b == [] {
      assert a + b == a;
    } else {
      assert (a + b)[..|a + b| - 1] == a + b[..|b| - 1];
      ScanAppend(st, a, b[..|b| - 1]);
    }
  }

  lemma {:induction false} ScanAtOnlyWhenBad(st: NestState, s: seq<byte>)
    ensures !Scan(st, s).bad ==> Scan(st, s).at == 0
    ensures Scan(st, s).bad ==> Scan(st, s).at < |s|
    decreases |s|
  {
    hide StepByte;
    if s != [] {
      ScanAtOnlyWhenBad(st, s[..|s| - 1]);
    }
  }

  /** The reported index is that of the first byte no transition allows: everything before it
      scans, and no longer prefix does. */
  lemma {:induction false} FirstBadIndex(st: NestState, s: seq<byte>, n: nat)
    requires n <= |s|
    requires Scan(st, s).bad
    ensures Scan(st, s[..n]).bad <==> Scan(st, s).at < n
    decreases |s|
  {
    hide StepByte;
    ScanAtOnlyWhenBad(st, s);
    if n < |s| {
      assert s[..|s| - 1][..n] == s[..n];
      if Scan(st, s[..|s| - 1]).bad {
        FirstBadIndex(st, s[..|s| - 1], n);
      } else {
        ScanAppend(st, s[..n], s[n..|s| - 1]);
        assert s[..n] + s[n..|s| - 1] == s[..|s| - 1];
      }
    } else {
      assert s[..n] == s;
    }
  }

  // ---------------------------------------------------------------------------------------
  // Invariant of every reachable state

  predicate WellFormed(st: NestState) {
    && st.depth <= 4
    && (forall k :: 0 <= k < st.depth ==> st.stack[k] == 1 || st.stack[k] == 2)
    && st.expecting <= 4
    && (st.depth == 0 ==> st.expecting == 0 || st.expecting == 4)
    && (st.expecting == 4 ==> st.depth == 0 && !st.inString)
    && (st.expecting == 2 ==> st.stack[Top(st)] == 1)
    && (st.esc ==> st.inString)
    && (st.inString ==> st.expecting <= 1 && !st.afterComma)
    && (st.inLiteral ==> st.expecting == 3)
  }

  lemma StringKeepsWellFormed(st: NestState, b: byte)
    requires WellFormed(st) && st.inString && !StepString(st, b).bad
    ensures WellFormed(StepString(st, b).state)
  {
    assert StepString(st, b).state.stack == st.stack;
  }

  lemma TokenKeepsWellFormed(st: NestState, b: byte)
    requires WellFormed(st) && !st.inString && !st.inLiteral && !StepTokenOpen(st, b).bad
    ensures WellFormed(StepTokenOpen(st, b).state)
  {
    var after := StepTokenOpen(st, b).state;
    if IsOpen(b) {
      assert after.stack[st.depth] == if b == OPEN_OBJECT then 1 else 2;
      assert forall k :: 0 <= k < st.depth ==> after.stack[k] == st.stack[k];
    } else {
      assert after.stack == st.stack;
    }
  }

  lemma StepKeepsWellFormed(st: NestState, b: byte)
    requires WellFormed(st) && !StepByte(st, b).bad
    ensures WellFormed(StepByte(st, b).state)
  {
    hide StepString, StepTokenOpen;
    if st.inString {
      StringKeepsWellFormed(st, b);
    } else if !IsSpace(b) && !(st.inLiteral && IsLiteralChar(b)) {
      TokenKeepsWellFormed(st.(inLiteral := false), b);
    }
  }

  lemma {:induction false} ScanWellFormed(s: seq<byte>)
    ensures !Scan(SEED, s).bad ==> WellFormed(Scan(SEED, s).state)
    decreases |s|
  {
    if s != [] {
      ScanWellFormed(s[..|s| - 1]);
      if !Scan(SEED, s).bad {
        StepKeepsWellFormed(Scan(SEED, s[..|s| - 1]).state, s[|s| - 1]);
      }
    }
  }

  // ---------------------------------------------------------------------------------------
  // Every prefix of an accepted document

  /** Once the root has closed, only white space keeps the scan clean, and the state is fixed. */
  lemma {:induction false} ClosedRootStays(st: NestState, s: seq<byte>)
    requires WellFormed(st) && st.expecting == 4
    ensures !Scan(st, s).bad <==> forall i :: 0 <= i < |s| ==> IsSpace(s[i])
    ensures !Scan(st, s).bad ==> Scan(st, s).state == st
    decreases |s|
  {
    if s != [] {
      var front := s[..|s| - 1];
      ClosedRootStays(st, front);
      assert forall i :: 0 <= i < |front| ==> front[i] == s[i];
      if !Scan(st, front).bad {
        assert Scan(st, s).bad <==> !IsSpace(s[|s| - 1]);
      } else {
        assert exists i :: 0 <= i < |front| && !IsSpace(front[i]);
      }
    }
  }

  /** A cut of an accepted document is ok so far; at end of input it is complete when only
      white space was cut off, and truncated otherwise, never malformed. */
  lemma PrefixVerdict(doc: seq<byte>, n: nat)
    requires n <= |doc| < U64_LIMIT && Accepted(doc)
    ensures !Scan(SEED, doc[..n]).bad
    ensures FinishScan(Scan(SEED, doc[..n]), n, 0, false).status == 0
    ensures FinishScan(Scan(SEED, doc[..n]), n, 0, true).status
            == if Accepted(doc[..n]) then 1 else 2
    ensures Accepted(doc[..n]) ==> forall i :: n <= i < |doc| ==> IsSpace(doc[i])
  {
    hide Scan, WellFormed;
    ScanAppend(SEED, doc[..n], doc[n..]);
    assert doc[..n] + doc[n..] == doc;
    if Accepted(doc[..n]) {
      ScanWellFormed(doc[..n]);
      ClosedRootStays(Scan(SEED, doc[..n]).state, doc[n..]);
      forall i | n <= i < |doc| ensures IsSpace(doc[i]) {
        assert doc[i] == doc[n..][i - n];
      }
    }
  }

  /** White space outside strings is invisible to the scanner, even inside a number or a word:
      `1 2` scans exactly as `12`. */
  lemma WhiteSpaceInvisible(a: seq<byte>, space: byte, b: seq<byte>)
    requires IsSpace(space) && !Scan(SEED, a).bad && !Scan(SEED, a).state.inString
    ensures Scan(SEED, a + [space] + b).bad <==> Scan(SEED, a + b).bad
    ensures Scan(SEED, a + [space] + b).state == Scan(SEED, a + b).state
    ensures Accepted(a + [space] + b) <==> Accepted(a + b)
  {
    var spaced := a + [space];
    assert spaced[..|spaced| - 1] == a;
    assert Scan(SEED, spaced).state == Scan(SEED, a).state && !Scan(SEED, spaced).bad;
    ScanAppend(SEED, a, b);
    ScanAppend(SEED, spaced, b);
  }

  // ---------------------------------------------------------------------------------------
  // Bracket structure, stated without the scanner

  /** An unbounded bracket matcher over the bytes outside strings.  `stack` holds the closers
      still owed, `roots` counts containers opened at the top level, and `ok` falls when a
      closer does not match or anything but white space stands outside the containers. */
  datatype Matcher = Matcher(stack: seq<byte>, inString: bool, esc: bool, roots: nat, deepest: nat, ok: bool)

  function Match(doc: seq<byte>): Matcher {
    if doc == [] then Matcher([], false, false, 0, 0, true)
    else MatchStep(Match(doc[..|doc| - 1]), doc[|doc| - 1])
  }

  function MatchStep(m: Matcher, b: byte): Matcher {
    if m.inString then
      if m.esc then m.(esc := false)
      else if b == BACKSLASH then m.(esc := true)
      else m.(inString := b != QUOTE)
    else if b == QUOTE then m.(inString := true, ok := m.ok && m.stack != [])
    else if IsOpen(b) then
      var closer := if b == OPEN_OBJECT then CLOSE_OBJECT else CLOSE_ARRAY;
      m.(stack := m.stack + [closer],
         roots := if m.stack == [] then m.roots + 1 else m.roots,
         deepest := if |m.stack| + 1 > m.deepest then |m.stack| + 1 else m.deepest)
    else if b == CLOSE_OBJECT || b == CLOSE_ARRAY then
      if m.stack != [] && m.stack[|m.stack| - 1] == b
      then m.(stack := m.stack[..|m.stack| - 1])
      else m.(ok := false)
    else m.(ok := m.ok && (IsSpace(b) || m.stack != []))
  }

  /** The bracket structure of a document: well nested, closed, one root, at most `depth` deep. */
  predicate WellNested(doc: seq<byte>, depth: nat) {
    var m := Match(doc);
    m.ok && m.stack == [] && !m.inString && m.roots == 1 && m.deepest <= depth
  }

  predicate Mirrors(st: NestState, m: Matcher) {
    && |m.stack| == st.depth <= 4
    && (forall k :: 0 <= k < st.depth ==> m.stack[k] == if st.stack[k] == 1 then CLOSE_OBJECT else CLOSE_ARRAY)
    && (st.inString ==> m.inString && m.esc == st.esc)
    && (!st.inString ==> !m.inString && !m.esc)
    && m.roots == (if st.depth == 0 && st.expecting == 0 then 0 else 1)
    && (st.seenValue <==> m.roots == 1)
    && m.deepest == st.maxDepth <= 4
    && (m.ok || (st.inString && st.depth == 0))
  }

  lemma OpenMirrors(st: NestState, m: Matcher, b: byte)
    requires WellFormed(st) && Mirrors(st, m) && !StepByte(st, b).bad
    requires !st.inString && IsOpen(b)
    ensures Mirrors(StepByte(st, b).state, MatchStep(m, b))
  {
    var after := StepByte(st, b).state;
    assert after.depth == st.depth + 1;
    assert forall k :: 0 <= k < st.depth ==> after.stack[k] == st.stack[k];
  }

  lemma CloseMirrors(st: NestState, m: Matcher, b: byte)
    requires WellFormed(st) && Mirrors(st, m) && !StepByte(st, b).bad
    requires !st.inString && (b == CLOSE_OBJECT || b == CLOSE_ARRAY)
    ensures Mirrors(StepByte(st, b).state, MatchStep(m, b))
  {
    var after := StepByte(st, b).state;
    assert after.depth == st.depth - 1 && after.stack == st.stack;
    assert m.stack[|m.stack| - 1] == b;
  }

  lemma StepMirrors(st: NestState, m: Matcher, b: byte)
    requires WellFormed(st) && Mirrors(st, m) && !StepByte(st, b).bad
    ensures Mirrors(StepByte(st, b).state, MatchStep(m, b))
  {
    var after := StepByte(st, b).state;
    if st.inString {
      assert after.depth == st.depth && after.stack == st.stack && MatchStep(m, b).stack == m.stack;
    } else if IsOpen(b) {
      OpenMirrors(st, m, b);
    } else if b == CLOSE_OBJECT || b == CLOSE_ARRAY {
      CloseMirrors(st, m, b);
    } else {
      assert after.depth == st.depth && after.stack == st.stack && MatchStep(m, b).stack == m.stack;
    }
  }

  lemma {:induction false} ScanMirrors(s: seq<byte>)
    requires !Scan(SEED, s).bad
    ensures Mirrors(Scan(SEED, s).state, Match(s))
    decreases |s|
  {
    if s != [] {
      var front := s[..|s| - 1];
      ScanMirrors(front);
      ScanWellFormed(front);
      StepMirrors(Scan(SEED, front).state, Match(front), s[|s| - 1]);
    }
  }

  /** Every accepted document is well nested outside strings, has one root and depth at most 4;
      the scanner's `maxDepth` is its exact depth. */
  lemma AcceptedIsWellNested(doc: seq<byte>)
    requires Accepted(doc)
    ensures WellNested(doc, 4)
    ensures Match(doc).deepest == Scan(SEED, doc).state.maxDepth && Scan(SEED, doc).state.seenValue
  {
    ScanMirrors(doc);
    ScanWellFormed(doc);
  }
}
