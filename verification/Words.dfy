/** The sentence without its ending, and its words: `effective_length`, `split_words` and
    `close_split` of `language/mncs/ingest/parse.mncs`.  A fold over a bounded text visits `lanes`
    lanes, the runtime length of the text or all of its storage; the results do not depend on it. */
module Words {
  import opened Machine
  import opened Vocab

  const PERIOD: byte := 46

  // ---------------------------------------------------------------------------------------
  // Trimming

  /** Spaces come off the end, and one period. */
  function Trim(s: seq<byte>, period: bool): (t: seq<byte>)
    ensures t <= s
    decreases |s|
  {
    if s == [] then s
    else if s[|s| - 1] == SPACE then Trim(s[..|s| - 1], period)
    else if s[|s| - 1] == PERIOD && !period then Trim(s[..|s| - 1], true)
    else s
  }

  method EffectiveLength(text: Text, lanes: nat, length: u64) returns (len: u64)
    requires |text| <= lanes <= 64
    ensures len <= Clamp(text, length) && text[..len] == Trim(text[..Clamp(text, length)], false)
  {
    var tlen := Clamp(text, length);
    ghost var goal := Trim(text[..tlen], false);
    var period := false;
    len := tlen;
    for i := 0 to lanes
      invariant len <= tlen && Trim(text[..len], period) == goal
      invariant len + i <= tlen || goal == text[..len]
    {
      var live := len > 0;
      var slot := if live then SubWrap(len, 1) else 0;
      var current: byte := if live && slot < |text| then text[slot] else SPACE;
      var stripSpace := live && current == SPACE;
      var stripPeriod := live && current == PERIOD && !period;
      TrimStep(text, len, period);
      if stripSpace || stripPeriod {
        len := SubWrap(len, 1);
      }
      period := period || stripPeriod;
    }
  }

  lemma TrimStep(text: Text, len: nat, period: bool)
    requires len <= |text|
    ensures var s := text[..len];
            if len == 0 then Trim(s, period) == s
            else if text[len - 1] == SPACE then Trim(s, period) == Trim(text[..len - 1], period)
            else if text[len - 1] == PERIOD && !period then Trim(s, period) == Trim(text[..len - 1], true)
            else Trim(s, period) == s
    ensures len > 0 && (text[len - 1] == SPACE || (text[len - 1] == PERIOD && !period)) ==>
        Trim(text[..len], period) != text[..len]
  {
    if len > 0 {
      assert text[..len][..len - 1] == text[..len - 1];
    }
  }

  /** What comes off is spaces and at most one period; what stays does not end in a space, nor in a
      period unless one came off. */
  lemma {:induction false} TrimMeans(s: seq<byte>, period: bool)
    ensures var t := Trim(s, period);
            && (forall i :: |t| <= i < |s| ==> s[i] == SPACE || s[i] == PERIOD)
            && (forall i, j :: |t| <= i < j < |s| && s[i] == PERIOD ==> s[j] == SPACE)
            && (period ==> forall i :: |t| <= i < |s| ==> s[i] == SPACE)
            && (t != [] ==> t[|t| - 1] != SPACE)
            && (t != [] && t[|t| - 1] == PERIOD ==> period || exists i :: |t| <= i < |s| && s[i] == PERIOD)
    decreases |s|
  {
    if s != [] && s[|s| - 1] == SPACE {
      TrimMeans(s[..|s| - 1], period);
    } else if s != [] && s[|s| - 1] == PERIOD && !period {
      TrimMeans(s[..|s| - 1], true);
    }
  }

  // ---------------------------------------------------------------------------------------
  // The maximal runs of non-spaces

  datatype Span = Span(start: nat, len: nat)

  predicate InWord(s: seq<byte>, n: nat)
    requires n <= |s|
  {
    n > 0 && s[n - 1] != SPACE
  }

  /** The words of the first `n` bytes. */
  function SpansTo(s: seq<byte>, n: nat): (ws: seq<Span>)
    requires n <= |s|
    ensures InWord(s, n) ==> ws != [] && ws[|ws| - 1].start + ws[|ws| - 1].len == n
    ensures |ws| <= n
  {
    if n == 0 then []
    else
      var ws := SpansTo(s, n - 1);
      if s[n - 1] == SPACE then ws
      else if InWord(s, n - 1) then ws[|ws| - 1 := Span(ws[|ws| - 1].start, ws[|ws| - 1].len + 1)]
      else ws + [Span(n - 1, 1)]
  }

  function Spans(s: seq<byte>): seq<Span> { SpansTo(s, |s|) }

  /** A maximal run of non-spaces among the first `n` bytes. */
  predicate MaximalWord(s: seq<byte>, n: nat, w: Span)
    requires n <= |s|
  {
    && 1 <= w.len && w.start + w.len <= n
    && (forall i :: w.start <= i < w.start + w.len ==> s[i] != SPACE)
    && (w.start == 0 || s[w.start - 1] == SPACE)
    && (w.start + w.len == n || s[w.start + w.len] == SPACE)
  }

  predicate Holds(w: Span, i: int) { w.start <= i < w.start + w.len }

  /** The spans are exactly the maximal words, in order and apart. */
  predicate AreWords(s: seq<byte>, n: nat, ws: seq<Span>)
    requires n <= |s|
  {
    && (forall k :: 0 <= k < |ws| ==> MaximalWord(s, n, ws[k]))
    && Apart(ws)
    && (forall i :: 0 <= i < n && s[i] != SPACE ==> Held(ws, i))
  }

  predicate Apart(ws: seq<Span>) {
    forall j, k :: 0 <= j < k < |ws| ==> ws[j].start + ws[j].len < ws[k].start
  }

  predicate Held(ws: seq<Span>, i: int) { exists k :: 0 <= k < |ws| && Holds(ws[k], i) }

  lemma {:induction false} SpansAreWords(s: seq<byte>, n: nat)
    requires n <= |s|
    ensures AreWords(s, n, SpansTo(s, n))
    decreases n
  {
    hide AreWords, SpansTo;
    if n == 0 {
      NoWords(s);
    } else {
      SpansAreWords(s, n - 1);
      SpansUnfold(s, n);
      var ws := SpansTo(s, n - 1);
      if s[n - 1] == SPACE {
        SpaceKeeps(s, n, ws);
      } else if InWord(s, n - 1) {
        LetterExtends(s, n, ws);
      } else {
        LetterOpens(s, n, ws);
      }
    }
  }

  lemma NoWords(s: seq<byte>)
    ensures SpansTo(s, 0) == [] && AreWords(s, 0, [])
  {}

  lemma SpansUnfold(s: seq<byte>, n: nat)
    requires 1 <= n <= |s|
    ensures var ws := SpansTo(s, n - 1);
            SpansTo(s, n) == if s[n - 1] == SPACE then ws
                             else if InWord(s, n - 1) then
                               ws[|ws| - 1 := Span(ws[|ws| - 1].start, ws[|ws| - 1].len + 1)]
                             else ws + [Span(n - 1, 1)]
  {}

  lemma SpaceKeeps(s: seq<byte>, n: nat, ws: seq<Span>)
    requires 1 <= n <= |s| && s[n - 1] == SPACE && AreWords(s, n - 1, ws)
    ensures AreWords(s, n, ws)
  {}

  lemma LetterExtends(s: seq<byte>, n: nat, ws: seq<Span>)
    requires 2 <= n <= |s| && s[n - 1] != SPACE && s[n - 2] != SPACE && AreWords(s, n - 1, ws)
    requires ws != [] && ws[|ws| - 1].start + ws[|ws| - 1].len == n - 1
    ensures AreWords(s, n, ws[|ws| - 1 := Span(ws[|ws| - 1].start, ws[|ws| - 1].len + 1)])
  {
    hide MaximalWord, Held;
    var last := |ws| - 1;
    var next := ws[last := Span(ws[last].start, ws[last].len + 1)];
    forall k | 0 <= k < |next|
      ensures MaximalWord(s, n, next[k])
    {
      assert MaximalWord(s, n - 1, ws[k]);
      assert k < last ==> ws[k].start + ws[k].len < ws[last].start;
      WordGrows(s, n, ws[k], next[k]);
    }
    forall i | 0 <= i < n && s[i] != SPACE
      ensures Held(next, i)
    {
      if i < n - 1 {
        assert Held(ws, i);
      }
      HeldGrows(ws, next, n, i);
    }
  }

  /** An earlier word stays; the last one takes in the byte after it. */
  lemma WordGrows(s: seq<byte>, n: nat, w: Span, next: Span)
    requires 2 <= n <= |s| && s[n - 1] != SPACE && s[n - 2] != SPACE && MaximalWord(s, n - 1, w)
    requires if w.start + w.len == n - 1 then next == Span(w.start, w.len + 1) else next == w
    ensures MaximalWord(s, n, next)
  {}

  lemma HeldGrows(ws: seq<Span>, next: seq<Span>, n: nat, i: nat)
    requires ws != [] && |next| == |ws| && i < n
    requires var last := |ws| - 1;
             && next == ws[last := Span(ws[last].start, ws[last].len + 1)]
             && ws[last].start + ws[last].len == n - 1
    requires i < n - 1 ==> Held(ws, i)
    ensures Held(next, i)
  {
    if i == n - 1 {
      assert Holds(next[|ws| - 1], i);
    } else {
      var k :| 0 <= k < |ws| && Holds(ws[k], i);
      assert Holds(next[k], i);
    }
  }

  lemma LetterOpens(s: seq<byte>, n: nat, ws: seq<Span>)
    requires 1 <= n <= |s| && s[n - 1] != SPACE && !InWord(s, n - 1) && AreWords(s, n - 1, ws)
    ensures AreWords(s, n, ws + [Span(n - 1, 1)])
  {
    var next := ws + [Span(n - 1, 1)];
    forall k | 0 <= k < |next|
      ensures MaximalWord(s, n, next[k]) && (k < |ws| ==> next[k].start + next[k].len < n - 1)
    {
      if k < |ws| {
        assert MaximalWord(s, n - 1, ws[k]);
      }
    }
    forall i | 0 <= i < n && s[i] != SPACE
      ensures Held(next, i)
    {
      if i == n - 1 {
        assert Holds(next[|ws|], i);
      } else {
        var k :| 0 <= k < |ws| && Holds(ws[k], i);
        assert Holds(next[k], i);
      }
    }
  }

  // ---------------------------------------------------------------------------------------
  // The splitter

  type Slots = s: seq<u64> | |s| == 8 witness [0, 0, 0, 0, 0, 0, 0, 0]

  datatype SplitState = SplitState(starts: Slots, lens: Slots, count: u64, cur: u64, open: bool, overflow: bool)

  function SplitSeed(): SplitState {
    SplitState([0, 0, 0, 0, 0, 0, 0, 0], [0, 0, 0, 0, 0, 0, 0, 0], 0, 0, false, false)
  }

  /** One lane, with the source's guards. */
  function SplitLane(st: SplitState, current: byte, i: u64, live: bool): SplitState {
    var space := !live || current == SPACE;
    var opens := live && !space && !st.open;
    var staysOpen := live && !space && st.open;
    var closes := space && st.open;
    var full := st.count >= 8;
    var slot := if st.count < 8 then st.count else 0;
    SplitState(
      st.starts[slot := if opens && !full then i else st.starts[slot]],
      st.lens[slot := if closes then SubWrap(i, st.cur) else st.lens[slot]],
      if closes then AddWrap(st.count, 1) else st.count,
      if opens then i else st.cur,
      opens || staysOpen,
      st.overflow || (opens && full))
  }

  /** How many of the words so far are closed. */
  function ClosedCount(ws: seq<Span>, open: bool): int { if open then |ws| - 1 else |ws| }

  predicate SlotsHold(st: SplitState, ws: seq<Span>, k: nat)
    requires k <= |ws| && k <= 8
  {
    forall j :: 0 <= j < k ==> st.starts[j] == ws[j].start && st.lens[j] == ws[j].len
  }

  /** What the fold knows when the words up to its lane are `ws`. */
  predicate Tracks(st: SplitState, ws: seq<Span>) {
    && |ws| <= 64
    && (st.open ==> ws != [] && st.cur == ws[|ws| - 1].start)
    && st.count == ClosedCount(ws, st.open)
    && (st.overflow <==> |ws| > 8)
    && (|ws| <= 8 ==> SlotsHold(st, ws, st.count) && (st.open ==> st.starts[st.count] == st.cur))
  }

  lemma LaneTracks(st: SplitState, text: Text, i: nat)
    requires i < |text| && st.open == InWord(text, i) && Tracks(st, SpansTo(text, i))
    ensures var next := SplitLane(st, text[i], i, true);
            next.open == InWord(text, i + 1) && Tracks(next, SpansTo(text, i + 1))
  {
    var ws := SpansTo(text, i);
    if text[i] == SPACE {
      CloseTracks(st, ws, i, true);
    } else if !st.open {
      OpenTracks(st, ws, text[i], i);
    } else {
      assert st.starts[0 := st.starts[0]] == st.starts && st.lens[0 := st.lens[0]] == st.lens;
      assert SplitLane(st, text[i], i, true) == st;
    }
  }

  /** A space, or a lane past the end, closes the open word if there is one. */
  lemma CloseTracks(st: SplitState, ws: seq<Span>, i: nat, live: bool)
    requires i <= 64 && Tracks(st, ws) && (st.open ==> ws[|ws| - 1].start + ws[|ws| - 1].len == i)
    ensures var next := SplitLane(st, SPACE, i, live); !next.open && Tracks(next, ws)
  {}

  lemma OpenTracks(st: SplitState, ws: seq<Span>, b: byte, i: nat)
    requires i < 64 && Tracks(st, ws) && !st.open && b != SPACE && |ws| <= i
    ensures var next := SplitLane(st, b, i, true); next.open && Tracks(next, ws + [Span(i, 1)])
  {
    var next := SplitLane(st, b, i, true);
    var more := ws + [Span(i, 1)];
    assert more[|more| - 1] == Span(i, 1);
  }

  /** The split found these words, or found more than eight. */
  predicate SplitsInto(st: SplitState, ws: seq<Span>) {
    if |ws| > 8 then st.overflow
    else !st.overflow && st.count == |ws| && SlotsHold(st, ws, |ws|)
  }

  method SplitWords(text: Text, lanes: nat, length: u64) returns (st: SplitState)
    requires |text| <= lanes <= 64 && length <= |text|
    ensures SplitsInto(st, SpansTo(text, length))
  {
    hide SplitLane, Tracks, SplitsInto;
    st := SplitSeed();
    SeedTracks();
    for i := 0 to lanes
      invariant i <= length ==> st.open == InWord(text, i) && Tracks(st, SpansTo(text, i))
      invariant i > length ==> !st.open && Tracks(st, SpansTo(text, length))
    {
      var live := i < length;
      var slot := if i < |text| then i else 0;
      var current: byte := if live && slot < |text| then text[slot] else SPACE;
      if live {
        LaneTracks(st, text, i);
      } else {
        CloseTracks(st, SpansTo(text, length), i, false);
        DeadLane(st, i);
      }
      st := SplitLane(st, current, i, live);
    }
    st := CloseSplit(st, length, SpansTo(text, length));
  }

  lemma SeedTracks()
    ensures Tracks(SplitSeed(), []) && !SplitSeed().open
  {}

  lemma DeadLane(st: SplitState, i: u64)
    ensures forall b: byte :: SplitLane(st, b, i, false) == SplitLane(st, SPACE, i, false)
  {}

  method CloseSplit(st: SplitState, length: u64, ghost ws: seq<Span>) returns (r: SplitState)
    requires Tracks(st, ws) && (st.open ==> ws[|ws| - 1].start + ws[|ws| - 1].len == length)
    ensures SplitsInto(r, ws)
  {
    var slot := if st.count < 8 then st.count else 0;
    r := SplitState(
      st.starts,
      st.lens[slot := if st.open && st.count < 8 then SubWrap(length, st.cur) else st.lens[slot]],
      if st.open && st.count < 8 then AddWrap(st.count, 1) else st.count,
      st.cur,
      false,
      st.overflow || (st.open && st.count >= 8));
  }
}
