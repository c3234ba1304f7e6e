/** Equality and ordering over canonical codes: `language/mncs/ingest/frame.mncs`. */
module Codes {
  import opened Machine
  import opened Vocab

  /** A lane of bounded storage: past the live bytes the source reads the first. */
  function At(s: Text, i: nat): byte { if i < |s| then s[i] else if s == [] then 0 else s[0] }

  /** `spell_equal`, over `lanes` lanes: the length of `a` or all of its storage. */
  method SpellEqual(a: Text, aLength: u64, b: Text, bLength: u64, lanes: nat) returns (r: int)
    requires |a| <= lanes <= 64
    ensures r == 0 || r == 1
    ensures r == 1 <==> a[..Clamp(a, aLength)] == b[..Clamp(b, bLength)] && Clamp(a, aLength) <= 16
  {
    var alen, blen := Clamp(a, aLength), Clamp(b, bLength);
    var same := alen == blen && alen <= 16;
    for i := 0 to lanes
      invariant same <==> alen == blen && alen <= 16 && forall k :: 0 <= k < i && k < alen ==> a[k] == b[k]
    {
      var live := i < alen && i < blen;
      same := same && (live ==> At(a, i) == At(b, i));
    }
    if alen == blen {
      assert a[..alen] == b[..blen] <==> forall k :: 0 <= k < alen ==> a[..alen][k] == b[..blen][k];
    }
    r := if same then 1 else 0;
  }

  function CodesEqual(aEvent: i64, aObject: i64, aPresent: bool, aQuantity: i64,
                      bEvent: i64, bObject: i64, bPresent: bool, bQuantity: i64): int {
    var same := && aEvent == bEvent && aObject == bObject && aPresent == bPresent
                && (!aPresent || aQuantity == bQuantity);
    if same then 1 else 0
  }

  // ---------------------------------------------------------------------------------------
  // Insertion sort over eight lanes

  type Row = s: seq<u64> | |s| == 8 witness [0, 0, 0, 0, 0, 0, 0, 0]

  predicate Sorted(xs: Row, n: nat)
    requires n <= 8
  {
    forall i, j :: 0 <= i < j < n ==> xs[i] <= xs[j]
  }

  function Window(count: u64): nat { if count <= 8 then count else 8 }

  method IsSortedCodes(xs: Row, count: u64) returns (r: int)
    ensures r == 0 || r == 1
    ensures r == 1 <==> Sorted(xs, if count <= 8 then count else 8)
  {
    var n := Window(count);
    var ok := true;
    for i := 0 to 8
      invariant ok <==> forall k :: 0 < k <= i && k < n ==> xs[k - 1] <= xs[k]
    {
      var ahead := AddWrap(i, 1) < n;
      var up := if AddWrap(i, 1) < 8 then AddWrap(i, 1) else 0;
      ok := ok && (ahead ==> xs[i] <= xs[up]);
    }
    if ok {
      NeighboursSort(xs, n, n);
    }
    r := if ok then 1 else 0;
  }

  lemma {:induction false} NeighboursSort(xs: Row, n: nat, m: nat)
    requires m <= n <= 8 && forall k :: 0 < k < n ==> xs[k - 1] <= xs[k]
    ensures Sorted(xs, m)
    decreases m
  {
    if m > 0 {
      NeighboursSort(xs, n, m - 1);
      if m > 1 {
        assert xs[(m - 1) - 1] <= xs[m - 1];
      }
    }
  }

  /** One lane of `sort_step`: `k` is the lane counted down from `at`, wrapped when it falls below zero. */
  function StepLane(row: Row, n: nat, k: u64): Row
    requires n <= 8
  {
    var live := k > 0 && k < n;
    var above := if k < n then k else 0;
    var below := if k > 0 && k <= n then SubWrap(k, 1) else 0;
    var swap := live && row[above] < row[below];
    var placed := if swap then row[above] else row[below];
    var kept := if swap then row[below] else row[above];
    row[above := kept][below := placed]
  }

  /** A lane swaps two neighbours that are out of order inside the window, and does nothing else. */
  lemma StepLaneMeans(row: Row, n: nat, k: u64)
    requires n <= 8
    ensures StepLane(row, n, k)
            == if 0 < k < n && row[k] < row[k - 1] then row[k := row[k - 1]][k - 1 := row[k]] else row
  {
    var above := if k < n then k else 0;
    var below := if k > 0 && k <= n then SubWrap(k, 1) else 0;
    if !(0 < k < n && row[k] < row[k - 1]) {
      assert row[above := row[above]] == row;
      assert row[below := row[below]] == row;
    }
  }

  /** Sorted but for the element at `k`, which may belong further left. */
  predicate SortedBut(row: Row, m: nat, k: int)
    requires m <= 8
  {
    forall i, j :: 0 <= i < j < m && j != k ==> row[i] <= row[j]
  }

  predicate Permutes(row: Row, xs: Row, n: nat)
    requires n <= 8
  {
    multiset(row[..n]) == multiset(xs[..n]) && row[n..] == xs[n..]
  }

  lemma LaneSorts(row: Row, n: nat, m: nat, k: nat)
    requires m <= n <= 8 && 0 < k < 8 && SortedBut(row, m, k) && (k < n ==> k < m)
    ensures SortedBut(StepLane(row, n, k), m, k - 1)
  {
    StepLaneMeans(row, n, k);
    hide StepLane;
  }

  /** A lane leaves a sorted window alone. */
  lemma LaneKeepsSorted(row: Row, n: nat, k: u64)
    requires n <= 8 && Sorted(row, n)
    ensures StepLane(row, n, k) == row
  {
    StepLaneMeans(row, n, k);
    hide StepLane;
  }

  lemma LanePermutes(row: Row, xs: Row, n: nat, k: u64)
    requires n <= 8 && Permutes(row, xs, n)
    ensures Permutes(StepLane(row, n, k), xs, n)
  {
    StepLaneMeans(row, n, k);
    hide StepLane;
    if 0 < k < n && row[k] < row[k - 1] {
      var next := row[k := row[k - 1]][k - 1 := row[k]];
      assert next[..n] == row[..n][k := row[..n][k - 1]][k - 1 := row[..n][k]];
      SwapKeeps(row[..n], k);
    }
  }

  lemma SwapKeeps(s: seq<u64>, k: nat)
    requires 0 < k < |s|
    ensures multiset(s[k := s[k - 1]][k - 1 := s[k]]) == multiset(s)
  {}

  /** Permutes the window, whatever it holds; when the elements before `at` are sorted, inserts the one at
      `at` among them.  Lanes after `at` steps count down past zero and wrap, and change nothing. */
  method SortStep(xs: Row, count: u64, at: u64) returns (row: Row)
    ensures Permutes(row, xs, Window(count))
    ensures Sorted(xs, Sofar(at, Window(count))) ==> Sorted(row, Sofar(at + 1, Window(count)))
  {
    hide StepLane, Permutes, SortedBut, Sorted;
    var n := Window(count);
    ghost var m := Sofar(at + 1, n);
    row := xs;
    PermutesItself(xs, n);
    InsertBegins(xs, n, at);
    for j := 0 to 8
      invariant Permutes(row, xs, n)
      invariant Sorted(xs, Sofar(at, n)) ==> Inserting(row, n, at, j)
    {
      var k := SubWrap(at, j);
      LanePermutes(row, xs, n, k);
      if Sorted(xs, Sofar(at, n)) {
        LaneInserts(row, n, at, j);
      }
      row := StepLane(row, n, k);
    }
    if Sorted(xs, Sofar(at, n)) {
      InsertEnds(row, n, at);
    }
  }

  /** After `j` lanes: the window is sorted, or sorted but for the element still moving left. */
  predicate Inserting(row: Row, n: nat, at: nat, j: nat)
    requires n <= 8
  {
    if at < n && j <= at then SortedBut(row, Sofar(at + 1, n), at - j) else Sorted(row, Sofar(at + 1, n))
  }

  lemma InsertBegins(xs: Row, n: nat, at: nat)
    requires n <= 8
    ensures Sorted(xs, Sofar(at, n)) ==> Inserting(xs, n, at, 0)
  {}

  lemma LaneInserts(row: Row, n: nat, at: u64, j: nat)
    requires n <= 8 && j < 8 && Inserting(row, n, at, j)
    ensures Inserting(StepLane(row, n, SubWrap(at, j)), n, at, j + 1)
  {
    hide StepLane;
    var k := SubWrap(at, j);
    if at >= n {
      LaneKeepsSorted(row, n, k);
    } else if j < at {
      LaneSorts(row, n, at + 1, k);
    } else {
      StepLaneMeans(row, n, k);
    }
  }

  lemma InsertEnds(row: Row, n: nat, at: u64)
    requires n <= 8 && Inserting(row, n, at, 8)
    ensures Sorted(row, Sofar(at + 1, n))
  {}

  function Sofar(i: nat, n: nat): nat { if i <= n then i else n }

  lemma PermutesItself(xs: Row, n: nat)
    requires n <= 8
    ensures Permutes(xs, xs, n)
  {}

  /** The window comes out sorted, with the same elements; the lanes after it are untouched. */
  method SortCodes(xs: Row, count: u64) returns (row: Row)
    ensures Sorted(row, if count <= 8 then count else 8)
    ensures multiset(row[..Window(count)]) == multiset(xs[..Window(count)])
    ensures row[Window(count)..] == xs[Window(count)..]
  {
    var n := Window(count);
    row := xs;
    for at := 0 to 8
      invariant Sorted(row, Sofar(at, n)) && Permutes(row, xs, n)
    {
      row := SortStep(row, n, at);
    }
  }
}
