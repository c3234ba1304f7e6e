/** Typed pair extraction, `language/mncs/flow/manifest.mncs`: three further machines that walk
    the bytes of a document again.  A document is staged in a 512-lane buffer with a length;
    the specification functions are over its live bytes only. */
module Manifest {
  import opened Machine

  const STATUS_OK := 0
  const STATUS_END := 1
  const STATUS_MALFORMED := 2
  const STATUS_OVERLONG := 3
  const KIND_STRING := 1
  const KIND_INT := 2
  const KIND_BOOL := 3
  const KIND_NESTED := 4

  type Staged = s: seq<byte> | |s| == 512 witness seq(512, _ => 0)
  type Doc = s: seq<byte> | |s| <= 512 witness []
  type Stack = s: seq<u64> | |s| == 4 witness [0, 0, 0, 0]

  const TRUE: seq<byte> := [116, 114, 117, 101]
  const FALSE: seq<byte> := [102, 97, 108, 115, 101]

  function Live(doc: Staged, docLen: u64): Doc {
    doc[..if docLen <= 512 then docLen else 512]
  }

  // ---------------------------------------------------------------------------------------
  // Counting

  datatype CountSt = CountSt(depth: u64, instr: bool, esc: bool, count: i64)

  function CountStep(st: CountSt, current: byte, live: bool): CountSt {
    if !live then st
    else if st.instr then
      if st.esc then st.(esc := false)
      else if current == BACKSLASH then st.(esc := true)
      else if current == QUOTE then st.(instr := false)
      else st
    else if current == QUOTE then st.(instr := true, esc := false)
    else if current == OPEN_OBJECT || current == OPEN_ARRAY then st.(depth := AddWrap(st.depth, 1))
    else if current == CLOSE_OBJECT || current == CLOSE_ARRAY then st.(depth := SubWrap(st.depth, 1))
    else if current == COLON && st.depth == 1 then st.(count := WrapSigned(st.count + 1))
    else st
  }

  function CountTo(s: seq<byte>): CountSt {
    if s == [] then CountSt(0, false, false, 0)
    else CountStep(CountTo(s[..|s| - 1]), s[|s| - 1], true)
  }

  method PairCount(doc: Staged, docLen: u64) returns (count: i64)
    ensures count == CountTo(Live(doc, docLen)).count
  {
    var length: u64 := if docLen <= 512 then docLen else 512;
    var st := CountSt(0, false, false, 0);
    for i := 0 to 512
      invariant st == CountTo(doc[..if i <= length then i else length])
    {
      var live := i < length;
      var current: byte := if live then doc[i] else SPACE;
      if live {
        assert doc[..i + 1][..i] == doc[..i];
      }
      st := CountStep(st, current, live);
    }
    count := st.count;
  }

  // ---------------------------------------------------------------------------------------
  // Locating

  datatype Loc = Loc(status: int, kstart: u64, klen: u64, vstart: u64, vlen: u64)

  /** Phases: 0 seek key, 1 inside key, 2 seek colon, 3 seek value, 5 after a value. */
  datatype LocSt = LocSt(
    depth: u64, stack: Stack, instr: bool, esc: bool, inkey: bool,
    pair: u64, phase: u64, kstart: u64, kend: u64, fkstart: u64, fkend: u64,
    vstart: u64, vend: u64, want: bool, skipping: bool, skipDepth: u64,
    done: bool, oversize: bool, bad: bool)

  const LOC_SEED: LocSt := LocSt(0, [0, 0, 0, 0], false, false, false, 0, 0, 0, 0, 0, 0, 0, 0,
                                 false, false, 0, false, false, false)

  function LocateStep(st: LocSt, current: byte, i: u64, live: bool, index: u64): LocSt {
    if !live then st
    else if st.skipping then SkipStep(st, current, i)
    else if st.instr then
      if st.esc then st.(esc := false)
      else if current == BACKSLASH then st.(esc := true)
      else if current == QUOTE then
        st.(instr := false, inkey := false, kend := i, phase := if st.inkey then 2 else st.phase)
      else st
    else if IsSpace(current) then st
    else if current == QUOTE then
      if st.phase == 0 && st.depth == 1
      then st.(instr := true, esc := false, inkey := true, phase := 1, kstart := AddWrap(i, 1))
      else if st.phase == 3 then BeginValue(st, i, false, true, index)
      else st.(bad := true)
    else if current == OPEN_OBJECT || current == OPEN_ARRAY then
      if st.phase == 3 then BeginValue(st, i, true, false, index)
      else if st.phase == 0 && st.depth == 0 && current == OPEN_OBJECT
      then st.(depth := 1, stack := st.stack[0 := 1])
      else st.(bad := true)
    else if current == CLOSE_OBJECT || current == CLOSE_ARRAY then CloseStep(st, current)
    else if current == COLON then
      if st.phase == 2 then st.(phase := 3) else st.(bad := true)
    else if current == COMMA then
      if st.phase == 5 then st.(phase := 0, pair := AddWrap(st.pair, 1)) else st.(bad := true)
    else if st.phase == 3 then BeginValue(st, i, false, false, index)
    else st.(bad := true)
  }

  function BeginValue(st: LocSt, i: u64, nested: bool, quoted: bool, index: u64): LocSt {
    var want := st.pair == index;
    var klen := SubWrap(st.kend, st.kstart);
    st.(fkstart := if want then st.kstart else st.fkstart,
        fkend := if want then st.kend else st.fkend,
        vstart := if want then i else st.vstart,
        want := want,
        skipping := true,
        skipDepth := if nested then 1 else 0,
        instr := quoted,
        esc := false,
        phase := 5,
        oversize := st.oversize || (want && klen > 32))
  }

  function CloseStep(st: LocSt, current: byte): LocSt {
    if st.depth == 0 then st.(bad := true)
    else
      var slot := if SubWrap(st.depth, 1) < 4 then SubWrap(st.depth, 1) else 0;
      var want := if current == CLOSE_OBJECT then 1 else 2;
      if st.stack[slot] != want then st.(bad := true)
      else if st.phase != 0 && st.phase != 5 then st.(bad := true)
      else st.(depth := SubWrap(st.depth, 1))
  }

  function SkipStep(st: LocSt, current: byte, i: u64): LocSt {
    if st.instr then
      if st.esc then st.(esc := false)
      else if current == BACKSLASH then st.(esc := true)
      else if current == QUOTE then st.(instr := false)
      else st
    else if current == QUOTE then st.(instr := true, esc := false)
    else if current == OPEN_OBJECT || current == OPEN_ARRAY then st.(skipDepth := AddWrap(st.skipDepth, 1))
    else if current == CLOSE_OBJECT || current == CLOSE_ARRAY || current == COMMA then
      if st.skipDepth == 0 then
        var sep := current == COMMA && !st.want;
        st.(skipping := false,
            vend := if st.want then i else st.vend,
            done := st.want,
            phase := if sep then 0 else st.phase,
            pair := if sep then AddWrap(st.pair, 1) else st.pair)
      else if current != COMMA then st.(skipDepth := SubWrap(st.skipDepth, 1))
      else st
    else st
  }

  predicate Walking(st: LocSt) { !st.done && !st.bad && !st.oversize }

  function LocateTo(s: Doc, index: u64): LocSt {
    if s == [] then LOC_SEED
    else
      var st := LocateTo(s[..|s| - 1], index);
      LocateStep(st, s[|s| - 1], |s| - 1, Walking(st), index)
  }

  function LocResult(st: LocSt): Loc {
    if st.bad then Loc(STATUS_MALFORMED, 0, 0, 0, 0)
    else if st.oversize then Loc(STATUS_OVERLONG, 0, 0, 0, 0)
    else if !st.done then Loc(STATUS_END, 0, 0, 0, 0)
    else Loc(STATUS_OK, st.fkstart, SubWrap(st.fkend, st.fkstart), st.vstart, SubWrap(st.vend, st.vstart))
  }

  /** What keeps every located span inside the bytes walked so far, on any document at all. */
  predicate SpansInside(st: LocSt, n: nat) {
    && (st.inkey ==> st.instr && !st.skipping)
    && (st.instr ==> st.inkey || st.skipping)
    && (st.inkey ==> st.kstart <= n)
    && (st.phase == 2 || st.phase == 3 ==> st.kstart <= st.kend < n)
    && (st.want ==> st.fkstart <= st.fkend < st.vstart < n)
    && (st.want && Walking(st) ==> st.fkend - st.fkstart <= 32)
    && (st.skipping ==> st.phase == 5)
    && (st.done ==> st.want && !st.bad && !st.oversize && st.vstart < st.vend < n
                    && st.fkend - st.fkstart <= 32)
  }

  lemma SkipSpansInside(st: LocSt, b: byte, n: u64)
    requires n < 512 && SpansInside(st, n) && Walking(st) && st.skipping
    ensures SpansInside(SkipStep(st, b, n), n + 1)
  {}

  lemma BeginSpansInside(st: LocSt, n: u64, nested: bool, quoted: bool, index: u64)
    requires n < 512 && SpansInside(st, n) && Walking(st) && !st.skipping && !st.instr && st.phase == 3
    ensures SpansInside(BeginValue(st, n, nested, quoted, index), n + 1)
  {}

  lemma StepSpansInside(st: LocSt, b: byte, n: u64, index: u64)
    requires n < 512 && SpansInside(st, n)
    ensures SpansInside(LocateStep(st, b, n, Walking(st), index), n + 1)
  {
    hide SkipStep, BeginValue;
    if Walking(st) && st.skipping {
      SkipSpansInside(st, b, n);
    } else if Walking(st) && !st.instr && st.phase == 3 {
      BeginSpansInside(st, n, b == OPEN_OBJECT || b == OPEN_ARRAY, b == QUOTE, index);
    }
  }

  lemma {:induction false} LocateSpansInside(s: Doc, index: u64)
    ensures SpansInside(LocateTo(s, index), |s|)
  {
    hide LocateStep;
    if s != [] {
      LocateSpansInside(s[..|s| - 1], index);
      StepSpansInside(LocateTo(s[..|s| - 1], index), s[|s| - 1], |s| - 1, index);
    }
  }

  /** A located pair: key of at most 32 bytes, then at least one byte, then a non-empty value. */
  predicate InBounds(loc: Loc, s: Doc) {
    && loc.klen <= 32
    && loc.kstart + loc.klen < loc.vstart
    && 0 < loc.vlen
    && loc.vstart + loc.vlen < |s|
  }

  /** `locate_pair`, on any document: an `ok` answer never points outside it. */
  function Locate(s: Doc, index: u64): (loc: Loc)
    ensures loc.status == STATUS_OK ==> InBounds(loc, s)
    ensures loc.status in {STATUS_OK, STATUS_END, STATUS_MALFORMED, STATUS_OVERLONG}
  {
    LocateSpansInside(s, index);
    LocResult(LocateTo(s, index))
  }

  method LocatePair(doc: Staged, docLen: u64, index: u64) returns (loc: Loc)
    ensures loc == Locate(Live(doc, docLen), index)
  {
    hide LocateStep;
    var length: u64 := if docLen <= 512 then docLen else 512;
    var st := LOC_SEED;
    for i := 0 to 512
      invariant st == LocateTo(doc[..if i <= length then i else length], index)
    {
      var live := i < length && !st.done && !st.bad && !st.oversize;
      var current: byte := if live then doc[i] else SPACE;
      if i < length {
        assert doc[..i + 1][..i] == doc[..i];
      }
      st := LiveLocateStep(st, current, i, live, index, if i < length then doc[i] else SPACE);
    }
    loc := LocResult(st);
  }

  /** A dead lane is fed a space, which makes no difference. */
  function LiveLocateStep(st: LocSt, current: byte, i: u64, live: bool, index: u64, ghost lane: byte): (r: LocSt)
    requires live ==> current == lane
    ensures r == LocateStep(st, lane, i, live, index)
    ensures !live ==> r == st
  {
    LocateStep(st, current, i, live, index)
  }

  // ---------------------------------------------------------------------------------------
  // Reading the value of a located pair

  /** The source's key and value buffers with their lengths are the sequences of live bytes. */
  datatype PairOut = PairOut(
    status: int, key: seq<byte>, kstart: u64, kind: int,
    sval: seq<byte>, ival: i64, bval: bool, vstart: u64, vlen: u64)

  function FailPair(code: int): PairOut { PairOut(code, [], 0, 0, [], 0, false, 0, 0) }

  function Key(s: Doc, found: Loc): seq<byte>
    requires InBounds(found, s)
  {
    s[found.kstart..found.kstart + found.klen]
  }

  function Value(s: Doc, found: Loc): seq<byte>
    requires InBounds(found, s)
  {
    s[found.vstart..found.vstart + found.vlen]
  }

  lemma ValueLane(doc: Staged, docLen: u64, found: Loc, k: nat)
    requires InBounds(found, Live(doc, docLen)) && k < found.vlen
    ensures found.vstart + k < 512
    ensures Value(Live(doc, docLen), found)[k] == doc[found.vstart + k]
  {
    assert Value(Live(doc, docLen), found)[k] == Live(doc, docLen)[found.vstart + k];
  }

  type Buffer = s: seq<byte> | |s| == 64 witness seq(64, _ => 0)
  datatype StrSt = StrSt(buf: Buffer, len: u64, esc: bool, bad: bool, toolong: bool, closed: bool)

  function Zero64(): Buffer { seq(64, _ => 0) }

  function StringSeed(): StrSt { StrSt(Zero64(), 0, false, false, false, false) }

  function StringStep(st: StrSt, current: byte, live: bool): StrSt {
    if !live then st
    else if st.esc then
      if current == QUOTE || current == BACKSLASH then AppendByte(st, current)
      else if current == 110 then AppendByte(st, NEWLINE)
      else if current == 116 then AppendByte(st, TAB)
      else st.(bad := true)
    else if current == BACKSLASH then st.(esc := true)
    else if current == QUOTE then st.(closed := true)
    else if current < 32 then st.(bad := true)
    else AppendByte(st, current)
  }

  function AppendByte(st: StrSt, value: byte): StrSt {
    var room := st.len < 64;
    var slot := if room then st.len else 0;
    var keep := st.buf[slot];
    st.(buf := st.buf[slot := if room then value else keep],
        len := if room then AddWrap(st.len, 1) else st.len,
        esc := false,
        toolong := st.toolong || !room)
  }

  /** The string machine over the bytes after the opening quote. */
  function StringTo(s: seq<byte>): (st: StrSt)
    ensures st.len <= 64
  {
    if s == [] then StringSeed()
    else
      var st := StringTo(s[..|s| - 1]);
      StringStep(st, s[|s| - 1], !st.closed && !st.bad)
  }

  function StringResult(st: StrSt, key: seq<byte>, found: Loc): PairOut
    requires st.len <= 64
  {
    if st.bad || !st.closed then FailPair(STATUS_MALFORMED)
    else if st.toolong then FailPair(STATUS_OVERLONG)
    else PairOut(STATUS_OK, key, found.kstart, KIND_STRING, st.buf[..st.len], 0, false, found.vstart, found.vlen)
  }

  function ReadStringSpec(s: Doc, found: Loc): PairOut
    requires InBounds(found, s)
  {
    StringResult(StringTo(Value(s, found)[1..]), Key(s, found), found)
  }

  method ReadString(doc: Staged, docLen: u64, found: Loc, key: seq<byte>) returns (r: PairOut)
    requires InBounds(found, Live(doc, docLen)) && key == Key(Live(doc, docLen), found)
    ensures r == ReadStringSpec(Live(doc, docLen), found)
  {
    hide StringStep;
    ghost var content := Value(Live(doc, docLen), found)[1..];
    var length: u64 := if docLen <= 512 then docLen else 512;
    var vend := AddWrap(found.vstart, found.vlen);
    var st := StringSeed();
    for i := 0 to 512
      invariant st == StringTo(content[..Covered(i, found.vstart + 1, |content|)])
    {
      var live := i > found.vstart && i < vend && i < length && !st.closed && !st.bad;
      var current: byte := if live then doc[i] else 97;
      if found.vstart < i < vend {
        var k := i - found.vstart - 1;
        assert content[..k + 1][..k] == content[..k];
        ValueLane(doc, docLen, found, k + 1);
        assert content[k] == doc[i];
        if !live {
          DeadStringLane(st, current);
          DeadStringLane(st, doc[i]);
        }
      } else {
        DeadStringLane(st, current);
      }
      st := StringStep(st, current, live);
    }
    assert content[..|content|] == content;
    r := StringResult(st, key, found);
  }

  /** How many of the `size` bytes starting at lane `from` lie before lane `i`. */
  function Covered(i: nat, from: nat, size: nat): nat {
    if i <= from then 0 else if i <= from + size then i - from else size
  }

  lemma DeadStringLane(st: StrSt, b: byte)
    ensures StringStep(st, b, false) == st
  {}

  function DocByte(doc: Staged, docLen: u64, at: u64): byte {
    var length := if docLen <= 512 then docLen else 512;
    if at < length && at < 512 then doc[at] else 0
  }

  function MatchWord(doc: Staged, at: u64, wantTrue: bool): bool {
    var t0 := DocByte(doc, 512, at);
    var t1 := DocByte(doc, 512, AddWrap(at, 1));
    var t2 := DocByte(doc, 512, AddWrap(at, 2));
    var t3 := DocByte(doc, 512, AddWrap(at, 3));
    if wantTrue then t0 == 116 && t1 == 114 && t2 == 117 && t3 == 101
    else
      var t4 := DocByte(doc, 512, AddWrap(at, 4));
      t0 == 102 && t1 == 97 && t2 == 108 && t3 == 115 && t4 == 101
  }

  function LiteralResult(ok: bool, key: seq<byte>, found: Loc, wantTrue: bool): PairOut {
    if !ok then FailPair(STATUS_MALFORMED)
    else PairOut(STATUS_OK, key, found.kstart, KIND_BOOL, [], 0, wantTrue, found.vstart, found.vlen)
  }

  lemma WordMatches(doc: Staged, docLen: u64, found: Loc, wantTrue: bool)
    requires InBounds(found, Live(doc, docLen))
    requires found.vlen == if wantTrue then 4 else 5
    ensures MatchWord(doc, found.vstart, wantTrue)
            <==> Value(Live(doc, docLen), found) == if wantTrue then TRUE else FALSE
  {
    var v := Value(Live(doc, docLen), found);
    forall k | 0 <= k < found.vlen ensures v[k] == DocByte(doc, 512, found.vstart + k) {
      ValueLane(doc, docLen, found, k);
    }
    if wantTrue {
      assert v == [v[0], v[1], v[2], v[3]];
    } else {
      assert v == [v[0], v[1], v[2], v[3], v[4]];
    }
  }

  /** Booleans match exactly; the length test comes first, so no lane past the value matters. */
  function ReadLiteral(doc: Staged, ghost docLen: u64, found: Loc, key: seq<byte>, wantTrue: bool): (r: PairOut)
    requires InBounds(found, Live(doc, docLen))
    ensures var word := if wantTrue then TRUE else FALSE;
            r == LiteralResult(Value(Live(doc, docLen), found) == word, key, found, wantTrue)
  {
    assert found.vlen == (if wantTrue then 4 else 5) ==>
             (MatchWord(doc, found.vstart, wantTrue)
              <==> Value(Live(doc, docLen), found) == if wantTrue then TRUE else FALSE)
    by { if found.vlen == (if wantTrue then 4 else 5) { WordMatches(doc, docLen, found, wantTrue); } }
    var ok := found.vlen == (if wantTrue then 4 else 5) && MatchWord(doc, found.vstart, wantTrue);
    LiteralResult(ok, key, found, wantTrue)
  }

  datatype IntSt = IntSt(value: i64, digits: u64, neg: bool, bad: bool)

  function IntStep(st: IntSt, current: byte, i: u64, vstart: u64, live: bool): IntSt {
    if !live then st
    else if i == vstart && current == MINUS then
      if st.digits > 0 then st.(bad := true) else st.(neg := true)
    else if !IsDigit(current) then st.(bad := true)
    else st.(value := WrapSigned(WrapSigned(st.value * 10) + (current - 48)), digits := AddWrap(st.digits, 1))
  }

  /** The integer machine over a value span, whose first byte is at offset 0. */
  function IntTo(s: Doc): IntSt {
    if s == [] then IntSt(0, 0, false, false)
    else IntStep(IntTo(s[..|s| - 1]), s[|s| - 1], |s| - 1, 0, true)
  }

  function IntResult(st: IntSt, key: seq<byte>, found: Loc): PairOut {
    if st.bad || st.digits == 0 || st.digits > 5 then FailPair(STATUS_MALFORMED)
    else
      var value := if st.neg then WrapSigned(0 - st.value) else st.value;
      if value > 99999 || value < -99999 then FailPair(STATUS_MALFORMED)
      else PairOut(STATUS_OK, key, found.kstart, KIND_INT, [], value, false, found.vstart, found.vlen)
  }

  lemma ContentAt(doc: Staged, docLen: u64, found: Loc, i: nat, k: nat)
    requires InBounds(found, Live(doc, docLen)) && i == found.vstart + k && k < found.vlen
    ensures |Value(Live(doc, docLen), found)| == found.vlen && Value(Live(doc, docLen), found)[k] == doc[i]
  {}

  method ReadInt(doc: Staged, docLen: u64, found: Loc, key: seq<byte>) returns (r: PairOut)
    requires InBounds(found, Live(doc, docLen))
    ensures r == IntResult(IntTo(Value(Live(doc, docLen), found)), key, found)
  {
    hide WrapSigned, IsDigit;
    ghost var content := Value(Live(doc, docLen), found);
    var length: u64 := if docLen <= 512 then docLen else 512;
    var vend := AddWrap(found.vstart, found.vlen);
    var st := IntSt(0, 0, false, false);
    for i := 0 to 512
      invariant st == IntTo(content[..Covered(i, found.vstart, |content|)])
    {
      var live := i >= found.vstart && i < vend && i < length;
      var current: byte := if live then doc[i] else 48;
      if live {
        var k := i - found.vstart;
        assert content[..k + 1][..k] == content[..k];
        ContentAt(doc, docLen, found, i, k);
      }
      st := IntStep(st, current, i, found.vstart, live);
    }
    assert content[..|content|] == content;
    r := IntResult(st, key, found);
  }

  function PairAtSpec(s: Doc, index: u64): PairOut {
    var found := Locate(s, index);
    if found.status != STATUS_OK then FailPair(found.status)
    else
      var key := Key(s, found);
      var value := Value(s, found);
      if value[0] == QUOTE then ReadStringSpec(s, found)
      else if value[0] == OPEN_OBJECT || value[0] == OPEN_ARRAY then
        PairOut(STATUS_OK, key, found.kstart, KIND_NESTED, [], 0, false, found.vstart, found.vlen)
      else if value[0] == 116 then LiteralResult(value == TRUE, key, found, true)
      else if value[0] == 102 then LiteralResult(value == FALSE, key, found, false)
      else if value[0] == MINUS || IsDigit(value[0]) then IntResult(IntTo(value), key, found)
      else FailPair(STATUS_MALFORMED)
  }

  method PairAt(doc: Staged, docLen: u64, index: u64) returns (r: PairOut)
    ensures r == PairAtSpec(Live(doc, docLen), index)
  {
    var found := LocatePair(doc, docLen, index);
    if found.status != STATUS_OK {
      return FailPair(found.status);
    }
    var key := doc[found.kstart..found.kstart + found.klen];
    assert key == Key(Live(doc, docLen), found);
    var first := DocByte(doc, docLen, found.vstart);
    assert first == Value(Live(doc, docLen), found)[0];
    if first == QUOTE {
      r := ReadString(doc, docLen, found, key);
    } else if first == OPEN_OBJECT || first == OPEN_ARRAY {
      r := PairOut(STATUS_OK, key, found.kstart, KIND_NESTED, [], 0, false, found.vstart, found.vlen);
    } else if first == 116 {
      r := ReadLiteral(doc, docLen, found, key, true);
    } else if first == 102 {
      r := ReadLiteral(doc, docLen, found, key, false);
    } else if first == MINUS || IsDigit(first) {
      r := ReadInt(doc, docLen, found, key);
    } else {
      r := FailPair(STATUS_MALFORMED);
    }
  }
}
