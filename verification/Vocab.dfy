/** The closed vocabulary and the byte-level word classifiers of `language/mncs/ingest/vocab.mncs`. */
module Vocab {
  import opened Machine
  import opened Numerals

  /** A bounded text is the sequence of its live bytes. */
  type Text = s: seq<byte> | |s| <= 64

  /** A keyword table entry, padded to eight bytes. */
  type Token = s: seq<byte> | |s| == 8 witness [0, 0, 0, 0, 0, 0, 0, 0]

  const VERB_ACTIVE := 1
  const VERB_PASSIVE := 2

  const OBJECT_UNKNOWN := 0
  const OBJECT_APPLE := 1
  const OBJECT_ORANGE := 2

  const CLASS_ENTITY := 1
  const CLASS_VERB_ACTIVE := 2
  const CLASS_VERB_PASSIVE := 3
  const CLASS_NUMBER := 4
  const CLASS_OBJECT := 5
  const CLASS_FROM := 6
  const CLASS_CANDIDATE := 7
  const CLASS_OTHER := 8

  datatype NumParse = NumParse(value: i64, ok: bool)

  predicate IsAlpha(b: byte) { 65 <= b <= 90 || 97 <= b <= 122 }

  predicate IsUpper(b: byte) { 65 <= b <= 90 }

  predicate IsLower(b: byte) { 97 <= b <= 122 }

  function ToLower(b: byte): byte { if 65 <= b <= 90 then b + 32 else b }

  predicate EqFold(left: byte, right: byte) { ToLower(left) == ToLower(right) }

  const GAVE: Token := [103, 97, 118, 101, 0, 0, 0, 0]
  const GIVE: Token := [103, 105, 118, 101, 0, 0, 0, 0]
  const GIVES: Token := [103, 105, 118, 101, 115, 0, 0, 0]
  const RECEIVED: Token := [114, 101, 99, 101, 105, 118, 101, 100]
  const RECEIVE: Token := [114, 101, 99, 101, 105, 118, 101, 0]
  const RECEIVES: Token := [114, 101, 99, 101, 105, 118, 101, 115]
  const FROM: Token := [102, 114, 111, 109, 0, 0, 0, 0]
  const APPLE: Token := [97, 112, 112, 108, 101, 0, 0, 0]
  const ORANGE: Token := [111, 114, 97, 110, 103, 101, 0, 0]

  const ZERO: Token := [122, 101, 114, 111, 0, 0, 0, 0]
  const ONE: Token := [111, 110, 101, 0, 0, 0, 0, 0]
  const TWO: Token := [116, 119, 111, 0, 0, 0, 0, 0]
  const THREE: Token := [116, 104, 114, 101, 101, 0, 0, 0]
  const FOUR: Token := [102, 111, 117, 114, 0, 0, 0, 0]
  const FIVE: Token := [102, 105, 118, 101, 0, 0, 0, 0]
  const SIX: Token := [115, 105, 120, 0, 0, 0, 0, 0]
  const SEVEN: Token := [115, 101, 118, 101, 110, 0, 0, 0]
  const EIGHT: Token := [101, 105, 103, 104, 116, 0, 0, 0]
  const NINE: Token := [110, 105, 110, 101, 0, 0, 0, 0]
  const TEN: Token := [116, 101, 110, 0, 0, 0, 0, 0]

  // ---------------------------------------------------------------------------------------
  // Spans

  function Clamp(text: Text, length: u64): nat { if length <= |text| then length else |text| }

  function SpanByte(text: Text, start: u64, length: u64, at: u64): byte {
    var pos := AddWrap(start, at);
    if at < Clamp(text, length) && pos < |text| then text[pos] else 0
  }

  /** The bytes a span stands for.  The classifiers below answer from these alone. */
  function Word(text: Text, start: u64, length: u64): (w: seq<byte>)
    ensures |w| == Clamp(text, length)
  {
    seq(Clamp(text, length), at requires 0 <= at < Clamp(text, length) => SpanByte(text, start, length, at))
  }

  /** A span inside the text is a slice of it: nothing wraps. */
  lemma WordIsSlice(text: Text, start: u64, length: u64)
    requires start + length <= |text|
    ensures Word(text, start, length) == text[start..start + length]
  {}

  lemma WordAt(text: Text, start: u64, length: u64, i: nat)
    ensures i < Clamp(text, length) ==> SpanByte(text, start, length, i) == Word(text, start, length)[i]
  {}

  // ---------------------------------------------------------------------------------------
  // What the classifiers decide

  /** The first `n` bytes of `w` spell the keyword, letter case aside. */
  predicate Spells(w: seq<byte>, token: Token, n: nat) {
    n <= 8 && n <= |w| && forall i :: 0 <= i < n ==> EqFold(w[i], token[i])
  }

  predicate Is(w: seq<byte>, token: Token, n: nat) { |w| == n && Spells(w, token, n) }

  /** The keyword, with or without a final s. */
  predicate IsCounted(w: seq<byte>, token: Token, n: nat) {
    Is(w, token, n) || (|w| == n + 1 && Spells(w, token, n) && EqFold(w[n], 115))
  }

  predicate IsGiveVerb(w: seq<byte>) { Is(w, GAVE, 4) || Is(w, GIVE, 4) || Is(w, GIVES, 5) }

  predicate IsReceiveVerb(w: seq<byte>) { Is(w, RECEIVED, 8) || Is(w, RECEIVE, 7) || Is(w, RECEIVES, 8) }

  function ObjectCode(w: seq<byte>): i64 {
    if IsCounted(w, APPLE, 5) then OBJECT_APPLE
    else if IsCounted(w, ORANGE, 6) then OBJECT_ORANGE
    else OBJECT_UNKNOWN
  }

  /** The decimal value of a run of digits; anything else counts as the digit zero. */
  function DigitValue(w: seq<byte>): nat {
    if w == [] then 0
    else DigitValue(w[..|w| - 1]) * 10 + if IsDigit(w[|w| - 1]) then w[|w| - 1] as int - 48 else 0
  }

  lemma {:induction false} DigitValueBound(w: seq<byte>)
    requires |w| <= 3
    ensures DigitValue(w) <= 999 && (|w| <= 2 ==> DigitValue(w) <= 99) && (|w| <= 1 ==> DigitValue(w) <= 9)
    decreases |w|
  {
    if w != [] {
      DigitValueBound(w[..|w| - 1]);
      if |w| <= 2 {
        assert w[..|w| - 1] == [] || |w[..|w| - 1]| == 1;
      }
    }
  }

  function DigitsOf(w: seq<byte>): NumParse {
    DigitValueBound(if |w| <= 3 then w else []);
    if w == [] || |w| > 3 then NumParse(0, false) else NumParse(DigitValue(w), AllDigits(w))
  }

  function NumberOf(w: seq<byte>): NumParse {
    if Is(w, ZERO, 4) then NumParse(0, true)
    else if Is(w, ONE, 3) then NumParse(1, true)
    else if Is(w, TWO, 3) then NumParse(2, true)
    else if Is(w, THREE, 5) then NumParse(3, true)
    else if Is(w, FOUR, 4) then NumParse(4, true)
    else if Is(w, FIVE, 4) then NumParse(5, true)
    else if Is(w, SIX, 3) then NumParse(6, true)
    else if Is(w, SEVEN, 5) then NumParse(7, true)
    else if Is(w, EIGHT, 5) then NumParse(8, true)
    else if Is(w, NINE, 4) then NumParse(9, true)
    else if Is(w, TEN, 3) then NumParse(10, true)
    else DigitsOf(w)
  }

  predicate LetterOrHigh(b: byte) { IsAlpha(b) || b >= 128 }

  predicate IsEntity(w: seq<byte>) {
    && 1 <= |w| <= 16 && (IsUpper(w[0]) || w[0] >= 128)
    && forall i :: 1 <= i < |w| ==> LetterOrHigh(w[i])
  }

  predicate IsCandidate(w: seq<byte>) { 1 <= |w| <= 16 && forall i :: 0 <= i < |w| ==> IsLower(w[i]) }

  function ClassOf(w: seq<byte>): i64 {
    if IsGiveVerb(w) then CLASS_VERB_ACTIVE
    else if IsReceiveVerb(w) then CLASS_VERB_PASSIVE
    else if Is(w, FROM, 4) then CLASS_FROM
    else if NumberOf(w).ok then CLASS_NUMBER
    else if ObjectCode(w) != OBJECT_UNKNOWN then CLASS_OBJECT
    else if IsEntity(w) then CLASS_ENTITY
    else if IsCandidate(w) then CLASS_CANDIDATE
    else CLASS_OTHER
  }

  // ---------------------------------------------------------------------------------------
  // The loops and branches of the source

  /** One lane of `span_eq` and `span_prefix_eq`. */
  method SpanEq(text: Text, start: u64, length: u64, target: Token, targetLength: u64) returns (same: bool)
    ensures same <==> Is(Word(text, start, length), target, targetLength)
  {
    hide Word, EqFold;
    var tlen := Clamp(text, length);
    ghost var w := Word(text, start, length);
    same := tlen == targetLength && targetLength <= 8 && tlen <= 16;
    for i := 0 to 8
      invariant same ==> tlen == targetLength <= 8
      invariant same <==> tlen == targetLength <= 8 && Spells(w, target, if i <= targetLength then i else targetLength)
    {
      var live := i < targetLength && i < tlen;
      WordAt(text, start, length, i);
      same := same && (live ==> EqFold(SpanByte(text, start, length, i), target[i]));
    }
  }

  method SpanPrefixEq(text: Text, start: u64, length: u64, target: Token, targetLength: u64) returns (same: bool)
    ensures same <==> |Word(text, start, length)| <= 16 && Spells(Word(text, start, length), target, targetLength)
  {
    hide Word, EqFold;
    var tlen := Clamp(text, length);
    ghost var w := Word(text, start, length);
    same := tlen >= targetLength && targetLength <= 8 && tlen <= 16;
    for i := 0 to 8
      invariant same ==> targetLength <= 8 && targetLength <= tlen <= 16
      invariant same <==> targetLength <= 8 && targetLength <= tlen <= 16
                          && Spells(w, target, if i <= targetLength then i else targetLength)
    {
      var live := i < targetLength && i < tlen;
      WordAt(text, start, length, i);
      same := same && (live ==> EqFold(SpanByte(text, start, length, i), target[i]));
    }
  }

  method GiveVerb(text: Text, start: u64, length: u64) returns (r: bool)
    ensures r <==> IsGiveVerb(Word(text, start, length))
  {
    hide Word, Is;
    r := SpanEq(text, start, length, GAVE, 4);
    if !r {
      r := SpanEq(text, start, length, GIVE, 4);
    }
    if !r {
      r := SpanEq(text, start, length, GIVES, 5);
    }
  }

  method ReceiveVerb(text: Text, start: u64, length: u64) returns (r: bool)
    ensures r <==> IsReceiveVerb(Word(text, start, length))
  {
    hide Word, Is;
    r := SpanEq(text, start, length, RECEIVED, 8);
    if !r {
      r := SpanEq(text, start, length, RECEIVE, 7);
    }
    if !r {
      r := SpanEq(text, start, length, RECEIVES, 8);
    }
  }

  /** The word without its last byte is the span one byte shorter. */
  lemma Stem(text: Text, start: u64, length: u64, stem: nat)
    requires 1 <= Clamp(text, length) && stem == Clamp(text, length) - 1
    ensures Word(text, start, stem) == Word(text, start, length)[..stem]
    ensures SpanByte(text, start, length, stem) == Word(text, start, length)[stem]
  {}

  lemma StemSpells(w: seq<byte>, stem: nat, token: Token, n: nat)
    requires |w| == stem + 1 && n <= 8
    ensures Spells(w[..stem], token, n) && stem == n && EqFold(w[stem], 115) ==> IsCounted(w, token, n)
    ensures IsCounted(w, token, n) && !Is(w, token, n) ==>
              Spells(w[..stem], token, n) && stem == n && EqFold(w[stem], 115)
  {
    hide EqFold;
  }

  lemma NotBoth(w: seq<byte>)
    ensures !(IsCounted(w, APPLE, 5) && IsCounted(w, ORANGE, 6))
  {
    assert Spells(w, APPLE, 5) ==> EqFold(w[0], APPLE[0]);
    assert Spells(w, ORANGE, 6) ==> EqFold(w[0], ORANGE[0]);
  }

  method ClassifyObject(text: Text, start: u64, length: u64) returns (code: i64)
    ensures code == ObjectCode(Word(text, start, length))
  {
    hide Word, Spells, EqFold;
    ghost var w := Word(text, start, length);
    NotBoth(w);
    var tlen := Clamp(text, length);
    var apple := SpanEq(text, start, length, APPLE, 5);
    if apple {
      return OBJECT_APPLE;
    }
    var orange := SpanEq(text, start, length, ORANGE, 6);
    if orange {
      return OBJECT_ORANGE;
    }
    if 2 <= tlen <= 16 {
      var stem := SubWrap(tlen, 1);
      Stem(text, start, length, stem);
      StemSpells(w, stem, APPLE, 5);
      StemSpells(w, stem, ORANGE, 6);
      var last := SpanByte(text, start, length, stem);
      apple := SpanPrefixEq(text, start, stem, APPLE, 5);
      if EqFold(last, 115) && apple && stem == 5 {
        return OBJECT_APPLE;
      }
      orange := SpanPrefixEq(text, start, stem, ORANGE, 6);
      if EqFold(last, 115) && orange && stem == 6 {
        return OBJECT_ORANGE;
      }
    }
    return OBJECT_UNKNOWN;
  }

  /** The fold visits `lanes` lanes: the runtime length of the text or all of its storage. */
  method ClassifyDigits(text: Text, lanes: nat, start: u64, length: u64) returns (acc: NumParse)
    requires |text| <= lanes <= 64
    ensures acc == DigitsOf(Word(text, start, length))
  {
    hide Word, DigitValue, AllDigits, SpanByte;
    var tlen := Clamp(text, length);
    ghost var w := Word(text, start, length);
    if tlen == 0 || tlen > 3 {
      return NumParse(0, false);
    }
    acc := NumParse(0, true);
    NoDigits();
    assert w[..0] == [];
    for i := 0 to lanes
      invariant acc.value == DigitValue(w[..Reach(i, tlen)]) && acc.ok == AllDigits(w[..Reach(i, tlen)])
    {
      var live := i < tlen;
      var current := SpanByte(text, start, length, i);
      WordAt(text, start, length, i);
      var digit := IsDigit(current);
      var magnitude: i64 := if digit then current as int - 48 else 0;
      if live {
        MoreDigits(w, i);
      }
      acc := NumParse(if live then WrapSigned(WrapSigned(acc.value * 10) + magnitude) else acc.value,
                      acc.ok && (live ==> digit));
    }
    assert w[..tlen] == w;
  }

  function Reach(i: nat, tlen: nat): nat { if i <= tlen then i else tlen }

  lemma NoDigits()
    ensures DigitValue([]) == 0 && AllDigits([])
  {}

  lemma MoreDigits(w: seq<byte>, i: nat)
    requires i < |w| <= 3
    ensures DigitValue(w[..i + 1]) == DigitValue(w[..i]) * 10 + (if IsDigit(w[i]) then w[i] as int - 48 else 0)
    ensures DigitValue(w[..i]) <= 999 && DigitValue(w[..i + 1]) <= 999
    ensures AllDigits(w[..i + 1]) <==> AllDigits(w[..i]) && IsDigit(w[i])
  {
    assert w[..i + 1][..i] == w[..i];
    DigitValueBound(w[..i]);
    DigitValueBound(w[..i + 1]);
    assert forall k :: 0 <= k < i ==> w[..i + 1][k] == w[..i][k];
    assert w[..i + 1][i] == w[i];
  }

  method ClassifyWordNumber(text: Text, lanes: nat, start: u64, length: u64) returns (n: NumParse)
    requires |text| <= lanes <= 64
    ensures n == NumberOf(Word(text, start, length))
  {
    hide Word, Is, DigitsOf;
    var hit := SpanEq(text, start, length, ZERO, 4);
    if hit { return NumParse(0, true); }
    hit := SpanEq(text, start, length, ONE, 3);
    if hit { return NumParse(1, true); }
    hit := SpanEq(text, start, length, TWO, 3);
    if hit { return NumParse(2, true); }
    hit := SpanEq(text, start, length, THREE, 5);
    if hit { return NumParse(3, true); }
    hit := SpanEq(text, start, length, FOUR, 4);
    if hit { return NumParse(4, true); }
    hit := SpanEq(text, start, length, FIVE, 4);
    if hit { return NumParse(5, true); }
    hit := SpanEq(text, start, length, SIX, 3);
    if hit { return NumParse(6, true); }
    hit := SpanEq(text, start, length, SEVEN, 5);
    if hit { return NumParse(7, true); }
    hit := SpanEq(text, start, length, EIGHT, 5);
    if hit { return NumParse(8, true); }
    hit := SpanEq(text, start, length, NINE, 4);
    if hit { return NumParse(9, true); }
    hit := SpanEq(text, start, length, TEN, 3);
    if hit { return NumParse(10, true); }
    n := ClassifyDigits(text, lanes, start, length);
  }

  method EntityWord(text: Text, lanes: nat, start: u64, length: u64) returns (tail: bool)
    requires |text| <= lanes <= 64
    ensures tail <==> IsEntity(Word(text, start, length))
  {
    hide Word, SpanByte, LetterOrHigh, IsUpper;
    var tlen := Clamp(text, length);
    ghost var w := Word(text, start, length);
    if tlen == 0 || tlen > 16 {
      return false;
    }
    WordAt(text, start, length, 0);
    var first := SpanByte(text, start, length, 0);
    if !(IsUpper(first) || first >= 128) {
      return false;
    }
    tail := true;
    for i := 0 to lanes
      invariant tail <==> forall k :: 1 <= k < Reach(i, tlen) ==> LetterOrHigh(w[k])
    {
      var live := i < tlen && i > 0;
      WordAt(text, start, length, i);
      tail := tail && (live ==> LetterOrHigh(SpanByte(text, start, length, i)));
    }
  }

  method CandidateWord(text: Text, lanes: nat, start: u64, length: u64) returns (ok: bool)
    requires |text| <= lanes <= 64
    ensures ok <==> IsCandidate(Word(text, start, length))
  {
    hide Word, SpanByte, IsLower;
    var tlen := Clamp(text, length);
    ghost var w := Word(text, start, length);
    if tlen == 0 || tlen > 16 {
      return false;
    }
    ok := true;
    for i := 0 to lanes
      invariant ok <==> forall k :: 0 <= k < Reach(i, tlen) ==> IsLower(w[k])
    {
      var live := i < tlen;
      WordAt(text, start, length, i);
      ok := ok && (live ==> IsLower(SpanByte(text, start, length, i)));
    }
  }

  method ClassifyWord(text: Text, lanes: nat, start: u64, length: u64) returns (class_: i64)
    requires |text| <= lanes <= 64
    ensures class_ == ClassOf(Word(text, start, length))
  {
    hide Word, Is, IsGiveVerb, IsReceiveVerb, NumberOf, ObjectCode, IsEntity, IsCandidate;
    var gives := GiveVerb(text, start, length);
    if gives {
      return CLASS_VERB_ACTIVE;
    }
    var receives := ReceiveVerb(text, start, length);
    if receives {
      return CLASS_VERB_PASSIVE;
    }
    var from := SpanEq(text, start, length, FROM, 4);
    if from {
      return CLASS_FROM;
    }
    var digits := ClassifyWordNumber(text, lanes, start, length);
    if digits.ok {
      return CLASS_NUMBER;
    }
    var code := ClassifyObject(text, start, length);
    if code != OBJECT_UNKNOWN {
      return CLASS_OBJECT;
    }
    var entity := EntityWord(text, lanes, start, length);
    if entity {
      return CLASS_ENTITY;
    }
    var candidate := CandidateWord(text, lanes, start, length);
    if candidate {
      return CLASS_CANDIDATE;
    }
    return CLASS_OTHER;
  }
}
