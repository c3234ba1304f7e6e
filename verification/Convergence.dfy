/** Active and passive sentences about the same transfer parse to the same facts. */
module Convergence {
  import opened Machine
  import opened Vocab
  import opened Words
  import opened Roles
  import opened Parse
  import opened Acceptance

  // ---------------------------------------------------------------------------------------
  // The words of a written sentence

  predicate Wordy(w: seq<byte>) { w != [] && forall i :: 0 <= i < |w| ==> w[i] != SPACE }

  function TextsOf(s: seq<byte>, ws: seq<Span>): (texts: seq<seq<byte>>)
    ensures |texts| == |ws|
  {
    seq(|ws|, k requires 0 <= k < |ws| =>
      if ws[k].start + ws[k].len <= |s| then s[ws[k].start..ws[k].start + ws[k].len] else [])
  }

  /** The words of a sentence, as bytes. */
  function WordTexts(text: Text): seq<seq<byte>> { TextsOf(text, SentenceSpans(text)) }

  lemma SpanOfSpace(s: seq<byte>)
    ensures SpansTo(s + [SPACE], |s| + 1) == SpansTo(s, |s|)
  {
    hide SpansTo;
    SpansUnfold(s + [SPACE], |s| + 1);
    assert (s + [SPACE])[..|s|] == s[..|s|];
    SpansAgree(s + [SPACE], s, |s|);
  }

  lemma {:induction false} SpansOfWord(s: seq<byte>, w: seq<byte>)
    requires Wordy(w) && !InWord(s, |s|)
    ensures SpansTo(s + w, |s + w|) == SpansTo(s, |s|) + [Span(|s|, |w|)]
    decreases |w|
  {
    hide SpansTo;
    var t := s + w;
    SpansUnfold(t, |t|);
    assert t[..|s|] == s[..|s|];
    SpansAgree(t, s, |s|);
    if |w| > 1 {
      var front := w[..|w| - 1];
      SpansOfWord(s, front);
      assert t[..|t| - 1] == (s + front)[..|s + front|];
      SpansAgree(t, s + front, |t| - 1);
    }
  }

  function JoinWords(words: seq<seq<byte>>): seq<byte> {
    if words == [] then []
    else if |words| == 1 then words[0]
    else JoinWords(words[..|words| - 1]) + [SPACE] + words[|words| - 1]
  }

  predicate AllWordy(words: seq<seq<byte>>) { forall k :: 0 <= k < |words| ==> Wordy(words[k]) }

  /** The words of joined words are those words. */
  lemma {:induction false} JoinedWords(words: seq<seq<byte>>)
    requires AllWordy(words)
    ensures var s := JoinWords(words);
            && TextsOf(s, SpansTo(s, |s|)) == words
            && (words != [] ==> InWord(s, |s|))
    decreases |words|
  {
    if words == [] {
    } else {
      hide SpansTo, TextsOf, Wordy;
      var front, last := words[..|words| - 1], words[|words| - 1];
      assert words == front + [last];
      if |words| == 1 {
        OneMoreWord([], last, []);
      } else {
        JoinedWords(front);
        OneMoreWord(JoinWords(front) + [SPACE], last, front);
        AfterSpace(JoinWords(front), front);
      }
    }
  }

  lemma AfterSpace(s: seq<byte>, texts: seq<seq<byte>>)
    requires TextsOf(s, SpansTo(s, |s|)) == texts
    ensures TextsOf(s + [SPACE], SpansTo(s + [SPACE], |s| + 1)) == texts && !InWord(s + [SPACE], |s| + 1)
  {
    hide SpansTo;
    SpanOfSpace(s);
    SpansAreWords(s, |s|);
    TextsGrow(s, [SPACE], SpansTo(s, |s|));
  }

  lemma OneMoreWord(s: seq<byte>, w: seq<byte>, texts: seq<seq<byte>>)
    requires Wordy(w)
    ensures !InWord(s, |s|) && TextsOf(s, SpansTo(s, |s|)) == texts ==>
              TextsOf(s + w, SpansTo(s + w, |s + w|)) == texts + [w] && InWord(s + w, |s + w|)
    ensures s == [] ==> !InWord(s, |s|) && TextsOf(s, SpansTo(s, |s|)) == [] && s + w == w
  {
    hide SpansTo, TextsOf;
    if s == [] {
      NoTexts();
    }
    if !InWord(s, |s|) && TextsOf(s, SpansTo(s, |s|)) == texts {
      SpansOfWord(s, w);
      SpansAreWords(s, |s|);
      TextsGrow(s, w, SpansTo(s, |s|));
      LastText(s, w, SpansTo(s, |s|));
    }
  }

  lemma NoTexts()
    ensures TextsOf([], SpansTo([], 0)) == []
  {}

  lemma TextsGrow(s: seq<byte>, t: seq<byte>, ws: seq<Span>)
    requires AreWords(s, |s|, ws)
    ensures TextsOf(s + t, ws) == TextsOf(s, ws)
  {
    forall k | 0 <= k < |ws|
      ensures TextsOf(s + t, ws)[k] == TextsOf(s, ws)[k]
    {
      assert MaximalWord(s, |s|, ws[k]);
      var a, b := ws[k].start, ws[k].start + ws[k].len;
      assert (s + t)[a..b] == s[a..b];
    }
  }

  lemma LastText(s: seq<byte>, w: seq<byte>, ws: seq<Span>)
    ensures TextsOf(s + w, ws + [Span(|s|, |w|)]) == TextsOf(s + w, ws) + [w]
  {
    assert (s + w)[|s|..|s| + |w|] == w;
  }

  /** A sentence as the grammar writes it: words, single spaces, a period. */
  function Sentence(words: seq<seq<byte>>): seq<byte> { JoinWords(words) + [PERIOD] }

  lemma WordsOfSentence(words: seq<seq<byte>>, text: Text)
    requires words != [] && AllWordy(words) && text == Sentence(words)
    ensures WordTexts(text) == words
  {
    hide SpansTo, TextsOf, JoinWords, AllWordy;
    var s := JoinWords(words);
    JoinedWords(words);
    TrimsPeriod(s);
    SpansAreWords(s, |s|);
    TextsGrow(s, [PERIOD], SpansTo(s, |s|));
  }

  lemma TrimsPeriod(s: seq<byte>)
    requires InWord(s, |s|)
    ensures Trim(s + [PERIOD], false) == s
  {
    assert (s + [PERIOD])[..|s|] == s;
  }

  /** The period is not required: a sentence parses alike with and without it. */
  lemma PeriodIsOptional(s: Text)
    requires |s| < 64 && InWord(s, |s|) && s[|s| - 1] != PERIOD
    ensures ParseSpec(s + [PERIOD]) == ParseSpec(s)
  {
    hide *;
    var t := s + [PERIOD];
    TrimsPeriod(s);
    TrimsNothing(s);
    SentenceSpansMeans(s);
    SentenceSpansMeans(t);
    var ws := SentenceSpans(s);
    SpansAreWords(s, |s|);
    assert t[..|s|] == s;
    SpansAgree(s, t, |s|);
    SpansAreWords(t, |s|);
    InfosOfPrefix(t, |s|, |s|, ws);
    Unfold(s, ws);
    Unfold(t, ws);
  }

  lemma TrimsNothing(s: seq<byte>)
    requires InWord(s, |s|) && s[|s| - 1] != PERIOD
    ensures Trim(s, false) == s && s != []
  {}

  // ---------------------------------------------------------------------------------------
  // Classified words are words

  lemma SpelledIsWordy(w: seq<byte>, token: Token, n: nat)
    requires Is(w, token, n) && n > 0 && forall i :: 0 <= i < n ==> IsLower(token[i])
    ensures Wordy(w)
  {
    forall i | 0 <= i < |w|
      ensures w[i] != SPACE
    {
      assert EqFold(w[i], token[i]);
    }
  }

  lemma CountedIsWordy(w: seq<byte>, token: Token, n: nat)
    requires IsCounted(w, token, n) && n > 0 && forall i :: 0 <= i < n ==> IsLower(token[i])
    ensures Wordy(w)
  {
    forall i | 0 <= i < |w|
      ensures w[i] != SPACE
    {
      if i < n {
        assert EqFold(w[i], token[i]);
      }
    }
  }

  lemma VerbIsWordy(w: seq<byte>)
    requires IsGiveVerb(w) || IsReceiveVerb(w) || Is(w, FROM, 4)
    ensures Wordy(w)
  {
    hide Is, Wordy;
    if Is(w, GAVE, 4) { SpelledIsWordy(w, GAVE, 4); }
    else if Is(w, GIVE, 4) { SpelledIsWordy(w, GIVE, 4); }
    else if Is(w, GIVES, 5) { SpelledIsWordy(w, GIVES, 5); }
    else if Is(w, RECEIVED, 8) { SpelledIsWordy(w, RECEIVED, 8); }
    else if Is(w, RECEIVE, 7) { SpelledIsWordy(w, RECEIVE, 7); }
    else if Is(w, RECEIVES, 8) { SpelledIsWordy(w, RECEIVES, 8); }
    else { SpelledIsWordy(w, FROM, 4); }
  }

  lemma NumberIsWordy(w: seq<byte>)
    requires NumberOf(w).ok
    ensures Wordy(w)
  {
    hide Is, DigitsOf, Wordy;
    if Is(w, ZERO, 4) { SpelledIsWordy(w, ZERO, 4); }
    else if Is(w, ONE, 3) { SpelledIsWordy(w, ONE, 3); }
    else if Is(w, TWO, 3) { SpelledIsWordy(w, TWO, 3); }
    else if Is(w, THREE, 5) { SpelledIsWordy(w, THREE, 5); }
    else if Is(w, FOUR, 4) { SpelledIsWordy(w, FOUR, 4); }
    else if Is(w, FIVE, 4) { SpelledIsWordy(w, FIVE, 4); }
    else if Is(w, SIX, 3) { SpelledIsWordy(w, SIX, 3); }
    else if Is(w, SEVEN, 5) { SpelledIsWordy(w, SEVEN, 5); }
    else if Is(w, EIGHT, 5) { SpelledIsWordy(w, EIGHT, 5); }
    else if Is(w, NINE, 4) { SpelledIsWordy(w, NINE, 4); }
    else if Is(w, TEN, 3) { SpelledIsWordy(w, TEN, 3); }
    else { DigitsAreWordy(w); }
  }

  lemma DigitsAreWordy(w: seq<byte>)
    requires DigitsOf(w).ok
    ensures Wordy(w)
  {}

  lemma ObjectIsWordy(w: seq<byte>)
    requires ObjectCode(w) != OBJECT_UNKNOWN
    ensures Wordy(w)
  {
    hide IsCounted, Wordy;
    if IsCounted(w, APPLE, 5) {
      CountedIsWordy(w, APPLE, 5);
    } else {
      CountedIsWordy(w, ORANGE, 6);
    }
  }

  /** Words of every class but the last hold no space. */
  lemma ClassifiedIsWordy(w: seq<byte>)
    requires ClassOf(w) != CLASS_OTHER
    ensures Wordy(w)
  {
    hide IsGiveVerb, IsReceiveVerb, Is, NumberOf, ObjectCode;
    if IsGiveVerb(w) || IsReceiveVerb(w) || Is(w, FROM, 4) {
      VerbIsWordy(w);
    } else if NumberOf(w).ok {
      NumberIsWordy(w);
    } else if ObjectCode(w) != OBJECT_UNKNOWN {
      ObjectIsWordy(w);
    }
  }

  // ---------------------------------------------------------------------------------------
  // The two forms

  /** A transfer in words: who gives, who receives, what, and perhaps how many. */
  datatype Transfer = Transfer(source: seq<byte>, target: seq<byte>, thing: seq<byte>, number: seq<seq<byte>>)

  predicate ValidTransfer(t: Transfer) {
    && ClassOf(t.source) == CLASS_ENTITY && ClassOf(t.target) == CLASS_ENTITY
    && (ClassOf(t.thing) == CLASS_OBJECT || ClassOf(t.thing) == CLASS_CANDIDATE)
    && |t.number| <= 1 && (|t.number| == 1 ==> ClassOf(t.number[0]) == CLASS_NUMBER)
  }

  function ActiveWords(t: Transfer, verb: seq<byte>): seq<seq<byte>> {
    [t.source, verb, t.target] + t.number + [t.thing]
  }

  function PassiveWords(t: Transfer, verb: seq<byte>, from: seq<byte>): seq<seq<byte>> {
    [t.target, verb] + t.number + [t.thing, from, t.source]
  }

  function ActiveCast(q: nat): Cast { Cast(1, -1, 0, 2, 3 + q, if q == 0 then -1 else 3) }

  function PassiveCast(q: nat): Cast { Cast(1, 3 + q, 4 + q, 0, 2 + q, if q == 0 then -1 else 2) }

  /** Descriptions of given words. */
  predicate Describes(infos: seq<Info>, words: seq<seq<byte>>) {
    |infos| == |words| && forall k :: 0 <= k < |words| ==> infos[k] == InfoOf(words[k])
  }

  lemma DescribedByTexts(text: Text)
    ensures Describes(Described(text), WordTexts(text))
  {
    hide InfoOf, SentenceSpans;
  }

  lemma ActiveIsCast(infos: seq<Info>, t: Transfer, verb: seq<byte>)
    requires ValidTransfer(t) && ClassOf(verb) == CLASS_VERB_ACTIVE && Describes(infos, ActiveWords(t, verb))
    ensures Casts(infos, ActiveCast(|t.number|)) && !IsPassive(infos, ActiveCast(|t.number|))
  {
    hide ClassOf, NumberOf, ObjectCode;
    var words := ActiveWords(t, verb);
    assert words[0] == t.source && words[1] == verb && words[2] == t.target && words[|words| - 1] == t.thing;
    assert |t.number| == 1 ==> words[3] == t.number[0];
  }

  lemma PassiveIsCast(infos: seq<Info>, t: Transfer, verb: seq<byte>, from: seq<byte>)
    requires ValidTransfer(t) && ClassOf(verb) == CLASS_VERB_PASSIVE && ClassOf(from) == CLASS_FROM
    requires Describes(infos, PassiveWords(t, verb, from))
    ensures Casts(infos, PassiveCast(|t.number|)) && IsPassive(infos, PassiveCast(|t.number|))
  {
    hide ClassOf, NumberOf, ObjectCode;
    var words := PassiveWords(t, verb, from);
    var q := |t.number|;
    assert words[0] == t.target && words[1] == verb;
    assert words[2 + q] == t.thing && words[3 + q] == from && words[4 + q] == t.source;
    assert q == 1 ==> words[2] == t.number[0];
  }

  // ---------------------------------------------------------------------------------------
  // The facts of a parse

  function Slice(text: Text, at: Place): seq<byte> {
    if 0 <= at.start <= at.start + at.len <= |text| then text[at.start..at.start + at.len] else []
  }

  /** The answer for a text says this transfer. */
  predicate Says(text: Text, r: TransferParse, t: Transfer) {
    && r.status == STATUS_OK
    && Slice(text, r.sourceAt) == t.source && Slice(text, r.targetAt) == t.target && Slice(text, r.objectAt) == t.thing
    && r.objectCode == ObjectCode(t.thing)
    && r.quantityPresent == (t.number != [])
    && r.quantity == if t.number == [] then 0 else NumberOf(t.number[0]).value
  }

  lemma SliceIsWord(text: Text, ws: seq<Span>, idx: nat)
    requires idx < |ws|
    ensures Slice(text, PlaceOf(ws, idx)) == TextsOf(text, ws)[idx]
  {}

  lemma ReportedSays(text: Text, t: Transfer, c: Cast)
    requires var words := WordTexts(text);
             && Casts(Described(text), c) && |Described(text)| == |SentenceSpans(text)| == |words|
             && words[c.source] == t.source && words[c.target] == t.target && words[c.thing] == t.thing
             && (t.number == [] ==> c.quantity == -1)
             && (t.number != [] ==> c.quantity != -1 && words[c.quantity] == t.number[0])
    requires ParseSpec(text).status == STATUS_OK
    requires Reports(ParseSpec(text), Described(text), SentenceSpans(text), c)
    ensures Says(text, ParseSpec(text), t)
  {
    hide ParseSpec, Described, SentenceSpans, TextsOf, InCast, SourceSide, Slice, ClassOf, NumberOf, ObjectCode;
    var ws := SentenceSpans(text);
    DescribedByTexts(text);
    SliceIsWord(text, ws, c.source);
    SliceIsWord(text, ws, c.target);
    SliceIsWord(text, ws, c.thing);
  }

  lemma ActiveSays(text: Text, t: Transfer, verb: seq<byte>)
    requires ValidTransfer(t) && ClassOf(verb) == CLASS_VERB_ACTIVE && WordTexts(text) == ActiveWords(t, verb)
    ensures Says(text, ParseSpec(text), t) && ParseSpec(text).verb == 1
  {
    hide ParseSpec, Described, SentenceSpans, TextsOf, Casts, Says, Describes, ClassOf, InfoOf;
    var c := ActiveCast(|t.number|);
    DescribedByTexts(text);
    ActiveIsCast(Described(text), t, verb);
    SameCount(text);
    ParseAcceptsCasts(text, c);
    ReportedSays(text, t, c);
  }

  lemma SameCount(text: Text)
    ensures |Described(text)| == |SentenceSpans(text)| == |WordTexts(text)|
  {
    hide SentenceSpans;
  }

  lemma PassiveSays(text: Text, t: Transfer, verb: seq<byte>, from: seq<byte>)
    requires ValidTransfer(t) && ClassOf(verb) == CLASS_VERB_PASSIVE && ClassOf(from) == CLASS_FROM
    requires WordTexts(text) == PassiveWords(t, verb, from)
    ensures Says(text, ParseSpec(text), t) && ParseSpec(text).verb == 2
  {
    hide ParseSpec, Described, SentenceSpans, TextsOf, Casts, Says, Describes, ClassOf, InfoOf;
    var c := PassiveCast(|t.number|);
    DescribedByTexts(text);
    PassiveIsCast(Described(text), t, verb, from);
    SameCount(text);
    ParseAcceptsCasts(text, c);
    ReportedSays(text, t, c);
  }

  lemma TransferIsWordy(t: Transfer, verb: seq<byte>, from: seq<byte>)
    requires ValidTransfer(t) && ClassOf(verb) != CLASS_OTHER && ClassOf(from) != CLASS_OTHER
    ensures AllWordy(ActiveWords(t, verb)) && AllWordy(PassiveWords(t, verb, from))
  {
    hide ClassOf, Wordy;
    ClassifiedIsWordy(t.source);
    ClassifiedIsWordy(t.target);
    ClassifiedIsWordy(t.thing);
    ClassifiedIsWordy(verb);
    ClassifiedIsWordy(from);
    if t.number != [] {
      ClassifiedIsWordy(t.number[0]);
    }
  }

  /** Convergence: the active and the passive sentence of a transfer, within the 64 bytes of a text,
      both parse, and both say that transfer. */
  lemma FormsConverge(t: Transfer, give: seq<byte>, receive: seq<byte>, from: seq<byte>, active: Text, passive: Text)
    requires ValidTransfer(t)
    requires ClassOf(give) == CLASS_VERB_ACTIVE && ClassOf(receive) == CLASS_VERB_PASSIVE && ClassOf(from) == CLASS_FROM
    requires active == Sentence(ActiveWords(t, give)) && passive == Sentence(PassiveWords(t, receive, from))
    ensures Says(active, ParseSpec(active), t) && Says(passive, ParseSpec(passive), t)
  {
    hide ParseSpec, Says, ClassOf, ValidTransfer, JoinWords, Sentence, WordTexts, AllWordy;
    TransferIsWordy(t, give, from);
    TransferIsWordy(t, receive, from);
    WordsOfSentence(ActiveWords(t, give), active);
    WordsOfSentence(PassiveWords(t, receive, from), passive);
    ActiveSays(active, t, give);
    PassiveSays(passive, t, receive, from);
  }

  /** "A gave B 3 apple." and "B received 3 apple from A." are such sentences. */
  lemma FormsExist() returns (t: Transfer, give: seq<byte>, receive: seq<byte>, from: seq<byte>, active: Text,
      passive: Text)
    ensures ValidTransfer(t) && t.number != []
    ensures ClassOf(give) == CLASS_VERB_ACTIVE && ClassOf(receive) == CLASS_VERB_PASSIVE && ClassOf(from) == CLASS_FROM
    ensures active == Sentence(ActiveWords(t, give)) && passive == Sentence(PassiveWords(t, receive, from))
  {
    hide Sentence, ClassOf;
    give, receive, from := GAVE[..4], RECEIVED, FROM[..4];
    t := Transfer([65], [66], APPLE[..5], [[51]]);
    KeywordClasses();
    LetterIsEntity(65);
    LetterIsEntity(66);
    DigitIsNumber(51);
    SentenceLength(ActiveWords(t, give));
    SentenceLength(PassiveWords(t, receive, from));
    active, passive := Sentence(ActiveWords(t, give)), Sentence(PassiveWords(t, receive, from));
  }

  lemma KeywordClasses()
    ensures ClassOf(GAVE[..4]) == CLASS_VERB_ACTIVE && ClassOf(RECEIVED) == CLASS_VERB_PASSIVE
    ensures ClassOf(FROM[..4]) == CLASS_FROM && ClassOf(APPLE[..5]) == CLASS_OBJECT
  {
    KeywordIs(GAVE, 4);
    KeywordIs(RECEIVED, 8);
    KeywordIs(FROM, 4);
    KeywordIs(APPLE, 5);
    assert !EqFold(FROM[0], GAVE[0]) && !EqFold(FROM[0], GIVE[0]);
    assert !EqFold(APPLE[0], GIVES[0]) && !EqFold(APPLE[0], THREE[0]) && !EqFold(APPLE[0], SEVEN[0])
        && !EqFold(APPLE[0], EIGHT[0]);
  }

  lemma KeywordIs(token: Token, n: nat)
    requires n <= 8
    ensures Is(token[..n], token, n)
  {}

  lemma LetterIsEntity(b: byte)
    requires IsUpper(b)
    ensures ClassOf([b]) == CLASS_ENTITY
  {
    assert !IsDigit([b][0]);
  }

  lemma DigitIsNumber(b: byte)
    requires IsDigit(b)
    ensures ClassOf([b]) == CLASS_NUMBER
  {}

  /** Every word and a byte after it. */
  lemma SentenceLength(words: seq<seq<byte>>)
    requires |words| <= 6 && forall k :: 0 <= k < |words| ==> |words[k]| <= 8
    ensures |Sentence(words)| <= 64
  {
    JoinedLength(words);
  }

  lemma {:induction false} JoinedLength(words: seq<seq<byte>>)
    requires forall k :: 0 <= k < |words| ==> |words[k]| <= 8
    ensures |JoinWords(words)| <= 9 * |words|
    decreases |words|
  {
    if |words| > 1 {
      JoinedLength(words[..|words| - 1]);
    }
  }

  /** Words in an order the grammar does not have are accepted too: "A gave apple B." says what
      "A gave B apple." says. */
  lemma OtherOrderExists() returns (text: Text, t: Transfer, give: seq<byte>)
    ensures ValidTransfer(t) && ClassOf(give) == CLASS_VERB_ACTIVE
    ensures text == Sentence([t.source, give, t.thing, t.target]) && t.thing != t.target
    ensures WordTexts(text) != ActiveWords(t, give)
    ensures Says(text, ParseSpec(text), t)
  {
    hide Sentence, ClassOf, ParseSpec, Described, SentenceSpans, TextsOf, Casts, Says, InfoOf, WordTexts, Wordy;
    give := GAVE[..4];
    t := Transfer([65], [66], APPLE[..5], []);
    KeywordClasses();
    LetterIsEntity(65);
    LetterIsEntity(66);
    var words := [t.source, give, t.thing, t.target];
    SentenceLength(words);
    text := Sentence(words);
    ClassifiedIsWordy(t.source);
    ClassifiedIsWordy(give);
    ClassifiedIsWordy(t.thing);
    ClassifiedIsWordy(t.target);
    WordsOfSentence(words, text);
    DescribedByTexts(text);
    SameCount(text);
    var c := Cast(1, -1, 0, 3, 2, -1);
    OtherOrderIsCast(Described(text), t, give, c);
    ParseAcceptsCasts(text, c);
    ReportedSays(text, t, c);
    assert words[2] != ActiveWords(t, give)[2];
  }

  lemma OtherOrderIsCast(infos: seq<Info>, t: Transfer, give: seq<byte>, c: Cast)
    requires ValidTransfer(t) && t.number == [] && ClassOf(give) == CLASS_VERB_ACTIVE
    requires Describes(infos, [t.source, give, t.thing, t.target]) && c == Cast(1, -1, 0, 3, 2, -1)
    ensures Casts(infos, c)
  {
    hide ClassOf, NumberOf, ObjectCode;
    var words := [t.source, give, t.thing, t.target];
    assert words[0] == t.source && words[1] == give && words[2] == t.thing && words[3] == t.target;
  }
}
