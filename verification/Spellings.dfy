/** The closed vocabulary by its letters: which words are which, whatever their letter case. */
module Spellings {
  import opened Machine
  import opened Numerals
  import opened Vocab
  import R = Roles
  import P = Parse
  import C = Convergence
  import T = TextAdapter
  import I = Ir
  import K = Canonical

  /** The word is spelled by these small letters, each of them small or capital. */
  predicate Reads(w: seq<byte>, letters: string) {
    |w| == |letters| && forall i :: 0 <= i < |w| ==> w[i] == letters[i] as int || w[i] as int + 32 == letters[i] as int
  }

  /** The table entry holds these small letters. */
  predicate Holds(token: Token, letters: string) {
    |letters| <= 8 && forall i :: 0 <= i < |letters| ==> 97 <= token[i] <= 122 && token[i] == letters[i] as int
  }

  lemma SpellsReads(w: seq<byte>, token: Token, letters: string)
    requires Holds(token, letters)
    ensures Is(w, token, |letters|) <==> Reads(w, letters)
    ensures |w| == |letters| + 1 ==>
              (Spells(w, token, |letters|) && EqFold(w[|letters|], 115)
               <==> Reads(w[..|letters|], letters) && (w[|letters|] == 115 || w[|letters|] == 83))
  {
    assert forall i :: 0 <= i < |letters| && i < |w| ==>
        (EqFold(w[i], token[i]) <==> w[i] == letters[i] as int || w[i] as int + 32 == letters[i] as int);
  }

  /** The name of an object, with or without a final s. */
  predicate ReadsCounted(w: seq<byte>, letters: string) {
    || Reads(w, letters)
    || (|w| == |letters| + 1 && Reads(w[..|letters|], letters) && (w[|letters|] == 115 || w[|letters|] == 83))
  }

  lemma CountedReads(w: seq<byte>, token: Token, letters: string)
    requires Holds(token, letters)
    ensures IsCounted(w, token, |letters|) <==> ReadsCounted(w, letters)
  {
    hide Spells, Reads, EqFold;
    SpellsReads(w, token, letters);
  }

  /** Two words of the vocabulary that differ in length or in a letter are not spelled by the same bytes. */
  lemma ReadsOne(w: seq<byte>, a: string, b: string, at: nat)
    requires |a| != |b| || (at < |a| && a[at] != b[at] && 'a' <= a[at] <= 'z' && 'a' <= b[at] <= 'z')
    ensures !(Reads(w, a) && Reads(w, b))
  {}

  // ---------------------------------------------------------------------------------------
  // Number words

  function NumeralWord(k: nat): string
    requires k <= 10
  {
    if k == 0 then "zero" else if k == 1 then "one" else if k == 2 then "two" else if k == 3 then "three"
    else if k == 4 then "four" else if k == 5 then "five" else if k == 6 then "six" else if k == 7 then "seven"
    else if k == 8 then "eight" else if k == 9 then "nine" else "ten"
  }

  function NumeralToken(k: nat): Token
    requires k <= 10
  {
    if k == 0 then ZERO else if k == 1 then ONE else if k == 2 then TWO else if k == 3 then THREE
    else if k == 4 then FOUR else if k == 5 then FIVE else if k == 6 then SIX else if k == 7 then SEVEN
    else if k == 8 then EIGHT else if k == 9 then NINE else TEN
  }

  lemma NumeralHolds(k: nat)
    requires k <= 10
    ensures Holds(NumeralToken(k), NumeralWord(k)) && 3 <= |NumeralWord(k)| <= 5
  {}

  /** Each number word stands for one number. */
  lemma NumeralsDiffer(w: seq<byte>, j: nat, k: nat)
    requires j < k <= 10
    ensures !(Reads(w, NumeralWord(j)) && Reads(w, NumeralWord(k)))
  {
    var a, b := NumeralWord(j), NumeralWord(k);
    NumeralLetters(j);
    NumeralLetters(k);
    if |a| == |b| {
      NumeralStarts(j, k);
      ReadsOne(w, a, b, if a[0] != b[0] then 0 else 1);
    }
  }

  lemma NumeralLetters(k: nat)
    requires k <= 10
    ensures var a := NumeralWord(k); |a| >= 3 && 'a' <= a[0] <= 'z' && 'a' <= a[1] <= 'z'
  {}

  lemma NumeralStarts(j: nat, k: nat)
    requires j < k <= 10 && |NumeralWord(j)| == |NumeralWord(k)| >= 3
    ensures NumeralWord(j)[0] != NumeralWord(k)[0] || NumeralWord(j)[1] != NumeralWord(k)[1]
  {}

  /** The numbers before `k` are not meant. */
  predicate NoneBelow(w: seq<byte>, k: nat)
    requires k <= 11
  {
    forall j :: 0 <= j < k ==> !Is(w, NumeralToken(j), |NumeralWord(j)|)
  }

  lemma NumberOfWord(w: seq<byte>, k: nat)
    requires k <= 10 && NoneBelow(w, k) && Is(w, NumeralToken(k), |NumeralWord(k)|)
    ensures NumberOf(w) == NumParse(k, true)
  {
    hide Is, DigitsOf;
    UnfoldBelow(w, k);
  }

  /** The same condition without a quantifier. */
  lemma UnfoldBelow(w: seq<byte>, k: nat)
    requires k <= 11 && NoneBelow(w, k)
    ensures (k > 0 ==> !Is(w, ZERO, 4)) && (k > 1 ==> !Is(w, ONE, 3)) && (k > 2 ==> !Is(w, TWO, 3))
    ensures (k > 3 ==> !Is(w, THREE, 5)) && (k > 4 ==> !Is(w, FOUR, 4)) && (k > 5 ==> !Is(w, FIVE, 4))
    ensures (k > 6 ==> !Is(w, SIX, 3)) && (k > 7 ==> !Is(w, SEVEN, 5)) && (k > 8 ==> !Is(w, EIGHT, 5))
    ensures (k > 9 ==> !Is(w, NINE, 4)) && (k > 10 ==> !Is(w, TEN, 3))
  {
    hide Is;
    assert k > 0 ==> !Is(w, NumeralToken(0), |NumeralWord(0)|);
    assert k > 1 ==> !Is(w, NumeralToken(1), |NumeralWord(1)|);
    assert k > 2 ==> !Is(w, NumeralToken(2), |NumeralWord(2)|);
    assert k > 3 ==> !Is(w, NumeralToken(3), |NumeralWord(3)|);
    assert k > 4 ==> !Is(w, NumeralToken(4), |NumeralWord(4)|);
    assert k > 5 ==> !Is(w, NumeralToken(5), |NumeralWord(5)|);
    assert k > 6 ==> !Is(w, NumeralToken(6), |NumeralWord(6)|);
    assert k > 7 ==> !Is(w, NumeralToken(7), |NumeralWord(7)|);
    assert k > 8 ==> !Is(w, NumeralToken(8), |NumeralWord(8)|);
    assert k > 9 ==> !Is(w, NumeralToken(9), |NumeralWord(9)|);
    assert k > 10 ==> !Is(w, NumeralToken(10), |NumeralWord(10)|);
  }

  /** Each of the eleven words, in any letter case, is its number; and so are that number's digits. */
  lemma NumberWords(w: seq<byte>, k: nat)
    requires k <= 10 && Reads(w, NumeralWord(k))
    ensures NumberOf(w) == NumParse(k, true) && NumberOf(Decimal(k)) == NumParse(k, true)
  {
    hide Is, Reads, Holds, NumeralToken, NumeralWord, NumberOf, Decimal, DigitsOf;
    NumeralHolds(k);
    SpellsReads(w, NumeralToken(k), NumeralWord(k));
    forall j | 0 <= j < k ensures !Is(w, NumeralToken(j), |NumeralWord(j)|) {
      NumeralHolds(j);
      SpellsReads(w, NumeralToken(j), NumeralWord(j));
      NumeralsDiffer(w, j, k);
    }
    NumberOfWord(w, k);
    SmallDecimal(k);
    DigitsAreNumber(Decimal(k));
  }

  lemma SmallDecimal(k: nat)
    requires k <= 10
    ensures 1 <= |Decimal(k)| <= 3 && (forall i :: 0 <= i < |Decimal(k)| ==> 48 <= Decimal(k)[i] <= 57)
    ensures DigitsOf(Decimal(k)) == NumParse(k, true)
  {
    var s := Decimal(k);
    if k < 10 {
      assert s[..0] == [];
    } else {
      assert Digits(1) == [49] && s == [49] + [48];
      assert s[..1] == [49] && [49][..0] == [];
      assert DigitValue([49]) == 1;
    }
  }

  /** A run of digits is no number word. */
  lemma DigitsAreNumber(w: seq<byte>)
    requires w != [] && 48 <= w[0] <= 57
    ensures NumberOf(w) == DigitsOf(w)
  {
    hide DigitsOf, Holds, NumeralToken, NumeralWord;
    forall j | 0 <= j < 11 ensures !Is(w, NumeralToken(j), |NumeralWord(j)|) {
      NumeralHolds(j);
      SpellsReads(w, NumeralToken(j), NumeralWord(j));
      NumeralSmall(j);
    }
    UnfoldBelow(w, 11);
    hide Is;
  }

  lemma NumeralSmall(k: nat)
    requires k <= 10
    ensures |NumeralWord(k)| > 0 && NumeralWord(k)[0] as int >= 97
  {}

  /** A word is a number exactly when it is one of the eleven or one to three digits. */
  predicate NumberWord(w: seq<byte>) {
    || (exists k :: 0 <= k <= 10 && Reads(w, NumeralWord(k)))
    || (1 <= |w| <= 3 && forall i :: 0 <= i < |w| ==> 48 <= w[i] <= 57)
  }

  lemma NumbersAre(w: seq<byte>)
    ensures NumberOf(w).ok <==> NumberWord(w)
  {
    hide Is, Reads, Holds, NumeralToken, NumeralWord, NumberOf, DigitsOf;
    if k: nat :| k <= 10 && Reads(w, NumeralWord(k)) {
      NumberWords(w, k);
    } else {
      forall j | 0 <= j < 11 ensures !Is(w, NumeralToken(j), |NumeralWord(j)|) {
        NumeralHolds(j);
        SpellsReads(w, NumeralToken(j), NumeralWord(j));
      }
      NoWordIsNumber(w);
    }
  }

  lemma NoWordIsNumber(w: seq<byte>)
    requires NoneBelow(w, 11)
    ensures NumberOf(w).ok <==> 1 <= |w| <= 3 && forall i :: 0 <= i < |w| ==> 48 <= w[i] <= 57
  {
    UnfoldBelow(w, 11);
    hide Is, DigitValue;
  }

  // ---------------------------------------------------------------------------------------
  // Word classes

  predicate GiveWord(w: seq<byte>) { Reads(w, "gave") || Reads(w, "give") || Reads(w, "gives") }

  predicate ReceiveWord(w: seq<byte>) { Reads(w, "received") || Reads(w, "receive") || Reads(w, "receives") }

  predicate FromWord(w: seq<byte>) { Reads(w, "from") }

  predicate ThingWord(w: seq<byte>) { ReadsCounted(w, "apple") || ReadsCounted(w, "orange") }

  predicate Keyword(w: seq<byte>) { GiveWord(w) || ReceiveWord(w) || FromWord(w) || NumberWord(w) || ThingWord(w) }

  /** A capital letter or a byte from 128 on, then such bytes and small letters, sixteen at most. */
  predicate CapitalWord(w: seq<byte>) {
    && 1 <= |w| <= 16 && (65 <= w[0] <= 90 || w[0] >= 128)
    && forall i :: 1 <= i < |w| ==> 65 <= w[i] <= 90 || 97 <= w[i] <= 122 || w[i] >= 128
  }

  /** One to sixteen small letters. */
  predicate SmallWord(w: seq<byte>) { 1 <= |w| <= 16 && forall i :: 0 <= i < |w| ==> 97 <= w[i] <= 122 }

  function Low(b: byte): int { if 65 <= b <= 90 then b as int + 32 else b }

  lemma VerbsAre(w: seq<byte>)
    ensures IsGiveVerb(w) <==> GiveWord(w)
    ensures IsReceiveVerb(w) <==> ReceiveWord(w)
    ensures Is(w, FROM, 4) <==> FromWord(w)
  {
    hide Is, Reads;
    SpellsReads(w, GAVE, "gave");
    SpellsReads(w, GIVE, "give");
    SpellsReads(w, GIVES, "gives");
    SpellsReads(w, RECEIVED, "received");
    SpellsReads(w, RECEIVE, "receive");
    SpellsReads(w, RECEIVES, "receives");
    SpellsReads(w, FROM, "from");
  }

  /** The object codes: 1 for an apple or apples, 2 for an orange or oranges, 0 for anything else. */
  lemma ObjectsAre(w: seq<byte>)
    ensures ObjectCode(w) == 1 <==> ReadsCounted(w, "apple")
    ensures ObjectCode(w) == 2 <==> ReadsCounted(w, "orange")
    ensures ObjectCode(w) == 0 <==> !ThingWord(w)
  {
    hide IsCounted, ReadsCounted;
    CountedReads(w, APPLE, "apple");
    CountedReads(w, ORANGE, "orange");
    NotBoth(w);
  }

  // The letters that tell the keywords apart

  lemma ReadsFirst(w: seq<byte>, letters: string)
    requires |letters| >= 2 && 'a' <= letters[0] <= 'z' && 'a' <= letters[1] <= 'z' && Reads(w, letters)
    ensures |w| == |letters| && Low(w[0]) == letters[0] as int && Low(w[1]) == letters[1] as int
  {}

  lemma VerbStarts(w: seq<byte>)
    ensures GiveWord(w) ==> |w| > 0 && Low(w[0]) == 103
    ensures ReceiveWord(w) ==> |w| > 0 && Low(w[0]) == 114
    ensures FromWord(w) ==> |w| > 1 && Low(w[0]) == 102 && Low(w[1]) == 114
  {
    hide Reads, Low;
    if Reads(w, "gave") { ReadsFirst(w, "gave"); }
    if Reads(w, "give") { ReadsFirst(w, "give"); }
    if Reads(w, "gives") { ReadsFirst(w, "gives"); }
    if Reads(w, "received") { ReadsFirst(w, "received"); }
    if Reads(w, "receive") { ReadsFirst(w, "receive"); }
    if Reads(w, "receives") { ReadsFirst(w, "receives"); }
    if Reads(w, "from") { ReadsFirst(w, "from"); }
  }

  lemma ThingStarts(w: seq<byte>)
    ensures ThingWord(w) ==> |w| >= 5 && (Low(w[0]) == 97 || (Low(w[0]) == 111 && |w| >= 6))
  {
    hide Reads, Low;
    if |w| > 5 && Reads(w[..5], "apple") { ReadsFirst(w[..5], "apple"); }
    if |w| > 6 && Reads(w[..6], "orange") { ReadsFirst(w[..6], "orange"); }
    if Reads(w, "apple") { ReadsFirst(w, "apple"); }
    if Reads(w, "orange") { ReadsFirst(w, "orange"); }
  }

  lemma NumberStarts(w: seq<byte>)
    ensures NumberWord(w) ==>
              && 1 <= |w| <= 5 && Low(w[0]) != 103 && Low(w[0]) != 114 && Low(w[0]) != 97
              && (Low(w[0]) == 102 ==> |w| > 1 && Low(w[1]) != 114)
  {
    hide Reads, NumeralWord;
    if k: nat :| k <= 10 && Reads(w, NumeralWord(k)) {
      NumeralLetters(k);
      ReadsFirst(w, NumeralWord(k));
      NumeralNames(k);
    }
  }

  lemma NumeralNames(k: nat)
    requires k <= 10
    ensures var a := NumeralWord(k);
            && 3 <= |a| <= 5 && a[0] != 'g' && a[0] != 'r' && a[0] != 'a' && (a[0] == 'f' ==> a[1] != 'r')
  {}

  /** The classes of words, by their numbers.  No two kinds of keyword share a word, so the order in which
      they are tried does not matter; any other word is a name, a candidate, or of no class. */
  lemma ClassesAre(w: seq<byte>)
    ensures ClassOf(w) == 2 <==> GiveWord(w)
    ensures ClassOf(w) == 3 <==> ReceiveWord(w)
    ensures ClassOf(w) == 6 <==> FromWord(w)
    ensures ClassOf(w) == 4 <==> NumberWord(w)
    ensures ClassOf(w) == 5 <==> ThingWord(w)
    ensures ClassOf(w) == 1 <==> !Keyword(w) && CapitalWord(w)
    ensures ClassOf(w) == 7 <==> !Keyword(w) && SmallWord(w)
    ensures ClassOf(w) == 8 <==> !Keyword(w) && !CapitalWord(w) && !SmallWord(w)
  {
    hide IsGiveVerb, IsReceiveVerb, Is, NumberOf, ObjectCode, GiveWord, ReceiveWord, FromWord, NumberWord, ThingWord,
        CapitalWord, SmallWord, IsEntity, IsCandidate;
    VerbsAre(w);
    NumbersAre(w);
    ObjectsAre(w);
    VerbStarts(w);
    ThingStarts(w);
    NumberStarts(w);
    NamesAre(w);
  }

  lemma NamesAre(w: seq<byte>)
    ensures IsEntity(w) <==> CapitalWord(w)
    ensures IsCandidate(w) <==> SmallWord(w)
    ensures !(CapitalWord(w) && SmallWord(w))
  {}

  // ---------------------------------------------------------------------------------------
  // Words and digits

  /** The text is the active or the passive sentence of the transfer. */
  predicate IsFormOf(text: Text, t: C.Transfer, give: seq<byte>, receive: seq<byte>, from: seq<byte>) {
    text == C.Sentence(C.ActiveWords(t, give)) || text == C.Sentence(C.PassiveWords(t, receive, from))
  }

  lemma FormSays(text: Text, t: C.Transfer, give: seq<byte>, receive: seq<byte>, from: seq<byte>)
    requires C.ValidTransfer(t) && IsFormOf(text, t, give, receive, from)
    requires GiveWord(give) && ReceiveWord(receive) && FromWord(from)
    ensures C.Says(text, P.ParseSpec(text), t) && P.ParseSpec(text).status == R.STATUS_OK
  {
    hide C.ValidTransfer, P.ParseSpec, GiveWord, ReceiveWord, FromWord, ClassOf, C.Sentence, C.ActiveWords,
        C.PassiveWords, C.AllWordy, C.WordTexts;
    ClassesAre(give);
    ClassesAre(receive);
    ClassesAre(from);
    C.TransferIsWordy(t, give, from);
    C.TransferIsWordy(t, receive, from);
    if text == C.Sentence(C.ActiveWords(t, give)) {
      FormHasWords(t, give, from);
      C.WordsOfSentence(C.ActiveWords(t, give), text);
      C.ActiveSays(text, t, give);
    } else {
      FormHasWords(t, receive, from);
      C.WordsOfSentence(C.PassiveWords(t, receive, from), text);
      C.PassiveSays(text, t, receive, from);
    }
  }

  lemma FormHasWords(t: C.Transfer, verb: seq<byte>, from: seq<byte>)
    ensures C.ActiveWords(t, verb) != [] && C.PassiveWords(t, verb, from) != []
  {}

  /** Two sentences that say the same transfer, up to spelling, have fragments of the same key. */
  lemma SayingsAgree(s: Text, t: Text, u: C.Transfer, v: C.Transfer, f: I.Fragment, g: I.Fragment)
    requires C.Says(s, P.ParseSpec(s), u) && C.Says(t, P.ParseSpec(t), v) && T.SameTransfer(u, v)
    requires P.ParseSpec(s).status == R.STATUS_OK && P.ParseSpec(t).status == R.STATUS_OK
    requires K.Renders(f, T.FactsOf(s, P.ParseSpec(s))) && K.Renders(g, T.FactsOf(t, P.ParseSpec(t)))
    ensures I.KeyOf(I.Items(f)) == I.KeyOf(I.Items(g))
  {
    hide *;
    var a, b := T.FactsOf(s, P.ParseSpec(s)), T.FactsOf(t, P.ParseSpec(t));
    T.FactsSaid(s, P.ParseSpec(s), u);
    T.FactsSaid(t, P.ParseSpec(t), v);
    T.AcceptedIsBuildable(s);
    T.AcceptedIsBuildable(t);
    T.CodesKnown(a);
    T.CodesKnown(b);
    T.FactsAndTransfers(a, b, u, v);
    K.KeysDecideFacts(a, b, f, g);
  }

  /** A sentence with a number word, and the sentence in either form with the digits of that number, have
      fragments of the same key. */
  lemma WordsMeanDigits(t: C.Transfer, u: C.Transfer, k: nat, give: seq<byte>, receive: seq<byte>, from: seq<byte>,
                        worded: Text, digits: Text, f: I.Fragment, g: I.Fragment)
    requires C.ValidTransfer(t) && k <= 10 && |t.number| == 1 && Reads(t.number[0], NumeralWord(k))
    requires u == t.(number := [Decimal(k)])
    requires GiveWord(give) && ReceiveWord(receive) && FromWord(from)
    requires IsFormOf(worded, t, give, receive, from) && IsFormOf(digits, u, give, receive, from)
    requires K.Renders(f, T.FactsOf(worded, P.ParseSpec(worded)))
    requires K.Renders(g, T.FactsOf(digits, P.ParseSpec(digits)))
    ensures P.ParseSpec(worded).status == P.ParseSpec(digits).status == 0
    ensures P.ParseSpec(worded).quantity == P.ParseSpec(digits).quantity == k
    ensures I.KeyOf(I.Items(f)) == I.KeyOf(I.Items(g))
  {
    hide P.ParseSpec, GiveWord, ReceiveWord, FromWord, IsFormOf, K.Renders, I.KeyOf, I.Items, C.Says,
        T.FactsOf, Reads, NumeralWord, Decimal, C.ValidTransfer, T.SameTransfer;
    NumberWords(t.number[0], k);
    DigitsValid(t, u, k);
    FormSays(worded, t, give, receive, from);
    FormSays(digits, u, give, receive, from);
    SaysQuantity(worded, P.ParseSpec(worded), t, k);
    SaysQuantity(digits, P.ParseSpec(digits), u, k);
    SayingsAgree(worded, digits, t, u, f, g);
  }

  lemma DigitsValid(t: C.Transfer, u: C.Transfer, k: nat)
    requires C.ValidTransfer(t) && k <= 10 && |t.number| == 1 && u == t.(number := [Decimal(k)])
    requires NumberOf(t.number[0]) == NumberOf(Decimal(k)) == NumParse(k, true)
    ensures C.ValidTransfer(u) && T.SameTransfer(t, u)
  {
    hide NumberOf, Decimal, ObjectCode, ClassOf;
    NumbersAre(Decimal(k));
    ClassesAre(Decimal(k));
  }

  lemma SaysQuantity(text: Text, r: P.TransferParse, t: C.Transfer, k: nat)
    requires C.Says(text, r, t) && |t.number| == 1 && k <= 10 && NumberOf(t.number[0]) == NumParse(k, true)
    ensures r.quantity == k
  {
    hide NumberOf, ObjectCode, C.Slice;
  }
}
