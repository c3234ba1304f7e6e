/** Exactly which classified sentences the parser accepts, and with which roles. */
module Acceptance {
  import opened Machine
  import opened Vocab
  import opened Words
  import opened Roles
  import opened Parse

  /** A role for each word, by index; `from` is -1 in an active sentence, `quantity` is -1 without one. */
  datatype Cast = Cast(verb: int, from: int, source: int, target: int, thing: int, quantity: int)

  predicate InCast(c: Cast, j: int) { j in {c.verb, c.from, c.source, c.target, c.thing, c.quantity} }

  predicate IsPassive(infos: seq<Info>, c: Cast)
    requires 0 <= c.verb < |infos|
  {
    infos[c.verb].class_ == CLASS_VERB_PASSIVE
  }

  function CastFrame(infos: seq<Info>, c: Cast): Frame
    requires 0 <= c.verb < |infos|
  {
    Frame(c.verb, c.from, IsPassive(infos, c))
  }

  /** One verb; one "from" exactly when the verb is passive; two entities, the source before an active
      verb or after both a passive verb and its "from", the target anywhere else; one object after
      the verb; at most one number, after the verb; and no other word. */
  predicate Casts(infos: seq<Info>, c: Cast) {
    && 0 <= c.verb < |infos| && IsVerb(infos[c.verb])
    && (if IsPassive(infos, c) then 0 <= c.from < |infos| && infos[c.from].class_ == CLASS_FROM else c.from == -1)
    && 0 <= c.source < |infos| && infos[c.source].class_ == CLASS_ENTITY && SourceSide(CastFrame(infos, c), c.source)
    && 0 <= c.target < |infos| && infos[c.target].class_ == CLASS_ENTITY && !SourceSide(CastFrame(infos, c), c.target)
    && c.verb < c.thing < |infos| && Objectish(infos[c.thing])
    && (c.quantity == -1 || (c.verb < c.quantity < |infos| && infos[c.quantity].class_ == CLASS_NUMBER))
    && forall j :: 0 <= j < |infos| ==> InCast(c, j)
  }

  // ---------------------------------------------------------------------------------------
  // What is accepted is a cast

  function CastOf(infos: seq<Info>): Cast
    requires |infos| <= 8
  {
    var cls, st := ClassedTo(infos, |infos|), Judge(infos);
    Cast(cls.verbIdx, if cls.verbCode == VERB_PASSIVE then cls.fromIdx else -1,
         st.sourceIdx, st.targetIdx, st.objectIdx, st.quantityIdx)
  }

  lemma OkMeans(infos: seq<Info>, f: Frame, st: AssignState, froms: nat)
    requires st.status == STATUS_OK && Finish(infos, f, st, froms).status == STATUS_OK
    ensures Finish(infos, f, st, froms) == st
    ensures (f.passive ==> froms == 1) && st.sourceIdx != -1 && st.targetIdx != -1 && st.objectIdx != -1
    ensures Covered(|infos|, f, st)
  {
    hide Covered;
  }

  lemma AcceptedIsCast(infos: seq<Info>)
    requires |infos| <= 8 && ClassedTo(infos, |infos|).verbCount == 1 && Judge(infos).status == STATUS_OK
    ensures Casts(infos, CastOf(infos))
  {
    hide ClassesTo, Covered, First, Count, Finish, InCast, Objectish, AssignedTo;
    var cls := ClassedTo(infos, |infos|);
    var f := FrameOf(cls);
    var st := AssignedTo(infos, f, cls.verbCode, |infos|);
    StartsOk(infos, f, cls.verbCode);
    OkMeans(infos, f, st, cls.fromCount);
    var c := CastOf(infos);
    PickedFit(infos, f, cls.verbCode, c);
    CoveredInCast(infos, f, st, c);
  }

  lemma StartsOk(infos: seq<Info>, f: Frame, verb: i64)
    requires |infos| <= 8
    ensures AssignedTo(infos, f, verb, |infos|).status == STATUS_OK
  {
    hide First, Count;
  }

  lemma PickedFit(infos: seq<Info>, f: Frame, verb: i64, c: Cast)
    requires |infos| <= 8
    requires var st := AssignedTo(infos, f, verb, |infos|);
             st.sourceIdx == c.source != -1 && st.targetIdx == c.target != -1 && st.objectIdx == c.thing != -1
             && st.quantityIdx == c.quantity
    ensures 0 <= c.source < |infos| && Bears(Source, f, infos[c.source], c.source)
    ensures 0 <= c.target < |infos| && Bears(Target, f, infos[c.target], c.target)
    ensures 0 <= c.thing < |infos| && Bears(Object, f, infos[c.thing], c.thing)
    ensures c.quantity == -1 || (0 <= c.quantity < |infos| && Bears(Quantity, f, infos[c.quantity], c.quantity))
  {
    hide Bears, Count, First;
  }

  lemma CoveredInCast(infos: seq<Info>, f: Frame, st: AssignState, c: Cast)
    requires Covered(|infos|, f, st)
    requires c == Cast(f.verb, if f.passive then f.from
        else -1, st.sourceIdx, st.targetIdx, st.objectIdx, st.quantityIdx)
    ensures forall j :: 0 <= j < |infos| ==> InCast(c, j)
  {
    forall j | 0 <= j < |infos|
      ensures InCast(c, j)
    {
      assert Consumed(f, st, j);
    }
  }

  // ---------------------------------------------------------------------------------------
  // Every cast is accepted

  /** What the classifiers guarantee of any word. */
  predicate Honest(info: Info) {
    && (info.digit ==> info.class_ == CLASS_NUMBER || info.class_ == CLASS_OTHER)
    && (info.class_ == CLASS_NUMBER ==> info.number.ok)
  }

  lemma {:induction false} CountOne(mark: Mark, f: Frame, infos: seq<Info>, n: nat, k: nat)
    requires n <= |infos| && forall j :: 0 <= j < n ==> (Bears(mark, f, infos[j], j) <==> j == k)
    ensures Count(mark, f, infos, n) == if k < n then 1 else 0
    decreases n
  {
    hide Bears;
    if n > 0 {
      CountOne(mark, f, infos, n - 1, k);
    }
  }

  lemma {:induction false} CountTwo(mark: Mark, f: Frame, infos: seq<Info>, n: nat, a: nat, b: nat)
    requires n <= |infos| && a != b && forall j :: 0 <= j < n ==> (Bears(mark, f, infos[j], j) <==> j == a || j == b)
    ensures Count(mark, f, infos, n) == (if a < n then 1 else 0) + if b < n then 1 else 0
    decreases n
  {
    hide Bears;
    if n > 0 {
      CountTwo(mark, f, infos, n - 1, a, b);
    }
  }

  lemma Only(mark: Mark, f: Frame, infos: seq<Info>, k: nat)
    requires k < |infos| && forall j :: 0 <= j < |infos| ==> (Bears(mark, f, infos[j], j) <==> j == k)
    ensures First(mark, f, infos, |infos|) == k && Count(mark, f, infos, |infos|) == 1
  {
    hide Bears, First, Count;
    CountOne(mark, f, infos, |infos|, k);
  }

  lemma NoneBear(mark: Mark, f: Frame, infos: seq<Info>)
    requires forall j :: 0 <= j < |infos| ==> !Bears(mark, f, infos[j], j)
    ensures First(mark, f, infos, |infos|) == -1 && Count(mark, f, infos, |infos|) == 0
  {
    hide Bears, First, Count;
  }

  /** The marks of a cast's words. */
  lemma CastMarks(infos: seq<Info>, c: Cast, f: Frame, j: nat)
    requires Casts(infos, c) && f == CastFrame(infos, c) && j < |infos|
    ensures Bears(AnyVerb, NOWHERE, infos[j], j) <==> j == c.verb
    ensures Bears(AnyFrom, NOWHERE, infos[j], j) <==> j == c.from
    ensures Bears(Source, f, infos[j], j) <==> j == c.source
    ensures Bears(Target, f, infos[j], j) <==> j == c.target
    ensures Bears(AnyEntity, f, infos[j], j) <==> j == c.source || j == c.target
    ensures Bears(Object, f, infos[j], j) <==> j == c.thing
    ensures Bears(AnyObject, f, infos[j], j) <==> j == c.thing
    ensures Bears(Quantity, f, infos[j], j) <==> j == c.quantity
    ensures Honest(infos[j]) ==> !Bears(Spoil, f, infos[j], j)
  {
    assert InCast(c, j);
  }

  lemma CastIsClassed(infos: seq<Info>, c: Cast)
    requires |infos| <= 8 && Casts(infos, c)
    ensures var cls := ClassedTo(infos, |infos|);
            && cls.verbCount == 1 && cls.verbIdx == c.verb && FrameOf(cls) == CastFrame(infos, c)
            && cls.verbCode == (if IsPassive(infos, c) then VERB_PASSIVE else VERB_ACTIVE)
            && (IsPassive(infos, c) ==> cls.fromCount == 1)
  {
    hide Bears, First, Count, ClassesTo, InCast;
    var f := CastFrame(infos, c);
    forall j | 0 <= j < |infos|
      ensures Bears(AnyVerb, NOWHERE, infos[j], j) <==> j == c.verb
      ensures Bears(AnyFrom, NOWHERE, infos[j], j) <==> j == c.from
    {
      CastMarks(infos, c, f, j);
    }
    Only(AnyVerb, NOWHERE, infos, c.verb);
    if c.from == -1 {
      NoneBear(AnyFrom, NOWHERE, infos);
    } else {
      Only(AnyFrom, NOWHERE, infos, c.from);
    }
  }

  /** The state in which the fold leaves the words of a cast. */
  function CastState(infos: seq<Info>, c: Cast, verb: i64): AssignState
    requires 0 <= c.thing < |infos| && -1 <= c.quantity < |infos| <= 8 && -1 <= c.source < 8 && -1 <= c.target < 8
  {
    AssignState(STATUS_OK, verb, c.source, c.target, c.thing, infos[c.thing].code,
                c.quantity, if c.quantity == -1 then 0 else infos[c.quantity].number.value, c.quantity != -1,
                2, 1, if c.quantity == -1 then 0 else 1, false)
  }

  lemma CastIsAssigned(infos: seq<Info>, c: Cast, f: Frame, verb: i64)
    requires |infos| <= 8 && Casts(infos, c) && f == CastFrame(infos, c)
    requires forall j :: 0 <= j < |infos| ==> Honest(infos[j])
    ensures AssignedTo(infos, f, verb, |infos|) == CastState(infos, c, verb)
  {
    hide Bears, First, Count, InCast, SourceSide;
    forall j | 0 <= j < |infos|
      ensures Bears(Source, f, infos[j], j) <==> j == c.source
      ensures Bears(Target, f, infos[j], j) <==> j == c.target
      ensures Bears(AnyEntity, f, infos[j], j) <==> j == c.source || j == c.target
      ensures Bears(Object, f, infos[j], j) <==> j == c.thing
      ensures Bears(AnyObject, f, infos[j], j) <==> j == c.thing
      ensures Bears(Quantity, f, infos[j], j) <==> j == c.quantity
      ensures !Bears(Spoil, f, infos[j], j)
    {
      CastMarks(infos, c, f, j);
    }
    SidesDiffer(infos, c);
    Only(Source, f, infos, c.source);
    Only(Target, f, infos, c.target);
    Only(Object, f, infos, c.thing);
    Only(AnyObject, f, infos, c.thing);
    CountTwo(AnyEntity, f, infos, |infos|, c.source, c.target);
    NoneBear(Spoil, f, infos);
    if c.quantity == -1 {
      NoneBear(Quantity, f, infos);
    } else {
      Only(Quantity, f, infos, c.quantity);
    }
  }

  lemma SidesDiffer(infos: seq<Info>, c: Cast)
    requires Casts(infos, c)
    ensures c.source != c.target
  {}

  lemma CastIsCovered(infos: seq<Info>, c: Cast, f: Frame, verb: i64)
    requires |infos| <= 8 && Casts(infos, c) && f == CastFrame(infos, c)
    ensures Covered(|infos|, f, CastState(infos, c, verb))
  {
    forall j | 0 <= j < |infos|
      ensures Consumed(f, CastState(infos, c, verb), j)
    {
      assert InCast(c, j);
    }
  }

  /** Words that can be cast are accepted with that cast, so a sentence has at most one. */
  lemma CastIsAccepted(infos: seq<Info>, c: Cast)
    requires |infos| <= 8 && Casts(infos, c)
    requires forall j :: 0 <= j < |infos| ==> Honest(infos[j])
    ensures ClassedTo(infos, |infos|).verbCount == 1
    ensures Judge(infos) == CastState(infos, c, if IsPassive(infos, c) then VERB_PASSIVE else VERB_ACTIVE)
    ensures CastOf(infos) == c
  {
    hide Bears, First, Count, ClassesTo, InCast, SourceSide, AssignedTo, ClassedTo, Covered;
    var cls := ClassedTo(infos, |infos|);
    var f := CastFrame(infos, c);
    CastIsClassed(infos, c);
    CastIsAssigned(infos, c, f, cls.verbCode);
    CastIsCovered(infos, c, f, cls.verbCode);
  }

  // ---------------------------------------------------------------------------------------
  // Every word is described honestly

  lemma FirstLetter(w: seq<byte>, token: Token, n: nat)
    requires Spells(w, token, n) && n > 0 && IsLower(token[0])
    ensures IsAlpha(w[0])
  {
    assert EqFold(w[0], token[0]);
  }

  lemma ObjectStartsWithLetter(w: seq<byte>)
    requires ObjectCode(w) != OBJECT_UNKNOWN
    ensures w != [] && IsAlpha(w[0])
  {
    hide Spells, IsAlpha;
    if IsCounted(w, APPLE, 5) {
      FirstLetter(w, APPLE, 5);
    } else {
      FirstLetter(w, ORANGE, 6);
    }
  }

  lemma VerbStartsWithLetter(w: seq<byte>)
    requires IsGiveVerb(w) || IsReceiveVerb(w) || Is(w, FROM, 4)
    ensures w != [] && IsAlpha(w[0])
  {
    hide Spells, IsAlpha;
    if Is(w, GAVE, 4) { FirstLetter(w, GAVE, 4); }
    else if Is(w, GIVE, 4) { FirstLetter(w, GIVE, 4); }
    else if Is(w, GIVES, 5) { FirstLetter(w, GIVES, 5); }
    else if Is(w, RECEIVED, 8) { FirstLetter(w, RECEIVED, 8); }
    else if Is(w, RECEIVE, 7) { FirstLetter(w, RECEIVE, 7); }
    else if Is(w, RECEIVES, 8) { FirstLetter(w, RECEIVES, 8); }
    else { FirstLetter(w, FROM, 4); }
  }

  lemma EveryWordIsHonest(w: seq<byte>)
    ensures Honest(InfoOf(w))
  {
    hide IsGiveVerb, IsReceiveVerb, Is, NumberOf, ObjectCode;
    if IsGiveVerb(w) || IsReceiveVerb(w) || Is(w, FROM, 4) {
      VerbStartsWithLetter(w);
    } else if NumberOf(w).ok {
    } else if ObjectCode(w) != OBJECT_UNKNOWN {
      ObjectStartsWithLetter(w);
    }
  }

  // ---------------------------------------------------------------------------------------
  // The sentences accepted

  /** The descriptions of the words of a sentence. */
  function Described(text: Text): seq<Info> { Infos(text, SentenceSpans(text)) }

  lemma EveryDescriptionIsHonest(text: Text)
    ensures forall j :: 0 <= j < |Described(text)| ==> Honest(Described(text)[j])
  {
    hide Honest, InfoOf, Infos, SentenceSpans;
    var ws := SentenceSpans(text);
    forall j | 0 <= j < |ws|
      ensures Honest(Infos(text, ws)[j])
    {
      EveryWordIsHonest(WordText(text, ws[j]));
    }
  }

  function PlacesOf(ws: seq<Span>, c: Cast): (Place, Place, Place, Place, Place)
    requires -1 <= c.verb < |ws| && -1 <= c.source < |ws| && -1 <= c.target < |ws|
    requires -1 <= c.thing < |ws| && -1 <= c.quantity < |ws|
  {
    (PlaceOf(ws, c.verb), PlaceOf(ws, c.source), PlaceOf(ws, c.target), PlaceOf(ws, c.thing), PlaceOf(ws, c.quantity))
  }

  /** What an accepting answer says, in terms of the cast. */
  predicate Reports(r: TransferParse, infos: seq<Info>, ws: seq<Span>, c: Cast)
    requires Casts(infos, c) && |infos| == |ws|
  {
    && r.verb == (if IsPassive(infos, c) then VERB_PASSIVE else VERB_ACTIVE)
    && (r.verbAt, r.sourceAt, r.targetAt, r.objectAt, r.quantityAt) == PlacesOf(ws, c)
    && r.objectCode == infos[c.thing].code
    && r.quantityPresent == (c.quantity != -1)
    && r.quantity == if c.quantity == -1 then 0 else infos[c.quantity].number.value
  }

  lemma EmptyHasNoWords(text: Text)
    requires Trim(text, false) == []
    ensures SentenceSpans(text) == []
  {}

  /** Parsing a sentence succeeds exactly when its words, at most eight, can be cast; and the answer
      reports that cast. */
  lemma ParseAcceptsCasts(text: Text, c: Cast)
    requires |Described(text)| <= 8 && Casts(Described(text), c)
    ensures ParseSpec(text).status == STATUS_OK
    ensures Reports(ParseSpec(text), Described(text), SentenceSpans(text), c)
  {
    hide *;
    var ws := SentenceSpans(text);
    var infos := Described(text);
    DescribedMeans(text, ws);
    CastBounds(infos, c);
    if Trim(text, false) == [] {
      EmptyHasNoWords(text);
    }
    EveryDescriptionIsHonest(text);
    CastIsAccepted(infos, c);
    Unfold(text, ws);
    IndexBounds(infos);
    ReportsCast(infos, ws, c);
  }

  lemma DescribedMeans(text: Text, ws: seq<Span>)
    requires ws == SentenceSpans(text)
    ensures Described(text) == Infos(text, ws) && |Described(text)| == |ws|
  {
    hide Infos, SentenceSpans;
  }

  lemma CastBounds(infos: seq<Info>, c: Cast)
    requires Casts(infos, c)
    ensures 0 <= c.verb < |infos| && 0 <= c.source < |infos| && 0 <= c.target < |infos|
    ensures 0 <= c.thing < |infos| && -1 <= c.quantity < |infos|
  {}

  lemma ReportsCast(infos: seq<Info>, ws: seq<Span>, c: Cast)
    requires |infos| == |ws| <= 8 && Casts(infos, c) && CastOf(infos) == c
    requires Judge(infos) == CastState(infos, c, if IsPassive(infos, c) then VERB_PASSIVE else VERB_ACTIVE)
    ensures var cls := ClassedTo(infos, |infos|);
            -1 <= cls.verbIdx < |ws| && Report(ws, cls, Judge(infos)).status == STATUS_OK
            && Reports(Report(ws, cls, Judge(infos)), infos, ws, c)
  {
    hide Judge, ClassedTo, InCast, SourceSide;
  }

  lemma AcceptedSentenceIsCast(text: Text)
    requires ParseSpec(text).status == STATUS_OK
    ensures var infos := Described(text);
            1 <= |infos| <= 8 && Casts(infos, CastOf(infos))
            && Reports(ParseSpec(text), infos, SentenceSpans(text), CastOf(infos))
  {
    hide *;
    var ws := SentenceSpans(text);
    var infos := Described(text);
    DescribedMeans(text, ws);
    FailuresAreNotOk();
    if Trim(text, false) == [] {
      NothingParses(text);
    }
    Unfold(text, ws);
    ReportStatus(ws, ClassedTo(infos, |ws|), Judge(infos));
    AcceptedIsCast(infos);
    ParseAcceptsCasts(text, CastOf(infos));
  }

  lemma FailuresAreNotOk()
    ensures FailParse(STATUS_EMPTY).status != STATUS_OK
    ensures FailParse(STATUS_BAD_SHAPE).status != STATUS_OK
    ensures FailParse(STATUS_UNSUPPORTED_VERB).status != STATUS_OK
  {}

  lemma ReportStatus(ws: seq<Span>, cls: ClassState, st: AssignState)
    requires -1 <= cls.verbIdx < |ws| && -1 <= st.sourceIdx < |ws| && -1 <= st.targetIdx < |ws|
    requires -1 <= st.objectIdx < |ws| && -1 <= st.quantityIdx < |ws|
    ensures Report(ws, cls, st).status == st.status
  {}

  /** The sentences accepted are exactly those of one to eight words that can be cast. */
  lemma AcceptedExactly(text: Text)
    ensures ParseSpec(text).status == STATUS_OK
            <==> |Described(text)| <= 8 && exists c :: Casts(Described(text), c)
  {
    hide *;
    if ParseSpec(text).status == STATUS_OK {
      AcceptedSentenceIsCast(text);
      assert Casts(Described(text), CastOf(Described(text)));
    }
    if |Described(text)| <= 8 && exists c :: Casts(Described(text), c) {
      var c :| Casts(Described(text), c);
      ParseAcceptsCasts(text, c);
    }
  }

  /** On success every byte of the sentence that is not a space is in a word with a role, and the words
      are in bounds, apart and maximal. */
  lemma AcceptedSentenceIsCovered(text: Text)
    requires ParseSpec(text).status == STATUS_OK
    ensures var s, ws := Trim(text, false), SentenceSpans(text);
            && |ws| == |Described(text)| <= 8 && AreWords(s, |s|, ws)
            && forall i :: 0 <= i < |s| && s[i] != SPACE ==>
                 exists k :: 0 <= k < |ws| && Holds(ws[k], i) && InCast(CastOf(Described(text)), k)
  {
    hide *;
    var s, ws := Trim(text, false), SentenceSpans(text);
    AcceptedSentenceIsCast(text);
    DescribedMeans(text, ws);
    SpansAreWords(s, |s|);
    SentenceSpansMeans(text);
    forall i | 0 <= i < |s| && s[i] != SPACE
      ensures exists k :: 0 <= k < |ws| && Holds(ws[k], i) && InCast(CastOf(Described(text)), k)
    {
      var k := HoldingWord(s, |s|, ws, i);
      CastCovers(Described(text), CastOf(Described(text)), k);
    }
  }

  lemma SentenceSpansMeans(text: Text)
    ensures SentenceSpans(text) == SpansTo(Trim(text, false), |Trim(text, false)|)
  {
    hide SpansTo, Trim;
  }

  lemma HoldingWord(s: seq<byte>, n: nat, ws: seq<Span>, i: nat) returns (k: nat)
    requires n <= |s| && AreWords(s, n, ws) && i < n && s[i] != SPACE
    ensures k < |ws| && Holds(ws[k], i)
  {
    k :| 0 <= k < |ws| && Holds(ws[k], i);
  }

  lemma CastCovers(infos: seq<Info>, c: Cast, k: nat)
    requires Casts(infos, c) && k < |infos|
    ensures InCast(c, k)
  {
    hide InCast;
  }

  // ---------------------------------------------------------------------------------------
  // What each status means

  predicate NoWord(mark: Mark, f: Frame, infos: seq<Info>) {
    forall j :: 0 <= j < |infos| ==> !Bears(mark, f, infos[j], j)
  }

  predicate OneWord(mark: Mark, f: Frame, infos: seq<Info>) {
    exists k :: 0 <= k < |infos| && OnlyWord(mark, f, infos, k)
  }

  predicate OnlyWord(mark: Mark, f: Frame, infos: seq<Info>, k: int) {
    forall j :: 0 <= j < |infos| ==> (Bears(mark, f, infos[j], j) <==> j == k)
  }

  lemma {:induction false} CountsWords(mark: Mark, f: Frame, infos: seq<Info>, n: nat, k: nat)
    requires k < n <= |infos| && Bears(mark, f, infos[k], k) && Count(mark, f, infos, n) == 1
    ensures forall j :: 0 <= j < n ==> (Bears(mark, f, infos[j], j) <==> j == k)
    decreases n
  {
    hide Bears, First;
    if k < n - 1 {
      assert Count(mark, f, infos, n - 1) != 0;
      CountsWords(mark, f, infos, n - 1, k);
    } else {
      assert Count(mark, f, infos, n - 1) == 0;
    }
  }

  lemma CountMeans(mark: Mark, f: Frame, infos: seq<Info>)
    ensures Count(mark, f, infos, |infos|) == 0 <==> NoWord(mark, f, infos)
    ensures Count(mark, f, infos, |infos|) == 1 <==> OneWord(mark, f, infos)
  {
    hide Bears, First, Count;
    var first := First(mark, f, infos, |infos|);
    if Count(mark, f, infos, |infos|) == 1 {
      CountsWords(mark, f, infos, |infos|, first);
      assert OnlyWord(mark, f, infos, first);
    }
    if OneWord(mark, f, infos) {
      var k :| 0 <= k < |infos| && OnlyWord(mark, f, infos, k);
      Only(mark, f, infos, k);
    }
  }

  /** Where the verb and the "from" stand first. */
  function FrameFor(infos: seq<Info>): Frame
    requires |infos| <= 8
  {
    FrameOf(ClassedTo(infos, |infos|))
  }

  /** The status of words with one verb: 2 when a participant is missing, else 3 when a word after the verb
      begins with a digit and is no number, else 0 when the words can be cast, and 4 otherwise. */
  ghost function OneVerbStatus(infos: seq<Info>): int
    requires |infos| <= 8
  {
    var f := FrameFor(infos);
    if (f.passive && !OneWord(AnyFrom, NOWHERE, infos))
       || NoWord(Source, f, infos) || NoWord(Target, f, infos) || NoWord(Object, f, infos) then STATUS_MISSING_FIELD
    else if !NoWord(Spoil, f, infos) then STATUS_MALFORMED_QUANTITY
    else if exists c :: Casts(infos, c) then STATUS_OK
    else STATUS_BAD_SHAPE
  }

  lemma JudgeStatus(infos: seq<Info>)
    requires |infos| <= 8 && ClassedTo(infos, |infos|).verbCount == 1
    requires forall j :: 0 <= j < |infos| ==> Honest(infos[j])
    ensures Judge(infos).status == OneVerbStatus(infos)
  {
    hide Casts, Honest, Judge, FrameFor, NoWord, OneWord, Bears, First, Count, ClassedTo;
    var f := FrameFor(infos);
    JudgeChecks(infos, f);
    if Judge(infos).status == STATUS_OK {
      AcceptedIsCast(infos);
      assert Casts(infos, CastOf(infos));
    }
    if exists c :: Casts(infos, c) {
      var c :| Casts(infos, c);
      CastBounds(infos, c);
      CastIsAccepted(infos, c);
      CastStateIsOk(infos, c, if IsPassive(infos, c) then VERB_PASSIVE else VERB_ACTIVE);
    }
  }

  lemma CastStateIsOk(infos: seq<Info>, c: Cast, verb: i64)
    requires Casts(infos, c) && |infos| <= 8
    ensures CastState(infos, c, verb).status == STATUS_OK
  {}

  /** The checks before the last, in terms of the words. */
  lemma JudgeChecks(infos: seq<Info>, f: Frame)
    requires |infos| <= 8 && f == FrameFor(infos)
    ensures var missing := (f.passive && !OneWord(AnyFrom, NOWHERE, infos))
                           || NoWord(Source, f, infos) || NoWord(Target, f, infos) || NoWord(Object, f, infos);
            && (missing ==> Judge(infos).status == STATUS_MISSING_FIELD)
            && (!missing && !NoWord(Spoil, f, infos) ==> Judge(infos).status == STATUS_MALFORMED_QUANTITY)
            && (!missing && NoWord(Spoil, f, infos) ==> Judge(infos).status in {STATUS_OK, STATUS_BAD_SHAPE})
  {
    hide Bears, First, Count, NoWord, OneWord, ClassesTo, VerbCodeOf, Covered;
    CountMeans(AnyFrom, NOWHERE, infos);
    FirstMeans(Source, f, infos);
    FirstMeans(Target, f, infos);
    FirstMeans(Object, f, infos);
    FirstMeans(Spoil, f, infos);
  }

  lemma FirstMeans(mark: Mark, f: Frame, infos: seq<Info>)
    ensures First(mark, f, infos, |infos|) == -1 <==> NoWord(mark, f, infos)
  {
    hide Bears, First;
  }

  /** The status of every text: 5 without any word, 4 with more than eight words or more than one verb, 1
      without a verb, and otherwise as the words with one verb say. */
  lemma StatusMeans(text: Text)
    ensures var infos, status := Described(text), ParseSpec(text).status;
            if Trim(text, false) == [] then status == 5
            else if |infos| > 8 then status == 4
            else if NoWord(AnyVerb, NOWHERE, infos) then status == 1
            else if !OneWord(AnyVerb, NOWHERE, infos) then status == 4
            else status == OneVerbStatus(infos)
  {
    hide *;
    var ws := SentenceSpans(text);
    var infos := Described(text);
    DescribedMeans(text, ws);
    StatusNumbers();
    if Trim(text, false) == [] {
      NothingParses(text);
      FailStatus(STATUS_EMPTY);
    } else {
      Unfold(text, ws);
      FailStatus(STATUS_BAD_SHAPE);
      FailStatus(STATUS_UNSUPPORTED_VERB);
      SomeWord(text);
      if |infos| <= 8 {
        VerbsCounted(infos);
        if ClassedTo(infos, |infos|).verbCount == 1 {
          ReportStatus(ws, ClassedTo(infos, |ws|), Judge(infos));
          EveryDescriptionIsHonest(text);
          JudgeStatus(infos);
        }
      }
    }
  }

  /** A text without a single verb among one to eight words is answered with its status alone. */
  lemma RefusedAnswer(text: Text)
    requires var infos := Described(text);
             |infos| > 8 || NoWord(AnyVerb, NOWHERE, infos) || !OneWord(AnyVerb, NOWHERE, infos)
    ensures var none := Place(-1, -1);
            ParseSpec(text)
            == TransferParse(ParseSpec(text).status, 0, none, none, none, 0, none, 0, false, none)
  {
    hide *;
    var ws := SentenceSpans(text);
    DescribedMeans(text, ws);
    if Trim(text, false) == [] {
      NothingParses(text);
      FailedFields(STATUS_EMPTY);
    } else {
      Unfold(text, ws);
      FailedFields(STATUS_BAD_SHAPE);
      FailedFields(STATUS_UNSUPPORTED_VERB);
      SomeWord(text);
      if |ws| <= 8 {
        VerbsCounted(Described(text));
      }
    }
  }

  lemma FailedFields(code: int)
    ensures var none := Place(-1, -1);
            FailParse(code) == TransferParse(code, 0, none, none, none, 0, none, 0, false, none)
  {}

  lemma FailStatus(code: int)
    ensures FailParse(code).status == code
  {}

  lemma StatusNumbers()
    ensures STATUS_EMPTY == 5 && STATUS_BAD_SHAPE == 4 && STATUS_UNSUPPORTED_VERB == 1
  {}

  lemma SomeWord(text: Text)
    requires Trim(text, false) != []
    ensures SentenceSpans(text) != []
  {
    hide SpansTo;
    SentenceSpansMeans(text);
    TrimMeans(text, false);
    assert InWord(Trim(text, false), |Trim(text, false)|);
  }

  lemma VerbsCounted(infos: seq<Info>)
    requires |infos| <= 8
    ensures ClassedTo(infos, |infos|).verbCount == 0 <==> NoWord(AnyVerb, NOWHERE, infos)
    ensures ClassedTo(infos, |infos|).verbCount == 1 <==> OneWord(AnyVerb, NOWHERE, infos)
  {
    hide Bears, First, Count, NoWord, OneWord, ClassesTo, VerbCodeOf;
    CountMeans(AnyVerb, NOWHERE, infos);
  }
}
