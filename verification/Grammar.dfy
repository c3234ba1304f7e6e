/** Which sentences the parser accepts and how it refuses the others, in terms of their words alone. */
module Grammar {
  import opened Machine
  import opened Vocab
  import opened Spellings
  import W = Words
  import R = Roles
  import P = Parse
  import A = Acceptance
  import C = Convergence

  predicate VerbWord(w: seq<byte>) { GiveWord(w) || ReceiveWord(w) }

  predicate NameWord(w: seq<byte>) { !Keyword(w) && CapitalWord(w) }

  predicate ObjectWord(w: seq<byte>) { ThingWord(w) || (!Keyword(w) && SmallWord(w)) }

  /** Each word has one of the roles: a giving verb with the source before it and the target after it, or a
      receiving verb with one "from", the source behind both and the target not; an object and at most one
      number behind the verb. */
  predicate Fills(ws: seq<seq<byte>>, c: A.Cast) {
    && 0 <= c.verb < |ws| && VerbWord(ws[c.verb])
    && 0 <= c.source < |ws| && NameWord(ws[c.source]) && 0 <= c.target < |ws| && NameWord(ws[c.target])
    && (if ReceiveWord(ws[c.verb]) then
          && 0 <= c.from < |ws| && FromWord(ws[c.from])
          && c.verb < c.source && c.from < c.source && (c.target < c.verb || c.target < c.from)
        else c.from == -1 && c.source < c.verb < c.target)
    && c.verb < c.thing < |ws| && ObjectWord(ws[c.thing])
    && (c.quantity == -1 || (c.verb < c.quantity < |ws| && NumberWord(ws[c.quantity])))
    && forall j :: 0 <= j < |ws| ==> HasRole(c, j)
  }

  predicate HasRole(c: A.Cast, j: int) {
    j == c.verb || j == c.from || j == c.source || j == c.target || j == c.thing || j == c.quantity
  }

  /** What the word classes say of a described word. */
  predicate ClassedAs(info: R.Info, w: seq<byte>) {
    && (R.IsVerb(info) <==> VerbWord(w)) && (info.class_ == CLASS_VERB_PASSIVE <==> ReceiveWord(w))
    && (info.class_ == CLASS_FROM <==> FromWord(w)) && (info.class_ == CLASS_ENTITY <==> NameWord(w))
    && (R.Objectish(info) <==> ObjectWord(w)) && (info.class_ == CLASS_NUMBER <==> NumberWord(w))
    && (info.digit <==> w != [] && 48 <= w[0] <= 57)
  }

  lemma WordClassed(w: seq<byte>)
    ensures ClassedAs(R.InfoOf(w), w)
  {
    hide ClassOf, NumberOf, ObjectCode, GiveWord, ReceiveWord, FromWord, NumberWord, ThingWord, CapitalWord, SmallWord;
    ClassesAre(w);
  }

  predicate AllClassed(infos: seq<R.Info>, ws: seq<seq<byte>>) {
    |infos| == |ws| && forall k :: 0 <= k < |ws| ==> ClassedAs(infos[k], ws[k])
  }

  lemma TextClassed(text: Text)
    ensures AllClassed(A.Described(text), C.WordTexts(text))
  {
    hide ClassedAs, R.InfoOf, A.Described, C.WordTexts;
    C.DescribedByTexts(text);
    var ws := C.WordTexts(text);
    forall k | 0 <= k < |ws| ensures ClassedAs(A.Described(text)[k], ws[k]) {
      WordClassed(ws[k]);
    }
  }

  lemma FillsIsCasts(infos: seq<R.Info>, ws: seq<seq<byte>>, c: A.Cast)
    requires AllClassed(infos, ws)
    ensures A.Casts(infos, c) <==> Fills(ws, c)
  {
    hide VerbWord, NameWord, ObjectWord, NumberWord, FromWord, ReceiveWord;
    assert forall j :: A.InCast(c, j) <==> HasRole(c, j);
    assert 0 <= c.verb < |ws| ==> ClassedAs(infos[c.verb], ws[c.verb]);
    assert 0 <= c.from < |ws| ==> ClassedAs(infos[c.from], ws[c.from]);
    assert 0 <= c.source < |ws| ==> ClassedAs(infos[c.source], ws[c.source]);
    assert 0 <= c.target < |ws| ==> ClassedAs(infos[c.target], ws[c.target]);
    assert 0 <= c.thing < |ws| ==> ClassedAs(infos[c.thing], ws[c.thing]);
    assert 0 <= c.quantity < |ws| ==> ClassedAs(infos[c.quantity], ws[c.quantity]);
  }

  /** A text is accepted, with status 0, exactly when its words, eight at most, can all be given a role. */
  lemma GrammarDecides(text: Text)
    ensures P.ParseSpec(text).status == 0 <==> |C.WordTexts(text)| <= 8 && exists c :: Fills(C.WordTexts(text), c)
  {
    hide P.ParseSpec, A.Described, C.WordTexts, A.Casts, Fills, ClassedAs;
    TextClassed(text);
    A.AcceptedExactly(text);
    var infos, ws := A.Described(text), C.WordTexts(text);
    if c :| A.Casts(infos, c) {
      FillsIsCasts(infos, ws, c);
    }
    if c :| Fills(ws, c) {
      FillsIsCasts(infos, ws, c);
    }
  }

  // ---------------------------------------------------------------------------------------
  // How a text is refused

  predicate OnlyVerb(ws: seq<seq<byte>>, v: nat) {
    v < |ws| && forall j :: 0 <= j < |ws| ==> (VerbWord(ws[j]) <==> j == v)
  }

  predicate OnlyFrom(ws: seq<seq<byte>>, f: nat) {
    f < |ws| && forall j :: 0 <= j < |ws| ==> (FromWord(ws[j]) <==> j == f)
  }

  /** The place of a source, `f` being that of the "from". */
  predicate SourcePlace(passive: bool, v: int, f: int, j: int) { if passive then v < j && f < j else j < v }

  /** A name stands where a source can, one where a target can, and an object behind the verb. */
  predicate Complete(ws: seq<seq<byte>>, v: int, f: int, passive: bool) {
    && (exists j :: 0 <= j < |ws| && NameWord(ws[j]) && SourcePlace(passive, v, f, j))
    && (exists j :: 0 <= j < |ws| && NameWord(ws[j]) && !SourcePlace(passive, v, f, j))
    && (exists j :: 0 <= j < |ws| && ObjectWord(ws[j]) && v < j)
  }

  /** A word behind the verb begins with a digit and is no number. */
  predicate Misnumbered(ws: seq<seq<byte>>, v: int) {
    exists j :: 0 <= j < |ws| && v < j && BadNumber(ws[j])
  }

  predicate BadNumber(w: seq<byte>) { w != [] && 48 <= w[0] <= 57 && !NumberWord(w) }

  /** One verb and, when it is passive, one "from": 2 unless complete, then 3 if misnumbered, then 0 or 4. */
  ghost predicate Ranked(ws: seq<seq<byte>>, v: int, f: int, passive: bool, status: int) {
    if !Complete(ws, v, f, passive) then status == 2
    else if Misnumbered(ws, v) then status == 3
    else if exists c :: Fills(ws, c) then status == 0
    else status == 4
  }

  lemma MarksByWords(infos: seq<R.Info>, ws: seq<seq<byte>>, f: R.Frame)
    requires AllClassed(infos, ws)
    ensures A.NoWord(R.Source, f, infos) || A.NoWord(R.Target, f, infos) || A.NoWord(R.Object, f, infos)
            <==> !Complete(ws, f.verb, f.from, f.passive)
    ensures A.NoWord(R.Spoil, f, infos) <==> !Misnumbered(ws, f.verb)
  {
    hide NameWord, ObjectWord, NumberWord, VerbWord, FromWord, ReceiveWord, R.IsVerb, R.Objectish;
    SourceByWords(infos, ws, f);
    TargetByWords(infos, ws, f);
    ObjectByWords(infos, ws, f);
    SpoilByWords(infos, ws, f);
    hide *;
    CompleteMeans(ws, f);
  }

  lemma CompleteMeans(ws: seq<seq<byte>>, f: R.Frame)
    ensures Complete(ws, f.verb, f.from, f.passive)
            <==> && (exists j :: 0 <= j < |ws| && NameWord(ws[j]) && SourcePlace(f.passive, f.verb, f.from, j))
                 && (exists j :: 0 <= j < |ws| && NameWord(ws[j]) && !SourcePlace(f.passive, f.verb, f.from, j))
                 && (exists j :: 0 <= j < |ws| && ObjectWord(ws[j]) && f.verb < j)
  {
    hide NameWord, ObjectWord, SourcePlace;
  }

  lemma SourceByWords(infos: seq<R.Info>, ws: seq<seq<byte>>, f: R.Frame)
    requires AllClassed(infos, ws)
    ensures A.NoWord(R.Source, f, infos)
            <==> !exists j :: 0 <= j < |ws| && NameWord(ws[j]) && SourcePlace(f.passive, f.verb, f.from, j)
  {
    hide NameWord, ObjectWord, NumberWord, VerbWord, FromWord, ReceiveWord, R.IsVerb, R.Objectish;
    assert forall j :: 0 <= j < |ws| ==> ClassedAs(infos[j], ws[j]);
    assert forall j :: 0 <= j < |ws| ==>
        (R.Bears(R.Source, f, infos[j], j) <==> NameWord(ws[j]) && SourcePlace(f.passive, f.verb, f.from, j));
  }

  lemma TargetByWords(infos: seq<R.Info>, ws: seq<seq<byte>>, f: R.Frame)
    requires AllClassed(infos, ws)
    ensures A.NoWord(R.Target, f, infos)
            <==> !exists j :: 0 <= j < |ws| && NameWord(ws[j]) && !SourcePlace(f.passive, f.verb, f.from, j)
  {
    hide NameWord, ObjectWord, NumberWord, VerbWord, FromWord, ReceiveWord, R.IsVerb, R.Objectish;
    assert forall j :: 0 <= j < |ws| ==> ClassedAs(infos[j], ws[j]);
    assert forall j :: 0 <= j < |ws| ==>
        (R.Bears(R.Target, f, infos[j], j) <==> NameWord(ws[j]) && !SourcePlace(f.passive, f.verb, f.from, j));
  }

  lemma ObjectByWords(infos: seq<R.Info>, ws: seq<seq<byte>>, f: R.Frame)
    requires AllClassed(infos, ws)
    ensures A.NoWord(R.Object, f, infos) <==> !exists j :: 0 <= j < |ws| && ObjectWord(ws[j]) && f.verb < j
  {
    hide NameWord, ObjectWord, NumberWord, VerbWord, FromWord, ReceiveWord, R.IsVerb, R.Objectish;
    assert forall j :: 0 <= j < |ws| ==> ClassedAs(infos[j], ws[j]);
    assert forall j :: 0 <= j < |ws| ==> (R.Bears(R.Object, f, infos[j], j) <==> ObjectWord(ws[j]) && f.verb < j);
  }

  lemma SpoilByWords(infos: seq<R.Info>, ws: seq<seq<byte>>, f: R.Frame)
    requires AllClassed(infos, ws)
    ensures A.NoWord(R.Spoil, f, infos) <==> !Misnumbered(ws, f.verb)
  {
    hide NameWord, ObjectWord, NumberWord, VerbWord, FromWord, ReceiveWord, R.IsVerb, R.Objectish;
    assert forall j :: 0 <= j < |ws| ==> ClassedAs(infos[j], ws[j]);
    assert forall j :: 0 <= j < |ws| ==> (R.Bears(R.Spoil, f, infos[j], j) <==> f.verb < j && BadNumber(ws[j]));
  }

  lemma VerbMarks(infos: seq<R.Info>, ws: seq<seq<byte>>, j: nat)
    requires AllClassed(infos, ws) && j < |ws|
    ensures R.Bears(R.AnyVerb, R.NOWHERE, infos[j], j) <==> VerbWord(ws[j])
    ensures R.Bears(R.AnyFrom, R.NOWHERE, infos[j], j) <==> FromWord(ws[j])
    ensures infos[j].class_ == CLASS_VERB_PASSIVE <==> ReceiveWord(ws[j])
  {
    hide NameWord, ObjectWord, NumberWord, VerbWord, FromWord, ReceiveWord, R.IsVerb, R.Objectish;
    assert ClassedAs(infos[j], ws[j]);
  }

  /** With one verb, at `v`, and, when it is passive, one "from", at `f`. */
  lemma OneVerbByWords(infos: seq<R.Info>, ws: seq<seq<byte>>, v: nat, f: int)
    requires |infos| <= 8 && AllClassed(infos, ws) && OnlyVerb(ws, v)
    requires if ReceiveWord(ws[v]) then f >= 0 && OnlyFrom(ws, f) else f == -1
    ensures A.OneWord(R.AnyVerb, R.NOWHERE, infos)
    ensures Ranked(ws, v, f, ReceiveWord(ws[v]), A.OneVerbStatus(infos))
  {
    hide VerbWord, FromWord, ReceiveWord, AllClassed, R.Bears, A.Casts, Fills, Complete, Misnumbered, A.NoWord;
    forall j | 0 <= j < |infos| ensures R.Bears(R.AnyVerb, R.NOWHERE, infos[j], j) <==> j == v {
      SameLength(infos, ws);
      VerbMarks(infos, ws, j);
    }
    SameLength(infos, ws);
    A.Only(R.AnyVerb, R.NOWHERE, infos, v);
    assert A.OnlyWord(R.AnyVerb, R.NOWHERE, infos, v);
    VerbMarks(infos, ws, v);
    var frame := A.FrameFor(infos);
    FrameByVerb(infos, v);
    if frame.passive {
      forall j | 0 <= j < |infos| ensures R.Bears(R.AnyFrom, R.NOWHERE, infos[j], j) <==> j == f {
        VerbMarks(infos, ws, j);
      }
      A.Only(R.AnyFrom, R.NOWHERE, infos, f);
      assert A.OnlyWord(R.AnyFrom, R.NOWHERE, infos, f);
    }
    MarksByWords(infos, ws, frame);
    ActiveIgnoresFrom(ws, v, frame.from, f);
    CastsByWords(infos, ws);
  }

  lemma SameLength(infos: seq<R.Info>, ws: seq<seq<byte>>)
    requires AllClassed(infos, ws)
    ensures |infos| == |ws|
  {}

  /** Where the parser takes the verb and the "from" to stand. */
  lemma FrameByVerb(infos: seq<R.Info>, v: nat)
    requires v < |infos| <= 8 && R.First(R.AnyVerb, R.NOWHERE, infos, |infos|) == v
    ensures var f := A.FrameFor(infos);
            && f.verb == v && f.from == R.First(R.AnyFrom, R.NOWHERE, infos, |infos|)
            && (R.IsVerb(infos[v]) ==> (f.passive <==> infos[v].class_ == CLASS_VERB_PASSIVE))
    ensures R.IsVerb(infos[v])
  {
    hide R.First, R.ClassesTo, R.Count;
  }

  lemma ActiveIgnoresFrom(ws: seq<seq<byte>>, v: int, f: int, g: int)
    ensures Complete(ws, v, f, false) <==> Complete(ws, v, g, false)
  {
    hide NameWord, ObjectWord;
    assert forall j :: SourcePlace(false, v, f, j) <==> SourcePlace(false, v, g, j);
  }

  lemma CastsByWords(infos: seq<R.Info>, ws: seq<seq<byte>>)
    requires AllClassed(infos, ws)
    ensures (exists c :: A.Casts(infos, c)) <==> (exists c :: Fills(ws, c))
  {
    hide A.Casts, Fills, AllClassed;
    if c :| A.Casts(infos, c) {
      FillsIsCasts(infos, ws, c);
    }
    if c :| Fills(ws, c) {
      FillsIsCasts(infos, ws, c);
    }
  }

  /** A passive verb without exactly one "from". */
  lemma FromMissing(infos: seq<R.Info>, ws: seq<seq<byte>>, v: nat)
    requires |infos| <= 8 && AllClassed(infos, ws) && OnlyVerb(ws, v)
    requires ReceiveWord(ws[v]) && forall f :: 0 <= f < |ws| ==> !OnlyFrom(ws, f)
    ensures A.OneWord(R.AnyVerb, R.NOWHERE, infos) && A.OneVerbStatus(infos) == 2
  {
    hide VerbWord, FromWord, ReceiveWord, AllClassed, R.Bears, A.Casts, Fills, A.NoWord;
    SameLength(infos, ws);
    forall j | 0 <= j < |infos| ensures R.Bears(R.AnyVerb, R.NOWHERE, infos[j], j) <==> j == v {
      VerbMarks(infos, ws, j);
    }
    A.Only(R.AnyVerb, R.NOWHERE, infos, v);
    assert A.OnlyWord(R.AnyVerb, R.NOWHERE, infos, v);
    VerbMarks(infos, ws, v);
    FrameByVerb(infos, v);
    if k :| 0 <= k < |infos| && A.OnlyWord(R.AnyFrom, R.NOWHERE, infos, k) {
      forall j | 0 <= j < |ws| ensures FromWord(ws[j]) <==> j == k {
        VerbMarks(infos, ws, j);
      }
      assert OnlyFrom(ws, k);
    }
  }

  /** The status of any text without a single verb: 5 without words, 4 with more than eight, 1 without a
      verb, 4 with two. */
  lemma StatusWithoutOneVerb(text: Text)
    ensures var ws, status := C.WordTexts(text), P.ParseSpec(text).status;
            && (ws == [] ==> status == 5)
            && (|ws| > 8 ==> status == 4)
            && (1 <= |ws| <= 8 && (forall j :: 0 <= j < |ws| ==> !VerbWord(ws[j])) ==> status == 1)
            && (|ws| <= 8 && (exists i, j :: 0 <= i < j < |ws| && VerbWord(ws[i]) && VerbWord(ws[j])) ==> status == 4)
  {
    hide P.ParseSpec, A.Described, C.WordTexts, VerbWord, AllClassed, R.Bears, A.OneVerbStatus, W.Trim;
    var infos, ws := A.Described(text), C.WordTexts(text);
    TextClassed(text);
    SameLength(infos, ws);
    A.StatusMeans(text);
    NoWords(text);
    forall j | 0 <= j < |ws| ensures R.Bears(R.AnyVerb, R.NOWHERE, infos[j], j) <==> VerbWord(ws[j]) {
      VerbMarks(infos, ws, j);
    }
    if i, j :| 0 <= i < j < |ws| && VerbWord(ws[i]) && VerbWord(ws[j]) {
      assert R.Bears(R.AnyVerb, R.NOWHERE, infos[i], i) && R.Bears(R.AnyVerb, R.NOWHERE, infos[j], j);
      forall k | 0 <= k < |infos| ensures !A.OnlyWord(R.AnyVerb, R.NOWHERE, infos, k) {
        assert if k == i then R.Bears(R.AnyVerb, R.NOWHERE, infos[j], j)
               else R.Bears(R.AnyVerb, R.NOWHERE, infos[i], i);
      }
    }
  }

  lemma NoWords(text: Text)
    ensures C.WordTexts(text) == [] <==> W.Trim(text, false) == []
  {
    hide W.Trim, P.ParseSpec;
    if W.Trim(text, false) == [] {
      assert P.SentenceSpans(text) == [];
    } else {
      A.SomeWord(text);
    }
  }

  /** With a single verb, active or followed by a single "from": 2 unless a name stands where the source can,
      one where the target can, and an object behind the verb; then 3 if a word behind the verb begins with a
      digit and is no number; then 0 if every word can be given a role, and 4 otherwise. */
  lemma StatusWithVerb(text: Text, v: nat, f: int)
    requires |C.WordTexts(text)| <= 8 && OnlyVerb(C.WordTexts(text), v)
    requires if ReceiveWord(C.WordTexts(text)[v]) then f >= 0 && OnlyFrom(C.WordTexts(text), f) else f == -1
    ensures Ranked(C.WordTexts(text), v, f, ReceiveWord(C.WordTexts(text)[v]), P.ParseSpec(text).status)
  {
    hide P.ParseSpec, A.Described, C.WordTexts, VerbWord, FromWord, ReceiveWord, AllClassed, R.Bears, Ranked, W.Trim,
        A.OneWord, A.NoWord;
    var infos, ws := A.Described(text), C.WordTexts(text);
    TextClassed(text);
    SameLength(infos, ws);
    A.StatusMeans(text);
    NoWords(text);
    VerbMarks(infos, ws, v);
    SomeVerb(infos, v);
    OneVerbByWords(infos, ws, v, f);
  }

  lemma SomeVerb(infos: seq<R.Info>, v: nat)
    requires v < |infos|
    ensures R.Bears(R.AnyVerb, R.NOWHERE, infos[v], v) ==> !A.NoWord(R.AnyVerb, R.NOWHERE, infos)
  {
    hide R.Bears;
  }

  /** With a single passive verb and no "from", or more than one: 2. */
  lemma StatusWithoutFrom(text: Text, v: nat)
    requires |C.WordTexts(text)| <= 8 && OnlyVerb(C.WordTexts(text), v) && ReceiveWord(C.WordTexts(text)[v])
    requires forall f :: 0 <= f < |C.WordTexts(text)| ==> !OnlyFrom(C.WordTexts(text), f)
    ensures P.ParseSpec(text).status == 2
  {
    hide P.ParseSpec, A.Described, C.WordTexts, VerbWord, FromWord, ReceiveWord, AllClassed, R.Bears, W.Trim,
        A.OneWord, A.NoWord, A.OneVerbStatus, OnlyFrom;
    var infos, ws := A.Described(text), C.WordTexts(text);
    TextClassed(text);
    SameLength(infos, ws);
    A.StatusMeans(text);
    NoWords(text);
    VerbMarks(infos, ws, v);
    SomeVerb(infos, v);
    FromMissing(infos, ws, v);
  }
}
