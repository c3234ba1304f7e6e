/** Sentences to fragments: the text adapter, `src/adapters/text.rs`. */
module TextAdapter {
  import opened Machine
  import opened Vocab
  import R = Roles
  import P = Parse
  import A = Acceptance
  import C = Convergence
  import I = Ir
  import K = Canonical

  /** The facts the adapter builds from a successful parse. */
  function FactsOf(text: Text, r: P.TransferParse): K.CanonicalFacts {
    K.CanonicalFacts(K.EVENT_TRANSFER, C.Slice(text, r.sourceAt), C.Slice(text, r.targetAt), r.objectCode,
                     C.Slice(text, r.objectAt), if r.quantityPresent then I.Some(r.quantity) else I.None)
  }

  /** The transfer a sentence that was accepted says. */
  function SaidBy(text: Text): C.Transfer
    requires P.ParseSpec(text).status == R.STATUS_OK
  {
    var r := P.ParseSpec(text);
    C.Transfer(C.Slice(text, r.sourceAt), C.Slice(text, r.targetAt), C.Slice(text, r.objectAt),
               if r.quantityPresent then [C.Slice(text, r.quantityAt)] else [])
  }

  lemma CastSays(text: Text, c: A.Cast)
    requires A.Casts(A.Described(text), c) && P.ParseSpec(text).status == R.STATUS_OK
    requires |A.Described(text)| == |P.SentenceSpans(text)| == |C.WordTexts(text)|
    requires A.Reports(P.ParseSpec(text), A.Described(text), P.SentenceSpans(text), c)
    ensures var t := SaidBy(text); var words := C.WordTexts(text);
            && t.source == words[c.source] && t.target == words[c.target] && t.thing == words[c.thing]
            && t.number == if c.quantity == -1 then [] else [words[c.quantity]]
  {
    hide P.ParseSpec, A.Described, P.SentenceSpans, C.TextsOf, A.InCast, R.SourceSide, C.Slice;
    var ws := P.SentenceSpans(text);
    C.SliceIsWord(text, ws, c.source);
    C.SliceIsWord(text, ws, c.target);
    C.SliceIsWord(text, ws, c.thing);
    if c.quantity != -1 {
      C.SliceIsWord(text, ws, c.quantity);
    }
  }

  lemma CastIsValid(infos: seq<R.Info>, words: seq<seq<byte>>, c: A.Cast, t: C.Transfer)
    requires A.Casts(infos, c) && C.Describes(infos, words)
    requires t.source == words[c.source] && t.target == words[c.target] && t.thing == words[c.thing]
    requires t.number == if c.quantity == -1 then [] else [words[c.quantity]]
    ensures C.ValidTransfer(t)
  {
    hide ClassOf, ObjectCode, NumberOf, A.InCast, R.SourceSide;
  }

  /** Every sentence that is accepted says a transfer. */
  lemma AcceptedSays(text: Text)
    requires P.ParseSpec(text).status == R.STATUS_OK
    ensures C.ValidTransfer(SaidBy(text)) && C.Says(text, P.ParseSpec(text), SaidBy(text))
  {
    hide *;
    A.AcceptedSentenceIsCast(text);
    var c := A.CastOf(A.Described(text));
    A.CastBounds(A.Described(text), c);
    C.SameCount(text);
    C.DescribedByTexts(text);
    CastSays(text, c);
    CastIsValid(A.Described(text), C.WordTexts(text), c, SaidBy(text));
    C.ReportedSays(text, SaidBy(text), c);
  }

  /** The facts of a transfer. */
  predicate FactsFor(facts: K.CanonicalFacts, t: C.Transfer) {
    && facts.source == t.source && facts.target == t.target && facts.objectSpelling == t.thing
    && facts.objectCode == ObjectCode(t.thing) && facts.event == K.EVENT_TRANSFER
    && facts.quantity == if t.number == [] then I.None else I.Some(NumberOf(t.number[0]).value)
  }

  lemma FactsSaid(text: Text, r: P.TransferParse, t: C.Transfer)
    requires C.Says(text, r, t)
    ensures FactsFor(FactsOf(text, r), t)
  {
    hide ObjectCode, NumberOf, C.Slice;
  }

  lemma ThingIsShort(w: seq<byte>)
    requires ClassOf(w) == CLASS_OBJECT || ClassOf(w) == CLASS_CANDIDATE
    ensures |w| <= 16 && 0 <= ObjectCode(w) <= 2
    ensures ObjectCode(w) == 0 <==> ClassOf(w) == CLASS_CANDIDATE
  {
    hide Spells, Is, IsGiveVerb, IsReceiveVerb, NumberOf;
    LongNames(w);
  }

  lemma LongNames(w: seq<byte>)
    ensures Is(w, APPLE, 5) || Is(w, ORANGE, 6) ==> |w| <= 6
  {
    hide Spells;
  }

  lemma EntityIsShort(w: seq<byte>)
    requires ClassOf(w) == CLASS_ENTITY
    ensures |w| <= 16
  {
    hide Is, IsGiveVerb, IsReceiveVerb, NumberOf, ObjectCode;
  }

  /** No bound of the adapter refuses a sentence the parser accepted: its spellings have at most 16 bytes
      and its object code is 0 to 2. */
  lemma AcceptedIsBuildable(text: Text)
    requires P.ParseSpec(text).status == R.STATUS_OK
    ensures K.Buildable(FactsOf(text, P.ParseSpec(text)))
  {
    hide P.ParseSpec, FactsOf, C.Says, SaidBy, ClassOf, ObjectCode;
    var t := SaidBy(text);
    AcceptedSays(text);
    FactsSaid(text, P.ParseSpec(text), t);
    EntityIsShort(t.source);
    EntityIsShort(t.target);
    ThingIsShort(t.thing);
  }

  /** The same transfer, up to the spelling of a known object and of a number. */
  predicate SameTransfer(s: C.Transfer, t: C.Transfer) {
    && s.source == t.source && s.target == t.target
    && ObjectCode(s.thing) == ObjectCode(t.thing) && (ObjectCode(s.thing) == 0 ==> s.thing == t.thing)
    && (s.number == [] <==> t.number == [])
    && (s.number != [] && t.number != [] ==> NumberOf(s.number[0]).value == NumberOf(t.number[0]).value)
  }

  /** Two accepted sentences have fragments of the same meaning exactly when they say the same transfer,
      whatever their form, spacing and letter case of keywords. */
  lemma FragmentsDecideTransfers(s: Text, t: Text, f: I.Fragment, g: I.Fragment)
    requires P.ParseSpec(s).status == R.STATUS_OK && P.ParseSpec(t).status == R.STATUS_OK
    requires K.Renders(f, FactsOf(s, P.ParseSpec(s))) && K.Renders(g, FactsOf(t, P.ParseSpec(t)))
    ensures I.KeyOf(I.Items(f)) == I.KeyOf(I.Items(g)) <==> SameTransfer(SaidBy(s), SaidBy(t))
  {
    hide *;
    var a, b := FactsOf(s, P.ParseSpec(s)), FactsOf(t, P.ParseSpec(t));
    AcceptedSays(s);
    AcceptedSays(t);
    AcceptedIsBuildable(s);
    AcceptedIsBuildable(t);
    FactsSaid(s, P.ParseSpec(s), SaidBy(s));
    FactsSaid(t, P.ParseSpec(t), SaidBy(t));
    CodesKnown(a);
    CodesKnown(b);
    K.KeysDecideFacts(a, b, f, g);
    FactsAndTransfers(a, b, SaidBy(s), SaidBy(t));
  }

  lemma CodesKnown(a: K.CanonicalFacts)
    requires K.Buildable(a)
    ensures K.KnownCode(a)
  {}

  lemma FactsAndTransfers(a: K.CanonicalFacts, b: K.CanonicalFacts, s: C.Transfer, t: C.Transfer)
    requires FactsFor(a, s) && FactsFor(b, t)
    ensures K.SameFacts(a, b) <==> SameTransfer(s, t)
  {
    hide ObjectCode, NumberOf;
  }

  /** Convergence, end to end: the active and the passive sentence of a transfer are both accepted, and
      their fragments have the same meaning. */
  lemma FormsMeanTheSame(t: C.Transfer, give: seq<byte>, receive: seq<byte>, from: seq<byte>,
                         active: Text, passive: Text, f: I.Fragment, g: I.Fragment)
    requires C.ValidTransfer(t)
    requires ClassOf(give) == CLASS_VERB_ACTIVE && ClassOf(receive) == CLASS_VERB_PASSIVE && ClassOf(from) == CLASS_FROM
    requires active == C.Sentence(C.ActiveWords(t, give)) && passive == C.Sentence(C.PassiveWords(t, receive, from))
    requires K.Renders(f, FactsOf(active, P.ParseSpec(active))) && K.Renders(g, FactsOf(passive, P.ParseSpec(passive)))
    ensures P.ParseSpec(active).status == P.ParseSpec(passive).status == R.STATUS_OK
    ensures I.KeyOf(I.Items(f)) == I.KeyOf(I.Items(g))
  {
    hide *;
    C.FormsConverge(t, give, receive, from, active, passive);
    SaysMeans(active, P.ParseSpec(active), t);
    SaysMeans(passive, P.ParseSpec(passive), t);
    FactsSaid(active, P.ParseSpec(active), t);
    FactsSaid(passive, P.ParseSpec(passive), t);
    AcceptedIsBuildable(active);
    AcceptedIsBuildable(passive);
    var a, b := FactsOf(active, P.ParseSpec(active)), FactsOf(passive, P.ParseSpec(passive));
    CodesKnown(a);
    CodesKnown(b);
    FactsAndTransfers(a, b, t, t);
    SameAsItself(t);
    K.KeysDecideFacts(a, b, f, g);
  }

  lemma SaysMeans(text: Text, r: P.TransferParse, t: C.Transfer)
    requires C.Says(text, r, t)
    ensures r.status == R.STATUS_OK
  {}

  lemma SameAsItself(t: C.Transfer)
    ensures SameTransfer(t, t)
  {}
}
