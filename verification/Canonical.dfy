/** Canonical facts, the fragment assembled from them, and the two equality decisions:
    `src/canonical.rs`.  Spellings are valid UTF-8, so rendering them as strings keeps their bytes. */
module Canonical {
  import opened Machine
  import opened Numerals
  import opened Vocab
  import opened Codes
  import opened Ir

  const EVENT_TRANSFER: i64 := 1
  const MAX_SPELLING := 16

  datatype CanonicalFacts = CanonicalFacts(
    event: i64, source: Text, target: Text, objectCode: i64, objectSpelling: Text, quantity: Option<i64>)

  datatype Ingested = Ingested(fragment: Fragment, facts: CanonicalFacts)

  /** `mncs-ingest/fragment-v1`. */
  const SCHEMA: seq<byte> := [109, 110, 99, 115, 45, 105, 110, 103, 101, 115, 116, 47, 102, 114, 97, 103, 109, 101, 110,
                              116, 45, 118, 49]
  const TRANSFER: seq<byte> := [116, 114, 97, 110, 115, 102, 101, 114]
  const APPLE_LABEL: seq<byte> := [97, 112, 112, 108, 101]
  const ORANGE_LABEL: seq<byte> := [111, 114, 97, 110, 103, 101]
  /** `object:unknown:` */
  const UNKNOWN_PREFIX: seq<byte> := [111, 98, 106, 101, 99, 116, 58, 117, 110, 107, 110, 111, 119, 110, 58]

  function ObjectLabel(code: i64): Option<seq<byte>> {
    if code == 1 then Some(APPLE_LABEL) else if code == 2 then Some(ORANGE_LABEL) else None
  }

  function LabelOf(facts: CanonicalFacts): seq<byte> {
    match ObjectLabel(facts.objectCode)
    case Some(name) => name
    case None => facts.objectSpelling
  }

  function AtomsOf(facts: CanonicalFacts, unknown: bool): seq<Atom> {
    [Atom(0, Event, TRANSFER, None), Atom(1, Entity, facts.source, None), Atom(2, Entity, facts.target, None),
     Atom(3, if unknown then Unknown else Thing, LabelOf(facts), None)]
    + match facts.quantity
      case None => []
      case Some(quantity) => [Atom(4, Quantity, Decimal(quantity), Some(quantity))]
  }

  function RelationsOf(facts: CanonicalFacts): seq<Relation> {
    [Relation(SourceRole, 0, 1), Relation(TargetRole, 0, 2), Relation(ObjectRole, 0, 3)]
    + if facts.quantity.Some? then [Relation(QuantityRole, 0, 4)] else []
  }

  function UnknownsOf(facts: CanonicalFacts, unknown: bool): seq<seq<byte>> {
    if unknown then [UNKNOWN_PREFIX + facts.objectSpelling] else []
  }

  function ConfidenceOf(adapter: AdapterKind, unknown: bool): Confidence {
    if unknown then Uncertain else if adapter.TextInput? then Parsed else Direct
  }

  /** The layout downstream readers rely on: ids are positions, the first atom is the event, each role
      points at the one atom it names, a quantity is present exactly when given, and confidence is
      uncertain exactly when something is listed as unknown. */
  predicate LaidOut(f: Fragment, facts: CanonicalFacts) {
    && 4 <= |f.atoms| <= 5 && (forall k :: 0 <= k < |f.atoms| ==> f.atoms[k].id == k) && f.atoms[0].kind == Event
    && |f.relations| == |f.atoms| - 1
    && (forall k :: 0 <= k < |f.relations| ==> f.relations[k].event == 0 && f.relations[k].target == k + 1)
    && (forall k :: 0 <= k < |f.relations| ==> Names(f.relations[k].role, f.atoms[k + 1], facts))
    && (|f.atoms| == 5 <==> facts.quantity.Some?)
    && (f.provenance.confidence == Uncertain <==> f.unknowns != [])
    && (f.provenance.confidence == Uncertain <==> f.atoms[3].kind == Unknown)
    && (f.provenance.confidence == Parsed <==> f.provenance.adapter == TextInput && f.unknowns == [])
  }

  /** The atom is what the role says of the facts. */
  predicate Names(role: Role, atom: Atom, facts: CanonicalFacts) {
    match role
    case SourceRole => atom.kind == Entity && atom.name == facts.source && atom.value == None
    case TargetRole => atom.kind == Entity && atom.name == facts.target && atom.value == None
    case ObjectRole => (atom.kind == Thing || atom.kind == Unknown) && atom.name == LabelOf(facts) && atom.value == None
    case QuantityRole => atom.kind == Quantity && atom.value == facts.quantity && facts.quantity.Some?
  }

  /** The raw input enters only through its digest, `signalId`. */
  method Assemble(adapter: AdapterKind, interpreter: seq<byte>, signalId: seq<byte>, facts: CanonicalFacts,
                  spans: seq<FieldSpan>, objectWasUnknown: bool) returns (r: Ingested)
    ensures r == Ingested(FragmentOf(adapter, interpreter, signalId, facts, spans, objectWasUnknown), facts)
    ensures LaidOut(r.fragment, facts)
  {
    hide LabelOf, Decimal, LaidOut;
    FragmentIsLaidOut(adapter, interpreter, signalId, facts, spans, objectWasUnknown);
    var atoms := [Atom(0, Event, TRANSFER, None), Atom(1, Entity, facts.source, None),
                  Atom(2, Entity, facts.target, None),
                  Atom(3, if objectWasUnknown then Unknown else Thing, LabelOf(facts), None)];
    var relations := [Relation(SourceRole, 0, 1), Relation(TargetRole, 0, 2), Relation(ObjectRole, 0, 3)];
    if facts.quantity.Some? {
      atoms := atoms + [Atom(4, Quantity, Decimal(facts.quantity.value), facts.quantity)];
      relations := relations + [Relation(QuantityRole, 0, 4)];
    }
    var unknowns := [];
    if objectWasUnknown {
      unknowns := unknowns + [UNKNOWN_PREFIX + facts.objectSpelling];
    }
    var confidence := if objectWasUnknown then Uncertain else if adapter.TextInput? then Parsed else Direct;
    r := Ingested(Fragment(SCHEMA, atoms, relations, unknowns,
                           Provenance(adapter, signalId, interpreter, spans, confidence)), facts);
  }

  lemma FragmentIsLaidOut(adapter: AdapterKind, interpreter: seq<byte>, signalId: seq<byte>, facts: CanonicalFacts,
                          spans: seq<FieldSpan>, unknown: bool)
    ensures LaidOut(FragmentOf(adapter, interpreter, signalId, facts, spans, unknown), facts)
  {
    hide LabelOf, Decimal;
  }

  function FragmentOf(adapter: AdapterKind, interpreter: seq<byte>, signalId: seq<byte>, facts: CanonicalFacts,
                      spans: seq<FieldSpan>, unknown: bool): Fragment {
    Fragment(SCHEMA, AtomsOf(facts, unknown), RelationsOf(facts), UnknownsOf(facts, unknown),
             Provenance(adapter, signalId, interpreter, spans, ConfidenceOf(adapter, unknown)))
  }

  /** What every adapter hands to `assemble` as the flag for an unknown object: `canonical_status` of
      the object code is 2. */
  function CanonicalStatus(code: i64, quantityPresent: bool): nat {
    if code == 1 || code == 2 then (if quantityPresent then 0 else 1) else if code == 0 then 2 else 3
  }

  /** 0 for a known object with a quantity, 1 without, 2 for an unknown object, 3 for any other code. */
  lemma CanonicalStatusMeans(facts: CanonicalFacts)
    ensures var status := CanonicalStatus(facts.objectCode, facts.quantity.Some?);
            && (status == 0 <==> facts.objectCode in {1, 2} && facts.quantity != None)
            && (status == 1 <==> facts.objectCode in {1, 2} && facts.quantity == None)
            && (status == 2 <==> facts.objectCode == 0)
            && (status == 3 <==> !KnownCode(facts))
  {}

  predicate FlaggedUnknown(facts: CanonicalFacts) { CanonicalStatus(facts.objectCode, facts.quantity.Some?) == 2 }

  // ---------------------------------------------------------------------------------------
  // The two decisions

  /** The facts have the same meaning: a known object by its code, an unknown one by its spelling. */
  predicate SameFacts(a: CanonicalFacts, b: CanonicalFacts) {
    && a.source == b.source && a.target == b.target && a.quantity == b.quantity
    && a.objectCode == b.objectCode && (a.objectCode == 0 ==> a.objectSpelling == b.objectSpelling)
  }

  predicate Comparable(a: CanonicalFacts) {
    |a.source| <= 16 && |a.target| <= 16 && (a.objectCode == 0 ==> |a.objectSpelling| <= 16)
  }

  method MncsEqual(a: CanonicalFacts, b: CanonicalFacts) returns (same: bool)
    ensures same <==> a.event == b.event && SameFacts(a, b) && Comparable(a)
  {
    var aQuantity := if a.quantity.Some? then a.quantity.value else 0;
    var bQuantity := if b.quantity.Some? then b.quantity.value else 0;
    if CodesEqual(a.event, a.objectCode, a.quantity.Some?, aQuantity,
                  b.event, b.objectCode, b.quantity.Some?, bQuantity) != 1 {
      return false;
    }
    var sources := Spelled(a.source, b.source);
    if !sources {
      return false;
    }
    var targets := Spelled(a.target, b.target);
    if !targets {
      return false;
    }
    if a.objectCode == 0 {
      var spellings := Spelled(a.objectSpelling, b.objectSpelling);
      if !spellings {
        return false;
      }
    }
    return true;
  }

  method Spelled(a: Text, b: Text) returns (same: bool)
    ensures same <==> a == b && |a| <= 16
  {
    var r := SpellEqual(a, |a|, b, |b|, |a|);
    assert a[..|a|] == a && b[..|b|] == b;
    same := r == 1;
  }

  /** Object codes an adapter can build. */
  predicate KnownCode(facts: CanonicalFacts) { 0 <= facts.objectCode <= 2 }

  lemma LabelsDecideObject(a: CanonicalFacts, b: CanonicalFacts)
    requires KnownCode(a) && KnownCode(b)
    ensures FlaggedUnknown(a) == FlaggedUnknown(b) && LabelOf(a) == LabelOf(b)
            <==> a.objectCode == b.objectCode && (a.objectCode == 0 ==> a.objectSpelling == b.objectSpelling)
  {
    assert APPLE_LABEL[0] != ORANGE_LABEL[0];
  }

  lemma AtomsDecideFacts(a: CanonicalFacts, b: CanonicalFacts, m: bool, n: bool)
    ensures SameAtoms(AtomsOf(a, m), AtomsOf(b, n))
            <==> && a.source == b.source && a.target == b.target && a.quantity == b.quantity
                 && m == n && LabelOf(a) == LabelOf(b)
  {
    hide LabelOf, Decimal;
    var s, t := AtomsOf(a, m), AtomsOf(b, n);
    assert s[1].name == a.source && s[2].name == a.target && s[3].name == LabelOf(a);
    assert s[3].kind == if m then Unknown else Thing;
    assert t[1].name == b.source && t[2].name == b.target && t[3].name == LabelOf(b);
    assert t[3].kind == if n then Unknown else Thing;
    if SameAtoms(s, t) {
      assert s[1].(id := 0) == t[1].(id := 0) && s[2].(id := 0) == t[2].(id := 0) && s[3].(id := 0) == t[3].(id := 0);
      if a.quantity.Some? {
        assert s[4].(id := 0) == t[4].(id := 0);
      }
    }
  }

  /** The assembled fragments have the same meaning exactly when the facts do, whatever the adapters,
      spans and raw inputs. */
  lemma FragmentsDecideFacts(a: CanonicalFacts, b: CanonicalFacts, f: Fragment, g: Fragment)
    requires KnownCode(a) && KnownCode(b)
    requires f.atoms == AtomsOf(a, FlaggedUnknown(a)) && f.relations == RelationsOf(a)
    requires f.unknowns == UnknownsOf(a, FlaggedUnknown(a))
    requires g.atoms == AtomsOf(b, FlaggedUnknown(b)) && g.relations == RelationsOf(b)
    requires g.unknowns == UnknownsOf(b, FlaggedUnknown(b))
    ensures SameMeaning(f, g) <==> SameFacts(a, b)
  {
    hide AtomsOf, SameAtoms, LabelOf;
    AtomsDecideFacts(a, b, FlaggedUnknown(a), FlaggedUnknown(b));
    LabelsDecideObject(a, b);
  }

  /** Where a fragment comes from: adapter, interpreter, digest of the raw input, and spans. */
  datatype Origin = Origin(adapter: AdapterKind, interpreter: seq<byte>, signalId: seq<byte>, spans: seq<FieldSpan>)

  /** The decision on facts and the decision on the fragments assembled from them agree, for all facts an
      adapter can build, wherever they come from. */
  method EqualitiesAgree(a: CanonicalFacts, p: Origin, b: CanonicalFacts, q: Origin)
    returns (byFacts: bool, byFragments: bool)
    requires Buildable(a) && Buildable(b)
    ensures byFacts == byFragments == SameFacts(a, b)
  {
    hide SameFacts, SameMeaning, AtomsOf, RelationsOf, UnknownsOf, LaidOut;
    byFacts := MncsEqual(a, b);
    var f := Assemble(p.adapter, p.interpreter, p.signalId, a, p.spans, FlaggedUnknown(a));
    var g := Assemble(q.adapter, q.interpreter, q.signalId, b, q.spans, FlaggedUnknown(b));
    FragmentsDecideFacts(a, b, f.fragment, g.fragment);
    byFragments := SemanticallyEqual(f.fragment, g.fragment);
  }

  /** Event 1, object code 0 to 2, spellings of at most 16 bytes. */
  predicate Buildable(a: CanonicalFacts) {
    && a.event == EVENT_TRANSFER && KnownCode(a)
    && |a.source| <= MAX_SPELLING && |a.target| <= MAX_SPELLING && |a.objectSpelling| <= MAX_SPELLING
  }

  /** The fragment was assembled from the facts by some adapter, from some input. */
  predicate Renders(f: Fragment, a: CanonicalFacts) {
    f == FragmentOf(f.provenance.adapter, f.provenance.interpreter, f.provenance.signalId, a, f.provenance.spans,
        FlaggedUnknown(a))
  }

  /** Without the bounds of the adapters the semantic key still decides the facts; `mncs_equal` then asks
      in addition for equal events and for at most 16 bytes in each spelling it compares. */
  lemma KeysDecideFacts(a: CanonicalFacts, b: CanonicalFacts, f: Fragment, g: Fragment)
    requires KnownCode(a) && KnownCode(b) && Renders(f, a) && Renders(g, b)
    ensures KeyOf(Items(f)) == KeyOf(Items(g)) <==> SameFacts(a, b)
  {
    hide SameFacts, SameMeaning, AtomsOf, RelationsOf, UnknownsOf, KeyOf, Items;
    FragmentsDecideFacts(a, b, f, g);
    KeyDecidesMeaning(f, g);
  }
}
