/** The example transfer, from its sentences to its canonical bytes, letter by letter. */
module TransferTexts {
  import opened Machine
  import opened Numerals
  import opened Separated
  import opened Vocab
  import opened Spellings
  import R = Roles
  import P = Parse
  import C = Convergence
  import T = TextAdapter
  import I = Ir
  import K = Canonical

  /** The bytes of a text in ASCII. */
  function Ascii(s: string): (r: seq<byte>)
    ensures |r| == |s| && forall i :: 0 <= i < |r| ==> r[i] == AsciiByte(s[i])
  {
    seq(|s|, i requires 0 <= i < |s| => AsciiByte(s[i]))
  }

  function AsciiByte(c: char): byte { if c as int < 128 then c as int else 63 }

  // ---------------------------------------------------------------------------------------
  // The sentences

  /** Alexander is the source, Finn the target, apples the thing; the number is spelled either way. */
  function Example(number: seq<byte>): C.Transfer {
    C.Transfer(Ascii("Alexander"), Ascii("Finn"), Ascii("apples"), [number])
  }

  lemma NamesAreEntities()
    ensures ClassOf(Ascii("Alexander")) == 1 && ClassOf(Ascii("Finn")) == 1
  {
    hide ClassOf;
    NotKeywords();
    ClassesAre(Ascii("Alexander"));
    ClassesAre(Ascii("Finn"));
    Capitals();
  }

  lemma Capitals()
    ensures CapitalWord(Ascii("Alexander")) && CapitalWord(Ascii("Finn"))
  {}

  lemma NotKeywords()
    ensures !Keyword(Ascii("Alexander")) && !Keyword(Ascii("Finn"))
  {
    hide GiveWord, ReceiveWord, FromWord, NumberWord, ThingWord;
    var alexander, finn := Ascii("Alexander"), Ascii("Finn");
    VerbStarts(alexander);
    NumberStarts(alexander);
    LongIsNoThing(alexander);
    VerbStarts(finn);
    ThingStarts(finn);
    FinnIsNoNumber(finn);
  }

  lemma LongIsNoThing(w: seq<byte>)
    requires |w| == 9
    ensures !ThingWord(w)
  {}

  lemma FinnIsNoNumber(w: seq<byte>)
    requires w == Ascii("Finn")
    ensures !NumberWord(w)
  {
    forall k | 0 <= k <= 10 ensures !Reads(w, NumeralWord(k)) {
      assert |NumeralWord(k)| == 4 ==> NumeralWord(k)[2] != 'n' || NumeralWord(k)[3] != 'n';
    }
  }

  lemma ApplesAreThings()
    ensures ReadsCounted(Ascii("apples"), "apple")
    ensures ClassOf(Ascii("apples")) == 5 && ObjectCode(Ascii("apples")) == 1
  {
    hide ClassOf, ObjectCode;
    assert Reads(Ascii("apples")[..5], "apple");
    ClassesAre(Ascii("apples"));
    ObjectsAre(Ascii("apples"));
  }

  lemma ThreeIsThree()
    ensures NumberOf(Ascii("three")) == NumParse(3, true) && ClassOf(Ascii("three")) == 4
    ensures NumberOf(Ascii("3")) == NumParse(3, true) && ClassOf(Ascii("3")) == 4
  {
    hide ClassOf, NumberOf;
    assert Reads(Ascii("three"), NumeralWord(3));
    NumberWords(Ascii("three"), 3);
    assert Decimal(3) == Ascii("3");
    NumbersAre(Ascii("three"));
    NumbersAre(Ascii("3"));
    ClassesAre(Ascii("three"));
    ClassesAre(Ascii("3"));
  }

  lemma ExampleVerbs()
    ensures GiveWord(Ascii("gave")) && ReceiveWord(Ascii("received")) && FromWord(Ascii("from"))
  {
    assert Reads(Ascii("gave"), "gave") && Reads(Ascii("received"), "received") && Reads(Ascii("from"), "from");
  }

  lemma ExampleIsValid(number: seq<byte>)
    requires ClassOf(number) == 4
    ensures C.ValidTransfer(Example(number))
  {
    hide ClassOf;
    NamesAreEntities();
    ApplesAreThings();
  }

  lemma SixWords(words: seq<seq<byte>>)
    requires |words| == 6
    ensures C.Sentence(words)
            == words[0] + [32] + words[1] + [32] + words[2] + [32] + words[3] + [32] + words[4] + [32] + words[5] + [46]
  {
    hide C.JoinWords;
    FiveWords(words[..5]);
    OneMore(words);
  }

  lemma FiveWords(words: seq<seq<byte>>)
    requires |words| == 5
    ensures C.JoinWords(words)
            == words[0] + [32] + words[1] + [32] + words[2] + [32] + words[3] + [32] + words[4]
  {
    hide C.JoinWords;
    OneMore(words[..1]);
    OneMore(words[..2]);
    OneMore(words[..3]);
    OneMore(words[..4]);
    OneMore(words);
    assert words[..2][..1] == words[..1] && words[..3][..2] == words[..2];
    assert words[..4][..3] == words[..3];
  }

  lemma OneMore(words: seq<seq<byte>>)
    requires words != []
    ensures C.JoinWords(words)
            == if |words| == 1 then words[0] else C.JoinWords(words[..|words| - 1]) + [32] + words[|words| - 1]
  {}

  lemma PassiveText()
    ensures Ascii("Finn received three apples from Alexander.")
            == C.Sentence(C.PassiveWords(Example(Ascii("three")), Ascii("received"), Ascii("from")))
  {
    hide C.Sentence, Ascii;
    var t := Example(Ascii("three"));
    var words := [t.target, Ascii("received"), t.number[0], t.thing, Ascii("from"), t.source];
    assert C.PassiveWords(t, Ascii("received"), Ascii("from")) == words;
    SixWords(words);
    PassiveLetters();
  }

  lemma PassiveLetters()
    ensures Ascii("Finn") + [32] + Ascii("received") + [32] + Ascii("three") + [32] + Ascii("apples") + [32]
            + Ascii("from") + [32] + Ascii("Alexander") + [46]
            == Ascii("Finn received three apples from Alexander.")
  {
    hide Ascii;
    FirstLetters();
    var most := Ascii("Finn received three apples from");
    assert most + [32] + Ascii("Alexander") + [46] == Ascii("Finn received three apples from Alexander.");
  }

  lemma FirstLetters()
    ensures Ascii("Finn") + [32] + Ascii("received") + [32] + Ascii("three") + [32] + Ascii("apples") + [32]
            + Ascii("from")
            == Ascii("Finn received three apples from")
  {
    hide Ascii;
    assert Ascii("Finn") + [32] + Ascii("received") + [32] + Ascii("three") == Ascii("Finn received three");
  }

  lemma ActiveText()
    ensures Ascii("Alexander gave Finn 3 apples.")
            == C.Sentence(C.ActiveWords(Example(Ascii("3")), Ascii("gave")))
  {
    hide C.JoinWords, Ascii;
    var t := Example(Ascii("3"));
    var words := [t.source, Ascii("gave"), t.target, t.number[0], t.thing];
    assert C.ActiveWords(t, Ascii("gave")) == words;
    FiveWords(words);
    ActiveLetters();
  }

  lemma ActiveLetters()
    ensures Ascii("Alexander") + [32] + Ascii("gave") + [32] + Ascii("Finn") + [32] + Ascii("3") + [32]
            + Ascii("apples") + [46]
            == Ascii("Alexander gave Finn 3 apples.")
  {
    hide Ascii;
    assert Ascii("Alexander") + [32] + Ascii("gave") + [32] + Ascii("Finn") == Ascii("Alexander gave Finn");
  }

  /** The facts of both sentences. */
  function ExampleFacts(): K.CanonicalFacts {
    K.CanonicalFacts(1, Ascii("Alexander"), Ascii("Finn"), 1, Ascii("apples"), I.Some(3))
  }

  /** Both sentences are accepted, and these are their facts. */
  lemma SentencesToFacts(text: Text)
    requires text == Ascii("Finn received three apples from Alexander.")
        || text == Ascii("Alexander gave Finn 3 apples.")
    ensures P.ParseSpec(text).status == 0 && T.FactsOf(text, P.ParseSpec(text)) == ExampleFacts()
  {
    hide P.ParseSpec, T.FactsOf, C.Says, GiveWord, ReceiveWord, FromWord, C.ValidTransfer, C.Sentence, NumberOf,
        ObjectCode, ClassOf;
    PassiveText();
    ActiveText();
    var number := if text == Ascii("Alexander gave Finn 3 apples.") then Ascii("3") else Ascii("three");
    ThreeIsThree();
    ExampleVerbs();
    ExampleIsValid(number);
    FormSays(text, Example(number), Ascii("gave"), Ascii("received"), Ascii("from"));
    T.FactsSaid(text, P.ParseSpec(text), Example(number));
    ApplesAreThings();
  }

  // ---------------------------------------------------------------------------------------
  // Canonical bytes, line by line

  /** The key of the facts' fragment: what each line says, in letters. */
  function TextLines(facts: K.CanonicalFacts): seq<seq<byte>> {
    [Ascii("frag:v1"),
     Ascii("atom Event transfer -"),
     Ascii("atom Entity ") + I.Escape(facts.source) + Ascii(" -"),
     Ascii("atom Entity ") + I.Escape(facts.target) + Ascii(" -"),
     if facts.objectCode == 1 then Ascii("atom Object apple -")
     else if facts.objectCode == 2 then Ascii("atom Object orange -")
     else Ascii("atom Unknown ") + I.Escape(facts.objectSpelling) + Ascii(" -")]
    + QuantityAtom(facts.quantity)
    + [Ascii("rel source 0 1"), Ascii("rel target 0 2"), Ascii("rel object 0 3")]
    + (if facts.quantity.Some? then [Ascii("rel quantity 0 4")] else [])
    + (if facts.objectCode == 0 then [Ascii("unknown object:unknown:") + I.Escape(facts.objectSpelling)] else [])
  }

  function QuantityAtom(quantity: I.Option<i64>): seq<seq<byte>> {
    match quantity
    case None => []
    case Some(v) => [Ascii("atom Quantity ") + Decimal(v) + [32] + Decimal(v)]
  }

  /** One code for each byte; a backslash, a newline and a space become two bytes, any other stays. */
  lemma EscapesAsBytes(b: byte, rest: seq<byte>)
    ensures I.Escape([b] + rest)
            == (if b == 92 then [92, 92] else if b == 10 then [92, 110] else if b == 32 then [92, 115] else [b])
               + I.Escape(rest)
  {
    hide I.Escape;
    assert ([b] + rest)[1..] == rest;
    I.EscapeFirst([b] + rest);
  }

  lemma {:induction false} PlainPrefix(plain: seq<byte>, rest: seq<byte>)
    requires forall i :: 0 <= i < |plain| ==> plain[i] != 92 && plain[i] != 10 && plain[i] != 32
    ensures I.Escape(plain + rest) == plain + I.Escape(rest)
    decreases |plain|
  {
    hide I.Escape;
    if plain == [] {
      assert plain + rest == rest;
    } else {
      assert plain + rest == [plain[0]] + (plain[1..] + rest);
      EscapesAsBytes(plain[0], plain[1..] + rest);
      PlainPrefix(plain[1..], rest);
    }
  }

  lemma PlainName(plain: seq<byte>)
    requires forall i :: 0 <= i < |plain| ==> plain[i] != 92 && plain[i] != 10 && plain[i] != 32
    ensures I.Escape(plain) == plain
  {
    PlainPrefix(plain, []);
    assert plain + [] == plain && I.Escape([]) == [];
  }

  lemma FourPieces(a: seq<byte>, b: seq<byte>, c: seq<byte>, d: seq<byte>)
    ensures Join(SPACE, [a, b, c, d]) == a + [32] + b + [32] + c + [32] + d
  {
    hide Join;
    assert [a, b, c, d] == [a] + [b, c, d] && [b, c, d] == [b] + [c, d] && [c, d] == [c] + [d];
    assert [d] + [] == [d];
    JoinsTwo(a, [b, c, d]);
    JoinsTwo(b, [c, d]);
    JoinsTwo(c, [d]);
    JoinsTwo(d, []);
    Regrouped(a, b, c, d);
  }

  lemma Regrouped(a: seq<byte>, b: seq<byte>, c: seq<byte>, d: seq<byte>)
    ensures a + ([32] + (b + ([32] + (c + ([32] + d))))) == a + [32] + b + [32] + c + [32] + d
  {
    var y := c + ([32] + d);
    Associates(a, [32], b + ([32] + y));
    Associates(a + [32], b, [32] + y);
    Associates(a + [32] + b, [32], y);
    Associates(a + [32] + b + [32], c, [32] + d);
    Associates(a + [32] + b + [32] + c, [32], d);
  }

  lemma Associates(p: seq<byte>, q: seq<byte>, r: seq<byte>)
    ensures p + (q + r) == p + q + r
  {}

  lemma JoinsTwo(a: seq<byte>, more: seq<seq<byte>>)
    ensures Join(SPACE, [a] + more) == if more == [] then a else a + ([32] + Join(SPACE, more))
  {
    assert ([a] + more)[1..] == more;
  }

  lemma AtomLine(kind: I.AtomKind, name: seq<byte>, value: I.Option<i64>, head: seq<byte>, tail: seq<byte>)
    requires head == I.ATOM + [32] + I.KindName(kind) + [32] && tail == [32] + I.ValueName(value)
    ensures I.Line(I.AtomItem(kind, name, value)) == head + I.Escape(name) + tail
  {
    hide I.Escape, I.KindName, I.ValueName, Join;
    FourPieces(I.ATOM, I.KindName(kind), I.Escape(name), I.ValueName(value));
  }

  lemma AtomHeads()
    ensures I.ATOM + [32] + I.KindName(I.Event) + [32] == Ascii("atom Event ")
    ensures I.ATOM + [32] + I.KindName(I.Entity) + [32] == Ascii("atom Entity ")
    ensures I.ATOM + [32] + I.KindName(I.Thing) + [32] == Ascii("atom Object ")
    ensures I.ATOM + [32] + I.KindName(I.Unknown) + [32] == Ascii("atom Unknown ")
    ensures I.ATOM + [32] + I.KindName(I.Quantity) + [32] == Ascii("atom Quantity ")
    ensures [32] + I.ValueName(I.None) == Ascii(" -")
  {}

  lemma EntityLine(name: seq<byte>)
    ensures I.Line(I.AtomItem(I.Entity, name, I.None)) == Ascii("atom Entity ") + I.Escape(name) + Ascii(" -")
    ensures I.Line(I.AtomItem(I.Unknown, name, I.None)) == Ascii("atom Unknown ") + I.Escape(name) + Ascii(" -")
  {
    hide I.Escape, I.KindName, I.ValueName, I.Line, Ascii;
    AtomHeads();
    AtomLine(I.Entity, name, I.None, Ascii("atom Entity "), Ascii(" -"));
    AtomLine(I.Unknown, name, I.None, Ascii("atom Unknown "), Ascii(" -"));
  }

  lemma NamedLines()
    ensures I.Line(I.AtomItem(I.Event, K.TRANSFER, I.None)) == Ascii("atom Event transfer -")
    ensures I.Line(I.AtomItem(I.Thing, K.APPLE_LABEL, I.None)) == Ascii("atom Object apple -")
    ensures I.Line(I.AtomItem(I.Thing, K.ORANGE_LABEL, I.None)) == Ascii("atom Object orange -")
  {
    hide I.Escape, I.KindName, I.ValueName, I.Line;
    PlainName(K.TRANSFER);
    PlainName(K.APPLE_LABEL);
    PlainName(K.ORANGE_LABEL);
    AtomHeads();
    AtomLine(I.Event, K.TRANSFER, I.None, Ascii("atom Event "), Ascii(" -"));
    AtomLine(I.Thing, K.APPLE_LABEL, I.None, Ascii("atom Object "), Ascii(" -"));
    AtomLine(I.Thing, K.ORANGE_LABEL, I.None, Ascii("atom Object "), Ascii(" -"));
    assert Ascii("atom Event ") + K.TRANSFER + Ascii(" -") == Ascii("atom Event transfer -");
    assert Ascii("atom Object ") + K.APPLE_LABEL + Ascii(" -") == Ascii("atom Object apple -");
    assert Ascii("atom Object ") + K.ORANGE_LABEL + Ascii(" -") == Ascii("atom Object orange -");
  }

  lemma QuantityLine(v: i64)
    ensures I.Line(I.AtomItem(I.Quantity, Decimal(v), I.Some(v)))
            == Ascii("atom Quantity ") + Decimal(v) + [32] + Decimal(v)
  {
    hide I.Escape, I.KindName, I.Line, Ascii, Decimal;
    DecimalShape(v);
    PlainName(Decimal(v));
    AtomHeads();
    AtomLine(I.Quantity, Decimal(v), I.Some(v), Ascii("atom Quantity "), [32] + Decimal(v));
    assert Ascii("atom Quantity ") + Decimal(v) + ([32] + Decimal(v))
           == Ascii("atom Quantity ") + Decimal(v) + [32] + Decimal(v);
  }

  lemma RoleLine(role: I.Role, target: u64)
    requires target < 10
    ensures I.Line(I.RelationItem(role, 0, target)) == Ascii("rel ") + I.RoleName(role) + Ascii(" 0 ") + [48 + target]
  {
    hide I.RoleName, Join;
    FourPieces(I.REL, I.RoleName(role), Decimal(0), Decimal(target));
    assert I.REL + [32] == Ascii("rel ");
    assert Ascii(" 0 ") == [32] + [48] + [32];
    var front := Ascii("rel ") + I.RoleName(role);
    assert front + [32] + [48] + [32] == front + Ascii(" 0 ");
  }

  lemma RoleLines()
    ensures I.Line(I.RelationItem(I.SourceRole, 0, 1)) == Ascii("rel source 0 1")
    ensures I.Line(I.RelationItem(I.TargetRole, 0, 2)) == Ascii("rel target 0 2")
    ensures I.Line(I.RelationItem(I.ObjectRole, 0, 3)) == Ascii("rel object 0 3")
    ensures I.Line(I.RelationItem(I.QuantityRole, 0, 4)) == Ascii("rel quantity 0 4")
  {
    hide I.Line, I.RoleName, Ascii;
    RoleLine(I.SourceRole, 1);
    RoleLine(I.TargetRole, 2);
    RoleLine(I.ObjectRole, 3);
    RoleLine(I.QuantityRole, 4);
    RoleNames(I.SourceRole);
    RoleNames(I.TargetRole);
    RoleNames(I.ObjectRole);
    RoleNames(I.QuantityRole);
    RoleTexts();
  }

  lemma RoleTexts()
    ensures Ascii("rel ") + Ascii("source") + Ascii(" 0 ") + [49] == Ascii("rel source 0 1")
    ensures Ascii("rel ") + Ascii("target") + Ascii(" 0 ") + [50] == Ascii("rel target 0 2")
    ensures Ascii("rel ") + Ascii("object") + Ascii(" 0 ") + [51] == Ascii("rel object 0 3")
    ensures Ascii("rel ") + Ascii("quantity") + Ascii(" 0 ") + [52] == Ascii("rel quantity 0 4")
  {}

  lemma RoleNames(role: I.Role)
    ensures I.RoleName(role) == match role
                                case SourceRole => Ascii("source")
                                case TargetRole => Ascii("target")
                                case ObjectRole => Ascii("object")
                                case QuantityRole => Ascii("quantity")
  {}

  lemma UnknownLine(spelling: seq<byte>)
    ensures I.Line(I.UnknownItem(K.UNKNOWN_PREFIX + spelling))
            == Ascii("unknown object:unknown:") + I.Escape(spelling)
  {
    hide I.Escape, Join, I.UNKNOWN, K.UNKNOWN_PREFIX;
    UnknownLetters();
    PlainPrefix(K.UNKNOWN_PREFIX, spelling);
    TwoPieces(I.UNKNOWN, K.UNKNOWN_PREFIX + I.Escape(spelling));
    assert I.UNKNOWN + ([32] + (K.UNKNOWN_PREFIX + I.Escape(spelling)))
           == (I.UNKNOWN + [32] + K.UNKNOWN_PREFIX) + I.Escape(spelling);
  }

  lemma UnknownLetters()
    ensures I.UNKNOWN + [32] + K.UNKNOWN_PREFIX == Ascii("unknown object:unknown:")
    ensures forall i :: 0 <= i < |K.UNKNOWN_PREFIX| ==>
              K.UNKNOWN_PREFIX[i] != 92 && K.UNKNOWN_PREFIX[i] != 10 && K.UNKNOWN_PREFIX[i] != 32
  {}

  lemma TwoPieces(a: seq<byte>, b: seq<byte>)
    ensures Join(SPACE, [a, b]) == a + ([32] + b)
  {
    assert [a, b][1..] == [b];
  }

  // The items of a fragment, one by one

  lemma {:induction false} ItemsOneByOne(atoms: seq<I.Atom>, relations: seq<I.Relation>, unknowns: seq<seq<byte>>)
    ensures forall k :: 0 <= k < |atoms| ==>
              I.AtomItems(atoms)[k] == I.AtomItem(atoms[k].kind, atoms[k].name, atoms[k].value)
    ensures forall k :: 0 <= k < |relations| ==>
              I.RelationItems(relations)[k]
              == I.RelationItem(relations[k].role, relations[k].event, relations[k].target)
    ensures forall k :: 0 <= k < |unknowns| ==> I.UnknownItems(unknowns)[k] == I.UnknownItem(unknowns[k])
    decreases |atoms| + |relations| + |unknowns|
  {
    if atoms != [] {
      ItemsOneByOne(atoms[..|atoms| - 1], relations, unknowns);
    } else if relations != [] {
      ItemsOneByOne(atoms, relations[..|relations| - 1], unknowns);
    } else if unknowns != [] {
      ItemsOneByOne(atoms, relations, unknowns[..|unknowns| - 1]);
    }
  }

  lemma {:induction false} LinesOneByOne(items: seq<I.Item>)
    ensures forall k :: 0 <= k < |items| ==> I.Lines(items)[k] == I.Line(items[k])
  {
    hide I.Line;
    if items != [] {
      LinesOneByOne(items[..|items| - 1]);
    }
  }

  lemma AtomLines(facts: K.CanonicalFacts)
    requires K.KnownCode(facts)
    ensures I.Lines(I.AtomItems(K.AtomsOf(facts, K.FlaggedUnknown(facts))))
            == TextLines(facts)[1..5] + QuantityAtom(facts.quantity)
  {
    hide I.Line, Ascii, I.Escape, Decimal;
    var atoms := K.AtomsOf(facts, K.FlaggedUnknown(facts));
    ItemsOneByOne(atoms, [], []);
    LinesOneByOne(I.AtomItems(atoms));
    NamedLines();
    EntityLine(facts.source);
    EntityLine(facts.target);
    EntityLine(facts.objectSpelling);
    if facts.quantity.Some? {
      QuantityLine(facts.quantity.value);
    }
  }

  lemma RelationLines(facts: K.CanonicalFacts)
    ensures I.Lines(I.RelationItems(K.RelationsOf(facts)))
            == [Ascii("rel source 0 1"), Ascii("rel target 0 2"), Ascii("rel object 0 3")]
               + if facts.quantity.Some? then [Ascii("rel quantity 0 4")] else []
  {
    hide I.Line, Ascii;
    ItemsOneByOne([], K.RelationsOf(facts), []);
    LinesOneByOne(I.RelationItems(K.RelationsOf(facts)));
    RoleLines();
  }

  lemma UnknownLines(facts: K.CanonicalFacts)
    requires K.KnownCode(facts)
    ensures I.Lines(I.UnknownItems(K.UnknownsOf(facts, K.FlaggedUnknown(facts))))
            == if facts.objectCode == 0 then [Ascii("unknown object:unknown:") + I.Escape(facts.objectSpelling)] else []
  {
    hide I.Line, Ascii, I.Escape;
    var unknowns := K.UnknownsOf(facts, K.FlaggedUnknown(facts));
    ItemsOneByOne([], [], unknowns);
    LinesOneByOne(I.UnknownItems(unknowns));
    UnknownLine(facts.objectSpelling);
  }

  lemma LinesThen(a: seq<I.Item>, b: seq<I.Item>)
    ensures I.Lines(a + b) == I.Lines(a) + I.Lines(b)
  {
    hide I.Line;
    LinesOneByOne(a);
    LinesOneByOne(b);
    LinesOneByOne(a + b);
  }

  /** The canonical bytes of any fragment an adapter assembles: its lines in letters, one for each atom in
      the order of the layout, one for each role, and one for an unknown object. */
  lemma CanonicalText(f: I.Fragment, facts: K.CanonicalFacts)
    requires K.KnownCode(facts) && K.Renders(f, facts)
    ensures f.schema + ([10] + I.KeyOf(I.Items(f)))
            == Join(10, [Ascii("mncs-ingest/fragment-v1")] + TextLines(facts))
  {
    hide I.Lines, Ascii, I.Escape, I.AtomItems, I.RelationItems, I.UnknownItems, K.AtomsOf, K.RelationsOf,
        K.UnknownsOf, Join, QuantityAtom;
    var atoms, relations, unknowns := I.AtomItems(f.atoms), I.RelationItems(f.relations), I.UnknownItems(f.unknowns);
    AtomLines(facts);
    RelationLines(facts);
    UnknownLines(facts);
    LinesThen(atoms, relations);
    LinesThen(atoms + relations, unknowns);
    SchemaLetters();
    KeyLines(facts, I.Lines(I.Items(f)));
    JoinsLine(Ascii("mncs-ingest/fragment-v1"), TextLines(facts));
  }

  lemma SchemaLetters()
    ensures K.SCHEMA == Ascii("mncs-ingest/fragment-v1") && I.FRAG_V1 == Ascii("frag:v1")
  {}

  lemma KeyLines(facts: K.CanonicalFacts, lines: seq<seq<byte>>)
    requires lines == TextLines(facts)[1..5] + QuantityAtom(facts.quantity)
                      + ([Ascii("rel source 0 1"), Ascii("rel target 0 2"), Ascii("rel object 0 3")]
                         + if facts.quantity.Some? then [Ascii("rel quantity 0 4")] else [])
                      + if facts.objectCode == 0
                        then [Ascii("unknown object:unknown:") + I.Escape(facts.objectSpelling)] else []
    ensures [Ascii("frag:v1")] + lines == TextLines(facts)
  {
    hide Ascii, I.Escape, QuantityAtom;
    assert TextLines(facts)[0] == Ascii("frag:v1");
    assert TextLines(facts)[..5] == [Ascii("frag:v1")] + TextLines(facts)[1..5];
  }

  lemma JoinsLine(first: seq<byte>, more: seq<seq<byte>>)
    requires more != []
    ensures Join(10, [first] + more) == first + ([10] + Join(10, more))
  {
    assert ([first] + more)[1..] == more;
  }

  /** Both sentences of the example have these canonical bytes. */
  lemma ExampleBytes(text: Text, f: I.Fragment)
    requires text == Ascii("Finn received three apples from Alexander.")
        || text == Ascii("Alexander gave Finn 3 apples.")
    requires K.Renders(f, T.FactsOf(text, P.ParseSpec(text)))
    ensures f.schema + ([10] + I.KeyOf(I.Items(f)))
            == Join(10, [Ascii("mncs-ingest/fragment-v1"), Ascii("frag:v1"), Ascii("atom Event transfer -"),
                         Ascii("atom Entity Alexander -"), Ascii("atom Entity Finn -"), Ascii("atom Object apple -"),
                         Ascii("atom Quantity 3 3"), Ascii("rel source 0 1"), Ascii("rel target 0 2"),
                         Ascii("rel object 0 3"), Ascii("rel quantity 0 4")])
  {
    hide P.ParseSpec, T.FactsOf, K.Renders, I.KeyOf, I.Items, Join, Ascii;
    SentencesToFacts(text);
    CanonicalText(f, ExampleFacts());
    ExampleLines();
  }

  lemma ExampleLines()
    ensures [Ascii("mncs-ingest/fragment-v1")] + TextLines(ExampleFacts())
            == [Ascii("mncs-ingest/fragment-v1"), Ascii("frag:v1"), Ascii("atom Event transfer -"),
                Ascii("atom Entity Alexander -"), Ascii("atom Entity Finn -"), Ascii("atom Object apple -"),
                Ascii("atom Quantity 3 3"), Ascii("rel source 0 1"), Ascii("rel target 0 2"), Ascii("rel object 0 3"),
                Ascii("rel quantity 0 4")]
  {
    hide Ascii, I.Escape;
    PlainName(Ascii("Alexander"));
    PlainName(Ascii("Finn"));
    assert Ascii("atom Entity ") + Ascii("Alexander") + Ascii(" -") == Ascii("atom Entity Alexander -");
    assert Ascii("atom Entity ") + Ascii("Finn") + Ascii(" -") == Ascii("atom Entity Finn -");
    assert Ascii("atom Quantity ") + Decimal(3) + [32] + Decimal(3) == Ascii("atom Quantity 3 3");
  }

  /** The label of a known object is the literal one, and a word of that object's code. */
  lemma KnownLabel(f: I.Fragment, facts: K.CanonicalFacts)
    requires K.Renders(f, facts) && (facts.objectCode == 1 || facts.objectCode == 2)
    ensures f.atoms[3].name == if facts.objectCode == 1 then Ascii("apple") else Ascii("orange")
    ensures ObjectCode(f.atoms[3].name) == facts.objectCode
  {
    hide ObjectCode, Decimal;
    var name := f.atoms[3].name;
    assert name == K.LabelOf(facts);
    if facts.objectCode == 1 {
      assert Reads(Ascii("apple"), "apple");
    } else {
      assert Reads(Ascii("orange"), "orange");
    }
    ObjectsAre(name);
  }
}
