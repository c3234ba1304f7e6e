/** Roles of the words of a sentence: `classify_all`, `assign_roles`, `finish_assign` and `coverage_ok`
    of `language/mncs/ingest/parse.mncs`. */
module Roles {
  import opened Machine
  import opened Vocab
  import opened Words

  const STATUS_OK := 0
  const STATUS_UNSUPPORTED_VERB := 1
  const STATUS_MISSING_FIELD := 2
  const STATUS_MALFORMED_QUANTITY := 3
  const STATUS_BAD_SHAPE := 4
  const STATUS_EMPTY := 5

  type Classes = s: seq<i64> | |s| == 8 witness [-1, -1, -1, -1, -1, -1, -1, -1]

  datatype ClassState = ClassState(
    classes: Classes, verbIdx: i64, verbCount: u64, verbCode: i64, fromIdx: i64, fromCount: u64)

  datatype AssignState = AssignState(
    status: int, verb: i64, sourceIdx: i64, targetIdx: i64, objectIdx: i64, objectCode: i64,
    quantityIdx: i64, quantity: i64, quantityPresent: bool,
    entityTotal: u64, objectTotal: u64, quantityTotal: u64, numericBad: bool)

  // ---------------------------------------------------------------------------------------
  // What is known of a word

  datatype Info = Info(class_: i64, code: i64, number: NumParse, digit: bool)

  function InfoOf(w: seq<byte>): Info {
    Info(ClassOf(w), ObjectCode(w), NumberOf(w), w != [] && IsDigit(w[0]))
  }

  /** The bytes of the `k`-th word of a text. */
  function WordText(text: Text, w: Span): seq<byte> {
    if w.start + w.len <= |text| then text[w.start..w.start + w.len] else []
  }

  function Infos(text: Text, ws: seq<Span>): (infos: seq<Info>)
    ensures |infos| == |ws|
    ensures forall k :: 0 <= k < |ws| ==> infos[k] == InfoOf(WordText(text, ws[k]))
  {
    if ws == [] then [] else Infos(text, ws[..|ws| - 1]) + [InfoOf(WordText(text, ws[|ws| - 1]))]
  }

  // ---------------------------------------------------------------------------------------
  // Marks: the conditions under which a word is picked or counted

  datatype Mark = AnyVerb | AnyFrom | AnyEntity | AnyObject | Source | Target | Object | Quantity | Spoil

  /** Where the verb and the "from" stand, and whether the verb is passive. */
  datatype Frame = Frame(verb: int, from: int, passive: bool)

  predicate IsVerb(info: Info) { info.class_ == CLASS_VERB_ACTIVE || info.class_ == CLASS_VERB_PASSIVE }

  predicate Objectish(info: Info) { info.class_ == CLASS_OBJECT || info.class_ == CLASS_CANDIDATE }

  predicate SourceSide(f: Frame, j: int) { if f.passive then j > f.verb && j > f.from else j < f.verb }

  predicate Bears(mark: Mark, f: Frame, info: Info, j: int) {
    match mark
    case AnyVerb => IsVerb(info)
    case AnyFrom => info.class_ == CLASS_FROM
    case AnyEntity => info.class_ == CLASS_ENTITY
    case AnyObject => Objectish(info)
    case Source => info.class_ == CLASS_ENTITY && SourceSide(f, j)
    case Target => info.class_ == CLASS_ENTITY && !SourceSide(f, j)
    case Object => Objectish(info) && j > f.verb
    case Quantity => info.class_ == CLASS_NUMBER && j > f.verb
    case Spoil => info.digit && info.class_ != CLASS_NUMBER && j > f.verb
  }

  /** The first of the first `n` words with a mark, or -1. */
  function First(mark: Mark, f: Frame, infos: seq<Info>, n: nat): (r: int)
    requires n <= |infos|
    ensures -1 <= r < n
    ensures r == -1 ==> forall j :: 0 <= j < n ==> !Bears(mark, f, infos[j], j)
    ensures r != -1 ==> Bears(mark, f, infos[r], r) && forall j :: 0 <= j < r ==> !Bears(mark, f, infos[j], j)
  {
    if n == 0 then -1
    else if First(mark, f, infos, n - 1) != -1 then First(mark, f, infos, n - 1)
    else if Bears(mark, f, infos[n - 1], n - 1) then n - 1
    else -1
  }

  function Count(mark: Mark, f: Frame, infos: seq<Info>, n: nat): (c: nat)
    requires n <= |infos|
    ensures c <= n
    ensures c == 0 <==> First(mark, f, infos, n) == -1
  {
    if n == 0 then 0
    else Count(mark, f, infos, n - 1) + if Bears(mark, f, infos[n - 1], n - 1) then 1 else 0
  }

  // ---------------------------------------------------------------------------------------
  // Classification

  const NOWHERE := Frame(-1, -1, false)

  function ClassesTo(infos: seq<Info>, n: nat): Classes
    requires n <= |infos| <= 8
  {
    if n == 0 then [-1, -1, -1, -1, -1, -1, -1, -1] else ClassesTo(infos, n - 1)[n - 1 := infos[n - 1].class_]
  }

  function VerbCodeOf(infos: seq<Info>, verb: int): i64
    requires -1 <= verb < |infos|
  {
    if verb == -1 then 0 else if infos[verb].class_ == CLASS_VERB_ACTIVE then VERB_ACTIVE else VERB_PASSIVE
  }

  function ClassedTo(infos: seq<Info>, n: nat): ClassState
    requires n <= |infos| <= 8
  {
    var verb := First(AnyVerb, NOWHERE, infos, n);
    ClassState(ClassesTo(infos, n), verb, Count(AnyVerb, NOWHERE, infos, n), VerbCodeOf(infos, verb),
               First(AnyFrom, NOWHERE, infos, n), Count(AnyFrom, NOWHERE, infos, n))
  }

  function ClassLane(st: ClassState, class_: i64, j: nat, live: bool): ClassState
    requires j < 8
  {
    var slot := if live then j else 0;
    var isVerb := live && (class_ == CLASS_VERB_ACTIVE || class_ == CLASS_VERB_PASSIVE);
    var isFrom := live && class_ == CLASS_FROM;
    var firstVerb := isVerb && st.verbCount == 0;
    var firstFrom := isFrom && st.fromCount == 0;
    ClassState(
      st.classes[slot := if live then class_ else st.classes[slot]],
      if firstVerb then j else st.verbIdx,
      AddWrap(st.verbCount, if isVerb then 1 else 0),
      if firstVerb && class_ == CLASS_VERB_ACTIVE then VERB_ACTIVE else if firstVerb then VERB_PASSIVE else st.verbCode,
      if firstFrom then j else st.fromIdx,
      AddWrap(st.fromCount, if isFrom then 1 else 0))
  }

  lemma ClassLaneStep(infos: seq<Info>, j: nat)
    requires j < |infos| <= 8
    ensures ClassLane(ClassedTo(infos, j), infos[j].class_, j, true) == ClassedTo(infos, j + 1)
  {}

  lemma ClassDeadLane(st: ClassState, class_: i64, j: nat)
    requires j < 8
    ensures ClassLane(st, class_, j, false) == st
  {
    assert st.classes[0 := st.classes[0]] == st.classes;
  }

  /** The words the splitter's slots stand for. */
  lemma SlotWord(text: Text, ws: seq<Span>, split: SplitState, n: nat, j: nat)
    requires n <= |text| && j < |ws| <= 8 && SplitsInto(split, ws) && AreWords(text, n, ws)
    ensures Word(text, split.starts[j], split.lens[j]) == WordText(text, ws[j])
    ensures 0 < split.lens[j] && split.starts[j] + split.lens[j] <= |text|
  {
    hide Word;
    assert MaximalWord(text, n, ws[j]);
    WordIsSlice(text, split.starts[j], split.lens[j]);
  }

  method ClassifyAll(text: Text, lanes: nat, split: SplitState, ghost ws: seq<Span>,
      ghost n: nat) returns (st: ClassState)
    requires |text| <= lanes <= 64 && n <= |text|
    requires SplitsInto(split, ws) && |ws| <= 8 && AreWords(text, n, ws)
    ensures st == ClassedTo(Infos(text, ws), |ws|)
  {
    hide *;
    ghost var infos := Infos(text, ws);
    CountOf(split, ws);
    st := ClassState([-1, -1, -1, -1, -1, -1, -1, -1], -1, 0, 0, -1, 0);
    NothingClassed(infos);
    for j := 0 to 8
      invariant st == ClassedTo(infos, if j <= |ws| then j else |ws|)
    {
      var live := j < split.count;
      var slot := if live then j else 0;
      var class_ := ClassifyWord(text, lanes, split.starts[slot], split.lens[slot]);
      if live {
        SlotWord(text, ws, split, n, j);
        ClassOfInfo(WordText(text, ws[j]));
        ClassLaneStep(infos, j);
      } else {
        ClassDeadLane(st, class_, j);
      }
      st := ClassLane(st, class_, j, live);
    }
  }

  lemma CountOf(split: SplitState, ws: seq<Span>)
    requires SplitsInto(split, ws) && |ws| <= 8
    ensures split.count == |ws|
  {}

  lemma NothingClassed(infos: seq<Info>)
    requires |infos| <= 8
    ensures ClassedTo(infos, 0) == ClassState([-1, -1, -1, -1, -1, -1, -1, -1], -1, 0, 0, -1, 0)
  {}

  lemma ClassOfInfo(w: seq<byte>)
    ensures InfoOf(w).class_ == ClassOf(w) && InfoOf(w).code == ObjectCode(w) && InfoOf(w).number == NumberOf(w)
  {}

  // ---------------------------------------------------------------------------------------
  // Assignment

  function FrameOf(cls: ClassState): Frame { Frame(cls.verbIdx, cls.fromIdx, cls.verbCode == VERB_PASSIVE) }

  /** What the fold of `assign_roles` holds after `n` words: first occurrences and counts. */
  function AssignedTo(infos: seq<Info>, f: Frame, verb: i64, n: nat): AssignState
    requires n <= |infos| <= 8
  {
    var objectAt := First(Object, f, infos, n);
    var quantityAt := First(Quantity, f, infos, n);
    AssignState(
      STATUS_OK, verb, First(Source, f, infos, n), First(Target, f, infos, n),
      objectAt, if objectAt == -1 then 0 else infos[objectAt].code,
      quantityAt,
      if quantityAt != -1 && infos[quantityAt].number.ok then infos[quantityAt].number.value else 0,
      quantityAt != -1,
      Count(AnyEntity, f, infos, n), Count(AnyObject, f, infos, n), Count(Quantity, f, infos, n),
      First(Spoil, f, infos, n) != -1)
  }

  /** One lane, with the source's guards; `info` is what the classifiers say of the lane's word. */
  function AssignLane(st: AssignState, f: Frame, info: Info, j: nat, live: bool): AssignState
    requires j < 8
  {
    var afterVerb := j > f.verb;
    var beforeVerb := j < f.verb;
    var wantSourceSide := if f.passive then afterVerb && j > f.from else beforeVerb;
    var free := st.status == STATUS_OK;
    var takeSource := free && live && info.class_ == CLASS_ENTITY && wantSourceSide && st.sourceIdx == -1;
    var takeTarget := free && live && info.class_ == CLASS_ENTITY && !wantSourceSide && st.targetIdx == -1;
    var objectish := live && (info.class_ == CLASS_OBJECT || info.class_ == CLASS_CANDIDATE);
    var takeObject := free && objectish && afterVerb && st.objectIdx == -1;
    var takeQuantity := free && live && info.class_ == CLASS_NUMBER && afterVerb && st.quantityIdx == -1;
    var looksNumeric := live && info.digit && info.class_ == CLASS_NUMBER;
    var numericSpoil := live && info.digit && !looksNumeric && afterVerb;
    AssignState(
      st.status, st.verb,
      if takeSource then j else st.sourceIdx,
      if takeTarget then j else st.targetIdx,
      if takeObject then j else st.objectIdx,
      if takeObject then info.code else st.objectCode,
      if takeQuantity then j else st.quantityIdx,
      if takeQuantity && info.number.ok then info.number.value else st.quantity,
      st.quantityPresent || takeQuantity,
      AddWrap(st.entityTotal, if live && info.class_ == CLASS_ENTITY then 1 else 0),
      AddWrap(st.objectTotal, if objectish then 1 else 0),
      AddWrap(st.quantityTotal, if live && info.class_ == CLASS_NUMBER && afterVerb then 1 else 0),
      st.numericBad || numericSpoil)
  }

  lemma AssignLaneStep(infos: seq<Info>, f: Frame, verb: i64, j: nat)
    requires j < |infos| <= 8
    ensures AssignLane(AssignedTo(infos, f, verb, j), f, infos[j], j, true) == AssignedTo(infos, f, verb, j + 1)
  {
    hide AssignLane, AssignedTo;
    SidesStep(infos, f, verb, j);
    PicksStep(infos, f, verb, j);
    CountsStep(infos, f, verb, j);
  }

  lemma SidesStep(infos: seq<Info>, f: Frame, verb: i64, j: nat)
    requires j < |infos| <= 8
    ensures var a := AssignLane(AssignedTo(infos, f, verb, j), f, infos[j], j, true);
            var b := AssignedTo(infos, f, verb, j + 1);
            && a.status == b.status && a.verb == b.verb && a.sourceIdx == b.sourceIdx && a.targetIdx == b.targetIdx
            && a.numericBad == b.numericBad
  {
    hide Count;
  }

  lemma PicksStep(infos: seq<Info>, f: Frame, verb: i64, j: nat)
    requires j < |infos| <= 8
    ensures var a := AssignLane(AssignedTo(infos, f, verb, j), f, infos[j], j, true);
            var b := AssignedTo(infos, f, verb, j + 1);
            && a.objectIdx == b.objectIdx && a.objectCode == b.objectCode
            && a.quantityIdx == b.quantityIdx && a.quantity == b.quantity && a.quantityPresent == b.quantityPresent
  {
    hide Count;
  }

  lemma CountsStep(infos: seq<Info>, f: Frame, verb: i64, j: nat)
    requires j < |infos| <= 8
    ensures var a := AssignLane(AssignedTo(infos, f, verb, j), f, infos[j], j, true);
            var b := AssignedTo(infos, f, verb, j + 1);
            a.entityTotal == b.entityTotal && a.objectTotal == b.objectTotal && a.quantityTotal == b.quantityTotal
  {
    hide First, Count;
    CountOnward(AnyEntity, f, infos, j);
    CountOnward(AnyObject, f, infos, j);
    CountOnward(Quantity, f, infos, j);
  }

  lemma CountOnward(mark: Mark, f: Frame, infos: seq<Info>, n: nat)
    requires n < |infos|
    ensures Count(mark, f, infos, n + 1) == Count(mark, f, infos, n) + if Bears(mark, f, infos[n], n) then 1 else 0
  {
    hide Bears, First;
  }

  lemma AssignDeadLane(st: AssignState, f: Frame, info: Info, j: nat)
    requires j < 8
    ensures AssignLane(st, f, info, j, false) == st
  {}

  lemma NothingAssigned(infos: seq<Info>, f: Frame, verb: i64)
    requires |infos| <= 8
    ensures AssignedTo(infos, f, verb, 0) == AssignState(STATUS_OK, verb, -1, -1, -1, 0, -1, 0, false, 0, 0, 0, false)
  {}

  /** Every word is the verb, the "from" of a passive sentence, or has a role. */
  predicate Covered(n: nat, f: Frame, st: AssignState) {
    forall j :: 0 <= j < n ==> Consumed(f, st, j)
  }

  predicate Consumed(f: Frame, st: AssignState, j: int) {
    || j == f.verb || j == st.sourceIdx || j == st.targetIdx || j == st.objectIdx || j == st.quantityIdx
    || (f.passive && j == f.from)
  }

  /** `finish_assign`: the first failing check decides. */
  function Finish(infos: seq<Info>, f: Frame, st: AssignState, froms: nat): AssignState {
    if st.status != STATUS_OK then st
    else if (f.passive && froms != 1) || st.sourceIdx == -1 || st.targetIdx == -1 || st.objectIdx == -1 then
      st.(status := STATUS_MISSING_FIELD)
    else if st.numericBad then st.(status := STATUS_MALFORMED_QUANTITY)
    else if st.entityTotal != 2 || st.objectTotal > 1 || st.quantityTotal > 1 || !Covered(|infos|, f, st) then
      st.(status := STATUS_BAD_SHAPE)
    else st.(status := STATUS_OK)
  }

  method CoverageOk(split: SplitState, f: Frame, st: AssignState) returns (ok: bool)
    requires split.count <= 8
    ensures ok <==> Covered(split.count, f, st)
  {
    ok := true;
    for j := 0 to 8
      invariant ok <==> Covered(if j <= split.count then j else split.count, f, st)
    {
      var live := j < split.count;
      ok := ok && (live ==> Consumed(f, st, j));
    }
  }

  method AssignRoles(text: Text, lanes: nat, split: SplitState, cls: ClassState, ghost ws: seq<Span>, ghost n: nat)
    returns (r: AssignState)
    requires |text| <= lanes <= 64 && n <= |text|
    requires SplitsInto(split, ws) && |ws| <= 8 && AreWords(text, n, ws)
    requires cls == ClassedTo(Infos(text, ws), |ws|)
    ensures var infos := Infos(text, ws);
            r == Finish(infos, FrameOf(cls), AssignedTo(infos, FrameOf(cls), cls.verbCode, |ws|), cls.fromCount)
  {
    hide *;
    ghost var infos := Infos(text, ws);
    var f := FrameOf(cls);
    CountOf(split, ws);
    NothingAssigned(infos, f, cls.verbCode);
    var st := AssignState(STATUS_OK, cls.verbCode, -1, -1, -1, 0, -1, 0, false, 0, 0, 0, false);
    for j := 0 to 8
      invariant st == AssignedTo(infos, f, cls.verbCode, if j <= |ws| then j else |ws|)
    {
      var live := j < split.count;
      var slot := if live then j else 0;
      var class_ := if live then cls.classes[slot] else -1;
      var info := LaneInfo(text, lanes, split.starts[slot], split.lens[slot], class_);
      if live {
        SlotWord(text, ws, split, n, j);
        ClassOfSlot(infos, |ws|, j);
        LaneInfoOf(WordText(text, ws[j]), class_);
        AssignLaneStep(infos, f, cls.verbCode, j);
      } else {
        AssignDeadLane(st, f, info, j);
      }
      st := AssignLane(st, f, info, j, live);
    }
    var covered := CoverageOk(split, f, st);
    r := FinishAssign(st, f, cls.fromCount, covered, infos);
  }

  lemma {:induction false} ClassesHold(infos: seq<Info>, n: nat, j: nat)
    requires j < n <= |infos| <= 8
    ensures ClassesTo(infos, n)[j] == infos[j].class_
    decreases n
  {
    if j < n - 1 {
      ClassesHold(infos, n - 1, j);
    }
  }

  lemma ClassOfSlot(infos: seq<Info>, n: nat, j: nat)
    requires j < n <= |infos| <= 8
    ensures ClassedTo(infos, n).classes[j] == infos[j].class_
  {
    hide First, Count, ClassesTo;
    ClassesHold(infos, n, j);
  }

  method LaneInfo(text: Text, lanes: nat, start: u64, length: u64, class_: i64) returns (info: Info)
    requires |text| <= lanes <= 64
    ensures var w := Word(text, start, length);
            && info.class_ == class_ && info.code == ObjectCode(w) && info.number == NumberOf(w)
            && info.digit == (w != [] && IsDigit(w[0]))
  {
    hide Word, ObjectCode, NumberOf;
    var first := SpanByte(text, start, length, 0);
    WordAt(text, start, length, 0);
    var number := ClassifyWordNumber(text, lanes, start, length);
    var code := ClassifyObject(text, start, length);
    info := Info(class_, code, number, IsDigit(first));
  }

  lemma LaneInfoOf(w: seq<byte>, class_: i64)
    requires class_ == InfoOf(w).class_
    ensures InfoOf(w) == Info(class_, ObjectCode(w), NumberOf(w), w != [] && IsDigit(w[0]))
  {}

  method FinishAssign(st: AssignState, f: Frame, froms: u64, covered: bool,
      ghost infos: seq<Info>) returns (r: AssignState)
    requires covered <==> Covered(|infos|, f, st)
    ensures r == Finish(infos, f, st, froms)
  {
    hide Covered;
    var fromOk := if f.passive then froms == 1 else true;
    var sidesOk := st.sourceIdx != -1 && st.targetIdx != -1;
    var objectOk := st.objectIdx != -1;
    var countsOk := st.entityTotal == 2 && st.objectTotal <= 1 && st.quantityTotal <= 1;
    var status := if st.status != STATUS_OK then st.status
                  else if !fromOk || !sidesOk || !objectOk then STATUS_MISSING_FIELD
                  else if st.numericBad then STATUS_MALFORMED_QUANTITY
                  else if !countsOk || !covered then STATUS_BAD_SHAPE
                  else STATUS_OK;
    r := st.(status := status);
  }
}
