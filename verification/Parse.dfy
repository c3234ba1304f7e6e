/** The transfer-sentence parser, `parse_transfer` of `language/mncs/ingest/parse.mncs`, and exactly
    which sentences it accepts. */
module Parse {
  import opened Machine
  import opened Vocab
  import opened Words
  import opened Roles

  /** A span is the source's pair of start and length, both -1 when absent. */
  datatype Place = Place(start: int, len: int)

  const ABSENT := Place(-1, -1)

  datatype TransferParse = TransferParse(
    status: int, verb: i64, verbAt: Place, sourceAt: Place, targetAt: Place,
    objectCode: i64, objectAt: Place, quantity: i64, quantityPresent: bool, quantityAt: Place)

  function FailParse(code: int): TransferParse {
    TransferParse(code, 0, ABSENT, ABSENT, ABSENT, 0, ABSENT, 0, false, ABSENT)
  }

  function PlaceOf(ws: seq<Span>, idx: int): Place
    requires -1 <= idx < |ws|
  {
    if idx == -1 then ABSENT else Place(ws[idx].start, ws[idx].len)
  }

  /** The words of the sentence: the text without its ending, split at spaces. */
  function SentenceSpans(text: Text): seq<Span> { Spans(Trim(text, false)) }

  /** The verdict on words already described. */
  function Judge(infos: seq<Info>): AssignState
    requires |infos| <= 8
  {
    var cls := ClassedTo(infos, |infos|);
    Finish(infos, FrameOf(cls), AssignedTo(infos, FrameOf(cls), cls.verbCode, |infos|), cls.fromCount)
  }

  function ParseSpec(text: Text): TransferParse {
    hide Judge, ClassedTo, Infos, Trim, SentenceSpans;
    var ws := SentenceSpans(text);
    if Trim(text, false) == [] then FailParse(STATUS_EMPTY)
    else if |ws| > 8 || |ws| == 0 then FailParse(STATUS_BAD_SHAPE)
    else
      var infos := Infos(text, ws);
      var cls := ClassedTo(infos, |infos|);
      if cls.verbCount == 0 then FailParse(STATUS_UNSUPPORTED_VERB)
      else if cls.verbCount > 1 then FailParse(STATUS_BAD_SHAPE)
      else
        IndexBounds(infos);
        Report(ws, cls, Judge(infos))
  }

  function Report(ws: seq<Span>, cls: ClassState, st: AssignState): TransferParse
    requires -1 <= cls.verbIdx < |ws| && -1 <= st.sourceIdx < |ws| && -1 <= st.targetIdx < |ws|
    requires -1 <= st.objectIdx < |ws| && -1 <= st.quantityIdx < |ws|
  {
    TransferParse(st.status, st.verb,
                  PlaceOf(ws, cls.verbIdx), PlaceOf(ws, st.sourceIdx), PlaceOf(ws, st.targetIdx),
                  st.objectCode, PlaceOf(ws, st.objectIdx),
                  st.quantity, st.quantityPresent, PlaceOf(ws, st.quantityIdx))
  }

  /** `span_start` and `span_length` read the splitter's slots. */
  function SlotPlace(split: SplitState, idx: int): Place
    requires -1 <= idx
  {
    var slot := if idx == -1 then 0 else idx;
    var at := if slot < 8 then slot else 0;
    if idx == -1 then ABSENT else Place(split.starts[at], split.lens[at])
  }

  lemma SlotPlaceOf(split: SplitState, ws: seq<Span>, idx: int)
    requires SplitsInto(split, ws) && |ws| <= 8 && -1 <= idx < |ws|
    ensures SlotPlace(split, idx) == PlaceOf(ws, idx)
  {}

  method ParseTransfer(text: Text, lanes: nat, length: u64) returns (r: TransferParse)
    requires |text| <= lanes <= 64
    ensures r == ParseSpec(text[..Clamp(text, length)])
  {
    hide *;
    var tlen := if length <= |text| then length else |text|;
    Clamps(text, length);
    ghost var t: Text := text[..tlen];
    if tlen == 0 {
      NothingParses(t);
      return FailParse(STATUS_EMPTY);
    }
    var eff := EffectiveLength(text, lanes, tlen);
    Clamps(text, tlen);
    if eff == 0 {
      NothingParses(t);
      return FailParse(STATUS_EMPTY);
    }
    var split := SplitWords(text, lanes, eff);
    ghost var ws := SpansTo(text, eff);
    SpansAreWords(text, eff);
    SpansOfPrefix(text, t, eff);
    Unfold(t, ws);
    SplitMeans(split, ws);
    if split.overflow || split.count == 0 {
      return FailParse(STATUS_BAD_SHAPE);
    }
    var cls := ClassifyAll(text, lanes, split, ws, eff);
    InfosOfPrefix(text, tlen, eff, ws);
    if cls.verbCount == 0 {
      return FailParse(STATUS_UNSUPPORTED_VERB);
    }
    if cls.verbCount > 1 {
      return FailParse(STATUS_BAD_SHAPE);
    }
    var st := AssignRoles(text, lanes, split, cls, ws, eff);
    IndexBounds(Infos(t, ws));
    JudgeMeans(Infos(t, ws));
    SlotPlaceOf(split, ws, cls.verbIdx);
    SlotPlaceOf(split, ws, st.sourceIdx);
    SlotPlaceOf(split, ws, st.targetIdx);
    SlotPlaceOf(split, ws, st.objectIdx);
    SlotPlaceOf(split, ws, st.quantityIdx);
    ReportMeans(ws, cls, st);
    return TransferParse(st.status, st.verb, SlotPlace(split, cls.verbIdx), SlotPlace(split, st.sourceIdx),
                         SlotPlace(split, st.targetIdx), st.objectCode, SlotPlace(split, st.objectIdx),
                         st.quantity, st.quantityPresent, SlotPlace(split, st.quantityIdx));
  }

  lemma Clamps(text: Text, length: u64)
    ensures Clamp(text, length) == if length <= |text| then length else |text|
  {}

  lemma NothingParses(t: Text)
    requires Trim(t, false) == []
    ensures ParseSpec(t) == FailParse(STATUS_EMPTY)
  {
    hide Judge, ClassedTo, Infos, Report;
  }

  lemma Unfold(t: Text, ws: seq<Span>)
    requires Trim(t, false) != [] && ws == SentenceSpans(t)
    ensures |ws| > 8 || |ws| == 0 ==> ParseSpec(t) == FailParse(STATUS_BAD_SHAPE)
    ensures 1 <= |ws| <= 8 ==>
              var cls := ClassedTo(Infos(t, ws), |ws|);
              if cls.verbCount == 0 then ParseSpec(t) == FailParse(STATUS_UNSUPPORTED_VERB)
              else if cls.verbCount > 1 then ParseSpec(t) == FailParse(STATUS_BAD_SHAPE)
              else var st := Judge(Infos(t, ws));
                   && -1 <= cls.verbIdx < |ws| && -1 <= st.sourceIdx < |ws| && -1 <= st.targetIdx < |ws|
                   && -1 <= st.objectIdx < |ws| && -1 <= st.quantityIdx < |ws|
                   && ParseSpec(t) == Report(ws, cls, st)
  {
    hide Infos, Judge, Report, ClassesTo, VerbCodeOf, SentenceSpans;
    if 1 <= |ws| <= 8 {
      IndexBounds(Infos(t, ws));
    }
  }

  lemma IndexBounds(infos: seq<Info>)
    requires |infos| <= 8
    ensures var cls, st := ClassedTo(infos, |infos|), Judge(infos);
            && -1 <= cls.verbIdx < |infos| && -1 <= st.sourceIdx < |infos| && -1 <= st.targetIdx < |infos|
            && -1 <= st.objectIdx < |infos| && -1 <= st.quantityIdx < |infos|
  {
    hide First, Count, ClassesTo, VerbCodeOf, Finish;
    var cls := ClassedTo(infos, |infos|);
    FinishKeeps(infos, FrameOf(cls), AssignedTo(infos, FrameOf(cls), cls.verbCode, |infos|), cls.fromCount);
  }

  lemma FinishKeeps(infos: seq<Info>, f: Frame, st: AssignState, froms: nat)
    ensures Finish(infos, f, st, froms) == st.(status := Finish(infos, f, st, froms).status)
  {
    hide Covered;
  }

  lemma JudgeMeans(infos: seq<Info>)
    requires |infos| <= 8
    ensures var cls := ClassedTo(infos, |infos|);
            var st := AssignedTo(infos, FrameOf(cls), cls.verbCode, |infos|);
            Judge(infos) == Finish(infos, FrameOf(cls), st, cls.fromCount)
  {}

  lemma ReportMeans(ws: seq<Span>, cls: ClassState, st: AssignState)
    requires -1 <= cls.verbIdx < |ws| && -1 <= st.sourceIdx < |ws| && -1 <= st.targetIdx < |ws|
    requires -1 <= st.objectIdx < |ws| && -1 <= st.quantityIdx < |ws|
    ensures Report(ws, cls, st) ==
            TransferParse(st.status, st.verb,
                          PlaceOf(ws, cls.verbIdx), PlaceOf(ws, st.sourceIdx), PlaceOf(ws, st.targetIdx),
                          st.objectCode, PlaceOf(ws, st.objectIdx),
                          st.quantity, st.quantityPresent, PlaceOf(ws, st.quantityIdx))
  {}

  lemma SplitMeans(split: SplitState, ws: seq<Span>)
    requires SplitsInto(split, ws)
    ensures |ws| > 8 <==> split.overflow
    ensures |ws| <= 8 ==> split.count == |ws|
  {}

  /** Splitting looks at no byte past its length. */
  lemma {:induction false} SpansAgree(s: seq<byte>, t: seq<byte>, n: nat)
    requires n <= |s| && n <= |t| && s[..n] == t[..n]
    ensures SpansTo(s, n) == SpansTo(t, n)
    decreases n
  {
    if n > 0 {
      assert s[..n][..n - 1] == t[..n][..n - 1];
      assert s[n - 1] == s[..n][n - 1] && t[n - 1] == t[..n][n - 1];
      if n > 1 {
        assert s[n - 2] == s[..n][n - 2] && t[n - 2] == t[..n][n - 2];
      }
      SpansAgree(s, t, n - 1);
    }
  }

  lemma SpansOfPrefix(text: Text, t: Text, eff: nat)
    requires eff <= |text| && text[..eff] == Trim(t, false)
    ensures SpansTo(text, eff) == SentenceSpans(t)
  {
    hide SpansTo, Trim;
    var s := Trim(t, false);
    assert s[..eff] == text[..eff];
    SpansAgree(text, s, eff);
  }

  lemma InfosOfPrefix(text: Text, tlen: nat, eff: nat, ws: seq<Span>)
    requires eff <= tlen <= |text| && AreWords(text, eff, ws)
    ensures Infos(text, ws) == Infos(text[..tlen], ws)
  {
    hide InfoOf, Infos;
    forall k | 0 <= k < |ws|
      ensures Infos(text, ws)[k] == Infos(text[..tlen], ws)[k]
    {
      assert MaximalWord(text, eff, ws[k]);
      assert text[..tlen][ws[k].start..ws[k].start + ws[k].len] == text[ws[k].start..ws[k].start + ws[k].len];
    }
  }
}
