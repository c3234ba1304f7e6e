/** The semantic fragment and its key, `src/ir.rs`.  A string is the sequence of its UTF-8 bytes. */
module Ir {
  import opened Machine
  import opened Numerals
  import opened Separated

  datatype Option<+T> = None | Some(value: T)

  datatype AdapterKind = TextInput | StructuredInput | NativeInput

  datatype Confidence = Direct | Parsed | Uncertain

  datatype AtomKind = Entity | Event | Thing | Quantity | Unknown

  datatype Role = SourceRole | TargetRole | ObjectRole | QuantityRole

  datatype Atom = Atom(id: u64, kind: AtomKind, name: seq<byte>, value: Option<i64>)

  datatype Relation = Relation(role: Role, event: u64, target: u64)

  datatype FieldSpan = FieldSpan(field: seq<byte>, start: Option<u64>, end: Option<u64>)

  datatype Provenance = Provenance(
    adapter: AdapterKind, signalId: seq<byte>, interpreter: seq<byte>, spans: seq<FieldSpan>, confidence: Confidence)

  datatype Fragment = Fragment(
    schema: seq<byte>, atoms: seq<Atom>, relations: seq<Relation>, unknowns: seq<seq<byte>>, provenance: Provenance)

  // ---------------------------------------------------------------------------------------
  // Escaping

  /** `str::replace` of one byte. */
  function Replace(s: seq<byte>, b: byte, with: seq<byte>): seq<byte> {
    if s == [] then [] else (if s[0] == b then with else [s[0]]) + Replace(s[1..], b, with)
  }

  const LETTER_N: byte := 110
  const LETTER_S: byte := 115

  /** Three replacements, one after the other. */
  function Escape(s: seq<byte>): seq<byte> {
    Replace(Replace(Replace(s, BACKSLASH, [BACKSLASH, BACKSLASH]), NEWLINE, [BACKSLASH, LETTER_N]),
            SPACE, [BACKSLASH, LETTER_S])
  }

  /** The code of one byte. */
  function Code(b: byte): (c: seq<byte>)
    ensures 1 <= |c| <= 2
  {
    if b == BACKSLASH then [BACKSLASH, BACKSLASH]
    else if b == NEWLINE then [BACKSLASH, LETTER_N]
    else if b == SPACE then [BACKSLASH, LETTER_S]
    else [b]
  }

  lemma {:induction false} ReplaceAppend(s: seq<byte>, t: seq<byte>, b: byte, with: seq<byte>)
    ensures Replace(s + t, b, with) == Replace(s, b, with) + Replace(t, b, with)
    decreases |s|
  {
    if s == [] {
      assert s + t == t;
    } else {
      assert (s + t)[1..] == s[1..] + t;
      ReplaceAppend(s[1..], t, b, with);
    }
  }

  lemma ReplaceOne(c: byte, b: byte, with: seq<byte>)
    ensures Replace([c], b, with) == if c == b then with else [c]
  {
    assert [c][1..] == [];
    assert with + [] == with && [c] + [] == [c];
  }

  lemma ReplaceTwo(c: byte, d: byte, b: byte, with: seq<byte>)
    ensures Replace([c, d], b, with) == (if c == b then with else [c]) + (if d == b then with else [d])
  {
    assert [c, d] == [c] + [d];
    ReplaceAppend([c], [d], b, with);
    ReplaceOne(c, b, with);
    ReplaceOne(d, b, with);
  }

  /** No later replacement touches what an earlier one wrote: the whole is one code per byte. */
  lemma EscapeFirst(s: seq<byte>)
    requires s != []
    ensures Escape(s) == Code(s[0]) + Escape(s[1..])
  {
    var first, rest := [s[0]], s[1..];
    assert s == first + rest;
    ReplaceAppend(first, rest, BACKSLASH, [BACKSLASH, BACKSLASH]);
    var a, b := Replace(first, BACKSLASH, [BACKSLASH, BACKSLASH]), Replace(rest, BACKSLASH, [BACKSLASH, BACKSLASH]);
    ReplaceAppend(a, b, NEWLINE, [BACKSLASH, LETTER_N]);
    var c, d := Replace(a, NEWLINE, [BACKSLASH, LETTER_N]), Replace(b, NEWLINE, [BACKSLASH, LETTER_N]);
    ReplaceAppend(c, d, SPACE, [BACKSLASH, LETTER_S]);
    hide Replace;
    CodeOfByte(s[0]);
  }

  lemma CodeOfByte(b: byte)
    ensures Escape([b]) == Code(b)
  {
    hide Replace;
    ReplaceOne(b, BACKSLASH, [BACKSLASH, BACKSLASH]);
    assert [BACKSLASH] + [BACKSLASH] == [BACKSLASH, BACKSLASH] && [BACKSLASH] + [LETTER_N] == [BACKSLASH, LETTER_N];
    if b == BACKSLASH {
      ReplaceTwo(BACKSLASH, BACKSLASH, NEWLINE, [BACKSLASH, LETTER_N]);
      ReplaceTwo(BACKSLASH, BACKSLASH, SPACE, [BACKSLASH, LETTER_S]);
    } else {
      ReplaceOne(b, NEWLINE, [BACKSLASH, LETTER_N]);
      if b == NEWLINE {
        ReplaceTwo(BACKSLASH, LETTER_N, SPACE, [BACKSLASH, LETTER_S]);
      } else {
        ReplaceOne(b, SPACE, [BACKSLASH, LETTER_S]);
      }
    }
  }

  /** Reading an escaped string back. */
  function Unescape(t: seq<byte>): seq<byte>
    decreases |t|
  {
    if t == [] then []
    else if t[0] == BACKSLASH && |t| > 1 then
      [if t[1] == LETTER_N then NEWLINE else if t[1] == LETTER_S then SPACE else t[1]] + Unescape(t[2..])
    else [t[0]] + Unescape(t[1..])
  }

  /** Escaping loses nothing and leaves no space and no newline. */
  lemma {:induction false} EscapeRoundTrip(s: seq<byte>)
    ensures Unescape(Escape(s)) == s
    ensures SPACE !in Escape(s) && NEWLINE !in Escape(s)
    decreases |s|
  {
    if s == [] {
    } else {
      hide Escape;
      EscapeFirst(s);
      EscapeRoundTrip(s[1..]);
      UnescapeCode(s[0], Escape(s[1..]));
      assert [s[0]] + s[1..] == s;
    }
  }

  lemma UnescapeCode(b: byte, rest: seq<byte>)
    ensures Unescape(Code(b) + rest) == [b] + Unescape(rest)
    ensures SPACE !in Code(b) && NEWLINE !in Code(b)
  {
    assert (Code(b) + rest)[|Code(b)|..] == rest;
  }

  lemma EscapeIsInjective(s: seq<byte>, t: seq<byte>)
    ensures Escape(s) == Escape(t) <==> s == t
  {
    hide Escape, Unescape;
    EscapeRoundTrip(s);
    EscapeRoundTrip(t);
  }

  // ---------------------------------------------------------------------------------------
  // The key

  const FRAG_V1: seq<byte> := [102, 114, 97, 103, 58, 118, 49]
  const ATOM: seq<byte> := [97, 116, 111, 109]
  const REL: seq<byte> := [114, 101, 108]
  const UNKNOWN: seq<byte> := [117, 110, 107, 110, 111, 119, 110]

  function KindName(kind: AtomKind): seq<byte> {
    match kind
    case Entity => [69, 110, 116, 105, 116, 121]
    case Event => [69, 118, 101, 110, 116]
    case Thing => [79, 98, 106, 101, 99, 116]
    case Quantity => [81, 117, 97, 110, 116, 105, 116, 121]
    case Unknown => [85, 110, 107, 110, 111, 119, 110]
  }

  function RoleName(role: Role): seq<byte> {
    match role
    case SourceRole => [115, 111, 117, 114, 99, 101]
    case TargetRole => [116, 97, 114, 103, 101, 116]
    case ObjectRole => [111, 98, 106, 101, 99, 116]
    case QuantityRole => [113, 117, 97, 110, 116, 105, 116, 121]
  }

  function ValueName(value: Option<i64>): seq<byte> {
    match value
    case None => [MINUS]
    case Some(v) => Decimal(v)
  }

  /** One line of the key. */
  datatype Item =
    | AtomItem(kind: AtomKind, name: seq<byte>, value: Option<i64>)
    | RelationItem(role: Role, event: u64, target: u64)
    | UnknownItem(text: seq<byte>)

  function Pieces(item: Item): seq<seq<byte>> {
    match item
    case AtomItem(kind, name, value) => [ATOM, KindName(kind), Escape(name), ValueName(value)]
    case RelationItem(role, event, target) => [REL, RoleName(role), Decimal(event), Decimal(target)]
    case UnknownItem(text) => [UNKNOWN, Escape(text)]
  }

  function Line(item: Item): seq<byte> { Join(SPACE, Pieces(item)) }

  function Lines(items: seq<Item>): (lines: seq<seq<byte>>)
    ensures |lines| == |items|
  {
    if items == [] then [] else Lines(items[..|items| - 1]) + [Line(items[|items| - 1])]
  }

  function KeyOf(items: seq<Item>): seq<byte> { Join(NEWLINE, [FRAG_V1] + Lines(items)) }

  function AtomItems(atoms: seq<Atom>): (items: seq<Item>)
    ensures |items| == |atoms| && forall k :: 0 <= k < |items| ==> items[k].AtomItem?
  {
    if atoms == [] then []
    else var a := atoms[|atoms| - 1]; AtomItems(atoms[..|atoms| - 1]) + [AtomItem(a.kind, a.name, a.value)]
  }

  function RelationItems(relations: seq<Relation>): (items: seq<Item>)
    ensures |items| == |relations| && forall k :: 0 <= k < |items| ==> items[k].RelationItem?
  {
    if relations == [] then []
    else var r := relations[|relations| - 1];
         RelationItems(relations[..|relations| - 1]) + [RelationItem(r.role, r.event, r.target)]
  }

  function UnknownItems(unknowns: seq<seq<byte>>): (items: seq<Item>)
    ensures |items| == |unknowns| && forall k :: 0 <= k < |items| ==> items[k].UnknownItem?
  {
    if unknowns == [] then [] else UnknownItems(unknowns[..|unknowns| - 1]) + [UnknownItem(unknowns[|unknowns| - 1])]
  }

  function Items(f: Fragment): seq<Item> {
    AtomItems(f.atoms) + RelationItems(f.relations) + UnknownItems(f.unknowns)
  }

  /** `Fragment::semantic_key`: the lines are pushed one by one. */
  method SemanticKey(f: Fragment) returns (out: seq<byte>)
    ensures out == KeyOf(Items(f))
  {
    hide Line, Items, KeyOf;
    out := FRAG_V1;
    EmptyKey();
    for i := 0 to |f.atoms|
      invariant out == KeyOf(AtomItems(f.atoms[..i]))
    {
      var a := f.atoms[i];
      assert f.atoms[..i + 1][..i] == f.atoms[..i];
      out := PushLine(out, AtomItem(a.kind, a.name, a.value), AtomItems(f.atoms[..i]));
    }
    assert f.atoms[..|f.atoms|] == f.atoms;
    ghost var atoms := AtomItems(f.atoms);
    assert atoms + [] == atoms;
    for i := 0 to |f.relations|
      invariant out == KeyOf(atoms + RelationItems(f.relations[..i]))
    {
      var r := f.relations[i];
      assert f.relations[..i + 1][..i] == f.relations[..i];
      assert atoms + RelationItems(f.relations[..i + 1])
             == atoms + RelationItems(f.relations[..i]) + [RelationItem(r.role, r.event, r.target)];
      out := PushLine(out, RelationItem(r.role, r.event, r.target), atoms + RelationItems(f.relations[..i]));
    }
    assert f.relations[..|f.relations|] == f.relations;
    out := PushUnknowns(out, f.unknowns, atoms + RelationItems(f.relations));
    ItemsMeans(f);
  }

  method PushUnknowns(key: seq<byte>, unknowns: seq<seq<byte>>, ghost items: seq<Item>) returns (out: seq<byte>)
    requires key == KeyOf(items)
    ensures out == KeyOf(items + UnknownItems(unknowns))
  {
    hide Line, KeyOf;
    out := key;
    assert items + [] == items;
    for i := 0 to |unknowns|
      invariant out == KeyOf(items + UnknownItems(unknowns[..i]))
    {
      assert unknowns[..i + 1][..i] == unknowns[..i];
      assert items + UnknownItems(unknowns[..i + 1])
             == items + UnknownItems(unknowns[..i]) + [UnknownItem(unknowns[i])];
      out := PushLine(out, UnknownItem(unknowns[i]), items + UnknownItems(unknowns[..i]));
    }
    assert unknowns[..|unknowns|] == unknowns;
  }

  method PushLine(key: seq<byte>, item: Item, ghost items: seq<Item>) returns (out: seq<byte>)
    requires key == KeyOf(items)
    ensures out == KeyOf(items + [item])
  {
    hide Line;
    out := key + ([NEWLINE] + Line(item));
    JoinExtends(NEWLINE, [FRAG_V1] + Lines(items), Line(item));
    assert (items + [item])[..|items|] == items;
    assert [FRAG_V1] + (Lines(items) + [Line(item)]) == [FRAG_V1] + Lines(items) + [Line(item)];
  }

  lemma EmptyKey()
    ensures KeyOf(AtomItems([])) == FRAG_V1
  {
    assert [FRAG_V1] + Lines([]) == [FRAG_V1];
  }

  lemma ItemsMeans(f: Fragment)
    ensures Items(f) == AtomItems(f.atoms) + RelationItems(f.relations) + UnknownItems(f.unknowns)
  {}

  // ---------------------------------------------------------------------------------------
  // The key loses nothing but ids and provenance

  lemma NamesAreSeparable(kind: AtomKind, role: Role)
    ensures SPACE !in KindName(kind) && NEWLINE !in KindName(kind)
    ensures SPACE !in RoleName(role) && NEWLINE !in RoleName(role)
  {}

  lemma DecimalIsSeparable(v: int)
    ensures SPACE !in Decimal(v) && NEWLINE !in Decimal(v)
  {
    hide Decimal;
    DecimalShape(v);
  }

  lemma ValueIsSeparable(value: Option<i64>)
    ensures SPACE !in ValueName(value) && NEWLINE !in ValueName(value)
  {
    hide Decimal;
    if value.Some? {
      DecimalIsSeparable(value.value);
    }
  }

  lemma ValueIsInjective(v: Option<i64>, w: Option<i64>)
    ensures ValueName(v) == ValueName(w) <==> v == w
  {
    hide Decimal;
    if v.Some? {
      DecimalShape(v.value);
    }
    if w.Some? {
      DecimalShape(w.value);
    }
    if v.Some? && w.Some? {
      DecimalIsInjective(v.value, w.value);
    }
  }

  lemma PiecesAreSeparable(item: Item)
    ensures AllSeparable(SPACE, Pieces(item)) && AllSeparable(NEWLINE, Pieces(item))
  {
    hide Escape, Decimal, KindName, RoleName, ValueName;
    match item
    case AtomItem(kind, name, value) =>
      NamesAreSeparable(kind, SourceRole);
      EscapeRoundTrip(name);
      ValueIsSeparable(value);
    case RelationItem(role, event, target) =>
      NamesAreSeparable(Entity, role);
      DecimalIsSeparable(event);
      DecimalIsSeparable(target);
    case UnknownItem(text) =>
      EscapeRoundTrip(text);
  }

  lemma PiecesAreInjective(a: Item, b: Item)
    ensures Pieces(a) == Pieces(b) <==> a == b
  {
    hide Escape, Decimal, KindName, RoleName, ValueName;
    if Pieces(a) == Pieces(b) {
      FirstPiece(a);
      FirstPiece(b);
      match a
      case AtomItem(kind, name, value) =>
        assert Pieces(a)[1] == Pieces(b)[1] && Pieces(a)[2] == Pieces(b)[2] && Pieces(a)[3] == Pieces(b)[3];
        KindsDiffer(kind, b.kind);
        EscapeIsInjective(name, b.name);
        ValueIsInjective(value, b.value);
      case RelationItem(role, event, target) =>
        assert Pieces(a)[1] == Pieces(b)[1] && Pieces(a)[2] == Pieces(b)[2] && Pieces(a)[3] == Pieces(b)[3];
        RolesDiffer(role, b.role);
        DecimalIsInjective(event, b.event);
        DecimalIsInjective(target, b.target);
      case UnknownItem(text) =>
        assert Pieces(a)[1] == Pieces(b)[1];
        EscapeIsInjective(text, b.text);
    }
  }

  lemma FirstPiece(item: Item)
    ensures Pieces(item) != [] && (Pieces(item)[0][0] == 97 <==> item.AtomItem?)
    ensures Pieces(item)[0][0] == 114 <==> item.RelationItem?
  {}

  lemma KindsDiffer(k: AtomKind, l: AtomKind)
    ensures KindName(k) == KindName(l) <==> k == l
  {
    assert KindName(k)[0] == KindName(l)[0] && KindName(k)[1] == KindName(l)[1] ==> k == l;
  }

  lemma RolesDiffer(r: Role, s: Role)
    ensures RoleName(r) == RoleName(s) <==> r == s
  {
    assert RoleName(r)[0] == RoleName(s)[0] ==> r == s;
  }

  lemma LineIsInjective(a: Item, b: Item)
    ensures Line(a) == Line(b) <==> a == b
  {
    hide Pieces, Join;
    PiecesAreSeparable(a);
    PiecesAreSeparable(b);
    JoinIsInjective(SPACE, Pieces(a), Pieces(b));
    PiecesAreInjective(a, b);
    PiecesAreSome(a);
    PiecesAreSome(b);
  }

  lemma PiecesAreSome(item: Item)
    ensures |Pieces(item)| >= 2
  {}

  lemma {:induction false} JoinHasNone(sep: byte, pieces: seq<seq<byte>>, b: byte)
    requires AllSeparable(b, pieces) && b != sep
    ensures b !in Join(sep, pieces)
    decreases |pieces|
  {
    if |pieces| > 1 {
      JoinHasNone(sep, pieces[1..], b);
    }
  }

  lemma {:induction false} LinesAreSeparable(items: seq<Item>)
    ensures AllSeparable(NEWLINE, Lines(items))
    decreases |items|
  {
    hide Line;
    if items != [] {
      LinesAreSeparable(items[..|items| - 1]);
      LineIsSeparable(items[|items| - 1]);
    }
  }

  lemma LineIsSeparable(item: Item)
    ensures NEWLINE !in Line(item)
  {
    hide Pieces, Join;
    PiecesAreSeparable(item);
    JoinHasNone(SPACE, Pieces(item), NEWLINE);
  }

  lemma {:induction false} LinesAreInjective(a: seq<Item>, b: seq<Item>)
    ensures Lines(a) == Lines(b) <==> a == b
    decreases |a|
  {
    hide Line;
    if Lines(a) == Lines(b) && a != [] {
      var s, t := a[..|a| - 1], b[..|b| - 1];
      var x, y := a[|a| - 1], b[|b| - 1];
      assert (Lines(s) + [Line(x)])[..|s|] == Lines(s) && (Lines(t) + [Line(y)])[..|t|] == Lines(t);
      assert (Lines(s) + [Line(x)])[|s|] == Line(x) && (Lines(t) + [Line(y)])[|t|] == Line(y);
      LinesAreInjective(s, t);
      LineIsInjective(x, y);
      assert a == s + [x] && b == t + [y];
    }
  }

  lemma KeyIsInjective(a: seq<Item>, b: seq<Item>)
    ensures KeyOf(a) == KeyOf(b) <==> a == b
  {
    hide Lines, Join;
    LinesAreSeparable(a);
    LinesAreSeparable(b);
    LinesAreInjective(a, b);
    HeadIsSeparable();
    var s, t := [FRAG_V1] + Lines(a), [FRAG_V1] + Lines(b);
    assert s[1..] == Lines(a) && t[1..] == Lines(b);
    JoinIsInjective(NEWLINE, s, t);
    assert s[0] == FRAG_V1 && t[0] == FRAG_V1;
  }

  lemma HeadIsSeparable()
    ensures NEWLINE !in FRAG_V1
  {}

  /** Equal up to atom ids. */
  predicate SameAtoms(a: seq<Atom>, b: seq<Atom>) {
    |a| == |b| && forall k :: 0 <= k < |a| ==> a[k].(id := 0) == b[k].(id := 0)
  }

  lemma {:induction false} AtomItemsAreInjective(a: seq<Atom>, b: seq<Atom>)
    ensures AtomItems(a) == AtomItems(b) <==> SameAtoms(a, b)
    decreases |a|
  {
    if |a| == |b| && a != [] {
      var s, t := a[..|a| - 1], b[..|b| - 1];
      var x, y := a[|a| - 1], b[|b| - 1];
      AtomItemsAreInjective(s, t);
      assert AtomItems(a)[..|s|] == AtomItems(s) && AtomItems(b)[..|t|] == AtomItems(t);
      assert AtomItems(a)[|s|] == AtomItem(x.kind, x.name, x.value)
          && AtomItems(b)[|t|] == AtomItem(y.kind, y.name, y.value);
      assert SameAtoms(a, b) <==> SameAtoms(s, t) && x.(id := 0) == y.(id := 0);
    }
  }

  lemma {:induction false} RelationItemsAreInjective(a: seq<Relation>, b: seq<Relation>)
    ensures RelationItems(a) == RelationItems(b) <==> a == b
    decreases |a|
  {
    if |a| == |b| && a != [] {
      var s, t := a[..|a| - 1], b[..|b| - 1];
      var x, y := a[|a| - 1], b[|b| - 1];
      RelationItemsAreInjective(s, t);
      assert RelationItems(a)[..|s|] == RelationItems(s) && RelationItems(b)[..|t|] == RelationItems(t);
      assert RelationItems(a)[|s|] == RelationItem(x.role, x.event, x.target);
      assert RelationItems(b)[|t|] == RelationItem(y.role, y.event, y.target);
      assert a == s + [x] && b == t + [y];
    }
  }

  lemma {:induction false} UnknownItemsAreInjective(a: seq<seq<byte>>, b: seq<seq<byte>>)
    ensures UnknownItems(a) == UnknownItems(b) <==> a == b
    decreases |a|
  {
    if |a| == |b| && a != [] {
      var s, t := a[..|a| - 1], b[..|b| - 1];
      UnknownItemsAreInjective(s, t);
      assert UnknownItems(a)[..|s|] == UnknownItems(s) && UnknownItems(b)[..|t|] == UnknownItems(t);
      assert UnknownItems(a)[|s|] == UnknownItem(a[|s|]) && UnknownItems(b)[|t|] == UnknownItem(b[|t|]);
      assert a == s + [a[|s|]] && b == t + [b[|t|]];
    }
  }

  lemma FirstParts<T>(a: seq<T>, b: seq<T>, p: seq<T>, q: seq<T>)
    requires a + p == b + q && |a| == |b|
    ensures a == b && p == q
  {
    assert (a + p)[..|a|] == a && (b + q)[..|b|] == b;
    assert (a + p)[|a|..] == p && (b + q)[|b|..] == q;
  }

  function Tag(item: Item): int { if item.AtomItem? then 0 else if item.RelationItem? then 1 else 2 }

  /** A run of lines of one kind ends where the next line is of another. */
  lemma {:induction false} RunLength(tag: int, a: seq<Item>, p: seq<Item>, b: seq<Item>, q: seq<Item>)
    requires a + p == b + q
    requires forall k :: 0 <= k < |a| ==> Tag(a[k]) == tag
    requires forall k :: 0 <= k < |b| ==> Tag(b[k]) == tag
    requires forall k :: 0 <= k < |p| ==> Tag(p[k]) != tag
    requires forall k :: 0 <= k < |q| ==> Tag(q[k]) != tag
    ensures |a| == |b|
    decreases |a|
  {
    hide Tag;
    assert if a == [] then p == b + q else (b + q)[0] == a[0];
    assert if b == [] then q == a + p else (a + p)[0] == b[0];
    if a != [] && b != [] {
      assert a[1..] + p == (a + p)[1..] && b[1..] + q == (b + q)[1..];
      RunLength(tag, a[1..], p, b[1..], q);
    }
  }

  /** The three kinds of line stand in three runs, so equal lists of lines have equal runs. */
  lemma RunsSplit(a: seq<Item>, r: seq<Item>, u: seq<Item>, b: seq<Item>, s: seq<Item>, v: seq<Item>)
    requires forall k :: 0 <= k < |a| ==> a[k].AtomItem?
    requires forall k :: 0 <= k < |b| ==> b[k].AtomItem?
    requires forall k :: 0 <= k < |r| ==> r[k].RelationItem?
    requires forall k :: 0 <= k < |s| ==> s[k].RelationItem?
    requires forall k :: 0 <= k < |u| ==> u[k].UnknownItem?
    requires forall k :: 0 <= k < |v| ==> v[k].UnknownItem?
    ensures a + r + u == b + s + v <==> a == b && r == s && u == v
  {
    if a + r + u == b + s + v {
      assert a + r + u == a + (r + u) && b + s + v == b + (s + v);
      RunLength(0, a, r + u, b, s + v);
      FirstParts(a, b, r + u, s + v);
      RunLength(1, r, u, s, v);
      FirstParts(r, s, u, v);
    }
  }

  /** What the key keeps of a fragment. */
  predicate SameMeaning(f: Fragment, g: Fragment) {
    SameAtoms(f.atoms, g.atoms) && f.relations == g.relations && f.unknowns == g.unknowns
  }

  /** Two fragments have the same key if and only if they agree in everything but atom ids, schema and
      provenance: kinds, labels, values, relations and unknowns, in order. */
  lemma KeyDecidesMeaning(f: Fragment, g: Fragment)
    ensures KeyOf(Items(f)) == KeyOf(Items(g)) <==> SameMeaning(f, g)
  {
    hide KeyOf, SameAtoms, AtomItems, RelationItems, UnknownItems;
    KeyIsInjective(Items(f), Items(g));
    RunsSplit(AtomItems(f.atoms), RelationItems(f.relations), UnknownItems(f.unknowns),
              AtomItems(g.atoms), RelationItems(g.relations), UnknownItems(g.unknowns));
    AtomItemsAreInjective(f.atoms, g.atoms);
    RelationItemsAreInjective(f.relations, g.relations);
    UnknownItemsAreInjective(f.unknowns, g.unknowns);
  }

  method SemanticallyEqual(f: Fragment, g: Fragment) returns (same: bool)
    ensures same <==> f.schema == g.schema && SameMeaning(f, g)
  {
    hide SameMeaning, Items, KeyOf;
    KeyDecidesMeaning(f, g);
    var a := SemanticKey(f);
    var b := SemanticKey(g);
    same := f.schema == g.schema && a == b;
  }

  /** `Fragment::canonical_bytes`: the schema on a line of its own, then the key. */
  method CanonicalBytes(f: Fragment) returns (bytes: seq<byte>)
    ensures bytes == f.schema + ([NEWLINE] + KeyOf(Items(f)))
  {
    hide Items, KeyOf;
    var key := SemanticKey(f);
    bytes := f.schema + ([NEWLINE] + key);
  }

  /** Canonical bytes decide semantic equality, for schemas of one line. */
  lemma BytesDecideMeaning(f: Fragment, g: Fragment)
    requires NEWLINE !in f.schema && NEWLINE !in g.schema
    ensures f.schema + ([NEWLINE] + KeyOf(Items(f))) == g.schema + ([NEWLINE] + KeyOf(Items(g)))
            <==> f.schema == g.schema && SameMeaning(f, g)
  {
    hide SameMeaning, Items, KeyOf, Units;
    KeyDecidesMeaning(f, g);
    var p, q := KeyOf(Items(f)), KeyOf(Items(g));
    if f.schema + ([NEWLINE] + p) == g.schema + ([NEWLINE] + q) {
      UnitsOfPiece(NEWLINE, f.schema, [NEWLINE] + p);
      UnitsOfPiece(NEWLINE, g.schema, [NEWLINE] + q);
      var units := Units(NEWLINE, f.schema + ([NEWLINE] + p));
      assert units[0] == f.schema && units[0] == g.schema;
      FirstParts(f.schema, g.schema, [NEWLINE] + p, [NEWLINE] + q);
      FirstParts([NEWLINE], [NEWLINE], p, q);
    }
  }
}
