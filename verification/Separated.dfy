/** Joining pieces with a separator byte, and why joining loses nothing. */
module Separated {
  import opened Machine

  function Join(sep: byte, pieces: seq<seq<byte>>): seq<byte> {
    if pieces == [] then []
    else if |pieces| == 1 then pieces[0]
    else pieces[0] + ([sep] + Join(sep, pieces[1..]))
  }

  lemma {:induction false} JoinExtends(sep: byte, pieces: seq<seq<byte>>, last: seq<byte>)
    ensures Join(sep, pieces + [last]) == if pieces == [] then last else Join(sep, pieces) + ([sep] + last)
    decreases |pieces|
  {
    if |pieces| <= 1 {
      assert pieces == [] || pieces == [pieces[0]];
    } else {
      JoinExtends(sep, pieces[1..], last);
      assert (pieces + [last])[1..] == pieces[1..] + [last];
      Regroup(sep, pieces[0], Join(sep, pieces[1..]), last);
    }
  }

  lemma Regroup(sep: byte, first: seq<byte>, middle: seq<byte>, last: seq<byte>)
    ensures first + ([sep] + (middle + ([sep] + last))) == first + ([sep] + middle) + ([sep] + last)
  {}

  /** The pieces of `s` between separators. */
  function Units(sep: byte, s: seq<byte>): (units: seq<seq<byte>>)
    ensures units != []
  {
    if s == [] then [[]]
    else if s[0] == sep then [[]] + Units(sep, s[1..])
    else
      var more := Units(sep, s[1..]);
      [[s[0]] + more[0]] + more[1..]
  }

  predicate AllSeparable(sep: byte, pieces: seq<seq<byte>>) {
    forall k :: 0 <= k < |pieces| ==> sep !in pieces[k]
  }

  lemma {:induction false} UnitsOfPiece(sep: byte, piece: seq<byte>, rest: seq<byte>)
    requires sep !in piece
    requires rest == [] || rest[0] == sep
    ensures Units(sep, piece + rest) == [piece] + Units(sep, rest)[1..]
    decreases |piece|
  {
    if piece == [] {
      assert piece + rest == rest;
    } else {
      assert (piece + rest)[1..] == piece[1..] + rest;
      UnitsOfPiece(sep, piece[1..], rest);
      assert [piece[0]] + piece[1..] == piece;
    }
  }

  lemma {:induction false} UnitsOfJoin(sep: byte, pieces: seq<seq<byte>>)
    requires pieces != [] && AllSeparable(sep, pieces)
    ensures Units(sep, Join(sep, pieces)) == pieces
    decreases |pieces|
  {
    if |pieces| == 1 {
      UnitsOfPiece(sep, pieces[0], []);
      assert pieces[0] + [] == pieces[0];
    } else {
      UnitsOfJoin(sep, pieces[1..]);
      UnitsOfPiece(sep, pieces[0], [sep] + Join(sep, pieces[1..]));
      assert ([sep] + Join(sep, pieces[1..]))[1..] == Join(sep, pieces[1..]);
    }
  }

  /** Equal joins of separator-free pieces have equal pieces, save that no piece and one empty piece
      join alike. */
  lemma JoinIsInjective(sep: byte, a: seq<seq<byte>>, b: seq<seq<byte>>)
    requires AllSeparable(sep, a) && AllSeparable(sep, b)
    ensures Join(sep, a) == Join(sep, b) <==> a == b || (a in [[], [[]]] && b in [[], [[]]])
  {
    hide Units;
    if Join(sep, a) == Join(sep, b) && a != b {
      if a != [] && b != [] {
        UnitsOfJoin(sep, a);
        UnitsOfJoin(sep, b);
      } else {
        JoinsToNothing(sep, a);
        JoinsToNothing(sep, b);
      }
    }
  }

  lemma JoinsToNothing(sep: byte, pieces: seq<seq<byte>>)
    ensures Join(sep, pieces) == [] ==> pieces == [] || pieces == [[]]
  {}
}
