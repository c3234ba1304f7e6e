/** A stream cut into chunks, a chunk into views, and offsets in a stream. */
module Chunks {
  import opened Machine

  function Flatten(chunks: seq<seq<byte>>): seq<byte> {
    if chunks == [] then [] else Flatten(chunks[..|chunks| - 1]) + chunks[|chunks| - 1]
  }

  /** The first of the views of at most 256 bytes that a reader takes of a chunk. */
  function FirstView(chunk: seq<byte>): (view: seq<byte>)
    ensures |view| <= 256 && view <= chunk && (chunk != [] ==> view != [])
  {
    if |chunk| <= 256 then chunk else chunk[..256]
  }

  lemma ViewSuffix(carry: seq<byte>, view: seq<byte>, n: nat)
    requires |carry| <= n <= |carry + view|
    ensures (carry + view)[n..] == view[n - |carry|..]
  {}

  lemma EmptyView(carry: seq<byte>)
    ensures var view: seq<byte> := []; carry + view == carry && carry + view[..0] == carry
  {}

  function SaturatingSub(a: nat, b: nat): nat { if a >= b then a - b else 0 }

  lemma SubtractNothing(a: nat)
    ensures SaturatingSub(a, 0) == a
  {}

  lemma SubtractTwice(pos: nat, consumed: nat, before: nat)
    requires consumed + before <= pos
    ensures SaturatingSub(SaturatingSub(pos, consumed), before) == pos - consumed - before
  {}
}
