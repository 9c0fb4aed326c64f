/** A file cut into blocks of one size, the last one shorter. */
module Slices {
  import opened Basics
  import opened Radix
  import opened Streaming

  function Cut(content: seq<byte>, size: nat): (r: seq<seq<byte>>)
    requires size > 0
    ensures forall i :: 0 <= i < |r| ==> r[i] != [] && |r[i]| <= size
    decreases |content|
  {
    if content == [] then []
    else [content[..Min(size, |content|)]] + Cut(content[Min(size, |content|)..], size)
  }

  /** The number of blocks, as the upload computes it. */
  lemma {:induction false} SliceCount(content: seq<byte>, size: nat)
    requires size > 0
    ensures |Cut(content, size)| == (|content| + size - 1) / size
    decreases |content|
  {
    if content == [] {
      DivBelow(size - 1, size);
    } else {
      var rest := content[Min(size, |content|)..];
      SliceCount(rest, size);
      if |content| < size {
        DivBelow(size - 1, size);
        DivStep(|content| - 1, size);
        DivBelow(|content| - 1, size);
      } else {
        DivStep(|content| - 1, size);
      }
    }
  }

  lemma {:induction false} DivBelow(a: nat, d: nat)
    requires a < d
    ensures a / d == 0
  {
  }

  lemma {:induction false} DivStep(a: nat, d: nat)
    requires d > 0
    ensures (a + d) / d == a / d + 1
  {
    var q, r := a / d, a % d;
    assert a == q * d + r;
    assert a + d == (q + 1) * d + r;
    DivMod(q + 1, r, d);
  }

  /** Reading block after block: each read takes the next slice and leaves the others. */
  lemma ReadNext(content: seq<byte>, size: nat)
    requires size > 0 && content != []
    ensures var n := Min(size, |content|);
            Cut(content, size)[0] == content[..n] && Cut(content, size)[1..] == Cut(content[n..], size)
  {
  }

  lemma {:induction false} ConcatCons(first: seq<byte>, more: seq<seq<byte>>)
    ensures Concat([first] + more) == first + Concat(more)
  {
    if more == [] {
      assert [first] + more == [first] && [first][..0] == [];
    } else {
      var all := [first] + more;
      assert all[..|all| - 1] == [first] + more[..|more| - 1];
      ConcatCons(first, more[..|more| - 1]);
    }
  }

  /** The blocks, put together again, are the file. */
  lemma {:induction false} ConcatSlices(content: seq<byte>, size: nat)
    requires size > 0
    ensures Concat(Cut(content, size)) == content
    decreases |content|
  {
    if content != [] {
      var n := Min(size, |content|);
      ConcatSlices(content[n..], size);
      ConcatCons(content[..n], Cut(content[n..], size));
      assert content[..n] + content[n..] == content;
    }
  }
}
