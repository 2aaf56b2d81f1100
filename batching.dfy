/** The partition of the URL list into the batches that are fetched together:
    `urls[i:i + max_concurrent]` for `i` in `range(0, len(urls), max_concurrent)`. */
module Batching {

  function Min(a: nat, b: nat): nat {
    if a <= b then a else b
  }

  /** The consecutive slices of `xs` of length `size`, the last one shorter
      when `size` does not divide `|xs|`. */
  function Batches<T>(xs: seq<T>, size: nat): seq<seq<T>>
    requires size > 0
    decreases |xs|
  {
    if xs == [] then []
    else
      var n := Min(size, |xs|);
      [xs[..n]] + Batches(xs[n..], size)
  }

  function Flatten<T>(bs: seq<seq<T>>): seq<T> {
    if bs == [] then [] else bs[0] + Flatten(bs[1..])
  }

  /** Concatenating the batches gives back the list: every URL is in exactly
      one batch, in its original order. */
  lemma {:induction false} BatchesCover<T>(xs: seq<T>, size: nat)
    requires size > 0
    ensures Flatten(Batches(xs, size)) == xs
  {
    if xs != [] {
      var n := Min(size, |xs|);
      BatchesCover(xs[n..], size);
      var bs := Batches(xs, size);
      assert bs == [xs[..n]] + Batches(xs[n..], size);
      assert bs[0] == xs[..n] && bs[1..] == Batches(xs[n..], size);
      assert Flatten(bs) == xs[..n] + Flatten(Batches(xs[n..], size));
      assert xs == xs[..n] + xs[n..];
    }
  }

  /** Every batch is non-empty and no longer than `size`; all but the last are
      exactly `size` long. */
  lemma {:induction false} BatchesShape<T>(xs: seq<T>, size: nat)
    requires size > 0
    ensures forall b | 0 <= b < |Batches(xs, size)| :: 0 < |Batches(xs, size)[b]| <= size
    ensures forall b | 0 <= b < |Batches(xs, size)| - 1 :: |Batches(xs, size)[b]| == size
  {
    if xs != [] {
      var n := Min(size, |xs|);
      BatchesShape(xs[n..], size);
      var bs := Batches(xs, size);
      var rest := Batches(xs[n..], size);
      assert bs == [xs[..n]] + rest;
      assert forall b | 1 <= b < |bs| :: bs[b] == rest[b - 1];
      if n < size {
        assert rest == [];
      }
    }
  }

  /** Element `j` of batch `b` is the URL at position `b * size + j`: the
      session id `i + j` of the crawler is that position, so ids are distinct. */
  lemma {:induction false} BatchAt<T>(xs: seq<T>, size: nat, b: nat, j: nat)
    requires size > 0
    requires b < |Batches(xs, size)| && j < |Batches(xs, size)[b]|
    ensures b * size + j < |xs| && Batches(xs, size)[b][j] == xs[b * size + j]
  {
    var n := Min(size, |xs|);
    var rest := Batches(xs[n..], size);
    assert Batches(xs, size) == [xs[..n]] + rest;
    if b > 0 {
      assert Batches(xs, size)[b] == rest[b - 1];
      BatchAt(xs[n..], size, b - 1, j);
      assert n == size;
      MulStep(b, size);
      assert xs[n..][(b - 1) * size + j] == xs[b * size + j];
    }
  }

  /** One more batch of `size` places. Stated over variables so that the
      non-linear step is taken once, away from the sequence terms. */
  lemma MulStep(b: nat, size: nat)
    requires b > 0
    ensures (b - 1) * size + size == b * size
  {
  }

  /** There are `ceil(|xs| / size)` batches: they hold at least `|xs|`
      places, and one batch fewer would not. */
  lemma {:induction false} BatchCount<T>(xs: seq<T>, size: nat)
    requires size > 0
    ensures |xs| <= |Batches(xs, size)| * size
    ensures (|Batches(xs, size)| - 1) * size < |xs|
  {
    if xs != [] {
      var n := Min(size, |xs|);
      var rest := Batches(xs[n..], size);
      BatchCount(xs[n..], size);
      assert |Batches(xs, size)| == |rest| + 1;
      MulStep(|rest| + 1, size);
    }
  }

  /** The batch that starts at position `i` is `xs[i:i + size]`, and the
      batches after it are those of the rest of the list. */
  lemma BatchesStep<T>(xs: seq<T>, size: nat, i: nat)
    requires size > 0 && i < |xs|
    ensures Batches(xs[i..], size)
         == [xs[i..Min(i + size, |xs|)]] + Batches(xs[Min(i + size, |xs|)..], size)
  {
    var n := Min(size, |xs| - i);
    assert xs[i..][..n] == xs[i..Min(i + size, |xs|)];
    assert xs[i..][n..] == xs[Min(i + size, |xs|)..];
  }

  /** The batches taken so far, followed by the batches of what is left,
      stay the batches of the whole list when one more batch is taken. */
  lemma BatchesAdvance<T>(xs: seq<T>, size: nat, done: seq<seq<T>>, i: nat)
    requires size > 0 && i < |xs|
    requires done + Batches(xs[i..], size) == Batches(xs, size)
    ensures (done + [xs[i..Min(i + size, |xs|)]]) + Batches(xs[Min(i + size, |xs|)..], size)
         == Batches(xs, size)
  {
    BatchesStep(xs, size, i);
    var b, rest := xs[i..Min(i + size, |xs|)], Batches(xs[Min(i + size, |xs|)..], size);
    assert (done + [b]) + rest == done + ([b] + rest);
  }
}
