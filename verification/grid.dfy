/**
 * The product grid (app.py lines 193-198): the filtered products are laid out
 * three to a row, `iloc[i:i+3]` for `i` in `range(0, n, 3)`, and the j-th
 * product of a batch goes to column j.
 */
module Grid {
  import opened Seqs

  const Width := 3

  function Min(a: int, b: int): int {
    if a <= b then a else b
  }

  /** `batch` is the k-th row of the grid: the `Width` items from `Width * k`, clipped at the end. */
  ghost predicate IsBatchAt<T>(items: seq<T>, batch: seq<T>, k: nat) {
    Width * k <= |items| && batch == items[Width * k .. Min(Width * k + Width, |items|)]
  }

  lemma FlattenSnoc<T>(ss: seq<seq<T>>, s: seq<T>)
    ensures Flatten(ss + [s]) == Flatten(ss) + s
  {
    assert (ss + [s])[..|ss|] == ss;
  }

  /** Cuts the product list into rows of the grid, as the page's `for` loop does. */
  method Batches<T>(items: seq<T>) returns (batches: seq<seq<T>>)
    ensures Flatten(batches) == items
    ensures |batches| == (|items| + Width - 1) / Width
    ensures forall k :: 0 <= k < |batches| ==> 1 <= |batches[k]| <= Width
    ensures forall k :: 0 <= k < |batches| - 1 ==> |batches[k]| == Width
    ensures forall k :: 0 <= k < |batches| ==> IsBatchAt(items, batches[k], k)
  {
    var n := |items|;
    batches := [];
    var i := 0;
    while i < n
      invariant i == Width * |batches| && i < n + Width
      invariant Flatten(batches) == items[..Min(i, n)]
      invariant forall k :: 0 <= k < |batches| ==> 1 <= |batches[k]| <= Width
      invariant forall k :: 0 <= k < |batches| - 1 ==> |batches[k]| == Width
      invariant forall k :: 0 <= k < |batches| ==> IsBatchAt(items, batches[k], k)
      invariant i < n ==> forall k :: 0 <= k < |batches| ==> |batches[k]| == Width
      decreases n - i
    {
      var batch := items[i .. Min(i + Width, n)];
      FlattenSnoc(batches, batch);
      assert items[..Min(i + Width, n)] == items[..i] + batch;
      batches := batches + [batch];
      i := i + Width;
    }
    assert items[..n] == items;
  }

  /** The m-th product lands in grid row m / 3, column m % 3. */
  lemma CardPlacement<T>(items: seq<T>, batches: seq<seq<T>>, m: nat)
    requires forall k :: 0 <= k < |batches| ==> IsBatchAt(items, batches[k], k)
    requires |batches| == (|items| + Width - 1) / Width
    requires m < |items|
    ensures m / Width < |batches| && m % Width < |batches[m / Width]|
    ensures batches[m / Width][m % Width] == items[m]
  {
    var k, j := m / Width, m % Width;
    assert m == Width * k + j;
    assert k < |batches|;
    assert IsBatchAt(items, batches[k], k);
  }
}
