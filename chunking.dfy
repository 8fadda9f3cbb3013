/**
 * `np.array_split(uris, len(uris) // 50000 + 1)`: the URL list is cut into
 * k = N div 50000 + 1 consecutive pieces. By numpy's documented rule, with
 * q = N div k and e = N mod k, the first e pieces have q + 1 elements and the
 * remaining k - e have q.
 */
module Chunking {
  import opened Text

  /** The most URLs one sitemap file may list (sitemaps.org protocol 0.9). */
  const MaxUrlsPerFile := 50000

  /** `len(uris) // 50000 + 1`: the number of pieces. */
  function ChunkCount(n: nat): (k: nat)
    ensures k >= 1
    ensures (k - 1) * MaxUrlsPerFile <= n < k * MaxUrlsPerFile
  {
    n / MaxUrlsPerFile + 1
  }

  function Sum(xs: seq<nat>): nat
    decreases |xs|
  {
    if xs == [] then 0 else xs[0] + Sum(xs[1..])
  }

  /** `m * [v]` */
  function Repeat(v: nat, m: nat): (xs: seq<nat>)
    ensures |xs| == m && forall i :: 0 <= i < m ==> xs[i] == v
  {
    seq(m, _ => v)
  }

  lemma {:induction false} SumAppend(xs: seq<nat>, ys: seq<nat>)
    ensures Sum(xs + ys) == Sum(xs) + Sum(ys)
    decreases |xs|
  {
    if xs != [] {
      assert (xs + ys)[0] == xs[0];
      assert (xs + ys)[1..] == xs[1..] + ys;
      SumAppend(xs[1..], ys);
    } else {
      assert xs + ys == ys;
    }
  }

  lemma {:induction false} SumRepeat(v: nat, m: nat)
    ensures Sum(Repeat(v, m)) == v * m
    decreases m
  {
    if m > 0 {
      assert Repeat(v, m)[1..] == Repeat(v, m - 1);
      SumRepeat(v, m - 1);
    }
  }

  /**
   * numpy's section sizes `extras * [each + 1] + (k - extras) * [each]`: they
   * add up to n, and piece i is one longer exactly when i < n mod k.
   */
  function SectionSizes(n: nat, k: nat): (sizes: seq<nat>)
    requires k >= 1
    ensures |sizes| == k && Sum(sizes) == n
    ensures forall i :: 0 <= i < k ==> sizes[i] == if i < n % k then n / k + 1 else n / k
  {
    var each, extras := n / k, n % k;
    var sizes := Repeat(each + 1, extras) + Repeat(each, k - extras);
    SectionSizesSum(each, extras, k);
    sizes
  }

  /** `extras` sections of `each + 1` and `k - extras` of `each` hold `each * k + extras` elements. */
  lemma SectionSizesSum(each: nat, extras: nat, k: nat)
    requires extras <= k
    ensures Sum(Repeat(each + 1, extras) + Repeat(each, k - extras)) == each * k + extras
  {
    SumAppend(Repeat(each + 1, extras), Repeat(each, k - extras));
    SumRepeat(each + 1, extras);
    SumRepeat(each, k - extras);
    SizesAddUp(each, extras, k);
  }

  lemma SizesAddUp(each: nat, extras: nat, k: nat)
    requires extras <= k
    ensures (each + 1) * extras + each * (k - extras) == each * k + extras
  {
    assert (each + 1) * extras == each * extras + extras;
    assert each * (k - extras) == each * k - each * extras;
  }

  /** Cuts xs into consecutive pieces of the given sizes. */
  function Cut<T>(xs: seq<T>, sizes: seq<nat>): (pieces: seq<seq<T>>)
    requires Sum(sizes) == |xs|
    ensures |pieces| == |sizes|
    ensures forall i :: 0 <= i < |sizes| ==> |pieces[i]| == sizes[i]
    ensures Flatten(pieces) == xs
    decreases |sizes|
  {
    if sizes == [] then []
    else
      var rest := Cut(xs[sizes[0]..], sizes[1..]);
      assert xs[..sizes[0]] + xs[sizes[0]..] == xs;
      [xs[..sizes[0]]] + rest
  }

  /** `np.array_split(xs, k)` for k >= 1: k consecutive pieces that together are xs. */
  function ArraySplit<T>(xs: seq<T>, k: nat): (chunks: seq<seq<T>>)
    requires k >= 1
    ensures |chunks| == k
    ensures Flatten(chunks) == xs
  {
    Cut(xs, SectionSizes(|xs|, k))
  }

  /** numpy's size rule: the first N mod k pieces have N div k + 1 elements, the others N div k. */
  lemma ArraySplitSizes<T>(xs: seq<T>, k: nat)
    requires k >= 1
    ensures forall i :: 0 <= i < k ==>
      |ArraySplit(xs, k)[i]| == if i < |xs| % k then |xs| / k + 1 else |xs| / k
  {
  }

  /** Line 80: the URL list split into `len // 50000 + 1` pieces. */
  function Chunks<T>(xs: seq<T>): (chunks: seq<seq<T>>)
    ensures |chunks| == |xs| / MaxUrlsPerFile + 1
    ensures Flatten(chunks) == xs
  {
    ArraySplit(xs, ChunkCount(|xs|))
  }

  /** Piece sizes differ by at most one, and the longer pieces come first. */
  lemma ChunkSizesBalanced<T>(xs: seq<T>, k: nat, i: nat, j: nat)
    requires k >= 1 && i < j < k
    ensures |ArraySplit(xs, k)[j]| <= |ArraySplit(xs, k)[i]| <= |ArraySplit(xs, k)[j]| + 1
  {
    ArraySplitSizes(xs, k);
  }

  lemma QuotientBelow(n: nat, k: nat, m: nat)
    requires k >= 1 && n < k * m
    ensures n / k < m
  {
  }

  /**
   * No piece has more than 50,000 URLs. The bound is reached: 99,999 URLs
   * give two pieces, of 50,000 and 49,999.
   */
  lemma ChunkSizesBounded<T>(xs: seq<T>)
    ensures forall i :: 0 <= i < |Chunks(xs)| ==> |Chunks(xs)[i]| <= MaxUrlsPerFile
  {
    var n, k := |xs|, ChunkCount(|xs|);
    ArraySplitSizes(xs, k);
    QuotientBelow(n, k, MaxUrlsPerFile);
    if n % k > 0 {
      assert n / k + 1 <= MaxUrlsPerFile;
    }
  }

  /** A non-empty list gives only non-empty pieces. */
  lemma ChunksNonEmpty<T>(xs: seq<T>)
    requires xs != []
    ensures forall i :: 0 <= i < |Chunks(xs)| ==> Chunks(xs)[i] != []
  {
    var n, k := |xs|, ChunkCount(|xs|);
    ArraySplitSizes(xs, k);
    assert k <= n;
    assert n / k >= 1;
  }

  /** An empty result still yields exactly one, empty, piece. */
  lemma EmptyGivesOneEmptyChunk<T>()
    ensures Chunks<T>([]) == [[]]
  {
  }

  /** The bound of 50,000 per piece is not strict. */
  lemma BoundReached()
    ensures |Chunks(seq(99999, i => i))| == 2
    ensures |Chunks(seq(99999, i => i))[0]| == 50000
    ensures |Chunks(seq(99999, i => i))[1]| == 49999
  {
    ArraySplitSizes(seq(99999, i => i), 2);
  }
}
