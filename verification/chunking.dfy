/**
 An independent reference for how a batched sink groups its commands: a
 sequence cut into consecutive pieces of `k` elements, always closed by one
 more piece holding whatever is left (possibly nothing). The batched sink's
 loop is proved to execute exactly these pieces.
 */
module Chunking {

  /** `s` cut into full pieces of `k`, then one trailing piece of the remainder. */
  function Chunks<T>(s: seq<T>, k: nat): (pieces: seq<seq<T>>)
    requires k >= 1
    decreases |s|
  {
    if |s| < k then [s] else [s[..k]] + Chunks(s[k..], k)
  }

  /** The pieces glued back together, in order. */
  function Flatten<T>(ss: seq<seq<T>>): (s: seq<T>)
  {
    if ss == [] then [] else ss[0] + Flatten(ss[1..])
  }

  lemma {:induction false} FlattenConcat<T>(a: seq<seq<T>>, b: seq<seq<T>>)
    ensures Flatten(a + b) == Flatten(a) + Flatten(b)
    decreases |a|
  {
    if a == [] {
      assert a + b == b;
    } else {
      assert (a + b)[1..] == a[1..] + b;
      FlattenConcat(a[1..], b);
    }
  }

  /** Quotient and remainder are the only ones: `q * k + r` with `0 <= r < k`. */
  lemma DivModUnique(n: int, k: int, q: int, r: int)
    requires k >= 1 && 0 <= r < k && n == q * k + r
    ensures n / k == q && n % k == r
  {
    var q0, r0 := n / k, n % k;
    assert n == q0 * k + r0;
    assert (q - q0) * k == r0 - r;
    MulSign(q - q0, k);
  }

  /** A nonzero multiple of `k` is at least `k` away from zero. */
  lemma MulSign(a: int, k: int)
    requires k >= 1
    ensures a >= 1 ==> a * k >= k
    ensures a <= -1 ==> a * k <= -k
  {
    if a >= 1 {
      MulMonotone(a, k);
    } else if a <= -1 {
      MulMonotone(-a, k);
      assert a * k == -((-a) * k);
    }
  }

  lemma MulMonotone(a: int, k: int)
    requires a >= 1 && k >= 1
    ensures a * k >= k
  {
    assert a * k == (a - 1) * k + k;
  }

  /** Dividing once more after taking one piece away. */
  lemma DivStep(n: nat, k: nat)
    requires n >= k >= 1
    ensures n / k == (n - k) / k + 1
    ensures n % k == (n - k) % k
  {
    var q, r := (n - k) / k, (n - k) % k;
    assert n - k == q * k + r;
    assert n == (q + 1) * k + r;
    DivModUnique(n, k, q + 1, r);
  }

  /** Nothing is lost, duplicated or reordered: the pieces rebuild `s`. */
  lemma {:induction false} ChunksFlatten<T>(s: seq<T>, k: nat)
    requires k >= 1
    ensures Flatten(Chunks(s, k)) == s
    decreases |s|
  {
    if |s| >= k {
      ChunksFlatten(s[k..], k);
      assert Chunks(s, k)[1..] == Chunks(s[k..], k);
      assert s == s[..k] + s[k..];
    }
  }

  /** There are `|s| / k` full pieces and one trailing piece of `|s| % k`. */
  lemma {:induction false} ChunksShape<T>(s: seq<T>, k: nat)
    requires k >= 1
    ensures |Chunks(s, k)| == |s| / k + 1
    ensures forall j :: 0 <= j < |Chunks(s, k)| - 1 ==> |Chunks(s, k)[j]| == k
    ensures |Chunks(s, k)[|Chunks(s, k)| - 1]| == |s| % k
    decreases |s|
  {
    if |s| >= k {
      ChunksShape(s[k..], k);
      DivStep(|s|, k);
      var c := Chunks(s, k);
      assert c[1..] == Chunks(s[k..], k);
      forall j | 0 <= j < |c| - 1
        ensures |c[j]| == k
      {
        if j > 0 {
          assert c[j] == c[1..][j - 1];
        }
      }
    }
  }
}
