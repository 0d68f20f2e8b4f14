/**
 * The mean accumulator: `findMean` and its mutable `(sum, count)` summary.
 * Arithmetic is exact (`real`); the source's `float` rounding is not modelled.
 */
module Stats {
  import opened Wrappers

  /** The sum of `xs`, added up from the first element to the last. */
  function Sum(xs: seq<real>): real
  {
    if xs == [] then 0.0 else Sum(xs[..|xs| - 1]) + xs[|xs| - 1]
  }

  /** `n` copies of `xs`, one after the other. */
  function Repeat<T>(xs: seq<T>, n: nat): seq<T>
  {
    if n == 0 then [] else Repeat(xs, n - 1) + xs
  }

  /** `n` copies hold `n` times as many elements. */
  lemma {:induction false} RepeatLength<T>(xs: seq<T>, n: nat)
    ensures |Repeat(xs, n)| == n * |xs|
  {
    if n > 0 {
      RepeatLength(xs, n - 1);
    }
  }

  /** The mean of `xs`; there is none for an empty sequence (never 0 for no samples). */
  function Mean(xs: seq<real>): (r: Option<real>)
    ensures r.None? <==> xs == []
  {
    if xs == [] then None else Some(Sum(xs) / |xs| as real)
  }

  /** The mean times the number of samples gives back their sum. */
  lemma MeanTimesCount(xs: seq<real>)
    requires xs != []
    ensures Mean(xs).value * |xs| as real == Sum(xs)
  {
    var c := |xs| as real;
    assert Mean(xs).value == Sum(xs) / c;
  }

  /** Summing a concatenation is adding the sums of its parts: combining two summaries is exact. */
  lemma {:induction false} SumAppend(a: seq<real>, b: seq<real>)
    ensures Sum(a + b) == Sum(a) + Sum(b)
    decreases |b|
  {
    if b != [] {
      var b' := b[..|b| - 1];
      SumAppend(a, b');
      assert (a + b)[..|a + b| - 1] == a + b';
    } else {
      assert a + b == a;
    }
  }

  /** The sum does not depend on the order of the samples. */
  lemma {:induction false} SumPermutation(a: seq<real>, b: seq<real>)
    requires multiset(a) == multiset(b)
    ensures Sum(a) == Sum(b)
    decreases |a|
  {
    if a != [] {
      var x := a[|a| - 1];
      var a' := a[..|a| - 1];
      assert a == a' + [x];
      assert x in multiset(b);
      var k :| 0 <= k < |b| && b[k] == x;
      var b' := b[..k] + b[k + 1..];
      assert b == b[..k] + [x] + b[k + 1..];
      assert multiset(b) == multiset(b[..k]) + multiset{x} + multiset(b[k + 1..]);
      assert multiset(a) == multiset(a') + multiset{x};
      assert multiset(b') == multiset(b[..k]) + multiset(b[k + 1..]);
      assert multiset(a') == multiset(a) - multiset{x};
      assert multiset(b') == multiset(b) - multiset{x};
      SumPermutation(a', b');
      SumAppend(b[..k] + [x], b[k + 1..]);
      SumAppend(b[..k], b[k + 1..]);
    } else {
      assert |b| == |multiset(b)| == 0;
    }
  }

  /** The mean of a reordering of the samples is the same mean. */
  lemma MeanPermutation(a: seq<real>, b: seq<real>)
    requires multiset(a) == multiset(b)
    ensures Mean(a) == Mean(b)
  {
    SumPermutation(a, b);
    assert |a| == |multiset(a)| == |multiset(b)| == |b|;
  }

  lemma {:induction false} SumRepeat(xs: seq<real>, n: nat)
    ensures Sum(Repeat(xs, n)) == n as real * Sum(xs)
  {
    if n > 0 {
      SumRepeat(xs, n - 1);
      SumAppend(Repeat(xs, n - 1), xs);
      assert (n - 1) as real * Sum(xs) + Sum(xs) == n as real * Sum(xs);
    }
  }

  /** Division undoes multiplication by a non-zero factor. */
  lemma Quotient(y: real, s: real, c: real)
    requires c != 0.0 && y * c == s
    ensures y == s / c
  {
  }

  /** Counting `a` groups of `b` samples gives the same real number either way. */
  lemma {:induction false} CastProduct(a: nat, b: nat, p: nat)
    requires p == a * b
    ensures p as real == a as real * b as real
  {
    if a > 0 {
      CastProduct(a - 1, b, p - b);
    }
  }

  /** A common non-zero factor of numerator and denominator cancels. */
  lemma DivCancel(k: real, s: real, c: real)
    requires k != 0.0 && c != 0.0
    ensures (k * s) / (k * c) == s / c
  {
    var q := s / c;
    assert q * c == s;
    assert q * (k * c) == k * (q * c);
    Quotient(q, k * s, k * c);
  }

  /** A ratio whose numerator and denominator are `k` times those of another equals it. */
  lemma RatioScaled(a: real, b: real, s: real, c: real, k: real)
    requires k != 0.0 && c != 0.0 && a == k * s && b == k * c
    ensures a / b == s / c
  {
    DivCancel(k, s, c);
  }

  /** Repeating the same samples any positive number of times leaves their mean unchanged. */
  lemma MeanRepeat(xs: seq<real>, n: nat)
    requires n > 0
    ensures Mean(Repeat(xs, n)) == Mean(xs)
  {
    if xs != [] {
      var r := Repeat(xs, n);
      SumRepeat(xs, n);
      RepeatLength(xs, n);
      CastProduct(n, |xs|, |r|);
      RatioScaled(Sum(r), |r| as real, Sum(xs), |xs| as real, n as real);
    }
  }

  lemma {:induction false} SumBounds(xs: seq<real>, lo: real, hi: real)
    requires forall k :: 0 <= k < |xs| ==> lo <= xs[k] <= hi
    ensures |xs| as real * lo <= Sum(xs) <= |xs| as real * hi
  {
    if xs != [] {
      SumBounds(xs[..|xs| - 1], lo, hi);
    }
  }

  /** The mean lies between the smallest and the largest sample. */
  lemma MeanBounds(xs: seq<real>, lo: real, hi: real)
    requires xs != []
    requires forall k :: 0 <= k < |xs| ==> lo <= xs[k] <= hi
    ensures lo <= Mean(xs).value <= hi
  {
    SumBounds(xs, lo, hi);
    MeanTimesCount(xs);
  }

  /** The summary `FloatSummary` keeps while samples are collected into it. */
  class FloatSummary {
    var sum: real
    var count: int
    /** The samples accepted so far, directly or through `Combine`. */
    ghost var accepted: seq<real>

    ghost predicate Valid()
      reads this
    {
      sum == Sum(accepted) && count == |accepted|
    }

    constructor ()
      ensures Valid() && accepted == []
    {
      sum := 0.0;
      count := 0;
      accepted := [];
    }

    /** `accept(value)`: add one sample. */
    method Accept(value: real)
      requires Valid()
      modifies this
      ensures Valid() && accepted == old(accepted) + [value]
    {
      assert (accepted + [value])[..|accepted|] == accepted;
      sum := sum + value;
      count := count + 1;
      accepted := accepted + [value];
    }

    /** `combine(other)`: absorb another summary, which may be this very one. */
    method Combine(other: FloatSummary)
      requires Valid() && other.Valid()
      modifies this
      ensures Valid() && accepted == old(accepted) + old(other.accepted)
    {
      SumAppend(accepted, other.accepted);
      sum, count, accepted := sum + other.sum, count + other.count, accepted + other.accepted;
    }
  }

  /** `findMean`: collect the samples into a fresh summary and divide, refusing an empty one. */
  method FindMean(samples: seq<real>) returns (r: Option<real>)
    ensures r == Mean(samples)
  {
    var statistics := new FloatSummary();
    for i := 0 to |samples|
      invariant statistics.Valid() && statistics.accepted == samples[..i]
    {
      statistics.Accept(samples[i]);
      assert samples[..i + 1] == samples[..i] + [samples[i]];
    }
    assert samples[..|samples|] == samples;
    if statistics.count == 0 {
      return None;
    }
    return Some(statistics.sum / statistics.count as real);
  }
}
