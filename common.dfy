/** Small shared vocabulary: an error-carrying result, an optional value and
    sums over sequences of dose counts. */
module Common {

  datatype Result<+T, +E> = Success(value: T) | Failure(error: E)

  datatype Option<+T> = None | Some(value: T)

  function Min(a: nat, b: nat): (m: nat)
    ensures m <= a && m <= b && (m == a || m == b)
  {
    if a <= b then a else b
  }

  /** Sum of dose counts. */
  function Sum(s: seq<nat>): nat
  {
    SumTo(s, |s|)
  }

  /** Sum of the first k entries; indexing instead of slicing keeps unfolding cheap. */
  function SumTo(s: seq<nat>, k: nat): nat
    requires k <= |s|
  {
    if k == 0 then 0 else SumTo(s, k - 1) + s[k - 1]
  }

  /** The partial sum only looks at the entries it covers. */
  lemma {:induction false} SumToAgree(s: seq<nat>, t: seq<nat>, k: nat)
    requires k <= |s| && k <= |t|
    requires forall i :: 0 <= i < k ==> s[i] == t[i]
    ensures SumTo(s, k) == SumTo(t, k)
  {
    if k > 0 {
      SumToAgree(s, t, k - 1);
    }
  }

  /** Sum of the first k real weights. */
  function RealSumTo(s: seq<real>, k: nat): real
    requires k <= |s|
  {
    if k == 0 then 0.0 else RealSumTo(s, k - 1) + s[k - 1]
  }

  function Zeros(n: nat): (z: seq<nat>)
    ensures |z| == n && forall i :: 0 <= i < n ==> z[i] == 0
  {
    seq(n, _ => 0)
  }

  lemma {:induction false} SumAppend(a: seq<nat>, b: seq<nat>)
    ensures Sum(a + b) == Sum(a) + Sum(b)
  {
    SumAppendTo(a, b, |b|);
  }

  lemma {:induction false} SumAppendTo(a: seq<nat>, b: seq<nat>, k: nat)
    requires k <= |b|
    ensures SumTo(a + b, |a| + k) == Sum(a) + SumTo(b, k)
  {
    if k == 0 {
      SumToAgree(a + b, a, |a|);
    } else {
      SumAppendTo(a, b, k - 1);
      assert (a + b)[|a| + k - 1] == b[k - 1];
    }
  }

  lemma SumCons(x: nat, s: seq<nat>)
    ensures Sum([x] + s) == x + Sum(s)
  {
    SumAppend([x], s);
    assert SumTo([x], 0) == 0;
  }

  lemma SumSnoc(s: seq<nat>, x: nat)
    ensures Sum(s + [x]) == Sum(s) + x
  {
    SumAppend(s, [x]);
    assert SumTo([x], 0) == 0;
  }

  lemma {:induction false} SumZeros(n: nat)
    ensures Sum(Zeros(n)) == 0
  {
    SumZerosTo(n, n);
  }

  lemma {:induction false} SumZerosTo(n: nat, k: nat)
    requires k <= n
    ensures SumTo(Zeros(n), k) == 0
  {
    if k > 0 {
      SumZerosTo(n, k - 1);
    }
  }

  /** Raising (or lowering) one entry changes the sum by exactly that amount. */
  lemma {:induction false} SumUpdate(s: seq<nat>, i: nat, v: nat)
    requires i < |s|
    ensures Sum(s[i := v]) + s[i] == Sum(s) + v
  {
    SumUpdateTo(s, i, v, |s|);
  }

  lemma {:induction false} SumUpdateTo(s: seq<nat>, i: nat, v: nat, k: nat)
    requires i < |s| && k <= |s|
    ensures i < k ==> SumTo(s[i := v], k) + s[i] == SumTo(s, k) + v
    ensures k <= i ==> SumTo(s[i := v], k) == SumTo(s, k)
  {
    if k > 0 {
      SumUpdateTo(s, i, v, k - 1);
    }
  }

  /** Sum of the entries from position k on. */
  function SumFrom(s: seq<nat>, k: nat): nat
    requires k <= |s|
    decreases |s| - k
  {
    if k == |s| then 0 else s[k] + SumFrom(s, k + 1)
  }

  /** The entries before k and those from k on make up the whole sum. */
  lemma {:induction false} SumSplit(s: seq<nat>, k: nat)
    requires k <= |s|
    ensures SumTo(s, k) + SumFrom(s, k) == Sum(s)
    decreases |s| - k
  {
    if k < |s| {
      SumSplit(s, k + 1);
    }
  }
}
