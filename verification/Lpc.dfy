/** Linear prediction (section 9.2.6 of RFC 9639): residuals and the signal they restore.

    Every loop is a running sum in a machine word. Whatever the order of its terms, that sum
    is proved to be the inner product of coefficients and past samples in that word, and
    restoring from the computed residual to give back the samples. */
module Lpc {
  import opened Bits
  import opened Words

  /** c[0] * d[i - 1] + c[1] * d[i - 2] + ..., the first n terms */
  function Dot(c: seq<int>, d: seq<int>, i: nat, n: nat): int
    requires n <= |c| && n <= i <= |d|
  {
    if n == 0 then 0 else Dot(c, d, i, n - 1) + c[n - 1] * d[i - n]
  }

  /** x >> k, arithmetic */
  function Asr(x: int, k: nat): int
    decreases k
  {
    if k == 0 then x else Asr(x / 2, k - 1)
  }

  /** The prediction for sample i from the ones before it: a 32-bit sum, or a 64-bit one that
      is cut to 32 bits after the shift. */
  function Predicted(c: seq<int>, d: seq<int>, i: nat, shift: nat, wide: bool): int
    requires |c| <= i <= |d|
  {
    if wide then Int32(Asr(Int64(Dot(c, d, i, |c|)), shift)) else Asr(Int32(Dot(c, d, i, |c|)), shift)
  }

  /** The residual of a signal d after a history of |c| samples. */
  function Residual(c: seq<int>, d: seq<int>, shift: nat, wide: bool): (r: seq<int>)
    requires |c| <= |d|
    ensures |r| == |d| - |c|
  {
    seq(|d| - |c|, k requires 0 <= k < |d| - |c| => Int32(d[|c| + k] - Predicted(c, d, |c| + k, shift, wide)))
  }

  /** The signal from its history and a residual. */
  function Restored(c: seq<int>, history: seq<int>, r: seq<int>, shift: nat, wide: bool): (d: seq<int>)
    requires |history| == |c|
    ensures |d| == |c| + |r|
    decreases |r|
  {
    if r == [] then history
    else
      var before := Restored(c, history, r[..|r| - 1], shift, wide);
      before + [Int32(r[|r| - 1] + Predicted(c, before, |before|, shift, wide))]
  }

  // ----- what a prediction is

  /** c[j] times the sample j + 1 places before sample i, for every j. */
  function Terms(c: seq<int>, d: seq<int>, i: nat): seq<int>
    requires |c| <= i <= |d|
  {
    seq(|c|, j requires 0 <= j < |c| => c[j] * d[i - 1 - j])
  }

  function Sum(s: seq<int>): int {
    if s == [] then 0 else Sum(s[..|s| - 1]) + s[|s| - 1]
  }

  /** A sum kept in a signed word of 64 or 32 bits. */
  function InWord(x: int, wide: bool): int { if wide then Int64(x) else Int32(x) }

  /** p is what the source predicts from the exact inner product: the sum in its machine word,
      divided by 2^shift and rounded down, and cut to 32 bits if it was wider. */
  ghost predicate IsPrediction(p: int, product: int, shift: nat, wide: bool) {
    exists q :: IsFloor(q, InWord(product, wide), shift) && p == if wide then Int32(q) else q
  }

  /** q is x divided by 2^k, rounded down. */
  predicate IsFloor(q: int, x: int, k: nat) {
    q * Pow2(k) <= x < (q + 1) * Pow2(k)
  }

  lemma {:induction false} AsrIsFloor(x: int, k: nat)
    ensures IsFloor(Asr(x, k), x, k)
    decreases k
  {
    if k > 0 {
      AsrIsFloor(x / 2, k - 1);
      HalfIsFloor(Asr(x / 2, k - 1), x, Pow2(k - 1));
    }
  }

  lemma HalfIsFloor(q: int, x: int, half: nat)
    requires q * half <= x / 2 < (q + 1) * half
    ensures q * (2 * half) <= x < (q + 1) * (2 * half)
  {
    assert q * (2 * half) == 2 * (q * half);
    assert (q + 1) * (2 * half) == 2 * ((q + 1) * half);
  }

  lemma {:induction false} DotIsSum(c: seq<int>, d: seq<int>, i: nat, n: nat)
    requires n <= |c| <= i <= |d|
    ensures Dot(c, d, i, n) == Sum(Terms(c, d, i)[..n])
  {
    if n > 0 {
      var terms := Terms(c, d, i);
      DotIsSum(c, d, i, n - 1);
      assert terms[..n][..n - 1] == terms[..n - 1];
      assert terms[..n][n - 1] == terms[n - 1];
      assert i - 1 - (n - 1) == i - n;
    }
  }

  lemma PredictedIs(c: seq<int>, d: seq<int>, i: nat, shift: nat, wide: bool)
    requires |c| <= i <= |d|
    ensures IsPrediction(Predicted(c, d, i, shift, wide), Sum(Terms(c, d, i)), shift, wide)
  {
    hide Int32, Int64, Dot, Terms, Sum, Asr, IsFloor;
    var terms := Terms(c, d, i);
    DotIsSum(c, d, i, |c|);
    TermCount(c, d, i);
    assert terms[..|c|] == terms;
    var sum := InWord(Sum(terms), wide);
    AsrIsFloor(sum, shift);
    assert IsFloor(Asr(sum, shift), sum, shift);
  }

  lemma TermCount(c: seq<int>, d: seq<int>, i: nat)
    requires |c| <= i <= |d|
    ensures |Terms(c, d, i)| == |c|
  {
  }

  /** Sample i is a residual and the prediction from the samples before it. */
  ghost predicate IsSum(c: seq<int>, d: seq<int>, i: nat, r: int, shift: nat, wide: bool)
    requires |c| <= i < |d|
  {
    exists p :: IsPrediction(p, Sum(Terms(c, d, i)), shift, wide) && d[i] == Int32(r + p)
  }

  /** r is sample i without the prediction from the samples before it. */
  ghost predicate IsDifference(c: seq<int>, d: seq<int>, i: nat, r: int, shift: nat, wide: bool)
    requires |c| <= i < |d|
  {
    exists p :: IsPrediction(p, Sum(Terms(c, d, i)), shift, wide) && r == Int32(d[i] - p)
  }

  lemma ResidualIs(c: seq<int>, d: seq<int>, shift: nat, wide: bool, k: nat)
    requires |c| + k < |d|
    ensures IsDifference(c, d, |c| + k, Residual(c, d, shift, wide)[k], shift, wide)
  {
    hide Int32, Terms, Sum, Predicted, IsPrediction;
    PredictedIs(c, d, |c| + k, shift, wide);
  }

  lemma {:induction false} RestoredIs(c: seq<int>, history: seq<int>, r: seq<int>, shift: nat, wide: bool, k: nat)
    requires |history| == |c| && k < |r|
    ensures IsSum(c, Restored(c, history, r, shift, wide), |c| + k, r[k], shift, wide)
    decreases |r|
  {
    hide Int32, Terms, Sum, Predicted, IsPrediction;
    var n := |r| - 1;
    var d, before := Restored(c, history, r, shift, wide), Restored(c, history, r[..n], shift, wide);
    assert d[..|c| + n] == before;
    if k < n {
      RestoredIs(c, history, r[..n], shift, wide, k);
      SameTermsBefore(c, before, d, |c| + k);
    } else {
      PredictedPrefix(c, before, d, |c| + n, shift, wide);
      PredictedIs(c, d, |c| + n, shift, wide);
    }
  }

  lemma {:induction false} HistoryStays(c: seq<int>, history: seq<int>, r: seq<int>, shift: nat, wide: bool)
    requires |history| == |c|
    ensures Restored(c, history, r, shift, wide)[..|c|] == history
    decreases |r|
  {
    hide Int32, Predicted;
    if r != [] {
      HistoryStays(c, history, r[..|r| - 1], shift, wide);
    }
  }

  lemma SameTermsBefore(c: seq<int>, d: seq<int>, e: seq<int>, i: nat)
    requires |c| <= i <= |d| <= |e| && e[..|d|] == d
    ensures Terms(c, d, i) == Terms(c, e, i)
  {
    assert forall m :: 0 <= m < |d| ==> e[m] == e[..|d|][m];
  }

  // ----- nothing is lost

  lemma {:induction false} DotPrefix(c: seq<int>, d: seq<int>, e: seq<int>, i: nat, n: nat)
    requires n <= |c| && n <= i <= |d| && i <= |e| && d[..i] == e[..i]
    ensures Dot(c, d, i, n) == Dot(c, e, i, n)
  {
    if n > 0 {
      DotPrefix(c, d, e, i, n - 1);
      assert d[i - n] == d[..i][i - n] && e[i - n] == e[..i][i - n];
    }
  }

  lemma PredictedPrefix(c: seq<int>, d: seq<int>, e: seq<int>, i: nat, shift: nat, wide: bool)
    requires |c| <= i <= |d| && i <= |e| && d[..i] == e[..i]
    ensures Predicted(c, d, i, shift, wide) == Predicted(c, e, i, shift, wide)
  {
    hide Int32, Int64, Asr, Dot;
    DotPrefix(c, d, e, i, |c|);
  }

  /** Taking a prediction off and putting it back, in 32 bits. */
  lemma OffAndOn(x: int, p: int)
    requires IsInt32(x)
    ensures Int32(Int32(x - p) + p) == x
  {
    hide Int32;
    Int32Of(p, x - p);
    Int32Small(x);
  }

  /** Restoring from the computed residual gives back the samples, for every signal, order,
      shift and coefficients, in both widths. */
  lemma {:induction false} RestoreResidual(c: seq<int>, d: seq<int>, shift: nat, wide: bool)
    requires |c| <= |d| && forall i :: 0 <= i < |d| ==> IsInt32(d[i])
    ensures Restored(c, d[..|c|], Residual(c, d, shift, wide), shift, wide) == d
    decreases |d|
  {
    hide Int32, Predicted;
    var r := Residual(c, d, shift, wide);
    if |d| == |c| {
      assert r == [] && d[..|c|] == d;
    } else {
      var n := |d| - 1;
      var shorter := d[..n];
      RestoreResidual(c, shorter, shift, wide);
      ShorterResidual(c, d, shift, wide);
      assert shorter[..|c|] == d[..|c|];
      PredictedPrefix(c, d, shorter, n, shift, wide);
      OffAndOn(d[n], Predicted(c, d, n, shift, wide));
      assert d == shorter + [d[n]];
    }
  }

  lemma ShorterResidual(c: seq<int>, d: seq<int>, shift: nat, wide: bool)
    requires |c| < |d|
    ensures var r := Residual(c, d, shift, wide);
      && r[..|r| - 1] == Residual(c, d[..|d| - 1], shift, wide)
      && r[|r| - 1] == Int32(d[|d| - 1] - Predicted(c, d, |d| - 1, shift, wide))
  {
    hide Int32, Predicted;
    var r, shorter := Residual(c, d, shift, wide), d[..|d| - 1];
    forall k | 0 <= k < |r| - 1 ensures r[k] == Residual(c, shorter, shift, wide)[k] {
      TakeTwice(d, |d| - 1, |c| + k);
      PredictedPrefix(c, d, shorter, |c| + k, shift, wide);
    }
  }

  lemma TakeTwice(d: seq<int>, n: nat, k: nat)
    requires k <= n <= |d|
    ensures d[..n][..k] == d[..k]
  {
  }

  // ----- the running sums

  /** Terms from the n-th last to the last. */
  function DotDown(c: seq<int>, d: seq<int>, i: nat, n: nat): int
    requires n <= |c| && |c| <= i <= |d|
    decreases |c| - n
  {
    if n == |c| then 0 else DotDown(c, d, i, n + 1) + c[n] * d[i - n - 1]
  }

  /** The order of the terms does not matter. */
  lemma {:induction false} SameTerms(c: seq<int>, d: seq<int>, i: nat, n: nat)
    requires n <= |c| && |c| <= i <= |d|
    ensures Dot(c, d, i, n) + DotDown(c, d, i, n) == Dot(c, d, i, |c|)
    decreases |c| - n
  {
    if n < |c| {
      SameTerms(c, d, i, n + 1);
    }
  }

  /** One more term of a running sum in 32 bits: the product, too, is only kept in 32. */
  lemma SumOn32(sum: int, exact: int, product: int)
    requires sum == Int32(exact)
    ensures Int32(sum + Int32(product)) == Int32(exact + product)
  {
    hide Int32;
    Int32Of(sum, product);
    Int32Of(product, exact);
  }

  lemma SumOn64(sum: int, exact: int, product: int)
    requires sum == Int64(exact)
    ensures Int64(sum + product) == Int64(exact + product)
  {
    hide Int64;
    Int64Of(product, exact);
  }

  /** The plain loop: the latest sample first. */
  method SumUp(c: seq<int>, data: array<int>, i: nat, wide: bool) returns (sum: int)
    requires |c| <= i <= data.Length
    ensures sum == InWord(Dot(c, data[..], i, |c|), wide)
  {
    hide Int32, Int64;
    Zero();
    sum := 0;
    for j := 0 to |c|
      invariant sum == InWord(Dot(c, data[..], i, j), wide)
    {
      var product := c[j] * data[i - j - 1];
      if wide {
        SumOn64(sum, Dot(c, data[..], i, j), product);
        sum := Int64(sum + product);
      } else {
        SumOn32(sum, Dot(c, data[..], i, j), product);
        sum := Int32(sum + Int32(product));
      }
    }
  }

  /** The unrolled statements: the oldest sample first. */
  method SumDown(c: seq<int>, data: array<int>, i: nat, wide: bool) returns (sum: int)
    requires |c| <= i <= data.Length
    ensures sum == InWord(Dot(c, data[..], i, |c|), wide)
  {
    hide Int32, Int64;
    Zero();
    sum := 0;
    var j := |c|;
    while j > 0
      invariant 0 <= j <= |c|
      invariant sum == InWord(DotDown(c, data[..], i, j), wide)
    {
      j := j - 1;
      var product := c[j] * data[i - j - 1];
      if wide {
        SumOn64(sum, DotDown(c, data[..], i, j + 1), product);
        sum := Int64(sum + product);
      } else {
        SumOn32(sum, DotDown(c, data[..], i, j + 1), product);
        sum := Int32(sum + Int32(product));
      }
    }
    SameTerms(c, data[..], i, 0);
  }

  lemma Zero()
    ensures Int32(0) == 0 && Int64(0) == 0
  {
  }

  method InnerProduct(c: seq<int>, data: array<int>, i: nat, wide: bool, unrolled: bool) returns (sum: int)
    requires |c| <= i <= data.Length
    ensures sum == InWord(Dot(c, data[..], i, |c|), wide)
  {
    if unrolled {
      sum := SumDown(c, data, i, wide);
    } else {
      sum := SumUp(c, data, i, wide);
    }
  }

  method Prediction(c: seq<int>, data: array<int>, i: nat, shift: nat, wide: bool, unrolled: bool) returns (p: int)
    requires |c| <= i <= data.Length
    ensures p == Predicted(c, data[..], i, shift, wide)
  {
    hide Int32, Int64, Dot, Asr;
    var sum := InnerProduct(c, data, i, wide, unrolled);
    p := if wide then Int32(Asr(sum, shift)) else Asr(sum, shift);
  }

  // ----- the two loops over a signal

  /** The residual of data, whose first samples are the history. */
  method ComputeResidual(c: seq<int>, data: array<int>, shift: nat, wide: bool, unrolled: bool, residual: array<int>)
    requires 0 < |c| <= 32 && |c| <= data.Length && residual.Length == data.Length - |c| && residual != data
    modifies residual
    ensures residual[..] == Residual(c, data[..], shift, wide)
    ensures forall k :: 0 <= k < residual.Length ==> IsDifference(c, data[..], |c| + k, residual[k], shift, wide)
  {
    hide Int32, Predicted, IsDifference;
    for i := 0 to residual.Length
      modifies residual
      invariant forall k :: 0 <= k < i ==>
        residual[k] == Int32(data[..][|c| + k] - Predicted(c, data[..], |c| + k, shift, wide))
    {
      var p := Prediction(c, data, |c| + i, shift, wide, unrolled);
      residual[i] := Int32(data[|c| + i] - p);
    }
    forall k | 0 <= k < residual.Length ensures IsDifference(c, data[..], |c| + k, residual[k], shift, wide) {
      ResidualIs(c, data[..], shift, wide, k);
    }
  }

  /** The signal after its history, in place. */
  method RestoreSignal(c: seq<int>, residual: array<int>, shift: nat, wide: bool, unrolled: bool, data: array<int>)
    requires 0 < |c| <= 32 && |c| <= data.Length && residual.Length == data.Length - |c| && residual != data
    modifies data
    ensures data[..] == Restored(c, old(data[..|c|]), residual[..], shift, wide)
    ensures data[..|c|] == old(data[..|c|])
    ensures forall k :: 0 <= k < residual.Length ==> IsSum(c, data[..], |c| + k, residual[k], shift, wide)
  {
    hide Int32, Predicted, IsSum;
    ghost var history := data[..|c|];
    assert residual[..0] == [];
    for i := 0 to residual.Length
      modifies data
      invariant data[..|c| + i] == Restored(c, history, residual[..i], shift, wide)
    {
      ghost var before := data[..|c| + i];
      var p := Prediction(c, data, |c| + i, shift, wide, unrolled);
      PredictedPrefix(c, data[..], before, |c| + i, shift, wide);
      data[|c| + i] := Int32(residual[i] + p);
      assert residual[..i + 1][..i] == residual[..i];
      assert data[..|c| + i + 1] == before + [data[|c| + i]];
    }
    assert data[..] == data[..|c| + residual.Length];
    assert residual[..] == residual[..residual.Length];
    forall k | 0 <= k < residual.Length ensures IsSum(c, data[..], |c| + k, residual[k], shift, wide) {
      RestoredIs(c, history, residual[..], shift, wide, k);
    }
    HistoryStays(c, history, residual[..], shift, wide);
    assert data[..][..|c|] == data[..|c|];
  }
}
