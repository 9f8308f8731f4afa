/** Fixed predictors (section 9.2.5 of RFC 9639): differences of order 0 to 4.

    The residual loops undo each other. The incremental search for the best order is proved
    to add up the absolute residuals of every order and to prefer the higher of equals, and so
    is its form with four 32-bit lanes. */
module FixedPredictor {
  import opened Words

  const MAX_ORDER: nat := 4

  /** The k-th difference at sample i. */
  function Difference(k: nat, d: seq<int>, i: nat): int
    requires k <= i < |d|
    decreases k
  {
    if k == 0 then d[i] else Difference(k - 1, d, i) - Difference(k - 1, d, i - 1)
  }

  /** What the predictor of order k says about sample i. */
  function Guess(k: nat, d: seq<int>, i: nat): int
    requires k <= MAX_ORDER && k <= i <= |d|
  {
    if k == 0 then 0
    else if k == 1 then d[i - 1]
    else if k == 2 then 2 * d[i - 1] - d[i - 2]
    else if k == 3 then 3 * d[i - 1] - 3 * d[i - 2] + d[i - 3]
    else 4 * d[i - 1] - 6 * d[i - 2] + 4 * d[i - 3] - d[i - 4]
  }

  /** The formulas of the residual loops are differences. */
  lemma DifferenceIs(k: nat, d: seq<int>, i: nat)
    requires k <= MAX_ORDER && k <= i < |d|
    ensures Difference(k, d, i) == d[i] - Guess(k, d, i)
  {
    if k > 0 {
      DifferenceIs(k - 1, d, i);
      DifferenceIs(k - 1, d, i - 1);
    }
  }

  /** The residual of order k, after a history of `from` samples. */
  function Residual(k: nat, d: seq<int>, from: nat): (r: seq<int>)
    requires k <= MAX_ORDER && k <= from <= |d|
    ensures |r| == |d| - from
  {
    seq(|d| - from, j requires 0 <= j < |d| - from => Int32(Difference(k, d, from + j)))
  }

  function Restored(k: nat, history: seq<int>, r: seq<int>): (d: seq<int>)
    requires k <= MAX_ORDER && k <= |history|
    ensures |d| == |history| + |r|
    decreases |r|
  {
    if r == [] then history
    else
      var before := Restored(k, history, r[..|r| - 1]);
      before + [Int32(r[|r| - 1] + Guess(k, before, |before|))]
  }

  // ----- nothing is lost

  lemma GuessPrefix(k: nat, d: seq<int>, e: seq<int>, i: nat)
    requires k <= MAX_ORDER && k <= i <= |d| && i <= |e| && d[..i] == e[..i]
    ensures Guess(k, d, i) == Guess(k, e, i)
  {
    forall j | 0 <= j < i ensures d[j] == e[j] {
      assert d[j] == d[..i][j] && e[j] == e[..i][j];
    }
  }

  lemma DifferencePrefix(k: nat, d: seq<int>, n: nat, i: nat)
    requires k <= MAX_ORDER && k <= i < n <= |d|
    ensures Difference(k, d[..n], i) == Difference(k, d, i)
  {
    hide Difference, Guess;
    DifferenceIs(k, d, i);
    DifferenceIs(k, d[..n], i);
    assert d[..n][..i] == d[..i];
    GuessPrefix(k, d[..n], d, i);
  }

  lemma PutBack(x: int, p: int)
    requires IsInt32(x)
    ensures Int32(Int32(x - p) + p) == x
  {
    hide Int32;
    Int32Of(p, x - p);
    Int32Small(x);
  }

  /** Restoring from the computed residual gives back the samples, for every order and signal. */
  lemma {:induction false} RestoreResidual(k: nat, d: seq<int>, from: nat)
    requires k <= MAX_ORDER && k <= from <= |d| && forall i :: 0 <= i < |d| ==> IsInt32(d[i])
    ensures Restored(k, d[..from], Residual(k, d, from)) == d
    decreases |d|
  {
    hide Int32, Guess, Difference;
    if |d| == from {
      assert d[..from] == d;
    } else {
      var n := |d| - 1;
      RestoreResidual(k, d[..n], from);
      ShorterResidual(k, d, from);
      assert d[..n][..from] == d[..from];
      DifferenceIs(k, d, n);
      GuessPrefix(k, d, d[..n], n);
      PutBack(d[n], Guess(k, d, n));
      assert d == d[..n] + [d[n]];
    }
  }

  lemma ShorterResidual(k: nat, d: seq<int>, from: nat)
    requires k <= MAX_ORDER && k <= from < |d|
    ensures var r := Residual(k, d, from);
      && r[..|r| - 1] == Residual(k, d[..|d| - 1], from) && r[|r| - 1] == Int32(Difference(k, d, |d| - 1))
  {
    hide Int32, Guess, Difference;
    var r, shorter := Residual(k, d, from), d[..|d| - 1];
    forall j | 0 <= j < |r| - 1 ensures r[j] == Residual(k, shorter, from)[j] {
      DifferencePrefix(k, d, |d| - 1, from + j);
    }
  }

  // ----- the loops

  /** The residual of data after its history. */
  method ComputeResidual(k: nat, data: array<int>, residual: array<int>)
    requires k <= MAX_ORDER && data.Length == residual.Length + k && residual != data
    requires forall i :: 0 <= i < data.Length ==> IsInt32(data[i])
    modifies residual
    ensures residual[..] == Residual(k, data[..], k)
  {
    hide Int32, Difference, Guess;
    for i := 0 to residual.Length
      modifies residual
      invariant forall j :: 0 <= j < i ==> residual[j] == Int32(Difference(k, data[..], k + j))
    {
      DifferenceIs(k, data[..], k + i);
      var expected := Expected(k, data, k + i);
      residual[i] := Int32(data[k + i] - expected);
    }
  }

  /** The formula of order k over the past samples. */
  method Expected(k: nat, data: array<int>, i: nat) returns (p: int)
    requires k <= MAX_ORDER && k <= i < data.Length
    ensures p == Guess(k, data[..], i)
  {
    match k
    case 0 => p := 0;
    case 1 => p := data[i - 1];
    case 2 => p := 2 * data[i - 1] - data[i - 2];
    case 3 => p := 3 * data[i - 1] - 3 * data[i - 2] + data[i - 3];
    case _ => p := 4 * data[i - 1] - 6 * data[i - 2] + 4 * data[i - 3] - data[i - 4];
  }

  /** The signal after its history, in place. */
  method RestoreSignal(k: nat, residual: array<int>, data: array<int>)
    requires k <= MAX_ORDER && data.Length == residual.Length + k && residual != data
    modifies data
    ensures data[..] == Restored(k, old(data[..k]), residual[..])
  {
    hide Int32, Guess;
    ghost var history := data[..k];
    assert residual[..0] == [];
    for i := 0 to residual.Length
      modifies data
      invariant data[..k + i] == Restored(k, history, residual[..i])
    {
      ghost var before := data[..k + i];
      var expected := Expected(k, data, k + i);
      GuessPrefix(k, data[..], before, k + i);
      data[k + i] := Int32(residual[i] + expected);
      assert residual[..i + 1][..i] == residual[..i];
      assert data[..k + i + 1] == before + [data[k + i]];
    }
    assert data[..] == data[..k + residual.Length];
    assert residual[..] == residual[..residual.Length];
  }

  // ----- the search for the best order

  function Abs(x: int): nat { if x < 0 then -x else x }

  /** The absolute residuals of order k from sample `from` up to sample n, added up. */
  function TotalError(k: nat, d: seq<int>, from: nat, n: nat): nat
    requires k <= from <= n <= |d|
    decreases n
  {
    if n == from then 0 else TotalError(k, d, from, n - 1) + Abs(Int32(Difference(k, d, n - 1)))
  }

  /** The totals of the five orders, in registers of 32 or 64 bits. */
  datatype Totals = Totals(t0: nat, t1: nat, t2: nat, t3: nat, t4: nat)

  function Total(t: Totals, k: nat): nat {
    if k == 0 then t.t0 else if k == 1 then t.t1 else if k == 2 then t.t2 else if k == 3 then t.t3 else t.t4
  }

  /** An unsigned register of 32 or 64 bits. */
  function Register(x: nat, wide: bool): nat {
    if wide then x % 0x1_0000_0000_0000_0000 else Wrap32(x)
  }

  ghost predicate AddedUp(t: Totals, d: seq<int>, n: nat, wide: bool)
    requires MAX_ORDER <= n <= |d|
  {
    forall k :: 0 <= k <= MAX_ORDER ==> Total(t, k) == Register(TotalError(k, d, MAX_ORDER, n), wide)
  }

  /** The lowest total, and the highest order that has it. */
  predicate IsBest(t: Totals, order: nat) {
    && order <= MAX_ORDER
    && (forall k :: 0 <= k <= MAX_ORDER ==> Total(t, order) <= Total(t, k))
    && (forall k :: order < k <= MAX_ORDER ==> Total(t, order) < Total(t, k))
  }

  function Min(a: nat, b: nat): nat { if a < b then a else b }

  method BestOrder(t: Totals) returns (order: nat)
    ensures IsBest(t, order)
  {
    if t.t0 < Min(Min(Min(t.t1, t.t2), t.t3), t.t4) {
      order := 0;
    } else if t.t1 < Min(Min(t.t2, t.t3), t.t4) {
      order := 1;
    } else if t.t2 < Min(t.t3, t.t4) {
      order := 2;
    } else if t.t3 < t.t4 {
      order := 3;
    } else {
      order := 4;
    }
  }

  lemma BestIsUnique(t: Totals, a: nat, b: nat)
    requires IsBest(t, a) && IsBest(t, b)
    ensures a == b
  {
    assert Total(t, a) <= Total(t, b) && Total(t, b) <= Total(t, a);
  }

  /** The differences of order 0 to 3 at a sample, in 32-bit registers. */
  datatype LastErrors = LastErrors(e0: int, e1: int, e2: int, e3: int)

  ghost predicate Trailing(l: LastErrors, d: seq<int>, i: nat)
    requires 3 <= i < |d|
  {
    && l.e0 == Int32(Difference(0, d, i)) && l.e1 == Int32(Difference(1, d, i))
    && l.e2 == Int32(Difference(2, d, i)) && l.e3 == Int32(Difference(3, d, i))
  }

  /** The difference of one order from two of the order below. */
  lemma NextDifference(k: nat, d: seq<int>, i: nat, error: int, last: int)
    requires 0 < k <= i < |d|
    requires error == Int32(Difference(k - 1, d, i)) && last == Int32(Difference(k - 1, d, i - 1))
    ensures Int32(error - last) == Int32(Difference(k, d, i))
  {
    hide Int32;
    var a, b := Difference(k - 1, d, i), Difference(k - 1, d, i - 1);
    Int32Of(error, b);
    Int32Of(-b, a);
  }

  method FirstErrors(data: array<int>) returns (l: LastErrors)
    requires data.Length >= 4 && forall i :: 0 <= i < data.Length ==> IsInt32(data[i])
    ensures Trailing(l, data[..], 3)
  {
    hide Int32;
    var a, b, c, e := data[3], data[2], data[1], data[0];
    Int32Small(a);
    var e1 := Int32(a - b);
    var e2 := Int32(e1 - Int32(b - c));
    var e3 := Int32(e2 - Int32(b - 2 * c + e));
    Int32Of(e1, b - c);
    Int32Of(-(b - c), a - b);
    Int32Of(e2, b - 2 * c + e);
    Int32Of(-(b - 2 * c + e), a - 2 * b + c);
    l := LastErrors(a, e1, e2, e3);
    FirstDifferences(data[..]);
  }

  lemma FirstDifferences(d: seq<int>)
    requires |d| >= 4
    ensures Difference(0, d, 3) == d[3] && Difference(1, d, 3) == d[3] - d[2]
    ensures Difference(2, d, 3) == d[3] - 2 * d[2] + d[1] && Difference(3, d, 3) == d[3] - 3 * d[2] + 3 * d[1] - d[0]
  {
    DifferenceIs(1, d, 3);
    DifferenceIs(2, d, 3);
    DifferenceIs(3, d, 3);
  }

  /** A total in its register. */
  lemma TotalOn(k: nat, d: seq<int>, n: nat, wide: bool)
    requires k <= MAX_ORDER <= n < |d|
    ensures Register(Register(TotalError(k, d, MAX_ORDER, n), wide) + Abs(Int32(Difference(k, d, n))), wide)
         == Register(TotalError(k, d, MAX_ORDER, n + 1), wide)
  {
    hide Int32, Difference;
    RegisterOn(TotalError(k, d, MAX_ORDER, n), Abs(Int32(Difference(k, d, n))), wide);
  }

  lemma RegisterOn(x: nat, y: nat, wide: bool)
    ensures Register(Register(x, wide) + y, wide) == Register(x + y, wide)
  {
    if wide {
      Modulo64(x, y);
    } else {
      Wrap32Of(x, y);
    }
  }

  lemma Modulo64(x: nat, y: nat)
    ensures (x % 0x1_0000_0000_0000_0000 + y) % 0x1_0000_0000_0000_0000 == (x + y) % 0x1_0000_0000_0000_0000
  {
  }

  /** The differences of every order at a sample from those of the sample before. */
  lemma ErrorsOf(x: int, l: LastErrors, d: seq<int>, i: nat) returns (e1: int, e2: int, e3: int, e4: int)
    requires 4 <= i < |d| && x == d[i] && IsInt32(x) && Trailing(l, d, i - 1)
    ensures e1 == Int32(x - l.e0) && e2 == Int32(e1 - l.e1) && e3 == Int32(e2 - l.e2) && e4 == Int32(e3 - l.e3)
    ensures Trailing(LastErrors(x, e1, e2, e3), d, i) && e4 == Int32(Difference(4, d, i))
  {
    hide Int32, Difference;
    Int32Small(x);
    OrderZero(d, i);
    e1 := Int32(x - l.e0);
    NextDifference(1, d, i, x, l.e0);
    e2 := Int32(e1 - l.e1);
    NextDifference(2, d, i, e1, l.e1);
    e3 := Int32(e2 - l.e2);
    NextDifference(3, d, i, e2, l.e2);
    e4 := Int32(e3 - l.e3);
    NextDifference(4, d, i, e3, l.e3);
  }

  lemma OrderZero(d: seq<int>, i: nat)
    requires i < |d|
    ensures Difference(0, d, i) == d[i]
  {
  }

  lemma TotalsOn(t: Totals, d: seq<int>, n: nat, wide: bool, u: Totals)
    requires MAX_ORDER <= n < |d| && AddedUp(t, d, n, wide)
    requires forall k :: 0 <= k <= MAX_ORDER ==>
      Total(u, k) == Register(Total(t, k) + Abs(Int32(Difference(k, d, n))), wide)
    ensures AddedUp(u, d, n + 1, wide)
  {
    hide Int32, Difference, Register, TotalError, Total;
    forall k | 0 <= k <= MAX_ORDER ensures Total(u, k) == Register(TotalError(k, d, MAX_ORDER, n + 1), wide) {
      TotalOn(k, d, n, wide);
    }
  }

  /** The incremental search: the totals are the sums of the absolute residuals of every order,
      and the order is the highest of the best. */
  method ComputeBestPredictor(data: array<int>, wide: bool) returns (order: nat, t: Totals)
    requires data.Length >= MAX_ORDER && forall i :: 0 <= i < data.Length ==> IsInt32(data[i])
    ensures AddedUp(t, data[..], data.Length, wide) && IsBest(t, order)
  {
    hide Int32, Difference, Register, TotalError, AddedUp, Trailing;
    var l := FirstErrors(data);
    t := Totals(0, 0, 0, 0, 0);
    NothingYet(data[..], wide);
    for i := MAX_ORDER to data.Length
      invariant AddedUp(t, data[..], i, wide) && Trailing(l, data[..], i - 1)
    {
      var e0 := data[i];
      ghost var d1, d2, d3, d4 := ErrorsOf(e0, l, data[..], i);
      var e1 := Int32(e0 - l.e0);
      var e2 := Int32(e1 - l.e1);
      var e3 := Int32(e2 - l.e2);
      var e4 := Int32(e3 - l.e3);
      var u := Totals(Register(t.t0 + Abs(e0), wide), Register(t.t1 + Abs(e1), wide), Register(t.t2 + Abs(e2), wide),
                      Register(t.t3 + Abs(e3), wide), Register(t.t4 + Abs(e4), wide));
      SampleAdded(t, data[..], i, wide, e0, e1, e2, e3, e4);
      t := u;
      l := LastErrors(e0, e1, e2, e3);
    }
    order := BestOrder(t);
  }

  lemma NothingYet(d: seq<int>, wide: bool)
    requires |d| >= MAX_ORDER
    ensures AddedUp(Totals(0, 0, 0, 0, 0), d, MAX_ORDER, wide)
  {
  }

  lemma SampleAdded(t: Totals, d: seq<int>, n: nat, wide: bool, e0: int, e1: int, e2: int, e3: int, e4: int)
    requires MAX_ORDER <= n < |d| && AddedUp(t, d, n, wide)
    requires Trailing(LastErrors(e0, e1, e2, e3), d, n) && e4 == Int32(Difference(4, d, n))
    ensures AddedUp(Totals(Register(t.t0 + Abs(e0), wide), Register(t.t1 + Abs(e1), wide),
        Register(t.t2 + Abs(e2), wide),
                           Register(t.t3 + Abs(e3), wide), Register(t.t4 + Abs(e4), wide)), d, n + 1, wide)
  {
    hide Int32, Difference, Register, TotalError, AddedUp, Abs;
    TotalsOn(t, d, n, wide, Totals(Register(t.t0 + Abs(e0), wide), Register(t.t1 + Abs(e1), wide),
      Register(t.t2 + Abs(e2), wide), Register(t.t3 + Abs(e3), wide), Register(t.t4 + Abs(e4), wide)));
  }

  // ----- four lanes at once

  /** A 128-bit vector of signed 32-bit lanes, the highest first. */
  datatype Lanes = Lanes(x3: int, x2: int, x1: int, x0: int)

  /** _mm_sub_epi32 and _mm_add_epi32 */
  function Sub(v: Lanes, w: Lanes): Lanes {
    Lanes(Int32(v.x3 - w.x3), Int32(v.x2 - w.x2), Int32(v.x1 - w.x1), Int32(v.x0 - w.x0))
  }

  function Add(v: Lanes, w: Lanes): Lanes {
    Lanes(Int32(v.x3 + w.x3), Int32(v.x2 + w.x2), Int32(v.x1 + w.x1), Int32(v.x0 + w.x0))
  }

  /** _mm_srli_si128 by four bytes: every lane moves down by one. */
  function Down(v: Lanes): Lanes { Lanes(0, v.x3, v.x2, v.x1) }

  /** _mm_slli_si128 by twelve bytes: the lowest lane moves to the top. */
  function ToTop(v: Lanes): Lanes { Lanes(v.x0, 0, 0, 0) }

  /** _mm_shuffle_epi32 with (2, 1, 0, 0): every lane moves up by one, the lowest is doubled. */
  function UpDoubled(v: Lanes): Lanes { Lanes(v.x2, v.x1, v.x0, v.x0) }

  /** _mm_or_si128 of vectors without a common lane */
  function Joined(v: Lanes, w: Lanes): Lanes
    requires w.x2 == 0 && w.x1 == 0 && w.x0 == 0 && v.x3 == 0
  {
    Lanes(w.x3, v.x2, v.x1, v.x0)
  }

  /** _mm_cvtsi32_si128 */
  function Lowest(x: int): Lanes { Lanes(0, 0, 0, x) }

  /** The absolute value of a lane from its sign mask: (x ^ m) - m, where m is 0 or all ones. */
  function LaneAbs(x: int): int {
    var m := if x < 0 then -1 else 0;
    Int32((if m == 0 then x else -1 - x) - m)
  }

  function LanesAbs(v: Lanes): Lanes { Lanes(LaneAbs(v.x3), LaneAbs(v.x2), LaneAbs(v.x1), LaneAbs(v.x0)) }

  /** A lane taken out as an unsigned number. */
  function Unsigned(x: int): nat { Wrap32(x) }

  lemma LaneAbsIs(x: int)
    requires IsInt32(x)
    ensures LaneAbs(x) == Int32(Abs(x))
  {
  }

  /** Adding an absolute lane to a total. */
  lemma LaneTotal(total: int, x: int)
    requires IsInt32(x)
    ensures Unsigned(Int32(total + LaneAbs(x))) == Register(Unsigned(total) + Abs(x), false)
  {
    hide Int32, Wrap32, LaneAbs, Abs;
    LaneAbsIs(x);
    Int32Of(total, Abs(x));
    Wrap32Of(total + Abs(x), 0);
    Wrap32Of(total, Abs(x));
  }

  /** One sample in the lanes: four differences by three rotations. */
  method LaneErrors(x: int, lastError: Lanes, ghost d: seq<int>, ghost i: nat) returns (err1: Lanes, next: Lanes)
    requires 4 <= i < |d| && x == d[i] && IsInt32(x)
    requires Trailing(LastErrors(lastError.x3, lastError.x2, lastError.x1, lastError.x0), d, i - 1)
    ensures Trailing(LastErrors(next.x3, next.x2, next.x1, next.x0), d, i)
    ensures err1 == Lanes(next.x2, next.x1, next.x0, Int32(Difference(4, d, i))) && next.x3 == x
  {
    hide Int32, Difference, Trailing;
    ghost var l := LastErrors(lastError.x3, lastError.x2, lastError.x1, lastError.x0);
    ghost var e1, e2, e3, e4 := ErrorsOf(x, l, d, i);
    FourSteps(x, l.e0, 0, 0, 0);
    FourSteps(x, l.e1, l.e0, 0, 0);
    FourSteps(x, l.e2, l.e1, l.e0, 0);
    FourSteps(x, l.e3, l.e2, l.e1, l.e0);
    FourSteps(x, l.e0, l.e1, l.e2, l.e3);
    Wrapped(x - l.e0);
    Wrapped(x - l.e0 - l.e1);
    Wrapped(x - l.e0 - l.e1 - l.e2);
    var last := lastError;
    err1 := Lanes(x, x, x, x);
    err1 := Sub(err1, last);
    last := Down(last);
    err1 := Sub(err1, last);
    last := Down(last);
    err1 := Sub(err1, last);
    last := Down(last);
    err1 := Sub(err1, last);
    next := Joined(Down(err1), ToTop(Lowest(x)));
  }

  /** Subtracting in steps, each kept in 32 bits. */
  lemma FourSteps(x: int, a: int, b: int, c: int, e: int)
    ensures Int32(Int32(x - a) - b) == Int32(x - a - b)
    ensures Int32(Int32(Int32(x - a) - b) - c) == Int32(x - a - b - c)
    ensures Int32(Int32(Int32(Int32(x - a) - b) - c) - e) == Int32(x - a - b - c - e)
  {
    hide Int32;
    Int32Of(-b, x - a);
    Int32Of(-c, x - a - b);
    Int32Of(-e, x - a - b - c);
  }

  lemma Wrapped(x: int)
    ensures Int32(Int32(x)) == Int32(x) && Int32(Int32(x) - 0) == Int32(x)
  {
    hide Int32;
    Int32Of(0, x);
  }

  /** The first four differences, by rotating in one sample after the other. */
  method FirstLanes(data: array<int>) returns (lastError: Lanes)
    requires data.Length >= 4 && forall i :: 0 <= i < data.Length ==> IsInt32(data[i])
    ensures Trailing(LastErrors(lastError.x3, lastError.x2, lastError.x1, lastError.x0), data[..], 3)
  {
    hide Int32;
    var a, b, c, e := data[3], data[2], data[1], data[0];
    FirstDifferences(data[..]);
    Int32Small(a);
    Int32Small(b);
    lastError := Lowest(a);
    var itmp := b;
    lastError := Sub(UpDoubled(lastError), Lowest(itmp));
    FirstWraps(a, b, c, e);
    itmp := Int32(itmp - c);
    lastError := Sub(UpDoubled(lastError), Lowest(itmp));
    itmp := Int32(itmp - Int32(c - e));
    lastError := Sub(UpDoubled(lastError), Lowest(itmp));
  }

  lemma FirstWraps(a: int, b: int, c: int, e: int)
    requires IsInt32(a)
    ensures Int32(0) == 0 && Int32(a - 0) == a && Int32(Int32(a - b) - 0) == Int32(a - b)
    ensures Int32(Int32(a - b) - Int32(b - c)) == Int32(a - 2 * b + c)
    ensures Int32(Int32(a - 2 * b + c) - 0) == Int32(a - 2 * b + c)
    ensures Int32(Int32(a - 2 * b + c) - Int32(Int32(b - c) - Int32(c - e))) == Int32(a - 3 * b + 3 * c - e)
  {
    Int32Small(a);
    Int32Small(0);
    hide Int32;
    Wrapped(a - b);
    Wrapped(a - 2 * b + c);
    Difference32(a - b, b - c);
    Difference32(b - c, c - e);
    Difference32(a - 2 * b + c, b - 2 * c + e);
  }

  lemma Difference32(x: int, y: int)
    ensures Int32(Int32(x) - Int32(y)) == Int32(x - y)
  {
    hide Int32;
    Int32Of(Int32(x), y);
    Int32Of(-y, x);
  }

  /** The search with four lanes finds the same totals and the same order. */
  method ComputeBestPredictorLanes(data: array<int>) returns (order: nat, t: Totals)
    requires data.Length >= MAX_ORDER && forall i :: 0 <= i < data.Length ==> IsInt32(data[i])
    ensures AddedUp(t, data[..], data.Length, false) && IsBest(t, order)
  {
    hide Int32, Difference, Register, TotalError, AddedUp, Trailing, LaneAbs, Unsigned;
    var lastError := FirstLanes(data);
    var totalErr0, totalErr1 := Lanes(0, 0, 0, 0), Lanes(0, 0, 0, 0);
    NothingYet(data[..], false);
    NoTotals();
    for i := MAX_ORDER to data.Length
      invariant AddedUp(Taken(totalErr0, totalErr1), data[..], i, false)
      invariant Trailing(LastErrors(lastError.x3, lastError.x2, lastError.x1, lastError.x0), data[..], i - 1)
    {
      var err1, next := LaneErrors(data[i], lastError, data[..], i);
      LanesAdded(totalErr0, totalErr1, data[..], i, data[i], err1);
      lastError := next;
      totalErr0 := Add(totalErr0, LanesAbs(Lowest(data[i])));
      totalErr1 := Add(totalErr1, LanesAbs(err1));
    }
    t := Taken(totalErr0, totalErr1);
    order := BestOrder(t);
  }

  /** The five totals taken out of the two vectors. */
  function Taken(totalErr0: Lanes, totalErr1: Lanes): Totals {
    Totals(Unsigned(totalErr0.x0), Unsigned(Down(Down(Down(totalErr1))).x0), Unsigned(Down(Down(totalErr1)).x0),
           Unsigned(Down(totalErr1).x0), Unsigned(totalErr1.x0))
  }

  lemma NoTotals()
    ensures Taken(Lanes(0, 0, 0, 0), Lanes(0, 0, 0, 0)) == Totals(0, 0, 0, 0, 0)
  {
  }

  lemma LanesAdded(totalErr0: Lanes, totalErr1: Lanes, d: seq<int>, n: nat, x: int, err1: Lanes)
    requires MAX_ORDER <= n < |d| && AddedUp(Taken(totalErr0, totalErr1), d, n, false) && IsInt32(x)
    requires Trailing(LastErrors(x, err1.x3, err1.x2, err1.x1), d, n) && err1.x0 == Int32(Difference(4, d, n))
    ensures AddedUp(Taken(Add(totalErr0, LanesAbs(Lowest(x))), Add(totalErr1, LanesAbs(err1))), d, n + 1, false)
  {
    hide *;
    WrappedLanes(d, n, x, err1);
    SampleAdded(Taken(totalErr0, totalErr1), d, n, false, x, err1.x3, err1.x2, err1.x1, err1.x0);
    LanesTaken(totalErr0, totalErr1, x, err1);
  }

  lemma LanesTaken(totalErr0: Lanes, totalErr1: Lanes, x: int, err1: Lanes)
    requires IsInt32(x) && IsInt32(err1.x3) && IsInt32(err1.x2) && IsInt32(err1.x1) && IsInt32(err1.x0)
    ensures var t := Taken(totalErr0, totalErr1);
      Taken(Add(totalErr0, LanesAbs(Lowest(x))), Add(totalErr1, LanesAbs(err1))) ==
        Totals(Register(t.t0 + Abs(x), false), Register(t.t1 + Abs(err1.x3), false),
            Register(t.t2 + Abs(err1.x2), false),
               Register(t.t3 + Abs(err1.x1), false), Register(t.t4 + Abs(err1.x0), false))
  {
    hide Int32, Register, LaneAbs, Unsigned, Abs;
    LaneTotal(totalErr0.x0, x);
    LaneTotal(totalErr1.x3, err1.x3);
    LaneTotal(totalErr1.x2, err1.x2);
    LaneTotal(totalErr1.x1, err1.x1);
    LaneTotal(totalErr1.x0, err1.x0);
  }

  lemma WrappedLanes(d: seq<int>, n: nat, x: int, err1: Lanes)
    requires MAX_ORDER <= n < |d|
    requires Trailing(LastErrors(x, err1.x3, err1.x2, err1.x1), d, n) && err1.x0 == Int32(Difference(4, d, n))
    ensures IsInt32(err1.x3) && IsInt32(err1.x2) && IsInt32(err1.x1) && IsInt32(err1.x0)
  {
    hide Difference;
  }
}
