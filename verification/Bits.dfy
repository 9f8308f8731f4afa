/** Machine words as numbers, and their meaning as strings of bits.

    A word is a natural number below 2^W.  `ToBits(W, x)` is its big-endian bit
    string.  Every shift and mask a reader of words performs is related here, once,
    to slicing and concatenation of bit strings. */
module Bits {

  function Pow2(n: nat): (r: nat)
    ensures 0 < r
  {
    if n == 0 then 1 else 2 * Pow2(n - 1)
  }

  lemma {:induction false} Pow2Monotone(a: nat, b: nat)
    requires a <= b
    ensures Pow2(a) <= Pow2(b)
  {
    if a < b {
      Pow2Monotone(a, b - 1);
    }
  }

  lemma Pow2Of32()
    ensures Pow2(8) == 256 && Pow2(16) == 0x1_0000 && Pow2(32) == 0x1_0000_0000
  {
    assert Pow2(4) == 16;
    assert Pow2(8) == 256;
    assert Pow2(12) == 4096;
    assert Pow2(16) == 0x1_0000;
    assert Pow2(20) == 0x10_0000;
    assert Pow2(24) == 0x100_0000;
    assert Pow2(28) == 0x1000_0000;
  }

  /** The n low-order bits of x, most significant first. */
  function ToBits(n: nat, x: nat): (s: seq<bool>)
    ensures |s| == n
  {
    if n == 0 then [] else ToBits(n - 1, x / 2) + [x % 2 == 1]
  }

  /** The number a bit string denotes, most significant bit first. */
  function Value(s: seq<bool>): nat {
    if s == [] then 0 else 2 * Value(s[..|s| - 1]) + (if s[|s| - 1] then 1 else 0)
  }

  function Zeros(n: nat): (s: seq<bool>)
    ensures |s| == n
    ensures forall i :: 0 <= i < n ==> !s[i]
  {
    seq(n, i => false)
  }

  /** The number of leading zeros before the first set bit (all of them if there is none). */
  function LeadingZeros(s: seq<bool>): (n: nat)
    ensures n <= |s|
    ensures forall i :: 0 <= i < n ==> !s[i]
    ensures n < |s| ==> s[n]
  {
    if s == [] || s[0] then 0 else 1 + LeadingZeros(s[1..])
  }

  lemma {:induction false} LeadingZerosUnique(s: seq<bool>, n: nat)
    requires n <= |s| && forall i :: 0 <= i < n ==> !s[i]
    requires n < |s| ==> s[n]
    ensures LeadingZeros(s) == n
  {
    if n > 0 {
      LeadingZerosUnique(s[1..], n - 1);
    }
  }

  // ----- value and bits are inverse

  lemma {:induction false} ValueOfBits(n: nat, x: nat)
    requires x < Pow2(n)
    ensures Value(ToBits(n, x)) == x
  {
    if n > 0 {
      ValueOfBits(n - 1, x / 2);
      assert ToBits(n, x)[..n - 1] == ToBits(n - 1, x / 2);
    }
  }

  lemma {:induction false} BitsOfValue(s: seq<bool>)
    ensures Value(s) < Pow2(|s|)
    ensures ToBits(|s|, Value(s)) == s
  {
    if s != [] {
      var p := s[..|s| - 1];
      BitsOfValue(p);
      assert Value(s) / 2 == Value(p);
      assert s == p + [s[|s| - 1]];
    }
  }

  lemma {:induction false} ValueConcat(s: seq<bool>, t: seq<bool>)
    ensures Value(s + t) == Double(Value(s), |t|) + Value(t)
  {
    if t == [] {
      assert s + t == s;
    } else {
      var p := t[..|t| - 1];
      ValueConcat(s, p);
      assert (s + t)[..|s + t| - 1] == s + p;
    }
  }

  lemma {:induction false} ValueZeros(n: nat)
    ensures Value(Zeros(n)) == 0
  {
    if n > 0 {
      ValueZeros(n - 1);
      assert Zeros(n)[..n - 1] == Zeros(n - 1);
    }
  }

  // ----- shifts

  /** x >> k */
  function ShiftRight(x: nat, k: nat): nat {
    if k == 0 then x else ShiftRight(x / 2, k - 1)
  }

  /** x * 2^k */
  function Double(x: nat, k: nat): nat {
    if k == 0 then x else 2 * Double(x, k - 1)
  }

  /** x modulo 2^n: what is left of x in an n-bit register. */
  function Truncate(n: nat, x: nat): (r: nat)
    ensures r < Pow2(n)
  {
    if n == 0 then 0 else 2 * Truncate(n - 1, x / 2) + x % 2
  }

  /** x << k in a W-bit register */
  function ShiftLeft(W: nat, x: nat, k: nat): (r: nat)
    ensures r < Pow2(W)
  {
    Truncate(W, Double(x, k))
  }

  /** Cutting a word: its n high bits are the word shifted right. */
  lemma {:induction false} SplitBits(n: nat, m: nat, x: nat)
    ensures ToBits(n + m, x) == ToBits(n, ShiftRight(x, m)) + ToBits(m, x)
  {
    if m > 0 {
      SplitBits(n, m - 1, x / 2);
      assert ToBits(n + m, x) == ToBits(n + (m - 1), x / 2) + [x % 2 == 1];
      hide *;
      assert ToBits(n, ShiftRight(x / 2, m - 1)) + (ToBits(m - 1, x / 2) + [x % 2 == 1])
          == (ToBits(n, ShiftRight(x / 2, m - 1)) + ToBits(m - 1, x / 2)) + [x % 2 == 1];
    }
  }

  lemma {:induction false} BitsOfTruncate(m: nat, n: nat, x: nat)
    requires m <= n
    ensures ToBits(m, Truncate(n, x)) == ToBits(m, x)
  {
    if m > 0 {
      BitsOfTruncate(m - 1, n - 1, x / 2);
      assert Truncate(n, x) / 2 == Truncate(n - 1, x / 2);
    }
  }

  lemma {:induction false} TruncateSmall(n: nat, x: nat)
    requires x < Pow2(n)
    ensures Truncate(n, x) == x
  {
    if n > 0 {
      TruncateSmall(n - 1, x / 2);
    }
  }

  lemma {:induction false} BitsOfDouble(x: nat, k: nat)
    ensures ToBits(k, Double(x, k)) == Zeros(k)
    ensures ShiftRight(Double(x, k), k) == x
  {
    if k > 0 {
      BitsOfDouble(x, k - 1);
      assert Double(x, k) / 2 == Double(x, k - 1);
      assert Zeros(k) == Zeros(k - 1) + [false];
    }
  }

  lemma ShiftLeftBits(W: nat, x: nat, k: nat)
    requires k <= W
    ensures ToBits(W, ShiftLeft(W, x, k)) == ToBits(W, x)[k..] + Zeros(k)
  {
    BitsOfTruncate(W, W, Double(x, k));
    SplitBits(W - k, k, Double(x, k));
    BitsOfDouble(x, k);
    SplitBits(k, W - k, x);
  }

  lemma ShiftRightBits(W: nat, x: nat, k: nat)
    requires k <= W
    ensures ToBits(W - k, ShiftRight(x, k)) == ToBits(W, x)[..W - k]
  {
    SplitBits(W - k, k, x);
  }

  lemma {:induction false} ShiftRightBound(W: nat, x: nat, k: nat)
    requires k <= W && x < Pow2(W)
    ensures ShiftRight(x, k) < Pow2(W - k)
  {
    if k > 0 {
      ShiftRightBound(W - 1, x / 2, k - 1);
    }
  }

  lemma {:induction false} DoubleBound(x: nat, n: nat, k: nat)
    requires x < Pow2(n)
    ensures Double(x, k) + Pow2(k) <= Pow2(n + k)
  {
    if k > 0 {
      DoubleBound(x, n, k - 1);
    }
  }

  // ----- masks

  function And(a: nat, b: nat): nat {
    if a == 0 || b == 0 then 0 else 2 * And(a / 2, b / 2) + (if a % 2 == 1 && b % 2 == 1 then 1 else 0)
  }

  function Or(a: nat, b: nat): nat {
    if a == 0 then b else if b == 0 then a
    else 2 * Or(a / 2, b / 2) + (if a % 2 == 1 || b % 2 == 1 then 1 else 0)
  }

  lemma {:induction false} ToBitsZero(n: nat)
    ensures ToBits(n, 0) == Zeros(n)
  {
    if n > 0 {
      ToBitsZero(n - 1);
      assert Zeros(n) == Zeros(n - 1) + [false];
    }
  }

  lemma {:induction false} AndBits(n: nat, a: nat, b: nat)
    ensures forall i :: 0 <= i < n ==> ToBits(n, And(a, b))[i] == (ToBits(n, a)[i] && ToBits(n, b)[i])
  {
    if n == 0 {
    } else if a == 0 || b == 0 {
      ToBitsZero(n);
    } else {
      AndBits(n - 1, a / 2, b / 2);
      assert And(a, b) / 2 == And(a / 2, b / 2);
    }
  }

  lemma {:induction false} OrBits(n: nat, a: nat, b: nat)
    ensures forall i :: 0 <= i < n ==> ToBits(n, Or(a, b))[i] == (ToBits(n, a)[i] || ToBits(n, b)[i])
  {
    if n > 0 {
      OrBits(n - 1, a / 2, b / 2);
      OrHalves(a, b);
    }
  }

  lemma OrHalves(a: nat, b: nat)
    ensures Or(a, b) / 2 == Or(a / 2, b / 2) && (Or(a, b) % 2 == 1 <==> a % 2 == 1 || b % 2 == 1)
  {
  }

  lemma {:induction false} ComplementBits(n: nat, x: nat)
    requires x < Pow2(n)
    ensures forall i :: 0 <= i < n ==> ToBits(n, Pow2(n) - 1 - x)[i] == !ToBits(n, x)[i]
  {
    if n > 0 {
      ComplementBits(n - 1, x / 2);
      assert (Pow2(n) - 1 - x) / 2 == Pow2(n - 1) - 1 - x / 2;
    }
  }

  lemma {:induction false} AndBound(n: nat, a: nat, b: nat)
    requires a < Pow2(n)
    ensures And(a, b) < Pow2(n)
  {
    if n > 0 {
      AndBound(n - 1, a / 2, b / 2);
    }
  }

  lemma {:induction false} OrDisjoint(a: nat, k: nat, b: nat)
    requires b < Pow2(k)
    ensures Or(Double(a, k), b) == Double(a, k) + b
  {
    if k > 0 && a != 0 && b != 0 {
      OrDisjoint(a, k - 1, b / 2);
      DoublePositive(a, k);
      assert Double(a, k) / 2 == Double(a, k - 1);
    } else if a == 0 {
      OrDisjointZero(k);
    } else if k == 0 {
      assert b == 0;
    }
  }

  lemma {:induction false} DoublePositive(a: nat, k: nat)
    requires a > 0
    ensures Double(a, k) > 0
  {
    if k > 0 { DoublePositive(a, k - 1); }
  }

  lemma {:induction false} OrDisjointZero(k: nat)
    ensures Double(0, k) == 0
  {
    if k > 0 { OrDisjointZero(k - 1); }
  }

  /** The word of all ones. */
  function AllOnes(W: nat): nat { Pow2(W) - 1 }

  lemma {:induction false} AllOnesBits(W: nat)
    ensures forall i :: 0 <= i < W ==> ToBits(W, AllOnes(W))[i]
  {
    if W > 0 {
      AllOnesBits(W - 1);
      assert AllOnes(W) / 2 == AllOnes(W - 1);
    }
  }

  /** x & (AllOnes >> c) keeps the bits after the first c. */
  lemma LowMaskBits(W: nat, x: nat, c: nat)
    requires c <= W
    ensures ToBits(W, And(x, ShiftRight(AllOnes(W), c))) == Zeros(c) + ToBits(W, x)[c..]
  {
    hide ToBits, And, ShiftRight, AllOnes, Pow2;
    var m := ShiftRight(AllOnes(W), c);
    AndBits(W, x, m);
    AllOnesBits(W);
    assert AllOnes(W) < Pow2(W) by { AllOnesSmall(W); }
    ShiftRightBits(W, AllOnes(W), c);
    ShiftRightBound(W, AllOnes(W), c);
    HighBitsZero(c, W - c, m);
    SplitBits(c, W - c, m);
  }

  lemma AllOnesSmall(W: nat)
    ensures AllOnes(W) < Pow2(W)
  {
  }

  lemma HighBitsZero(c: nat, n: nat, m: nat)
    requires m < Pow2(n)
    ensures ToBits(c, ShiftRight(m, n)) == Zeros(c)
  {
    ShiftRightBound(n, m, n);
    ToBitsZero(c);
  }

  /** x & (AllOnes << k) clears the low k bits. */
  lemma HighMaskBits(W: nat, x: nat, k: nat)
    requires k <= W
    ensures ToBits(W, And(x, ShiftLeft(W, AllOnes(W), k))) == ToBits(W, x)[..W - k] + Zeros(k)
  {
    AndBits(W, x, ShiftLeft(W, AllOnes(W), k));
    AllOnesBits(W);
    ShiftLeftBits(W, AllOnes(W), k);
  }

  // ----- reading fields out of a word

  /** (x & (AllOnes >> c)) >> (W - c - n) is the field of n bits after the first c. */
  lemma ExtractField(W: nat, x: nat, c: nat, n: nat)
    requires x < Pow2(W) && c + n <= W
    ensures ShiftRight(And(x, ShiftRight(AllOnes(W), c)), W - c - n) == Value(ToBits(W, x)[c..c + n])
  {
    var y := And(x, ShiftRight(AllOnes(W), c));
    AndBound(W, x, ShiftRight(AllOnes(W), c));
    LowMaskBits(W, x, c);
    ExtractHigh(W, y, c + n);
    assert ToBits(W, y)[..c + n] == Zeros(c) + ToBits(W, x)[c..c + n];
    ValueAfterZeros(c, ToBits(W, x)[c..c + n]);
  }

  lemma ValueAfterZeros(c: nat, s: seq<bool>)
    ensures Value(Zeros(c) + s) == Value(s)
  {
    ValueConcat(Zeros(c), s);
    ValueZeros(c);
    OrDisjointZero(|s|);
  }

  /** x & (AllOnes >> c) is the field of all bits after the first c. */
  lemma ExtractRest(W: nat, x: nat, c: nat)
    requires x < Pow2(W) && c <= W
    ensures And(x, ShiftRight(AllOnes(W), c)) == Value(ToBits(W, x)[c..])
  {
    ExtractField(W, x, c, W - c);
    assert ToBits(W, x)[c..W] == ToBits(W, x)[c..];
  }

  /** x >> (W - n) is the field of the first n bits. */
  lemma ExtractHigh(W: nat, x: nat, n: nat)
    requires x < Pow2(W) && n <= W
    ensures ShiftRight(x, W - n) == Value(ToBits(W, x)[..n])
  {
    ShiftRightBits(W, x, W - n);
    ShiftRightBound(W, x, W - n);
    ValueOfBits(n, ShiftRight(x, W - n));
  }

  // ----- counting leading zeros

  /** The count-leading-zeros instruction on a W-bit register. */
  function CountZeroMsbs(W: nat, x: nat): nat {
    if W == 0 || x >= Pow2(W - 1) then 0 else 1 + CountZeroMsbs(W - 1, x)
  }

  lemma {:induction false} TopBitOfWord(W: nat, x: nat)
    requires 1 <= W && x < Pow2(W)
    ensures ToBits(W, x)[0] <==> x >= Pow2(W - 1)
  {
    if W > 1 {
      TopBitOfWord(W - 1, x / 2);
    }
  }

  lemma {:induction false} CountZeroMsbsIsLeadingZeros(W: nat, x: nat)
    requires x < Pow2(W)
    ensures CountZeroMsbs(W, x) == LeadingZeros(ToBits(W, x))
  {
    if W > 0 {
      hide ToBits, ShiftRight, Pow2;
      TopBitOfWord(W, x);
      SplitBits(1, W - 1, x);
      if x < Pow2(W - 1) {
        CountZeroMsbsIsLeadingZeros(W - 1, x);
        assert ToBits(W, x)[1..] == ToBits(W - 1, x);
      }
    }
  }

  lemma ZeroIffNoBits(W: nat, x: nat)
    requires x < Pow2(W)
    ensures x == 0 <==> LeadingZeros(ToBits(W, x)) == W
  {
    ValueOfBits(W, x);
    ValueZeros(W);
    ToBitsZero(W);
    LeadingZerosUnique(Zeros(W), W);
    assert LeadingZeros(ToBits(W, x)) == W ==> ToBits(W, x) == Zeros(W);
  }
}
