/** Numbers in base sixteen: digits, and shifts by whole digits. */
module Hex {
  import opened Bits

  function Pow16(n: nat): (r: nat)
    ensures r > 0
  {
    if n == 0 then 1 else 16 * Pow16(n - 1)
  }

  /** v * 16^n */
  function Shl(v: nat, n: nat): nat {
    if n == 0 then v else 16 * Shl(v, n - 1)
  }

  /** Digit j of v, counting from the least significant. */
  function Digit(v: nat, j: nat): (r: nat)
    ensures r < 16
  {
    if j == 0 then v % 16 else Digit(v / 16, j - 1)
  }

  lemma Powers()
    ensures Pow16(1) == 0x10 && Pow16(2) == 0x100 && Pow16(4) == 0x1_0000
    ensures Pow16(6) == 0x100_0000 && Pow16(7) == 0x1000_0000 && Pow16(8) == 0x1_0000_0000
  {
    assert Pow16(2) == 0x100;
    assert Pow16(3) == 0x1000;
    assert Pow16(4) == 0x1_0000;
    assert Pow16(5) == 0x10_0000;
    assert Pow16(6) == 0x100_0000;
  }

  lemma Shifts(v: nat)
    ensures Shl(v, 2) == 0x100 * v && Shl(v, 4) == 0x1_0000 * v
    ensures Shl(v, 6) == 0x100_0000 * v && Shl(v, 7) == 0x1000_0000 * v
  {
    assert Shl(v, 1) == 0x10 * v;
    assert Shl(v, 2) == 0x100 * v;
    assert Shl(v, 3) == 0x1000 * v;
    assert Shl(v, 4) == 0x1_0000 * v;
    assert Shl(v, 5) == 0x10_0000 * v;
    assert Shl(v, 6) == 0x100_0000 * v;
  }

  lemma {:induction false} DigitSplit(lo: nat, hi: nat, n: nat, j: nat)
    requires lo < Pow16(n)
    ensures Digit(lo + Shl(hi, n), j) == if j < n then Digit(lo, j) else Digit(hi, j - n)
  {
    if n > 0 {
      ShiftOut(lo, Shl(hi, n - 1));
      if j > 0 {
        DigitSplit(lo / 16, hi, n - 1, j - 1);
      }
    }
  }

  lemma ShiftOut(lo: nat, q: nat)
    ensures (lo + 16 * q) / 16 == lo / 16 + q && (lo + 16 * q) % 16 == lo % 16
  {
  }

  /** A number below 16^n is known by its n digits. */
  lemma {:induction false} DigitsDetermine(v: nat, u: nat, n: nat)
    requires v < Pow16(n) && u < Pow16(n)
    requires forall j :: 0 <= j < n ==> Digit(v, j) == Digit(u, j)
    ensures v == u
  {
    if n > 0 {
      assert Digit(v, 0) == Digit(u, 0);
      forall j | 0 <= j < n - 1 ensures Digit(v / 16, j) == Digit(u / 16, j) {
        assert Digit(v, j + 1) == Digit(u, j + 1);
      }
      DigitsDetermine(v / 16, u / 16, n - 1);
    }
  }

  /** v >> (4 * j) */
  function Shr(v: nat, j: nat): nat {
    if j == 0 then v else Shr(v / 16, j - 1)
  }

  lemma {:induction false} ShrDigit(v: nat, j: nat, i: nat)
    ensures Digit(Shr(v, j), i) == Digit(v, j + i)
    decreases j
  {
    if j > 0 {
      ShrDigit(v / 16, j - 1, i);
    }
  }

  lemma {:induction false} OrCommutes(a: nat, b: nat)
    ensures Or(a, b) == Or(b, a)
  {
    if a != 0 && b != 0 {
      OrCommutes(a / 2, b / 2);
    }
  }

  lemma {:induction false} ShlIsDouble(v: nat, n: nat)
    ensures Shl(v, n) == Double(v, 4 * n)
  {
    if n > 0 {
      ShlIsDouble(v, n - 1);
      assert Double(v, 4 * n) == 2 * Double(v, 4 * n - 1);
      assert Double(v, 4 * n - 1) == 2 * Double(v, 4 * n - 2);
      assert Double(v, 4 * n - 2) == 2 * Double(v, 4 * n - 3);
      assert Double(v, 4 * n - 3) == 2 * Double(v, 4 * n - 4);
    }
  }

  lemma {:induction false} Pow16IsPow2(n: nat)
    ensures Pow16(n) == Pow2(4 * n)
  {
    if n > 0 {
      Pow16IsPow2(n - 1);
      assert Pow2(4 * n) == 2 * Pow2(4 * n - 1);
      assert Pow2(4 * n - 1) == 2 * Pow2(4 * n - 2);
      assert Pow2(4 * n - 2) == 2 * Pow2(4 * n - 3);
      assert Pow2(4 * n - 3) == 2 * Pow2(4 * n - 4);
    }
  }

  /** Or-ing in a field above the ones that are there adds it. */
  lemma OrAbove(lo: nat, hi: nat, n: nat)
    requires lo < Pow16(n)
    ensures Or(lo, Shl(hi, n)) == lo + Shl(hi, n)
  {
    hide *;
    ShlIsDouble(hi, n);
    Pow16IsPow2(n);
    OrDisjoint(hi, 4 * n, lo);
    OrCommutes(lo, Shl(hi, n));
  }
}
