/** The four megabytes of GS memory, seen as a row of 4-bit nibbles.

    Every pixel format keeps a pixel in a few consecutive nibbles: six of the eight of a
    32-bit word for 24-bit colours, the top one for the PSMT4HH palette index, and so on.
    The loads and stores of the source work on bytes and merge fields with masks and shifts;
    they are proved to read and replace exactly those nibbles. */
module GsMemory {
  import opened Hex

  type Byte = b: nat | b < 256

  const MEMORY_SIZE: nat := 0x40_0000

  // ----- nibbles of memory

  function Nib(m: seq<Byte>, k: nat): (r: nat)
    requires k < 2 * |m|
    ensures r < 16
  {
    if k % 2 == 0 then m[k / 2] % 16 else m[k / 2] / 16
  }

  lemma NibblesDetermine(m: seq<Byte>, m': seq<Byte>)
    requires |m| == |m'|
    requires forall k :: 0 <= k < 2 * |m| ==> Nib(m, k) == Nib(m', k)
    ensures m == m'
  {
    forall i | 0 <= i < |m| ensures m[i] == m'[i] {
      assert Nib(m, 2 * i) == Nib(m', 2 * i);
      assert Nib(m, 2 * i + 1) == Nib(m', 2 * i + 1);
    }
  }

  /** The number in nibbles start, ..., start + n - 1, least significant first. */
  function Field(m: seq<Byte>, start: nat, n: nat): (r: nat)
    requires start + n <= 2 * |m|
    ensures r < Pow16(n)
    decreases n
  {
    if n == 0 then 0 else Nib(m, start) + 16 * Field(m, start + 1, n - 1)
  }

  /** m' is m with the n nibbles from start replaced by the low n digits of v. */
  ghost predicate Replaced(m: seq<Byte>, m': seq<Byte>, start: nat, n: nat, v: nat) {
    && |m'| == |m|
    && forall k :: 0 <= k < 2 * |m| ==> Nib(m', k) == if start <= k < start + n then Digit(v, k - start) else Nib(m, k)
  }

  lemma ReplacedUnique(m: seq<Byte>, m': seq<Byte>, m'': seq<Byte>, start: nat, n: nat, v: nat)
    requires Replaced(m, m', start, n, v) && Replaced(m, m'', start, n, v)
    ensures m' == m''
  {
    hide Nib, Digit;
    NibblesDetermine(m', m'');
  }

  function Pack(lo: nat, hi: nat): Byte
    requires lo < 16 && hi < 16
  {
    lo + 16 * hi
  }

  function SetNib(m: seq<Byte>, k: nat, d: nat): (r: seq<Byte>)
    requires k < 2 * |m| && d < 16
    ensures |r| == |m|
  {
    var b := m[k / 2];
    m[k / 2 := if k % 2 == 0 then Pack(d, b / 16) else Pack(b % 16, d)]
  }

  function SetField(m: seq<Byte>, start: nat, n: nat, v: nat): (r: seq<Byte>)
    requires start + n <= 2 * |m|
    ensures |r| == |m|
    decreases n
  {
    if n == 0 then m else SetField(SetNib(m, start, v % 16), start + 1, n - 1, v / 16)
  }

  lemma SetNibIs(m: seq<Byte>, k: nat, d: nat, i: nat)
    requires k < 2 * |m| && d < 16 && i < 2 * |m|
    ensures Nib(SetNib(m, k, d), i) == if i == k then d else Nib(m, i)
  {
  }

  lemma {:induction false} SetFieldIs(m: seq<Byte>, start: nat, n: nat, v: nat)
    requires start + n <= 2 * |m|
    ensures Replaced(m, SetField(m, start, n, v), start, n, v)
    decreases n
  {
    hide Nib, SetNib;
    if n > 0 {
      var m1 := SetNib(m, start, v % 16);
      var r := SetField(m, start, n, v);
      SetFieldIs(m1, start + 1, n - 1, v / 16);
      forall k | 0 <= k < 2 * |m|
        ensures Nib(r, k) == if start <= k < start + n then Digit(v, k - start) else Nib(m, k)
      {
        SetNibIs(m, start, v % 16, k);
      }
    }
  }

  lemma {:induction false} FieldDigit(m: seq<Byte>, start: nat, n: nat, j: nat)
    requires start + n <= 2 * |m| && j < n
    ensures Digit(Field(m, start, n), j) == Nib(m, start + j)
    decreases j
  {
    hide Nib;
    if j > 0 {
      FieldDigit(m, start + 1, n - 1, j - 1);
    }
  }

  // ----- the laws of fields

  /** A field that was just written reads back its low digits. */
  lemma FieldWritten(m: seq<Byte>, start: nat, n: nat, v: nat)
    requires start + n <= 2 * |m| && v < Pow16(n)
    ensures Field(SetField(m, start, n, v), start, n) == v
  {
    hide Nib, SetField, Field, Digit, Pow16;
    var r := SetField(m, start, n, v);
    SetFieldIs(m, start, n, v);
    forall j | 0 <= j < n ensures Digit(Field(r, start, n), j) == Digit(v, j) {
      FieldDigit(r, start, n, j);
    }
    DigitsDetermine(Field(r, start, n), v, n);
  }

  /** A field that does not meet the written one keeps its value. */
  lemma {:induction false} FieldKept(m: seq<Byte>, start: nat, n: nat, v: nat, other: nat, c: nat)
    requires start + n <= 2 * |m| && other + c <= 2 * |m|
    requires other + c <= start || start + n <= other
    ensures Field(SetField(m, start, n, v), other, c) == Field(m, other, c)
    decreases c
  {
    hide Nib, SetField, Digit, Pow16;
    if c > 0 {
      SetFieldIs(m, start, n, v);
      FieldKept(m, start, n, v, other + 1, c - 1);
    }
  }

  lemma {:induction false} FieldSplit(m: seq<Byte>, start: nat, n: nat, c: nat)
    requires start + n + c <= 2 * |m|
    ensures Field(m, start, n + c) == Field(m, start, n) + Shl(Field(m, start + n, c), n)
    decreases n
  {
    hide Nib, Pow16;
    if n > 0 {
      FieldSplit(m, start + 1, n - 1, c);
    }
  }

  // ----- the loads and stores of the source (little-endian)

  function Load16(m: seq<Byte>, a: nat): (r: nat)
    requires a + 2 <= |m|
  {
    var lo: nat, hi: nat := m[a], m[a + 1];
    lo + 0x100 * hi
  }

  function Load32(m: seq<Byte>, a: nat): (r: nat)
    requires a + 4 <= |m|
  {
    Load16(m, a) + 0x1_0000 * Load16(m, a + 2)
  }

  function Store16(m: seq<Byte>, a: nat, v: nat): (r: seq<Byte>)
    requires a + 2 <= |m| && v < 0x1_0000
    ensures |r| == |m|
  {
    m[a := v % 0x100][a + 1 := v / 0x100]
  }

  function Store32(m: seq<Byte>, a: nat, v: nat): (r: seq<Byte>)
    requires a + 4 <= |m| && v < 0x1_0000_0000
    ensures |r| == |m|
  {
    Store16(Store16(m, a, v % 0x1_0000), a + 2, v / 0x1_0000)
  }

  lemma Nibs2(m: seq<Byte>, a: nat)
    requires a < |m|
    ensures Nib(m, 2 * a) == m[a] % 16 && Nib(m, 2 * a + 1) == m[a] / 16
  {
  }

  lemma Field2(m: seq<Byte>, a: nat)
    requires a < |m|
    ensures Field(m, 2 * a, 2) == m[a]
  {
    Nibs2(m, a);
    hide Nib;
    assert Field(m, 2 * a + 2, 0) == 0;
    assert Field(m, 2 * a + 1, 1) == Nib(m, 2 * a + 1);
  }

  lemma Load16Is(m: seq<Byte>, a: nat)
    requires a + 2 <= |m|
    ensures Load16(m, a) == Field(m, 2 * a, 4)
  {
    hide Field, Shl;
    FieldSplit(m, 2 * a, 2, 2);
    Field2(m, a);
    Field2(m, a + 1);
    Shifts(m[a + 1]);
    assert 2 * (a + 1) == 2 * a + 2;
  }

  lemma Load32Is(m: seq<Byte>, a: nat)
    requires a + 4 <= |m|
    ensures Load32(m, a) == Field(m, 2 * a, 8)
  {
    hide Field, Load16, Shl;
    FieldSplit(m, 2 * a, 4, 4);
    Load16Is(m, a);
    Load16Is(m, a + 2);
    Shifts(Load16(m, a + 2));
    assert 2 * (a + 2) == 2 * a + 4;
  }

  lemma Store8Replaces(m: seq<Byte>, a: nat, v: nat)
    requires a < |m| && v < 0x100
    ensures Replaced(m, m[a := v], 2 * a, 2, v)
  {
    assert Digit(v, 0) == v % 16 && Digit(v, 1) == v / 16;
  }

  /** Two neighbouring fields replaced one after the other. */
  lemma ReplacedTwice(m: seq<Byte>, m1: seq<Byte>, m2: seq<Byte>, start: nat, n: nat, lo: nat, c: nat, hi: nat)
    requires Replaced(m, m1, start, n, lo) && Replaced(m1, m2, start + n, c, hi)
    requires lo < Pow16(n)
    ensures Replaced(m, m2, start, n + c, lo + Shl(hi, n))
  {
    hide Nib, Digit, Pow16, Shl;
    forall k | 0 <= k < 2 * |m|
      ensures Nib(m2, k) == if start <= k < start + (n + c) then Digit(lo + Shl(hi, n), k - start) else Nib(m, k)
    {
      if start <= k {
        DigitSplit(lo, hi, n, k - start);
      }
    }
  }

  lemma Store16Replaces(m: seq<Byte>, a: nat, v: nat)
    requires a + 2 <= |m| && v < 0x1_0000
    ensures Replaced(m, Store16(m, a, v), 2 * a, 4, v)
  {
    hide Replaced, Pow16, Shl;
    var m1: seq<Byte> := m[a := v % 0x100];
    Store8Replaces(m, a, v % 0x100);
    Store8Replaces(m1, a + 1, v / 0x100);
    Powers();
    Shifts(v / 0x100);
    assert 2 * (a + 1) == 2 * a + 2;
    ReplacedTwice(m, m1, Store16(m, a, v), 2 * a, 2, v % 0x100, 2, v / 0x100);
  }

  lemma Store32Replaces(m: seq<Byte>, a: nat, v: nat)
    requires a + 4 <= |m| && v < 0x1_0000_0000
    ensures Replaced(m, Store32(m, a, v), 2 * a, 8, v)
  {
    hide Replaced, Pow16, Shl, Store16;
    var m1 := Store16(m, a, v % 0x1_0000);
    Store16Replaces(m, a, v % 0x1_0000);
    Store16Replaces(m1, a + 2, v / 0x1_0000);
    Powers();
    Shifts(v / 0x1_0000);
    assert 2 * (a + 2) == 2 * a + 4;
    ReplacedTwice(m, m1, Store32(m, a, v), 2 * a, 4, v % 0x1_0000, 4, v / 0x1_0000);
  }

  /** Replacing a field by what it already holds, and something new in the middle. */
  lemma ReplacedMiddle(m: seq<Byte>, m': seq<Byte>, start: nat, before: nat, n: nat, after: nat, v: nat)
    requires start + before + n + after <= 2 * |m| && v < Pow16(n)
    requires Replaced(m, m', start, before + n + after,
               Field(m, start, before) + Shl(v + Shl(Field(m, start + before + n, after), n), before))
    ensures Replaced(m, m', start + before, n, v)
  {
    hide Nib, Digit, Pow16, Shl, Field;
    var hi := Field(m, start + before + n, after);
    var lo := Field(m, start, before);
    forall k | 0 <= k < 2 * |m|
      ensures Nib(m', k) == if start + before <= k < start + before + n then Digit(v, k - (start + before))
          else Nib(m, k)
    {
      if start <= k < start + before + n + after {
        DigitSplit(lo, v + Shl(hi, n), before, k - start);
        if k < start + before {
          FieldDigit(m, start, before, k - start);
        } else {
          DigitSplit(v, hi, n, k - start - before);
          if k >= start + before + n {
            FieldDigit(m, start + before + n, after, k - start - before - n);
          }
        }
      }
    }
  }
}
