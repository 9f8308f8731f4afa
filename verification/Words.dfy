/** Fixed-width integers: what is left of a number in a machine word. */
module Words {

  /** Unsigned 32-bit arithmetic. */
  function Wrap32(x: int): (r: nat)
    ensures r < 0x1_0000_0000
  {
    x % 0x1_0000_0000
  }

  /** Signed 32-bit arithmetic. */
  function Int32(x: int): (r: int)
    ensures -0x8000_0000 <= r < 0x8000_0000
  {
    (x + 0x8000_0000) % 0x1_0000_0000 - 0x8000_0000
  }

  /** Signed 64-bit arithmetic. */
  function Int64(x: int): (r: int)
    ensures -0x8000_0000_0000_0000 <= r < 0x8000_0000_0000_0000
  {
    (x + 0x8000_0000_0000_0000) % 0x1_0000_0000_0000_0000 - 0x8000_0000_0000_0000
  }

  predicate IsInt32(x: int) { -0x8000_0000 <= x < 0x8000_0000 }

  lemma Int32Small(x: int)
    requires IsInt32(x)
    ensures Int32(x) == x
  {
  }

  /** A wrapped word differs by a multiple of 2^32, and such multiples do not matter. */
  lemma Int32Multiple(x: int) returns (k: int)
    ensures x == Int32(x) + 0x1_0000_0000 * k
  {
    k := (x + 0x8000_0000) / 0x1_0000_0000;
  }

  lemma Int32Shifted(x: int, k: int)
    ensures Int32(x + 0x1_0000_0000 * k) == Int32(x)
  {
  }

  lemma Int32Of(x: int, y: int)
    ensures Int32(x + Int32(y)) == Int32(x + y) && Int32(x - Int32(y)) == Int32(x - y)
    ensures Int32(Int32(y)) == Int32(y)
  {
    hide Int32;
    var k := Int32Multiple(y);
    Int32Shifted(x + Int32(y), k);
    Int32Shifted(x - Int32(y), -k);
    Int32Shifted(Int32(y), k);
  }

  lemma Int64Multiple(x: int) returns (k: int)
    ensures x == Int64(x) + 0x1_0000_0000_0000_0000 * k
  {
    k := (x + 0x8000_0000_0000_0000) / 0x1_0000_0000_0000_0000;
  }

  lemma Int64Shifted(x: int, k: int)
    ensures Int64(x + 0x1_0000_0000_0000_0000 * k) == Int64(x)
  {
  }

  lemma Int64Of(x: int, y: int)
    ensures Int64(x + Int64(y)) == Int64(x + y)
  {
    hide Int64;
    var k := Int64Multiple(y);
    Int64Shifted(x + Int64(y), k);
  }

  lemma Wrap32Shifted(x: int, k: int)
    ensures Wrap32(x + 0x1_0000_0000 * k) == Wrap32(x)
  {
  }

  lemma Wrap32Multiple(x: int) returns (k: int)
    ensures x == Wrap32(x) + 0x1_0000_0000 * k
  {
    k := x / 0x1_0000_0000;
  }

  lemma Wrap32Of(x: int, y: int)
    ensures Wrap32(Wrap32(x) + y) == Wrap32(x + y) && Wrap32(Int32(x)) == Wrap32(x)
  {
    hide Wrap32, Int32;
    var k := Wrap32Multiple(x);
    Wrap32Shifted(Wrap32(x) + y, k);
    var j := Int32Multiple(x);
    Wrap32Shifted(Int32(x), j);
  }
}
