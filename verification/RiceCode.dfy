/** Rice codes on bit strings (section 9.2.7 of RFC 9639): the meaning the bit reader's
    decoders are proved against. */
module RiceCode {
  import opened Bits
  import opened Words
  import opened Wrappers

  /** The zig-zag code: even numbers are non-negative, odd ones negative. */
  function Unfold(u: nat): int {
    if u % 2 == 1 then -(u / 2) - 1 else u / 2
  }

  function Fold(v: int): nat {
    if v < 0 then -2 * v - 1 else 2 * v
  }

  /** A value and the bits after its code. */
  datatype Decoded<T> = Decoded(value: T, rest: seq<bool>)

  /** The value of q zeros and the low bits, kept in 32 bits. */
  function Coded(q: nat, low: seq<bool>): int {
    Unfold(Wrap32(Double(q, |low|) + Value(low)))
  }

  lemma CodedIs(q: nat, low: seq<bool>)
    ensures Coded(q, low) == Unfold(Wrap32(Double(q, |low|) + Value(low)))
  {
  }

  /** q zeros, a stop bit, then `parameter` low bits */
  function DecodeAfter(s: seq<bool>, q: nat, parameter: nat): Option<Decoded<int>> {
    if |s| < q + 1 + parameter then None
    else Some(Decoded(Coded(q, s[q + 1..q + 1 + parameter]), s[q + 1 + parameter..]))
  }

  function Decode(s: seq<bool>, parameter: nat): Option<Decoded<int>> {
    DecodeAfter(s, LeadingZeros(s), parameter)
  }

  lemma DecodeAt(s: seq<bool>, q: nat, parameter: nat, low: seq<bool>, tail: seq<bool>)
    requires q == LeadingZeros(s) && q + 1 + parameter <= |s|
    requires low == s[q + 1..q + 1 + parameter] && tail == s[q + 1 + parameter..]
    ensures Decode(s, parameter) == Some(Decoded(Coded(q, low), tail))
  {
    hide Coded, LeadingZeros, DecodeAfter;
    DecodedAfter(s, q, parameter);
  }

  lemma DecodedAfter(s: seq<bool>, q: nat, parameter: nat)
    requires q + 1 + parameter <= |s|
    ensures DecodeAfter(s, q, parameter)
         == Some(Decoded(Coded(q, s[q + 1..q + 1 + parameter]), s[q + 1 + parameter..]))
  {
    hide Coded;
  }

  /** n codes in a row */
  function DecodeMany(s: seq<bool>, n: nat, parameter: nat): (r: Option<Decoded<seq<int>>>)
    ensures r.Some? ==> |r.value.value| == n
  {
    if n == 0 then Some(Decoded([], s))
    else match DecodeMany(s, n - 1, parameter)
      case None => None
      case Some(d) => match Decode(d.rest, parameter)
        case None => None
        case Some(e) => Some(Decoded(d.value + [e.value], e.rest))
  }

  // ----- the code is a code: what an encoder writes is read back

  function Encode(v: int, parameter: nat): seq<bool> {
    Zeros(ShiftRight(Fold(v), parameter)) + [true] + ToBits(parameter, Fold(v))
  }

  function EncodeMany(vs: seq<int>, parameter: nat): seq<bool> {
    if vs == [] then [] else EncodeMany(vs[..|vs| - 1], parameter) + Encode(vs[|vs| - 1], parameter)
  }

  lemma {:induction false} DivideAndRemainder(x: nat, k: nat)
    ensures Double(ShiftRight(x, k), k) + Truncate(k, x) == x
  {
    if k > 0 {
      DivideAndRemainder(x / 2, k - 1);
    }
  }

  lemma DecodeParts(q: nat, low: seq<bool>, rest: seq<bool>)
    ensures Decode(Zeros(q) + [true] + low + rest, |low|)
         == Some(Decoded(Coded(q, low), rest))
  {
    hide Coded, LeadingZeros, Zeros;
    var s := Zeros(q) + [true] + low + rest;
    assert s[q];
    LeadingZerosUnique(s, q);
    assert s[q + 1..q + 1 + |low|] == low;
    assert s[q + 1 + |low|..] == rest;
  }

  lemma DecodeEncode(v: int, parameter: nat, rest: seq<bool>)
    requires IsInt32(v)
    ensures Decode(Encode(v, parameter) + rest, parameter) == Some(Decoded(v, rest))
  {
    hide Decode, Unfold, Fold, Wrap32, Value, Double;
    var u := Fold(v);
    DecodeParts(ShiftRight(u, parameter), ToBits(parameter, u), rest);
    BitsOfTruncate(parameter, parameter, u);
    ValueOfBits(parameter, Truncate(parameter, u));
    DivideAndRemainder(u, parameter);
    UnfoldFold(v);
  }

  lemma UnfoldFold(v: int)
    requires IsInt32(v)
    ensures Unfold(Wrap32(Fold(v))) == v
  {
  }

  lemma {:induction false} DecodeManyPrefix(s: seq<bool>, t: seq<bool>, n: nat, parameter: nat)
    requires DecodeMany(s, n, parameter).Some?
    ensures DecodeMany(s + t, n, parameter)
         == Some(Decoded(DecodeMany(s, n, parameter).value.value, DecodeMany(s, n, parameter).value.rest + t))
  {
    hide Decode;
    if n > 0 {
      DecodeManyPrefix(s, t, n - 1, parameter);
      DecodePrefix(DecodeMany(s, n - 1, parameter).value.rest, t, parameter);
    }
  }

  lemma DecodePrefix(s: seq<bool>, t: seq<bool>, parameter: nat)
    requires Decode(s, parameter).Some?
    ensures Decode(s + t, parameter)
         == Some(Decoded(Decode(s, parameter).value.value, Decode(s, parameter).value.rest + t))
  {
    var q := LeadingZeros(s);
    LeadingZerosUnique(s + t, q);
    assert (s + t)[q + 1..q + 1 + parameter] == s[q + 1..q + 1 + parameter];
    assert (s + t)[q + 1 + parameter..] == s[q + 1 + parameter..] + t;
  }

  /** Every list of 32-bit values survives encoding and decoding, for every parameter. */
  lemma {:induction false} DecodeEncodeMany(vs: seq<int>, parameter: nat)
    requires forall i :: 0 <= i < |vs| ==> IsInt32(vs[i])
    ensures DecodeMany(EncodeMany(vs, parameter), |vs|, parameter) == Some(Decoded(vs, []))
  {
    hide Decode, Encode;
    if vs != [] {
      var n := |vs| - 1;
      DecodeEncodeMany(vs[..n], parameter);
      DecodeManyPrefix(EncodeMany(vs[..n], parameter), Encode(vs[n], parameter), n, parameter);
      assert [] + Encode(vs[n], parameter) == Encode(vs[n], parameter) == Encode(vs[n], parameter) + [];
      DecodeEncode(vs[n], parameter, []);
      assert vs == vs[..n] + [vs[n]];
    }
  }

  // ----- putting the two halves of a code together in a 32-bit register

  lemma {:induction false} TruncateDouble(n: nat, a: nat, k: nat)
    requires k <= n
    ensures Truncate(n, Double(a, k)) == Double(Truncate(n - k, a), k)
  {
    if k > 0 {
      TruncateDouble(n - 1, a, k - 1);
      assert Double(a, k) / 2 == Double(a, k - 1);
    }
  }

  lemma {:induction false} TruncateSum(n: nat, a: nat, k: nat, b: nat)
    requires k <= n && b < Pow2(k)
    ensures Truncate(n, Double(a, k) + b) == Truncate(n, Double(a, k)) + b
  {
    if k > 0 {
      TruncateSum(n - 1, a, k - 1, b / 2);
      assert (Double(a, k) + b) / 2 == Double(a, k - 1) + b / 2;
      assert Double(a, k) / 2 == Double(a, k - 1);
    }
  }

  lemma {:induction false} DoubleSum(a: nat, b: nat, k: nat)
    ensures Double(a + b, k) == Double(a, k) + Double(b, k)
  {
    if k > 0 { DoubleSum(a, b, k - 1); }
  }

  lemma {:induction false} DoubleTwice(a: nat, j: nat, k: nat)
    ensures Double(Double(a, j), k) == Double(a, j + k)
  {
    if k > 0 { DoubleTwice(a, j, k - 1); }
  }

  lemma Double32(a: nat)
    ensures Double(a, 32) == 0x1_0000_0000 * a
  {
    Double8(a);
    Double8(Double(a, 8));
    Double8(Double(a, 16));
    Double8(Double(a, 24));
    DoubleTwice(a, 8, 8);
    DoubleTwice(a, 16, 8);
    DoubleTwice(a, 24, 8);
  }

  lemma Double8(a: nat)
    ensures Double(a, 8) == 256 * a
  {
    assert Double(a, 1) == 2 * a;
    assert Double(a, 2) == 4 * a;
    assert Double(a, 3) == 8 * a;
    assert Double(a, 4) == 16 * a;
    assert Double(a, 5) == 32 * a;
    assert Double(a, 6) == 64 * a;
    assert Double(a, 7) == 128 * a;
  }

  lemma Truncate32(x: nat)
    ensures Truncate(32, x) == Wrap32(x)
  {
    DivideAndRemainder(x, 32);
    Double32(ShiftRight(x, 32));
    Pow2Of32();
  }

  /** (msbs << parameter) | lsbs, when msbs counts the zeros modulo 2^32 */
  lemma Compose(q: nat, parameter: nat, lsbs: nat)
    requires parameter <= 32 && lsbs < Pow2(parameter)
    ensures Or(ShiftLeft(32, Wrap32(q), parameter), lsbs) == Wrap32(Double(q, parameter) + lsbs)
  {
    ComposeInRegister(Wrap32(q), parameter, lsbs);
    ZerosWrap(q, parameter, lsbs);
  }

  lemma ComposeInRegister(m: nat, parameter: nat, lsbs: nat)
    requires parameter <= 32 && lsbs < Pow2(parameter)
    ensures Or(ShiftLeft(32, m, parameter), lsbs) == Wrap32(Double(m, parameter) + lsbs)
  {
    hide Truncate, Double, Or, Wrap32, Pow2;
    TruncateDouble(32, m, parameter);
    OrDisjoint(Truncate(32 - parameter, m), parameter, lsbs);
    TruncateSum(32, m, parameter, lsbs);
    Truncate32(Double(m, parameter) + lsbs);
  }

  lemma ZerosWrap(q: nat, parameter: nat, lsbs: nat)
    ensures Wrap32(Double(q, parameter) + lsbs) == Wrap32(Double(Wrap32(q), parameter) + lsbs)
  {
    hide Double;
    var t := q / 0x1_0000_0000;
    DoubleSum(Wrap32(q), 0x1_0000_0000 * t, parameter);
    Double32(t);
    DoubleTwice(t, 32, parameter);
    DoubleTwice(t, parameter, 32);
    Double32(Double(t, parameter));
  }
}
