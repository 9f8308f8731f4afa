/** The CRC-16 of FLAC frames (polynomial x^16 + x^15 + x^2 + 1).

    A register is its sixteen bits, most significant first, which is also a polynomial
    over GF(2) of degree below sixteen.  `Remainder` is the meaning: long division of
    message * x^16 with the seed added to its top.  `Crc` shifts the message through a register one bit at a time.
    The table-driven loops, eight bytes per step, are proved against both. */
module Crc16 {
  import opened Bits

  type byte = b: nat | b < 256
  type Register = s: seq<bool> | |s| == 16 witness Zeros(16)
  type Octet = s: seq<bool> | |s| == 8 witness Zeros(8)

  const POLYNOMIAL: Register := ToBits(16, 0x8005)

  function Xor(a: seq<bool>, b: seq<bool>): (c: seq<bool>)
    requires |a| == |b|
    ensures |c| == |a|
    ensures forall i :: 0 <= i < |a| ==> c[i] == (a[i] != b[i])
  {
    seq(|a|, i requires 0 <= i < |a| => a[i] != b[i])
  }

  // ----- reference definitions

  /** Multiply the register by x, modulo the polynomial. */
  function TimesX(c: Register): Register {
    Xor(c[1..] + [false], if c[0] then POLYNOMIAL else Zeros(16))
  }

  function TimesXN(n: nat, c: Register): Register {
    if n == 0 then c else TimesX(TimesXN(n - 1, c))
  }

  /** Long division: bring down one message bit at a time below the partial remainder. */
  function Divide(r: Register, message: seq<bool>): Register
    decreases |message|
  {
    if message == [] then r
    else Divide(Xor(TimesX(r), Zeros(15) + [message[0]]), message[1..])
  }

  /** seed * x^|message| + message * x^16, modulo the polynomial */
  function Remainder(seed: Register, message: seq<bool>): Register {
    Divide(Zeros(16), Xor(seed + Zeros(|message|), message + Zeros(16)))
  }

  /** The CRC register after shifting in a message, bit by bit. */
  function Crc(c: Register, message: seq<bool>): Register
    decreases |message|
  {
    if message == [] then c
    else Crc(TimesX(Xor(c, [message[0]] + Zeros(15))), message[1..])
  }

  lemma {:induction false} CrcConcat(c: Register, s: seq<bool>, t: seq<bool>)
    ensures Crc(c, s + t) == Crc(Crc(c, s), t)
    decreases |s|
  {
    if s == [] {
      assert s + t == t;
    } else {
      assert (s + t)[1..] == s[1..] + t;
      CrcConcat(TimesX(Xor(c, [s[0]] + Zeros(15))), s[1..], t);
    }
  }

  // ----- linearity

  lemma TimesXLinear(a: Register, b: Register)
    ensures TimesX(Xor(a, b)) == Xor(TimesX(a), TimesX(b))
  {
  }

  lemma {:induction false} TimesXNLinear(n: nat, a: Register, b: Register)
    ensures TimesXN(n, Xor(a, b)) == Xor(TimesXN(n, a), TimesXN(n, b))
  {
    hide TimesX, Xor;
    if n > 0 {
      TimesXNLinear(n - 1, a, b);
      TimesXLinear(TimesXN(n - 1, a), TimesXN(n - 1, b));
    }
  }

  lemma {:induction false} TimesXNSum(m: nat, n: nat, c: Register)
    ensures TimesXN(m + n, c) == TimesXN(m, TimesXN(n, c))
  {
    if m > 0 {
      TimesXNSum(m - 1, n, c);
    }
  }

  lemma {:induction false} TimesXNZero(n: nat)
    ensures TimesXN(n, Zeros(16)) == Zeros(16)
  {
    if n > 0 {
      TimesXNZero(n - 1);
      assert TimesX(Zeros(16)) == Zeros(16);
    }
  }

  /** While no bit falls out, multiplying by x^n is a plain shift. */
  lemma {:induction false} PlainShift(n: nat, s: seq<bool>)
    requires n + |s| == 16
    ensures TimesXN(n, Zeros(n) + s) == s + Zeros(n)
  {
    hide TimesX;
    if n > 0 {
      PlainShift(n - 1, [false] + s);
      assert Zeros(n) + s == Zeros(n - 1) + ([false] + s);
      PlainShiftOne(s + Zeros(n - 1));
      assert ([false] + s) + Zeros(n - 1) == [false] + (s + Zeros(n - 1));
      assert (s + Zeros(n - 1)) + [false] == s + Zeros(n);
    } else {
      assert Zeros(0) + s == s == s + Zeros(0);
    }
  }

  lemma PlainShiftOne(s: seq<bool>)
    requires |s| == 15
    ensures TimesX([false] + s) == s + [false]
  {
  }

  // ----- the bit-serial register computes the polynomial remainder

  lemma {:induction false} DivideZeros(r: Register, n: nat)
    ensures Divide(r, Zeros(n)) == TimesXN(n, r)
    decreases n
  {
    if n > 0 {
      assert Zeros(n)[1..] == Zeros(n - 1);
      assert Xor(TimesX(r), Zeros(15) + [false]) == TimesX(r);
      DivideZeros(TimesX(r), n - 1);
      OneStep(r);
      TimesXNSum(n - 1, 1, r);
    }
  }

  lemma OneStep(r: Register)
    ensures TimesXN(1, r) == TimesX(r)
  {
    assert TimesXN(0, r) == r;
  }

  /** A bit entering at the bottom sixteen steps early is a bit entering at the top now. */
  lemma DelayedBit(r: Register, bit: bool)
    ensures TimesXN(16, Xor(TimesX(r), Zeros(15) + [bit]))
         == TimesX(Xor(TimesXN(16, r), [bit] + Zeros(15)))
  {
    hide *;
    TimesXNLinear(16, TimesX(r), Zeros(15) + [bit]);
    PlainShift(15, [bit]);
    OneStep(r);
    TimesXNSum(16, 1, r);
    TimesXNSum(1, 16, r);
    OneStep(TimesXN(16, r));
    TimesXNSum(1, 15, Zeros(15) + [bit]);
    OneStep(TimesXN(15, Zeros(15) + [bit]));
    TimesXLinear(TimesXN(16, r), [bit] + Zeros(15));
  }

  lemma {:induction false} DivideIsCrc(r: Register, message: seq<bool>)
    ensures Divide(r, message + Zeros(16)) == Crc(TimesXN(16, r), message)
    decreases |message|
  {
    if message == [] {
      assert message + Zeros(16) == Zeros(16);
      DivideZeros(r, 16);
    } else {
      assert (message + Zeros(16))[1..] == message[1..] + Zeros(16);
      DivideIsCrc(Xor(TimesX(r), Zeros(15) + [message[0]]), message[1..]);
      DelayedBit(r, message[0]);
    }
  }

  lemma {:induction false} DivideConcat(r: Register, s: seq<bool>, t: seq<bool>)
    ensures Divide(r, s + t) == Divide(Divide(r, s), t)
    decreases |s|
  {
    if s == [] {
      assert s + t == t;
    } else {
      assert (s + t)[1..] == s[1..] + t;
      DivideConcat(Xor(TimesX(r), Zeros(15) + [s[0]]), s[1..], t);
    }
  }

  lemma {:induction false} DivideLinear(p: Register, q: Register, s: seq<bool>, t: seq<bool>)
    requires |s| == |t|
    ensures Divide(Xor(p, q), Xor(s, t)) == Xor(Divide(p, s), Divide(q, t))
    decreases |s|
  {
    hide TimesX;
    if s == [] {
      assert Xor(s, t) == [];
    } else {
      var a, b := Zeros(15) + [s[0]], Zeros(15) + [t[0]];
      TimesXLinear(p, q);
      assert Xor(s, t)[1..] == Xor(s[1..], t[1..]);
      assert Xor(Xor(TimesX(p), TimesX(q)), Zeros(15) + [Xor(s, t)[0]]) == Xor(Xor(TimesX(p), a), Xor(TimesX(q), b));
      DivideLinear(Xor(TimesX(p), a), Xor(TimesX(q), b), s[1..], t[1..]);
    }
  }

  /** A dividend of degree below sixteen is its own remainder. */
  lemma {:induction false} DivideShort(s: seq<bool>, t: seq<bool>)
    requires |s| + |t| == 16
    ensures Divide(Zeros(|t|) + s, t) == s + t
    decreases |t|
  {
    hide TimesX, Xor;
    if t == [] {
      assert Zeros(0) + s == s == s + t;
    } else {
      BroughtDown(s, t[0], |t| - 1);
      DivideShort(s + [t[0]], t[1..]);
      assert (s + [t[0]]) + t[1..] == s + t;
    }
  }

  lemma BroughtDown(s: seq<bool>, bit: bool, n: nat)
    requires n + 1 + |s| == 16
    ensures Xor(TimesX(Zeros(n + 1) + s), Zeros(15) + [bit]) == Zeros(n) + (s + [bit])
  {
    var u := Zeros(n) + s;
    assert Zeros(n + 1) + s == [false] + u;
    PlainShiftOne(u);
    LastBit(u, bit);
    assert u + [bit] == Zeros(n) + (s + [bit]);
  }

  lemma LastBit(u: seq<bool>, bit: bool)
    requires |u| == 15
    ensures Xor(u + [false], Zeros(15) + [bit]) == u + [bit]
  {
  }

  /** The seed contributes itself, multiplied by x once for every message bit. */
  lemma {:induction false} CrcOfSeed(c: Register, message: seq<bool>)
    ensures Crc(c, message) == Xor(TimesXN(|message|, c), Crc(Zeros(16), message))
    decreases |message|
  {
    hide TimesX;
    if message == [] {
      assert Xor(c, Zeros(16)) == c;
    } else {
      var head, rest := [message[0]] + Zeros(15), message[1..];
      var z := TimesX(Xor(Zeros(16), head));
      TimesXLinear(c, head);
      assert Xor(Zeros(16), head) == head;
      CrcOfSeed(Xor(TimesX(c), TimesX(head)), rest);
      CrcOfSeed(z, rest);
      TimesXNLinear(|rest|, TimesX(c), TimesX(head));
      OneStep(c);
      TimesXNSum(|rest|, 1, c);
      XorAssociative(TimesXN(|message|, c), TimesXN(|rest|, z), Crc(Zeros(16), rest));
    }
  }

  lemma CrcIsRemainder(seed: Register, message: seq<bool>)
    ensures Crc(seed, message) == Remainder(seed, message)
  {
    hide Divide, Crc, TimesX, TimesXN;
    var top := seed + Zeros(|message|);
    DivideLinear(Zeros(16), Zeros(16), top, message + Zeros(16));
    assert Xor(Zeros(16), Zeros(16)) == Zeros(16);
    DivideShort([], seed);
    assert Zeros(16) + [] == Zeros(16) && [] + seed == seed;
    DivideConcat(Zeros(16), seed, Zeros(|message|));
    DivideZeros(seed, |message|);
    DivideIsCrc(Zeros(16), message);
    TimesXNZero(16);
    CrcOfSeed(seed, message);
  }

  /** Up to sixteen message bits may be added to the top of the register in one go. */
  lemma {:induction false} CrcOfShort(c: Register, s: seq<bool>)
    requires |s| <= 16
    ensures Crc(c, s) == TimesXN(|s|, Xor(c, s + Zeros(16 - |s|)))
    decreases |s|
  {
    hide TimesX;
    if s == [] {
      assert Xor(c, s + Zeros(16)) == c;
    } else {
      var t, n := s[1..], |s|;
      var head := [s[0]] + Zeros(15);
      CrcOfShort(TimesX(Xor(c, head)), t);
      FirstBitOfShort(c, s);
      OneStep(Xor(c, s + Zeros(16 - n)));
      TimesXNSum(n - 1, 1, Xor(c, s + Zeros(16 - n)));
    }
  }

  lemma FirstBitOfShort(c: Register, s: seq<bool>)
    requires 1 <= |s| <= 16
    ensures TimesX(Xor(c, s + Zeros(16 - |s|)))
         == Xor(TimesX(Xor(c, [s[0]] + Zeros(15))), s[1..] + Zeros(17 - |s|))
  {
    var head := [s[0]] + Zeros(15);
    var tail := [false] + s[1..] + Zeros(16 - |s|);
    hide TimesX;
    assert Xor(c, s + Zeros(16 - |s|)) == Xor(Xor(c, head), tail);
    TimesXLinear(Xor(c, head), tail);
    ShiftedOnly(s);
  }

  lemma ShiftedOnly(s: seq<bool>)
    requires 1 <= |s| <= 16
    ensures TimesX([false] + s[1..] + Zeros(16 - |s|)) == s[1..] + Zeros(17 - |s|)
  {
  }

  // ----- the lookup tables

  /** FLAC__crc16_table[j][i], by the recurrence that generates it. */
  function Table(j: nat, i: Octet): Register {
    if j == 0 then TimesXN(8, i + Zeros(8))
    else Xor(Table(0, Table(j - 1, i)[..8]), Table(j - 1, i)[8..] + Zeros(8))
  }

  lemma SplitRegister(c: Register)
    ensures c == Xor(c[..8] + Zeros(8), Zeros(8) + c[8..])
  {
  }

  lemma TimesX8(c: Register)
    ensures TimesXN(8, c) == Xor(Table(0, c[..8]), c[8..] + Zeros(8))
  {
    hide TimesX, TimesXN;
    SplitRegister(c);
    TimesXNLinear(8, c[..8] + Zeros(8), Zeros(8) + c[8..]);
    PlainShift(8, c[8..]);
  }

  lemma {:induction false} TableMeaning(j: nat, i: Octet)
    ensures Table(j, i) == TimesXN(8 * (j + 1), i + Zeros(8))
  {
    hide TimesX, TimesXN;
    if j > 0 {
      TableMeaning(j - 1, i);
      TimesX8(Table(j - 1, i));
      TimesXNSum(8, 8 * j, i + Zeros(8));
    }
  }

  lemma TableLinear(j: nat, a: Octet, b: Octet)
    ensures Table(j, Xor(a, b)) == Xor(Table(j, a), Table(j, b))
  {
    hide Table, TimesX, TimesXN;
    TableMeaning(j, a);
    TableMeaning(j, b);
    TableMeaning(j, Xor(a, b));
    TimesXNLinear(8 * (j + 1), a + Zeros(8), b + Zeros(8));
    assert Xor(a, b) + Zeros(8) == Xor(a + Zeros(8), b + Zeros(8));
  }

  // ----- one byte per step

  /** FLAC__CRC16_UPDATE(data, crc) */
  function Update(data: Octet, crc: Register): Register {
    Xor(crc[8..] + Zeros(8), Table(0, Xor(crc[..8], data)))
  }

  lemma UpdateIsCrc(data: Octet, crc: Register)
    ensures Update(data, crc) == Crc(crc, data)
  {
    hide Crc, Table, TimesX, TimesXN;
    CrcOfShort(crc, data);
    var c := Xor(crc, data + Zeros(8));
    TimesX8(c);
    assert c[..8] == Xor(crc[..8], data);
    assert c[8..] == crc[8..];
    assert Update(data, crc) == Xor(Table(0, c[..8]), c[8..] + Zeros(8));
  }

  /** The bits of a byte string, most significant bit first. */
  function ByteBits(data: seq<byte>): (s: seq<bool>)
    ensures |s| == 8 * |data|
  {
    if data == [] then [] else ToBits(8, data[0]) + ByteBits(data[1..])
  }

  lemma {:induction false} ByteBitsConcat(a: seq<byte>, b: seq<byte>)
    ensures ByteBits(a + b) == ByteBits(a) + ByteBits(b)
  {
    if a == [] {
      assert a + b == b;
    } else {
      assert (a + b)[1..] == a[1..] + b;
      ByteBitsConcat(a[1..], b);
    }
  }

  lemma ByteBitsOne(d: byte)
    ensures ByteBits([d]) == ToBits(8, d)
  {
    assert ByteBits([d][1..]) == [];
  }

  // ----- several bytes per step

  /** What the bytes after the register contribute: Table[n-1][d0] ^ ... ^ Table[0][d(n-1)]. */
  function Slices(data: seq<Octet>): Register {
    if data == [] then Zeros(16) else Xor(Table(|data| - 1, data[0]), Slices(data[1..]))
  }

  function Flatten(data: seq<Octet>): (s: seq<bool>)
    ensures |s| == 8 * |data|
  {
    if data == [] then [] else data[0] + Flatten(data[1..])
  }

  lemma AbsorbByte(n: nat, c: Register, d: Octet)
    ensures TimesXN(8 * n, Crc(c, d)) == Xor(TimesXN(8 * (n + 1), c), Table(n, d))
  {
    hide *;
    CrcOfShort(c, d);
    TimesXNSum(8 * n, 8, Xor(c, d + Zeros(8)));
    TimesXNLinear(8 * (n + 1), c, d + Zeros(8));
    TableMeaning(n, d);
  }

  lemma XorAssociative(a: seq<bool>, b: seq<bool>, c: seq<bool>)
    requires |a| == |b| == |c|
    ensures Xor(Xor(a, b), c) == Xor(a, Xor(b, c))
  {
  }

  lemma XorRegroup(p: Register, q: Register, r: Register, s: Register, t: Register)
    ensures Xor(Xor(p, q), Xor(r, Xor(s, t))) == Xor(Xor(p, r), Xor(Xor(q, s), t))
  {
  }

  lemma {:induction false} CrcIsSlices(c: Register, data: seq<Octet>)
    ensures Crc(c, Flatten(data)) == Xor(TimesXN(8 * |data|, c), Slices(data))
    decreases |data|
  {
    if data == [] {
      assert Xor(c, Zeros(16)) == c;
    } else {
      var d, rest := data[0], data[1..];
      CrcConcat(c, d, Flatten(rest));
      CrcIsSlices(Crc(c, d), rest);
      AbsorbByte(|rest|, c, d);
      XorAssociative(TimesXN(8 * |data|, c), Table(|rest|, d), Slices(rest));
    }
  }

  /** The register itself counts as two bytes of message. */
  lemma RegisterAsBytes(n: nat, c: Register)
    ensures TimesXN(8 * (n + 2), c) == Xor(Table(n + 1, c[..8]), Table(n, c[8..]))
  {
    hide *;
    TimesX8(c);
    TimesXNSum(8 * (n + 1), 8, c);
    TimesXNLinear(8 * (n + 1), Table(0, c[..8]), c[8..] + Zeros(8));
    TimesXNSum(8 * (n + 1), 8, c[..8] + Zeros(8));
    TableMeaning(0, c[..8]);
    TableMeaning(n + 1, c[..8]);
    TableMeaning(n, c[8..]);
  }

  /** The slicing step: the register is added to the first two bytes, then every byte is
      looked up in the table of its own distance from the end. */
  lemma SlicingStep(c: Register, d0: Octet, d1: Octet, rest: seq<Octet>)
    ensures Crc(c, Flatten([d0, d1] + rest))
         == Slices([Xor(c[..8], d0), Xor(c[8..], d1)] + rest)
  {
    hide *;
    var n := |rest|;
    CrcIsSlices(c, [d0, d1] + rest);
    RegisterAsBytes(n, c);
    TableLinear(n + 1, c[..8], d0);
    TableLinear(n, c[8..], d1);
    SlicesOfTwo(d0, d1, rest);
    SlicesOfTwo(Xor(c[..8], d0), Xor(c[8..], d1), rest);
    XorRegroup(Table(n + 1, c[..8]), Table(n, c[8..]), Table(n + 1, d0), Table(n, d1), Slices(rest));
  }

  lemma SlicesOfTwo(a: Octet, b: Octet, rest: seq<Octet>)
    ensures Slices([a, b] + rest) == Xor(Table(|rest| + 1, a), Xor(Table(|rest|, b), Slices(rest)))
  {
    hide Table, TimesX, TimesXN, Xor;
    assert ([a, b] + rest)[1..] == [b] + rest;
    assert ([b] + rest)[1..] == rest;
  }

  // ----- the three loops

  /** The byte of a word that starts b bits from the right: (word >> b) & 0xff */
  function ByteAt(word: nat, b: nat): Octet {
    ToBits(8, And(ShiftRight(word, b), 0xff))
  }

  lemma ByteAtBits(W: nat, word: nat, b: nat)
    requires b + 8 <= W
    ensures ByteAt(word, b) == ToBits(W, word)[W - b - 8..W - b]
  {
    var y := ShiftRight(word, b);
    AndBits(8, y, 0xff);
    AllOnesBits(8);
    assert AllOnes(8) == 0xff by { Pow2Of32(); }
    assert ToBits(8, And(y, 0xff)) == ToBits(8, y);
    SplitBits(W - b, b, word);
    SplitBits(W - b - 8, 8, y);
  }

  /** The bits of a word string, most significant bit first. */
  function WordBits(W: nat, words: seq<nat>): (s: seq<bool>)
    ensures |s| == W * |words|
  {
    if words == [] then [] else ToBits(W, words[0]) + WordBits(W, words[1..])
  }

  lemma FlattenOfFour(d: seq<Octet>)
    requires |d| == 4
    ensures var b: seq<seq<bool>> := d; Flatten(d) == b[0] + b[1] + b[2] + b[3]
  {
    assert d[1..][1..] == d[2..] && d[2..][1..] == d[3..] && d[3..][1..] == [];
    assert Flatten(d[3..]) == d[3];
    assert Flatten(d[2..]) == d[2] + Flatten(d[3..]);
    assert Flatten(d[1..]) == d[1] + Flatten(d[2..]);
  }

  lemma {:induction false} FlattenConcat(a: seq<Octet>, b: seq<Octet>)
    ensures Flatten(a + b) == Flatten(a) + Flatten(b)
  {
    if a == [] {
      assert a + b == b;
    } else {
      assert (a + b)[1..] == a[1..] + b;
      FlattenConcat(a[1..], b);
    }
  }

  /** Eight lookups, one for each byte of a block after the register was added to it. */
  function LookUp8(a: Octet, b: Octet, c: Octet, d: Octet, e: Octet, f: Octet, g: Octet, h: Octet): Register {
    Xor(Xor(Xor(Xor(Xor(Xor(Xor(Table(7, a), Table(6, b)), Table(5, c)), Table(4, d)), Table(3, e)), Table(2, f)),
        Table(1, g)), Table(0, h))
  }

  function LookUp4(a: Octet, b: Octet, c: Octet, d: Octet): Register {
    Xor(Xor(Xor(Table(3, a), Table(2, b)), Table(1, c)), Table(0, d))
  }

  lemma XorChain8(t: seq<Register>)
    requires |t| == 8
    ensures Xor(t[0], Xor(t[1], Xor(t[2], Xor(t[3], Xor(t[4], Xor(t[5], Xor(t[6], Xor(t[7], Zeros(16)))))))))
         == Xor(Xor(Xor(Xor(Xor(Xor(Xor(t[0], t[1]), t[2]), t[3]), t[4]), t[5]), t[6]), t[7])
  {
  }

  lemma SlicesOfEight(d: seq<Octet>)
    requires |d| == 8
    ensures Slices(d) == LookUp8(d[0], d[1], d[2], d[3], d[4], d[5], d[6], d[7])
  {
    hide Table, TimesX, TimesXN, Xor;
    SlicesUnfold(d);
    SlicesUnfold(d[4..]);
    XorChain8(seq(8, i requires 0 <= i < 8 => Table(7 - i, d[i])));
  }

  lemma SlicesUnfold(d: seq<Octet>)
    requires |d| >= 4
    ensures Slices(d) == Xor(Table(|d| - 1, d[0]),
        Xor(Table(|d| - 2, d[1]), Xor(Table(|d| - 3, d[2]), Xor(Table(|d| - 4, d[3]), Slices(d[4..])))))
  {
    hide Table, TimesX, TimesXN, Xor;
    assert d[1..][1..] == d[2..];
    assert d[2..][1..] == d[3..];
    assert d[3..][1..] == d[4..];
    assert Slices(d[2..]) == Xor(Table(|d| - 3, d[2]), Slices(d[3..]));
    assert Slices(d[3..]) == Xor(Table(|d| - 4, d[3]), Slices(d[4..]));
  }

  lemma XorChain4(a: Register, b: Register, c: Register, d: Register)
    ensures Xor(a, Xor(b, Xor(c, Xor(d, Zeros(16))))) == Xor(Xor(Xor(a, b), c), d)
  {
  }

  lemma SlicesOfFour(d: seq<Octet>)
    requires |d| == 4
    ensures Slices(d) == LookUp4(d[0], d[1], d[2], d[3])
  {
    hide Table, TimesX, TimesXN, Xor;
    SlicesUnfold(d);
    assert d[4..] == [];
    XorChain4(Table(3, d[0]), Table(2, d[1]), Table(1, d[2]), Table(0, d[3]));
  }

  /** One pass of the eight-byte loop, whatever the data comes from. */
  lemma EightBytes(crc: Register, d: seq<Octet>)
    requires |d| == 8
    ensures var b: seq<seq<bool>> := d; var c := Xor(crc, b[0] + b[1]);
            LookUp8(c[..8], c[8..], d[2], d[3], d[4], d[5], d[6], d[7]) == Crc(crc, Flatten(d))
  {
    hide Table, TimesX, TimesXN, LookUp8, Crc, Slices, Flatten;
    var b: seq<seq<bool>> := d;
    var c := Xor(crc, b[0] + b[1]);
    assert c[..8] == Xor(crc[..8], d[0]) && c[8..] == Xor(crc[8..], d[1]);
    SlicingStep(crc, d[0], d[1], d[2..]);
    assert d == [d[0], d[1]] + d[2..];
    SlicesOfEight([c[..8], c[8..]] + d[2..]);
  }

  lemma FourBytes(crc: Register, d: seq<Octet>)
    requires |d| == 4
    ensures var b: seq<seq<bool>> := d; var c := Xor(crc, b[0] + b[1]);
            LookUp4(c[..8], c[8..], d[2], d[3]) == Crc(crc, Flatten(d))
  {
    hide Table, TimesX, TimesXN, LookUp4, Crc, Slices, Flatten;
    var b: seq<seq<bool>> := d;
    var c := Xor(crc, b[0] + b[1]);
    assert c[..8] == Xor(crc[..8], d[0]) && c[8..] == Xor(crc[8..], d[1]);
    SlicingStep(crc, d[0], d[1], d[2..]);
    assert d == [d[0], d[1]] + d[2..];
    SlicesOfFour([c[..8], c[8..]] + d[2..]);
  }

  /** FLAC__crc16 */
  method Crc16(data: seq<byte>) returns (crc: Register)
    ensures crc == Crc(Zeros(16), ByteBits(data)) == Remainder(Zeros(16), ByteBits(data))
  {
    hide *;
    crc := Zeros(16);
    var p := 0;
    CrcOfNothing(Zeros(16), data);
    while |data| - p >= 8
      invariant 0 <= p <= |data|
      invariant crc == Crc(Zeros(16), ByteBits(data[..p]))
    {
      EightDataBytes(crc, data[p..p + 8]);
      CrcOfMoreBytes(Zeros(16), data, p, 8);
      crc := Xor(crc, ToBits(8, data[p]) + ToBits(8, data[p + 1]));
      crc := LookUp8(crc[..8], crc[8..], ToBits(8, data[p + 2]), ToBits(8, data[p + 3]),
                     ToBits(8, data[p + 4]), ToBits(8, data[p + 5]), ToBits(8, data[p + 6]), ToBits(8, data[p + 7]));
      p := p + 8;
    }
    while p < |data|
      invariant 0 <= p <= |data|
      invariant crc == Crc(Zeros(16), ByteBits(data[..p]))
    {
      UpdateIsCrc(ToBits(8, data[p]), crc);
      ByteBitsOne(data[p]);
      CrcOfMoreBytes(Zeros(16), data, p, 1);
      assert data[p..p + 1] == [data[p]];
      crc := Update(ToBits(8, data[p]), crc);
      p := p + 1;
    }
    assert data[..p] == data;
    CrcIsRemainder(Zeros(16), ByteBits(data));
  }

  lemma CrcOfNothing(c: Register, data: seq<byte>)
    ensures Crc(c, ByteBits(data[..0])) == c
  {
    assert data[..0] == [];
  }

  lemma CrcOfMoreBytes(c: Register, data: seq<byte>, p: nat, n: nat)
    requires p + n <= |data|
    ensures Crc(c, ByteBits(data[..p + n])) == Crc(Crc(c, ByteBits(data[..p])), ByteBits(data[p..p + n]))
  {
    ExtendBytes(data, p, n);
    CrcConcat(c, ByteBits(data[..p]), ByteBits(data[p..p + n]));
  }

  lemma EightDataBytes(crc: Register, data: seq<byte>)
    requires |data| == 8
    ensures var c := Xor(crc, ToBits(8, data[0]) + ToBits(8, data[1]));
            LookUp8(c[..8], c[8..], ToBits(8, data[2]), ToBits(8, data[3]), ToBits(8, data[4]),
                    ToBits(8, data[5]), ToBits(8, data[6]), ToBits(8, data[7]))
            == Crc(crc, ByteBits(data))
  {
    hide LookUp8, Crc, ToBits;
    var d: seq<Octet> := seq(8, i requires 0 <= i < 8 => ToBits(8, data[i]));
    EightBytes(crc, d);
    OctetsOfBytes(data, d);
  }

  lemma ExtendBytes(data: seq<byte>, p: nat, n: nat)
    requires p + n <= |data|
    ensures ByteBits(data[..p + n]) == ByteBits(data[..p]) + ByteBits(data[p..p + n])
  {
    assert data[..p + n] == data[..p] + data[p..p + n];
    ByteBitsConcat(data[..p], data[p..p + n]);
  }

  lemma {:induction false} OctetsOfBytes(data: seq<byte>, d: seq<Octet>)
    requires |data| == |d| && forall i :: 0 <= i < |d| ==> d[i] == ToBits(8, data[i])
    ensures ByteBits(data) == Flatten(d)
  {
    if d != [] {
      OctetsOfBytes(data[1..], d[1..]);
    }
  }

  lemma {:induction false} WordBitsConcat(W: nat, a: seq<nat>, b: seq<nat>)
    ensures WordBits(W, a + b) == WordBits(W, a) + WordBits(W, b)
  {
    if a == [] {
      assert a + b == b;
    } else {
      assert (a + b)[1..] == a[1..] + b;
      WordBitsConcat(W, a[1..], b);
    }
  }

  lemma WordBitsOne(W: nat, w: nat)
    ensures WordBits(W, [w]) == ToBits(W, w)
  {
    assert WordBits(W, [w][1..]) == [];
  }

  lemma CrcOfMoreWords(W: nat, c: Register, words: seq<nat>, p: nat)
    requires p < |words|
    ensures Crc(c, WordBits(W, words[..p + 1])) == Crc(Crc(c, WordBits(W, words[..p])), ToBits(W, words[p]))
  {
    assert words[..p + 1] == words[..p] + [words[p]];
    WordBitsConcat(W, words[..p], [words[p]]);
    WordBitsOne(W, words[p]);
    CrcConcat(c, WordBits(W, words[..p]), ToBits(W, words[p]));
  }

  lemma CrcOfNoWords(W: nat, c: Register, words: seq<nat>)
    ensures Crc(c, WordBits(W, words[..0])) == c
  {
    assert words[..0] == [];
  }

  /** FLAC__crc16_update_words32 */
  method UpdateWords32(words: seq<nat>, seed: Register) returns (crc: Register)
    ensures crc == Crc(seed, WordBits(32, words)) == Remainder(seed, WordBits(32, words))
  {
    hide *;
    CrcIsRemainder(seed, WordBits(32, words));
    crc := seed;
    var p := 0;
    CrcOfNoWords(32, seed, words);
    while |words| - p >= 2
      invariant 0 <= p <= |words|
      invariant crc == Crc(seed, WordBits(32, words[..p]))
    {
      Words32(crc, words[p], words[p + 1]);
      CrcOfMoreWords(32, seed, words, p);
      CrcOfMoreWords(32, seed, words, p + 1);
      CrcConcat(crc, ToBits(32, words[p]), ToBits(32, words[p + 1]));
      crc := Xor(crc, ToBits(16, ShiftRight(words[p], 16)));
      crc := LookUp8(crc[..8], crc[8..], ByteAt(words[p], 8), ByteAt(words[p], 0),
                     ToBits(8, ShiftRight(words[p + 1], 24)), ByteAt(words[p + 1], 16),
                     ByteAt(words[p + 1], 8), ByteAt(words[p + 1], 0));
      p := p + 2;
    }
    if p < |words| {
      Word32(crc, words[p]);
      CrcOfMoreWords(32, seed, words, p);
      assert words[..p + 1] == words;
      crc := Xor(crc, ToBits(16, ShiftRight(words[p], 16)));
      crc := LookUp4(crc[..8], crc[8..], ByteAt(words[p], 8), ByteAt(words[p], 0));
    } else {
      assert words[..p] == words;
    }
  }

  lemma Words32(crc: Register, v: nat, w: nat)
    ensures var c := Xor(crc, ToBits(16, ShiftRight(v, 16)));
            Crc(crc, ToBits(32, v) + ToBits(32, w))
            == LookUp8(c[..8], c[8..], ByteAt(v, 8), ByteAt(v, 0), ToBits(8, ShiftRight(w, 24)), ByteAt(w, 16),
                ByteAt(w, 8), ByteAt(w, 0))
  {
    hide Table, TimesX, TimesXN, Crc, LookUp8, ByteAt, ToBits;
    var a, b := ToBits(32, v), ToBits(32, w);
    ShiftRightBits(32, v, 16);
    ShiftRightBits(32, w, 24);
    ByteAtBits(32, v, 8); ByteAtBits(32, v, 0);
    ByteAtBits(32, w, 16); ByteAtBits(32, w, 8); ByteAtBits(32, w, 0);
    var d: seq<Octet> := [a[..8], a[8..16], ByteAt(v, 8), ByteAt(v, 0)];
    var e: seq<Octet> := [b[..8], ByteAt(w, 16), ByteAt(w, 8), ByteAt(w, 0)];
    assert a[..16] == a[..8] + a[8..16];
    EightBytes(crc, d + e);
    FlattenConcat(d, e);
    FlattenOfFour(d);
    FlattenOfFour(e);
    Quarters(a);
    Quarters(b);
  }

  lemma Quarters(s: seq<bool>)
    requires |s| == 32
    ensures s == s[..8] + s[8..16] + s[16..24] + s[24..32]
  {
  }

  lemma Word32(crc: Register, v: nat)
    ensures var c := Xor(crc, ToBits(16, ShiftRight(v, 16)));
            LookUp4(c[..8], c[8..], ByteAt(v, 8), ByteAt(v, 0)) == Crc(crc, ToBits(32, v))
  {
    hide Table, TimesX, TimesXN, Crc, LookUp4, ByteAt, ToBits;
    var a := ToBits(32, v);
    ShiftRightBits(32, v, 16);
    ByteAtBits(32, v, 8); ByteAtBits(32, v, 0);
    var d: seq<seq<bool>> := [a[..8], a[8..16], ByteAt(v, 8), ByteAt(v, 0)];
    assert a[..16] == a[..8] + a[8..16];
    FourBytes(crc, d);
    FlattenOfFour(d);
    Quarters(a);
  }

  /** FLAC__crc16_update_words64 */
  method UpdateWords64(words: seq<nat>, seed: Register) returns (crc: Register)
    ensures crc == Crc(seed, WordBits(64, words)) == Remainder(seed, WordBits(64, words))
  {
    hide *;
    CrcIsRemainder(seed, WordBits(64, words));
    crc := seed;
    var p := 0;
    CrcOfNoWords(64, seed, words);
    while p < |words|
      invariant 0 <= p <= |words|
      invariant crc == Crc(seed, WordBits(64, words[..p]))
    {
      var w := words[p];
      Word64(crc, w);
      CrcOfMoreWords(64, seed, words, p);
      crc := Xor(crc, ToBits(16, ShiftRight(w, 48)));
      crc := LookUp8(crc[..8], crc[8..], ByteAt(w, 40), ByteAt(w, 32), ByteAt(w, 24), ByteAt(w, 16), ByteAt(w, 8),
          ByteAt(w, 0));
      p := p + 1;
    }
    assert words[..p] == words;
  }

  lemma Word64(crc: Register, w: nat)
    ensures var c := Xor(crc, ToBits(16, ShiftRight(w, 48)));
            Crc(crc, ToBits(64, w))
            == LookUp8(c[..8], c[8..], ByteAt(w, 40), ByteAt(w, 32), ByteAt(w, 24), ByteAt(w, 16), ByteAt(w, 8),
                ByteAt(w, 0))
  {
    hide Table, TimesX, TimesXN, Crc, LookUp8, ByteAt, ToBits;
    var a := ToBits(64, w);
    ShiftRightBits(64, w, 48);
    ByteAtBits(64, w, 40); ByteAtBits(64, w, 32); ByteAtBits(64, w, 24);
    ByteAtBits(64, w, 16); ByteAtBits(64, w, 8); ByteAtBits(64, w, 0);
    var d: seq<Octet> := [a[..8], a[8..16], ByteAt(w, 40), ByteAt(w, 32)];
    var e: seq<Octet> := [ByteAt(w, 24), ByteAt(w, 16), ByteAt(w, 8), ByteAt(w, 0)];
    assert a[..16] == a[..8] + a[8..16];
    EightBytes(crc, d + e);
    FlattenConcat(d, e);
    FlattenOfFour(d);
    FlattenOfFour(e);
    Eighths(a);
  }

  lemma Eighths(s: seq<bool>)
    requires |s| == 64
    ensures s == (s[..8] + s[8..16] + s[16..24] + s[24..32]) + (s[32..40] + s[40..48] + s[48..56] + s[56..64])
  {
  }
}
