/** Pixels of the thirteen transfer formats.

    `Pixel` and `SetPixel` say where a pixel lives and what a write changes; `Fetch` and
    `Store` do it the way the read_*_block and write_*_block functions and the transfer
    loops do, on bytes and with masks. */
module GsPixels {
  import opened GsSwizzle
  import opened GsTables
  import opened Bits
  import opened GsMemory
  import opened Hex
  import opened Words
  import opened Wrappers

  datatype Format = CT32 | CT24 | CT16 | CT16S | CT8 | CT4 | CT8H | CT4HL | CT4HH | Z32 | Z24 | Z16 | Z16S

  /** The format codes of BITBLTBUF. */
  function FormatOf(code: nat): Option<Format> {
    match code
    case 0x00 => Some(CT32)
    case 0x01 => Some(CT24)
    case 0x02 => Some(CT16)
    case 0x0A => Some(CT16S)
    case 0x13 => Some(CT8)
    case 0x14 => Some(CT4)
    case 0x1B => Some(CT8H)
    case 0x24 => Some(CT4HL)
    case 0x2C => Some(CT4HH)
    case 0x30 => Some(Z32)
    case 0x31 => Some(Z24)
    case 0x32 => Some(Z16)
    case 0x3A => Some(Z16S)
    case _ => None
  }

  function LayoutOf(f: Format): Layout {
    match f
    case CT16 => L16
    case CT16S => L16S
    case CT8 => L8
    case CT4 => L4
    case Z32 => L32Z
    case Z24 => L32Z
    case Z16 => L16Z
    case Z16S => L16SZ
    case _ => L32
  }

  /** The block of a pixel inside its page, by the format code: the bits of the block number are
      bits of the coordinates, counted in blocks, in an order of the format's own. Depth formats
      invert the two highest. */
  function BlockOf(code: nat, x: nat, y: nat): int {
    match code
    case 0x02 =>
      var d, c := y / 8 % 8, x / 16 % 4;
      16 * (d / 4) + 8 * (c / 2) + 4 * (d / 2 % 2) + 2 * (c % 2) + d % 2
    case 0x0A =>
      var d, c := y / 8 % 8, x / 16 % 4;
      16 * (c / 2) + 8 * (d / 2 % 2) + 4 * (d / 4) + 2 * (c % 2) + d % 2
    case 0x32 =>
      var d, c := y / 8 % 8, x / 16 % 4;
      16 * (1 - d / 4) + 8 * (1 - c / 2) + 4 * (d / 2 % 2) + 2 * (c % 2) + d % 2
    case 0x3A =>
      var d, c := y / 8 % 8, x / 16 % 4;
      16 * (1 - c / 2) + 8 * (1 - d / 2 % 2) + 4 * (d / 4) + 2 * (c % 2) + d % 2
    case 0x14 =>
      var d, c := y / 16 % 8, x / 32 % 4;
      16 * (d / 4) + 8 * (c / 2) + 4 * (d / 2 % 2) + 2 * (c % 2) + d % 2
    case 0x13 =>
      var d, c := y / 16 % 4, x / 16 % 8;
      16 * (c / 4) + 8 * (d / 2) + 4 * (c / 2 % 2) + 2 * (d % 2) + c % 2
    case 0x30 =>
      var d, c := y / 8 % 4, x / 8 % 8;
      16 * (1 - c / 4) + 8 * (1 - d / 2) + 4 * (c / 2 % 2) + 2 * (d % 2) + c % 2
    case 0x31 =>
      var d, c := y / 8 % 4, x / 8 % 8;
      16 * (1 - c / 4) + 8 * (1 - d / 2) + 4 * (c / 2 % 2) + 2 * (d % 2) + c % 2
    case _ =>
      var d, c := y / 8 % 4, x / 8 % 8;
      16 * (c / 4) + 8 * (d / 2) + 4 * (c / 2 % 2) + 2 * (d % 2) + c % 2
  }

  lemma FormatBlocks(code: nat, x: nat, y: nat)
    requires FormatOf(code).Some?
    ensures BlockEntry(LayoutOf(FormatOf(code).value), y, x) == BlockOf(code, x, y)
  {
    hide Block32, Block32Z, Block16, Block16S, Block16Z, Block16SZ;
    match code
    case 0x02 => Blocks16(y / 8 % 8, x / 16 % 4);
    case 0x0A => Blocks16S(y / 8 % 8, x / 16 % 4);
    case 0x32 => Blocks16Z(y / 8 % 8, x / 16 % 4);
    case 0x3A => Blocks16SZ(y / 8 % 8, x / 16 % 4);
    case 0x14 => Blocks16(y / 16 % 8, x / 32 % 4);
    case 0x13 => Blocks32(y / 16 % 4, x / 16 % 8);
    case 0x30 => Blocks32Z(y / 8 % 4, x / 8 % 8);
    case 0x31 => Blocks32Z(y / 8 % 4, x / 8 % 8);
    case _ => Blocks32(y / 8 % 4, x / 8 % 8);
  }

  lemma OfDigits2(v: nat, b1: bool, b0: bool)
    requires v == 2 * N(b1) + N(b0)
    ensures v / 2 == N(b1) == 1 - N(!b1) && v % 2 == N(b0)
  {
  }

  lemma OfDigits3(v: nat, b2: bool, b1: bool, b0: bool)
    requires v == 4 * N(b2) + 2 * N(b1) + N(b0)
    ensures v / 4 == N(b2) == 1 - N(!b2) && v / 2 % 2 == N(b1) == 1 - N(!b1) && v % 2 == N(b0)
  {
  }

  lemma Blocks32(d: nat, c: nat)
    requires d < 4 && c < 8
    ensures Block32(d, c) == 16 * (c / 4) + 8 * (d / 2) + 4 * (c / 2 % 2) + 2 * (d % 2) + c % 2
  {
    hide Block32, N;
    var y1, y0, x2, x1, x0 := Block32InRange(d, c);
    OfDigits2(d, y1, y0);
    OfDigits3(c, x2, x1, x0);
  }

  lemma Blocks32Z(d: nat, c: nat)
    requires d < 4 && c < 8
    ensures Block32Z(d, c) == 16 * (1 - c / 4) + 8 * (1 - d / 2) + 4 * (c / 2 % 2) + 2 * (d % 2) + c % 2
  {
    hide Block32Z, N;
    var y1, y0, x2, x1, x0 := Block32ZInRange(d, c);
    OfDigits2(d, y1, y0);
    OfDigits3(c, x2, x1, x0);
  }

  lemma Blocks16(d: nat, c: nat)
    requires d < 8 && c < 4
    ensures Block16(d, c) == 16 * (d / 4) + 8 * (c / 2) + 4 * (d / 2 % 2) + 2 * (c % 2) + d % 2
  {
    hide Block16, N;
    var y2, y1, y0, x1, x0 := Block16InRange(d, c);
    OfDigits3(d, y2, y1, y0);
    OfDigits2(c, x1, x0);
  }

  lemma Blocks16S(d: nat, c: nat)
    requires d < 8 && c < 4
    ensures Block16S(d, c) == 16 * (c / 2) + 8 * (d / 2 % 2) + 4 * (d / 4) + 2 * (c % 2) + d % 2
  {
    hide Block16S, N;
    var y2, y1, y0, x1, x0 := Block16SInRange(d, c);
    OfDigits3(d, y2, y1, y0);
    OfDigits2(c, x1, x0);
  }

  lemma Blocks16Z(d: nat, c: nat)
    requires d < 8 && c < 4
    ensures Block16Z(d, c) == 16 * (1 - d / 4) + 8 * (1 - c / 2) + 4 * (d / 2 % 2) + 2 * (c % 2) + d % 2
  {
    hide Block16Z, N;
    var y2, y1, y0, x1, x0 := Block16ZInRange(d, c);
    OfDigits3(d, y2, y1, y0);
    OfDigits2(c, x1, x0);
  }

  lemma Blocks16SZ(d: nat, c: nat)
    requires d < 8 && c < 4
    ensures Block16SZ(d, c) == 16 * (1 - c / 2) + 8 * (1 - d / 2 % 2) + 4 * (d / 4) + 2 * (c % 2) + d % 2
  {
    hide Block16SZ, N;
    var y2, y1, y0, x1, x0 := Block16SZInRange(d, c);
    OfDigits3(d, y2, y1, y0);
    OfDigits2(c, x1, x0);
  }

  /** How much of memory a pixel takes, by the format code: the bits of a pixel, and the first
      of them inside its word. */
  lemma FormatSizes(code: nat)
    requires FormatOf(code).Some?
    ensures var f := FormatOf(code).value;
      && 4 * Nibbles(f) == (match code
          case 0x00 => 32 case 0x30 => 32 case 0x01 => 24 case 0x31 => 24
          case 0x02 => 16 case 0x0A => 16 case 0x32 => 16 case 0x3A => 16
          case 0x13 => 8 case 0x1B => 8 case _ => 4)
      && 4 * Low(f) == (match code case 0x1B => 24 case 0x24 => 24 case 0x2C => 28 case _ => 0)
    ensures FormatOf(code).value.CT4? <==> code == 0x14
  {
  }

  /** Nibbles from one position of a layout to the next. */
  function Stride(l: Layout): nat {
    match l case L32 => 8 case L32Z => 8 case L8 => 2 case L4 => 1 case _ => 4
  }

  /** Nibbles of a pixel. */
  function Nibbles(f: Format): nat {
    match f
    case CT32 => 8
    case Z32 => 8
    case CT24 => 6
    case Z24 => 6
    case CT8 => 2
    case CT8H => 2
    case CT4 => 1
    case CT4HL => 1
    case CT4HH => 1
    case _ => 4
  }

  /** The first nibble of a pixel inside its position. */
  function Low(f: Format): nat {
    match f case CT8H => 6 case CT4HL => 6 case CT4HH => 7 case _ => 0
  }

  /** Base in bytes and width in pixels, as BITBLTBUF keeps them. */
  datatype Buffer = Buffer(base: nat, width: nat)

  function Address(l: Layout, b: Buffer, x: nat, y: nat): (r: nat)
    ensures r < Capacity(l)
  {
    hide BlockEntry, ColumnEntry, PageEntry;
    TableAddress(l, b.base / 256, b.width / 64, x, y)
  }

  /** The first nibble of a pixel. */
  function At(f: Format, b: Buffer, x: nat, y: nat): (r: nat)
    ensures r + Nibbles(f) <= 2 * MEMORY_SIZE
  {
    hide Address;
    Stride(LayoutOf(f)) * Address(LayoutOf(f), b, x, y) + Low(f)
  }

  /** The value of a pixel. */
  function Pixel(m: seq<Byte>, f: Format, b: Buffer, x: nat, y: nat): (r: nat)
    requires |m| == MEMORY_SIZE
    ensures r < Pow16(Nibbles(f))
  {
    Field(m, At(f, b, x, y), Nibbles(f))
  }

  /** Memory with one pixel set to the low digits of v. */
  function SetPixel(m: seq<Byte>, f: Format, b: Buffer, x: nat, y: nat, v: nat): (r: seq<Byte>)
    requires |m| == MEMORY_SIZE
    ensures |r| == MEMORY_SIZE
  {
    SetField(m, At(f, b, x, y), Nibbles(f), v)
  }

  /** The pixel lies inside the buffer, before the end of memory. */
  predicate Inside(l: Layout, b: Buffer, x: nat, y: nat) {
    InBuffer(l, b.base / 256, b.width / 64, x, y)
  }

  // ----- a write is read back and disturbs no other pixel

  lemma PixelWritten(m: seq<Byte>, f: Format, b: Buffer, x: nat, y: nat, v: nat)
    requires |m| == MEMORY_SIZE && v < Pow16(Nibbles(f))
    ensures Pixel(SetPixel(m, f, b, x, y, v), f, b, x, y) == v
  {
    hide At, Field, SetField, Pow16, Nibbles;
    FieldWritten(m, At(f, b, x, y), Nibbles(f), v);
  }

  /** Nibbles of two pixels of one layout meet only for the same place and meeting fields. */
  lemma FieldsApart(f: Format, g: Format, b: Buffer, x: nat, y: nat, u: nat, v: nat)
    requires LayoutOf(f) == LayoutOf(g) && Inside(LayoutOf(f), b, x, y) && Inside(LayoutOf(f), b, u, v)
    requires (x == u && y == v) ==> Low(f) + Nibbles(f) <= Low(g) || Low(g) + Nibbles(g) <= Low(f)
    ensures At(g, b, u, v) + Nibbles(g) <= At(f, b, x, y) || At(f, b, x, y) + Nibbles(f) <= At(g, b, u, v)
  {
    hide TableAddress, InBuffer;
    var l := LayoutOf(f);
    if Address(l, b, x, y) == Address(l, b, u, v) {
      AddressInjective(l, b.base / 256, b.width / 64, x, y, u, v);
    }
    StridesApart(f, g, Address(l, b, x, y), Address(l, b, u, v));
  }

  lemma StridesApart(f: Format, g: Format, a: nat, c: nat)
    requires LayoutOf(f) == LayoutOf(g)
    requires a == c ==> Low(f) + Nibbles(f) <= Low(g) || Low(g) + Nibbles(g) <= Low(f)
    ensures var s := Stride(LayoutOf(f));
            s * c + Low(g) + Nibbles(g) <= s * a + Low(f) || s * a + Low(f) + Nibbles(f) <= s * c + Low(g)
  {
    assert Low(f) + Nibbles(f) <= Stride(LayoutOf(f));
    assert Low(g) + Nibbles(g) <= Stride(LayoutOf(f));
  }

  /** Other pixels of the buffer keep their value, and so do the other fields of the same word. */
  lemma PixelKept(m: seq<Byte>, f: Format, b: Buffer, x: nat, y: nat, value: nat, g: Format, u: nat, v: nat)
    requires |m| == MEMORY_SIZE
    requires LayoutOf(f) == LayoutOf(g) && Inside(LayoutOf(f), b, x, y) && Inside(LayoutOf(f), b, u, v)
    requires (x == u && y == v) ==> Low(f) + Nibbles(f) <= Low(g) || Low(g) + Nibbles(g) <= Low(f)
    ensures Pixel(SetPixel(m, f, b, x, y, value), g, b, u, v) == Pixel(m, g, b, u, v)
  {
    hide At, Field, SetField, Nibbles, Low, Inside;
    FieldsApart(f, g, b, x, y, u, v);
    FieldKept(m, At(f, b, x, y), Nibbles(f), value, At(g, b, u, v), Nibbles(g));
  }

  // ----- reading, as the source does it

  function ReadWord(m: seq<Byte>, l: Layout, b: Buffer, x: nat, y: nat): nat
    requires |m| == MEMORY_SIZE && (l == L32 || l == L32Z)
  {
    Load32(m, 4 * Address(l, b, x, y))
  }

  function ReadHalf(m: seq<Byte>, l: Layout, b: Buffer, x: nat, y: nat): nat
    requires |m| == MEMORY_SIZE && (l == L16 || l == L16S || l == L16Z || l == L16SZ)
  {
    Load16(m, 2 * Address(l, b, x, y))
  }

  /** What the transfer loops fetch for a pixel: whole words for the 24-bit formats, the
      field for the others. */
  function Fetch(m: seq<Byte>, f: Format, b: Buffer, x: nat, y: nat): nat
    requires |m| == MEMORY_SIZE
  {
    match f
    case CT32 => ReadWord(m, L32, b, x, y)
    case CT24 => ReadWord(m, L32, b, x, y)
    case CT8H => ReadWord(m, L32, b, x, y) / 0x100_0000
    case CT4HL => ReadWord(m, L32, b, x, y) / 0x100_0000 % 16
    case CT4HH => ReadWord(m, L32, b, x, y) / 0x1000_0000
    case Z32 => ReadWord(m, L32Z, b, x, y)
    case Z24 => ReadWord(m, L32Z, b, x, y)
    case CT8 => m[Address(L8, b, x, y)]
    case CT4 => var a := Address(L4, b, x, y); if a % 2 == 0 then m[a / 2] % 16 else m[a / 2] / 16
    case _ => ReadHalf(m, LayoutOf(f), b, x, y)
  }

  lemma FetchIsPixel(m: seq<Byte>, f: Format, b: Buffer, x: nat, y: nat)
    requires |m| == MEMORY_SIZE
    ensures Fetch(m, f, b, x, y) < 0x1_0000_0000
    ensures Pixel(m, f, b, x, y) == if f.CT24? || f.Z24? then Fetch(m, f, b, x, y) % 0x100_0000
        else Fetch(m, f, b, x, y)
  {
    hide Address, Field, Load16, Load32, Pow16, Nib;
    var a := Address(LayoutOf(f), b, x, y);
    match LayoutOf(f) {
      case L32 => Load32Is(m, 4 * a); WordFields(m, 4 * a);
      case L32Z => Load32Is(m, 4 * a); WordFields(m, 4 * a);
      case L8 => Field2(m, a);
      case L4 => OneNibble(m, a);
      case _ => Load16Is(m, 2 * a);
    }
    Powers();
  }

  lemma OneNibble(m: seq<Byte>, k: nat)
    requires k < 2 * |m|
    ensures Field(m, k, 1) == (if k % 2 == 0 then m[k / 2] % 16 else m[k / 2] / 16)
  {
    assert Field(m, k + 1, 0) == 0;
  }

  lemma WordFields(m: seq<Byte>, a: nat)
    requires a + 4 <= |m|
    ensures var w := Field(m, 2 * a, 8);
      && Field(m, 2 * a, 6) == w % 0x100_0000 && Field(m, 2 * a + 6, 2) == w / 0x100_0000
      && Field(m, 2 * a + 6, 1) == w / 0x100_0000 % 16 && Field(m, 2 * a + 7, 1) == w / 0x1000_0000
  {
    hide Field, Pow16, Nib;
    FieldSplit(m, 2 * a, 6, 2);
    FieldSplit(m, 2 * a + 6, 1, 1);
    Shifts(Field(m, 2 * a + 6, 2));
    Shift1(Field(m, 2 * a + 7, 1));
    Powers();
    WordParts(Field(m, 2 * a, 6), Field(m, 2 * a + 6, 1), Field(m, 2 * a + 7, 1));
  }

  lemma Shift1(v: nat)
    ensures Shl(v, 1) == 16 * v
  {
  }

  lemma WordParts(lo: nat, d: nat, e: nat)
    requires lo < 0x100_0000 && d < 16 && e < 16
    ensures var w := lo + 0x100_0000 * (d + 16 * e);
      && lo == w % 0x100_0000 && d + 16 * e == w / 0x100_0000
      && d == w / 0x100_0000 % 16 && e == w / 0x1000_0000
  {
  }

  // ----- writing, as the source does it

  /** A word with one of its fields replaced through a mask. PSMT4HL ors its whole value in,
      so a value above 15 also reaches the top digit. */
  function Merged(f: Format, oldMem: nat, v: nat): (r: nat)
    requires LayoutOf(f) == L32 || LayoutOf(f) == L32Z
    requires oldMem < 0x1_0000_0000
    ensures r < 0x1_0000_0000
  {
    match f
    case CT24 => oldMem / 0x100_0000 * 0x100_0000 + v % 0x100_0000
    case Z24 => oldMem / 0x100_0000 * 0x100_0000 + v % 0x100_0000
    case CT8H => v % 0x100 * 0x100_0000 + oldMem % 0x100_0000
    case CT4HL => Wrap32(Or(oldMem / 0x1000_0000, v / 16 % 16) * 0x1000_0000 + v % 16 * 0x100_0000
        + oldMem % 0x100_0000)
    case CT4HH => v % 0x10 * 0x1000_0000 + oldMem % 0x1000_0000
    case _ => Wrap32(v)
  }

  function Store(m: seq<Byte>, f: Format, b: Buffer, x: nat, y: nat, v: nat): (r: seq<Byte>)
    requires |m| == MEMORY_SIZE
    ensures |r| == MEMORY_SIZE
  {
    hide Address, Load32, Merged;
    var a := Address(LayoutOf(f), b, x, y);
    match LayoutOf(f)
    case L32 => Store32(m, 4 * a, Merged(f, Word(m, a), v))
    case L32Z => Store32(m, 4 * a, Merged(f, Word(m, a), v))
    case L8 => m[a := v % 0x100]
    case L4 => m[a / 2 := if a % 2 == 0 then Pack(v % 16, m[a / 2] / 16) else Pack(m[a / 2] % 16, v % 16)]
    case _ => Store16(m, 2 * a, v % 0x1_0000)
  }

  function Word(m: seq<Byte>, a: nat): (r: nat)
    requires |m| == MEMORY_SIZE && a < 0x10_0000
    ensures r < 0x1_0000_0000
  {
    Load32(m, 4 * a)
  }

  lemma ReplacedTruncated(m: seq<Byte>, m': seq<Byte>, start: nat, n: nat, lo: nat, hi: nat)
    requires lo < Pow16(n) && Replaced(m, m', start, n, lo)
    ensures Replaced(m, m', start, n, lo + Shl(hi, n))
  {
    hide Nib, Digit, Pow16, Shl;
    forall k | 0 <= k < 2 * |m|
      ensures Nib(m', k) == if start <= k < start + n then Digit(lo + Shl(hi, n), k - start) else Nib(m, k)
    {
      if start <= k < start + n {
        DigitSplit(lo, hi, n, k - start);
      }
    }
  }

  /** A word made of the old field below, the low digits of v, and the old field above. */
  lemma MiddleStored(m: seq<Byte>, a: nat, before: nat, n: nat, after: nat, lo: nat, hi: nat, w: nat)
    requires a + 4 <= |m| && before + n + after == 8 && lo < Pow16(n) && w < 0x1_0000_0000
    requires w == Field(m, 2 * a, before) + Shl(lo + Shl(Field(m, 2 * a + before + n, after), n), before)
    ensures Replaced(m, Store32(m, a, w), 2 * a + before, n, lo + Shl(hi, n))
  {
    hide Replaced, Field, Pow16, Shl, Store32;
    Store32Replaces(m, a, w);
    ReplacedMiddle(m, Store32(m, a, w), 2 * a, before, n, after, lo);
    ReplacedTruncated(m, Store32(m, a, w), 2 * a + before, n, lo, hi);
  }

  lemma FieldOfNone(m: seq<Byte>, k: nat)
    requires k <= 2 * |m|
    ensures Field(m, k, 0) == 0 && Shl(0, 1) == 0 && Shl(0, 2) == 0 && forall v :: Shl(v, 0) == v
  {
  }

  lemma Merged24(m: seq<Byte>, a: nat, v: nat)
    requires a + 4 <= |m|
    ensures var w := Load32(m, a) / 0x100_0000 * 0x100_0000 + v % 0x100_0000;
      w < 0x1_0000_0000 && Replaced(m, Store32(m, a, w), 2 * a, 6, v)
  {
    hide Replaced, Field, Pow16, Shl, Store32, Load32;
    var lo, hi := v % 0x100_0000, v / 0x100_0000;
    Load32Is(m, a);
    WordFields(m, a);
    Powers();
    FieldOfNone(m, 2 * a);
    Shifts(Field(m, 2 * a + 6, 2));
    Shifts(hi);
    MiddleStored(m, a, 0, 6, 2, lo, hi, Load32(m, a) / 0x100_0000 * 0x100_0000 + lo);
  }

  lemma Merged8H(m: seq<Byte>, a: nat, v: nat)
    requires a + 4 <= |m|
    ensures var w := v % 0x100 * 0x100_0000 + Load32(m, a) % 0x100_0000;
      w < 0x1_0000_0000 && Replaced(m, Store32(m, a, w), 2 * a + 6, 2, v)
  {
    hide Replaced, Field, Pow16, Shl, Store32, Load32;
    var lo, hi := v % 0x100, v / 0x100;
    Load32Is(m, a);
    WordFields(m, a);
    Powers();
    FieldOfNone(m, 2 * a + 8);
    Shifts(lo);
    Shifts(hi);
    MiddleStored(m, a, 6, 2, 0, lo, hi, lo * 0x100_0000 + Load32(m, a) % 0x100_0000);
  }

  lemma Merged4HL(m: seq<Byte>, a: nat, v: nat)
    requires a + 4 <= |m| && v < 16
    ensures var w := Load32(m, a) / 0x1000_0000 * 0x1000_0000 + v * 0x100_0000 + Load32(m, a) % 0x100_0000;
      w < 0x1_0000_0000 && Replaced(m, Store32(m, a, w), 2 * a + 6, 1, v)
  {
    hide Replaced, Field, Pow16, Shl, Store32, Load32;
    Load32Is(m, a);
    WordFields(m, a);
    Powers();
    FieldOfNone(m, 2 * a);
    var top := Field(m, 2 * a + 7, 1);
    Shift1(top);
    Shift1(0);
    Shifts(v + 16 * top);
    MiddleStored(m, a, 6, 1, 1, v, 0,
        Load32(m, a) / 0x1000_0000 * 0x1000_0000 + v * 0x100_0000 + Load32(m, a) % 0x100_0000);
  }

  lemma Merged4HH(m: seq<Byte>, a: nat, v: nat)
    requires a + 4 <= |m|
    ensures var w := v % 0x10 * 0x1000_0000 + Load32(m, a) % 0x1000_0000;
      w < 0x1_0000_0000 && Replaced(m, Store32(m, a, w), 2 * a + 7, 1, v)
  {
    hide Replaced, Field, Pow16, Shl, Store32, Load32;
    var lo, hi := v % 16, v / 16;
    Load32Is(m, a);
    FieldSplit(m, 2 * a, 7, 1);
    Shifts(Field(m, 2 * a + 7, 1));
    Powers();
    FieldOfNone(m, 2 * a + 8);
    Shifts(lo);
    Shift1(hi);
    MiddleStored(m, a, 7, 1, 0, lo, hi, lo * 0x1000_0000 + Load32(m, a) % 0x1000_0000);
  }

  lemma Stored32(m: seq<Byte>, a: nat, v: nat)
    requires a + 4 <= |m|
    ensures Replaced(m, Store32(m, a, Wrap32(v)), 2 * a, 8, v)
  {
    hide Replaced, Pow16, Shl, Store32;
    Store32Replaces(m, a, Wrap32(v));
    Powers();
    Shift8(v / 0x1_0000_0000);
    ReplacedTruncated(m, Store32(m, a, Wrap32(v)), 2 * a, 8, Wrap32(v), v / 0x1_0000_0000);
  }

  lemma Shift8(v: nat)
    ensures Shl(v, 8) == 0x1_0000_0000 * v
  {
    Shifts(v);
  }

  lemma OrZero(a: nat)
    ensures Or(a, 0) == a
  {
  }

  /** Masking a field of a word and storing the word replaces that field. */
  lemma MergedReplaces(m: seq<Byte>, f: Format, a: nat, v: nat)
    requires |m| == MEMORY_SIZE && a < 0x10_0000 && (LayoutOf(f) == L32 || LayoutOf(f) == L32Z)
    requires f.CT4HL? ==> v < 16
    ensures Replaced(m, Store32(m, 4 * a, Merged(f, Word(m, a), v)), 8 * a + Low(f), Nibbles(f), v)
  {
    hide Replaced, Store32, Load32, Or;
    assert 2 * (4 * a) == 8 * a;
    match f {
      case CT24 => Merged24(m, 4 * a, v);
      case Z24 => Merged24(m, 4 * a, v);
      case CT8H => Merged8H(m, 4 * a, v);
      case CT4HL => OrZero(Word(m, a) / 0x1000_0000); Merged4HL(m, 4 * a, v);
      case CT4HH => Merged4HH(m, 4 * a, v);
      case CT32 => Stored32(m, 4 * a, v);
      case Z32 => Stored32(m, 4 * a, v);
    }
  }

  lemma StoredHalf(m: seq<Byte>, a: nat, v: nat)
    requires a + 2 <= |m|
    ensures Replaced(m, Store16(m, a, v % 0x1_0000), 2 * a, 4, v)
  {
    hide Replaced, Pow16, Shl, Store16;
    Store16Replaces(m, a, v % 0x1_0000);
    Powers();
    Shifts(v / 0x1_0000);
    ReplacedTruncated(m, Store16(m, a, v % 0x1_0000), 2 * a, 4, v % 0x1_0000, v / 0x1_0000);
  }

  lemma StoredByte(m: seq<Byte>, a: nat, v: nat)
    requires a < |m|
    ensures Replaced(m, m[a := v % 0x100], 2 * a, 2, v)
  {
    hide Replaced, Pow16, Shl;
    Store8Replaces(m, a, v % 0x100);
    Powers();
    Shifts(v / 0x100);
    ReplacedTruncated(m, m[a := v % 0x100], 2 * a, 2, v % 0x100, v / 0x100);
  }

  lemma StoredNibble(m: seq<Byte>, k: nat, v: nat)
    requires k < 2 * |m|
    ensures Replaced(m, SetNib(m, k, v % 16), k, 1, v)
  {
    forall i | 0 <= i < 2 * |m| ensures Nib(SetNib(m, k, v % 16), i) == if i == k then Digit(v, 0) else Nib(m, i) {
      SetNibIs(m, k, v % 16, i);
    }
  }

  /** Every store of the source replaces exactly the nibbles of the pixel. The one exception
      is a value of more than four bits written as PSMT4HL. */
  lemma StoreIsSetPixel(m: seq<Byte>, f: Format, b: Buffer, x: nat, y: nat, v: nat)
    requires |m| == MEMORY_SIZE
    requires f.CT4HL? ==> v < 16
    ensures Store(m, f, b, x, y, v) == SetPixel(m, f, b, x, y, v)
  {
    hide Replaced, Address, Store32, Store16, Load32, Merged, SetField, Nib, Digit;
    var a := Address(LayoutOf(f), b, x, y);
    match LayoutOf(f) {
      case L32 => MergedReplaces(m, f, a, v);
      case L32Z => MergedReplaces(m, f, a, v);
      case L8 => StoredByte(m, a, v);
      case L4 => StoredNibble(m, a, v);
      case _ => StoredHalf(m, 2 * a, v);
    }
    var start := At(f, b, x, y);
    SetFieldIs(m, start, Nibbles(f), v);
    ReplacedUnique(m, Store(m, f, b, x, y, v), SetPixel(m, f, b, x, y, v), start, Nibbles(f), v);
  }
}
