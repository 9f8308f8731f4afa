/** Where a pixel lives in GS video memory.

    A buffer is made of pages, a page of 32 blocks, a block of pixels in a column pattern.
    Positions here count pixels of the format's size; the byte address is that position
    times the size.  `TableAddress` goes through the page tables built at start-up,
    `DirectAddress` recomputes the block; they are proved equal, and, inside a buffer that
    does not wrap around memory, no two pixels are proved to share a position. */
module GsSwizzle {
  import opened Division
  import opened GsTables
  import opened Words

  datatype Layout = L32 | L32Z | L16 | L16S | L16Z | L16SZ | L8 | L4

  // ----- the shape of the eight layouts

  function PageWidth(l: Layout): nat { match l case L8 => 128 case L4 => 128 case _ => 64 }

  function PageHeight(l: Layout): nat { match l case L32 => 32 case L32Z => 32 case L4 => 128 case _ => 64 }

  /** Pixels per block. */
  function BlockSize(l: Layout): nat {
    match l case L32 => 64 case L32Z => 64 case L8 => 256 case L4 => 512 case _ => 128
  }

  /** Pixels in the four megabytes of memory. */
  function Capacity(l: Layout): nat {
    match l case L32 => 0x10_0000 case L32Z => 0x10_0000 case L8 => 0x40_0000 case L4 => 0x80_0000 case _ => 0x20_0000
  }

  /** Buffer widths are given in units of 64 pixels; this is the width in pages. */
  function PagesPerRow(l: Layout, width: nat): nat { width * 64 / PageWidth(l) }

  function PageRow(l: Layout, y: nat): nat { y / PageHeight(l) }

  function PageColumn(l: Layout, x: nat): nat { x / PageWidth(l) }

  function BlockEntry(l: Layout, y: nat, x: nat): nat {
    match l
    case L32 => Block32(y / 8 % 4, x / 8 % 8)
    case L32Z => Block32Z(y / 8 % 4, x / 8 % 8)
    case L16 => Block16(y / 8 % 8, x / 16 % 4)
    case L16S => Block16S(y / 8 % 8, x / 16 % 4)
    case L16Z => Block16Z(y / 8 % 8, x / 16 % 4)
    case L16SZ => Block16SZ(y / 8 % 8, x / 16 % 4)
    case L8 => Block32(y / 16 % 4, x / 16 % 8)
    case L4 => Block16(y / 16 % 8, x / 32 % 4)
  }

  function ColumnEntry(l: Layout, y: nat, x: nat): nat {
    match l
    case L32 => Column32(y % 8, x % 8)
    case L32Z => Column32(y % 8, x % 8)
    case L8 => Column8(y % 16, x % 16)
    case L4 => Column4(y % 16, x % 32)
    case _ => Column16(y % 8, x % 16)
  }

  // ----- the two ways to an address

  /** blockid_*: the block of a pixel, for a buffer `width` pixels wide (shifts and masks
      written as divisions) */
  function BlockId(l: Layout, block: nat, width: nat, x: nat, y: nat): nat {
    match l
    case L32 => Wrap32(block + (y / 32 * 32) * (width / 64) + x / 2 / 32 * 32 + BlockEntry(l, y, x))
    case L32Z => Wrap32(block + (y / 32 * 32) * (width / 64) + x / 2 / 32 * 32 + BlockEntry(l, y, x))
    case L8 => Wrap32(block + (y / 2 / 32 * 32) * (width / 128) + x / 4 / 32 * 32 + BlockEntry(l, y, x))
    case L4 => Wrap32(block + (y / 4 / 32 * 32) * (width / 128) + x / 4 / 32 * 32 + BlockEntry(l, y, x))
    case _ => Wrap32(block + (y / 2 / 32 * 32) * (width / 64) + x / 2 / 32 * 32 + BlockEntry(l, y, x))
  }

  /** An entry of the page tables, as the constructor fills them: width 0, x and y inside a page. */
  function PageEntry(l: Layout, block: nat, y: nat, x: nat): nat {
    Wrap32(BlockId(l, block, 0, x, y) * BlockSize(l) + ColumnEntry(l, y, x))
  }

  /** addr_*: page number and page table, for a width in units of 64 pixels */
  function TableAddress(l: Layout, block: nat, width: nat, x: nat, y: nat): nat {
    var pagesPerRow := match l case L8 => width / 2 case L4 => width / 2 case _ => width;
    var page := Wrap32(block / 32 + PageRow(l, y) * pagesPerRow + PageColumn(l, x));
    Wrap32(page * (32 * BlockSize(l)) + PageEntry(l, block % 32, y % PageHeight(l), x % PageWidth(l))) % Capacity(l)
  }

  /** The same from the block itself. */
  function DirectAddress(l: Layout, block: nat, width: nat, x: nat, y: nat): nat {
    Wrap32(BlockId(l, block, width, x, y) * BlockSize(l) + ColumnEntry(l, y, x)) % Capacity(l)
  }

  /** The position without any wrap-around. */
  function Position(l: Layout, block: nat, width: nat, x: nat, y: nat): int {
    (block + 32 * (PageRow(l, y) * PagesPerRow(l, width) + PageColumn(l, x)) + BlockEntry(l, y, x)) * BlockSize(l)
    + ColumnEntry(l, y, x)
  }

  // ----- wrap-around

  lemma Wrap32Multiple(x: int, k: int)
    ensures Wrap32(x + 0x1_0000_0000 * k) == Wrap32(x)
  {
  }

  /** An intermediate wrap is absorbed by the next one. */
  lemma Wrap32Inside(p: int, c: int, e: int)
    ensures Wrap32(Wrap32(p) * c + e) == Wrap32(p * c + e)
  {
    var k := p / 0x1_0000_0000;
    assert p == Wrap32(p) + 0x1_0000_0000 * k;
    ScaledSum(Wrap32(p), k, c);
    Wrap32Multiple(Wrap32(p) * c + e, k * c);
  }

  lemma ScaledSum(r: int, k: int, c: int)
    ensures (r + 0x1_0000_0000 * k) * c == r * c + 0x1_0000_0000 * (k * c)
  {
  }

  lemma Wrap32Capacity(l: Layout, x: int)
    ensures Wrap32(x) % Capacity(l) == x % Capacity(l)
  {
    var k := x / 0x1_0000_0000;
    assert x == Wrap32(x) + 0x1_0000_0000 * k;
    match l
    case L8 => AddMultiples(Wrap32(x), 1024 * k);
    case L4 => AddMultiples(Wrap32(x), 512 * k);
    case L32 => AddMultiples(Wrap32(x), 4096 * k);
    case L32Z => AddMultiples(Wrap32(x), 4096 * k);
    case _ => AddMultiples(Wrap32(x), 2048 * k);
  }

  lemma AddMultiples(x: int, k: int)
    ensures (x + 0x10_0000 * k) % 0x10_0000 == x % 0x10_0000
    ensures (x + 0x20_0000 * k) % 0x20_0000 == x % 0x20_0000
    ensures (x + 0x40_0000 * k) % 0x40_0000 == x % 0x40_0000
    ensures (x + 0x80_0000 * k) % 0x80_0000 == x % 0x80_0000
  {
    AddMultiple20(x, k); AddMultiple21(x, k); AddMultiple22(x, k); AddMultiple23(x, k);
  }

  lemma AddMultiple20(x: int, k: int)
    ensures (x + 0x10_0000 * k) % 0x10_0000 == x % 0x10_0000
  {
  }

  lemma AddMultiple21(x: int, k: int)
    ensures (x + 0x20_0000 * k) % 0x20_0000 == x % 0x20_0000
  {
  }

  lemma AddMultiple22(x: int, k: int)
    ensures (x + 0x40_0000 * k) % 0x40_0000 == x % 0x40_0000
  {
  }

  lemma AddMultiple23(x: int, k: int)
    ensures (x + 0x80_0000 * k) % 0x80_0000 == x % 0x80_0000
  {
  }


  // ----- entries

  /** Inside a page the block and column entries tell every pixel from every other. */
  lemma EntriesDistinct(l: Layout, y: nat, x: nat, v: nat, u: nat)
    ensures BlockEntry(l, y, x) < 32 && ColumnEntry(l, y, x) < BlockSize(l)
    ensures BlockEntry(l, y, x) == BlockEntry(l, v, u) && ColumnEntry(l, y, x) == ColumnEntry(l, v, u) ==>
      y % PageHeight(l) == v % PageHeight(l) && x % PageWidth(l) == u % PageWidth(l)
  {
    hide Block32, Block32Z, Block16, Block16S, Block16Z, Block16SZ, Column32, Column16, Column8, Column4;
    match l
    case L32 =>
      Block32Distinct(y / 8 % 4, x / 8 % 8, v / 8 % 4, u / 8 % 8);
      Column32Distinct(y % 8, x % 8, v % 8, u % 8);
      Recompose8x4(y); Recompose8x4(v); Recompose8x8(x); Recompose8x8(u);
    case L32Z =>
      Block32ZDistinct(y / 8 % 4, x / 8 % 8, v / 8 % 4, u / 8 % 8);
      Column32Distinct(y % 8, x % 8, v % 8, u % 8);
      Recompose8x4(y); Recompose8x4(v); Recompose8x8(x); Recompose8x8(u);
    case L8 =>
      Block32Distinct(y / 16 % 4, x / 16 % 8, v / 16 % 4, u / 16 % 8);
      Column8Distinct(y % 16, x % 16, v % 16, u % 16);
      Recompose16x4(y); Recompose16x4(v); Recompose16x8(x); Recompose16x8(u);
    case L4 =>
      Block16Distinct(y / 16 % 8, x / 32 % 4, v / 16 % 8, u / 32 % 4);
      Column4Distinct(y % 16, x % 32, v % 16, u % 32);
      Recompose16x8(y); Recompose16x8(v); Recompose32x4(x); Recompose32x4(u);
    case _ =>
      EntriesDistinct16(l, y, x, v, u);
  }

  lemma EntriesDistinct16(l: Layout, y: nat, x: nat, v: nat, u: nat)
    requires l == L16 || l == L16S || l == L16Z || l == L16SZ
    ensures BlockEntry(l, y, x) < 32 && ColumnEntry(l, y, x) < BlockSize(l)
    ensures BlockEntry(l, y, x) == BlockEntry(l, v, u) && ColumnEntry(l, y, x) == ColumnEntry(l, v, u) ==>
      y % PageHeight(l) == v % PageHeight(l) && x % PageWidth(l) == u % PageWidth(l)
  {
    hide Block16, Block16S, Block16Z, Block16SZ, Column16;
    Column16Distinct(y % 8, x % 16, v % 8, u % 16);
    Recompose8x8(y); Recompose8x8(v); Recompose16x4(x); Recompose16x4(u);
    match l
    case L16 => Block16Distinct(y / 8 % 8, x / 16 % 4, v / 8 % 8, u / 16 % 4);
    case L16S => Block16SDistinct(y / 8 % 8, x / 16 % 4, v / 8 % 8, u / 16 % 4);
    case L16Z => Block16ZDistinct(y / 8 % 8, x / 16 % 4, v / 8 % 8, u / 16 % 4);
    case L16SZ => Block16SZDistinct(y / 8 % 8, x / 16 % 4, v / 8 % 8, u / 16 % 4);
  }

  // a coordinate inside a page is its block coordinate and its coordinate inside the block

  lemma Recompose(x: nat, a: nat, m: nat)
    requires a > 0 && m > 0
    ensures a * m > 0
    ensures x % (a * m) == a * (x / a % m) + x % a
    ensures x % (a * m) / a % m == x / a % m && x % (a * m) % a == x % a
  {
    RecomposeParts(x, x / a / m, x / a % m, x % a, a, m);
  }

  lemma RecomposeParts(x: nat, q: nat, b: nat, r: nat, a: nat, m: nat)
    requires r < a && b < m && x == (q * m + b) * a + r
    ensures a * m > 0
    ensures x % (a * m) == a * b + r
    ensures (a * b + r) / a == b && (a * b + r) % a == r && b % m == b
  {
    assert (b + 1) * a == b * a + a;
    MulGrows(b + 1, m, a);
    assert (q * m + b) * a == q * (a * m) + b * a;
    Quotient(x, q, b * a + r, a * m);
    Quotient(b * a + r, b, r, a);
    Quotient(b, 0, b, m);
  }

  lemma Recompose8x4(x: nat)
    ensures x % 32 == 8 * (x / 8 % 4) + x % 8 && x % 32 / 8 % 4 == x / 8 % 4 && x % 32 % 8 == x % 8
  {
    Recompose(x, 8, 4);
  }

  lemma Recompose8x8(x: nat)
    ensures x % 64 == 8 * (x / 8 % 8) + x % 8 && x % 64 / 8 % 8 == x / 8 % 8 && x % 64 % 8 == x % 8
  {
    Recompose(x, 8, 8);
  }

  lemma Recompose16x4(x: nat)
    ensures x % 64 == 16 * (x / 16 % 4) + x % 16 && x % 64 / 16 % 4 == x / 16 % 4 && x % 64 % 16 == x % 16
  {
    Recompose(x, 16, 4);
  }

  lemma Recompose16x8(x: nat)
    ensures x % 128 == 16 * (x / 16 % 8) + x % 16 && x % 128 / 16 % 8 == x / 16 % 8 && x % 128 % 16 == x % 16
  {
    Recompose(x, 16, 8);
  }

  lemma Recompose32x4(x: nat)
    ensures x % 128 == 32 * (x / 32 % 4) + x % 32 && x % 128 / 32 % 4 == x / 32 % 4 && x % 128 % 32 == x % 32
  {
    Recompose(x, 32, 4);
  }

  lemma EntryBounds(l: Layout, y: nat, x: nat)
    ensures BlockEntry(l, y, x) < 32 && ColumnEntry(l, y, x) < BlockSize(l)
  {
    hide *;
    EntriesDistinct(l, y, x, y, x);
  }

  /** Entries repeat from page to page. */
  lemma EntriesPeriodic(l: Layout, y: nat, x: nat)
    ensures BlockEntry(l, y % PageHeight(l), x % PageWidth(l)) == BlockEntry(l, y, x)
    ensures ColumnEntry(l, y % PageHeight(l), x % PageWidth(l)) == ColumnEntry(l, y, x)
  {
    hide Block32, Block32Z, Block16, Block16S, Block16Z, Block16SZ, Column32, Column16, Column8, Column4;
    Recompose8x4(y); Recompose8x8(y); Recompose16x4(y); Recompose16x8(y);
    Recompose8x8(x); Recompose16x4(x); Recompose16x8(x); Recompose32x4(x);
  }

  // ----- table-driven addressing is direct addressing

  /** Which page of the buffer a pixel is on. */
  function Page(l: Layout, width: nat, x: nat, y: nat): int {
    PageRow(l, y) * PagesPerRow(l, width) + PageColumn(l, x)
  }

  lemma BlockIdIs(l: Layout, block: nat, width: nat, x: nat, y: nat)
    ensures BlockId(l, block, 64 * width, x, y) == Wrap32(block + 32 * Page(l, width, x, y) + BlockEntry(l, y, x))
  {
    hide BlockEntry;
    PageShifts(width, x, y);
    Regroup(y / 32, width); Regroup(y / 64, width); Regroup(y / 64, width / 2); Regroup(y / 128, width / 2);
  }

  lemma PageShifts(width: nat, x: nat, y: nat)
    ensures y / 2 / 32 == y / 64 && y / 4 / 32 == y / 128 && x / 2 / 32 == x / 64 && x / 4 / 32 == x / 128
    ensures 64 * width / 64 == width && 64 * width / 128 == width / 2
    ensures width * 64 / 64 == width && width * 64 / 128 == width / 2
  {
  }

  lemma Regroup(a: nat, b: nat)
    ensures (a * 32) * b == 32 * (a * b)
  {
  }

  lemma PageEntryIs(l: Layout, block: nat, y: nat, x: nat)
    requires block < 32 && y < PageHeight(l) && x < PageWidth(l)
    ensures PageEntry(l, block, y, x) == (block + BlockEntry(l, y, x)) * BlockSize(l) + ColumnEntry(l, y, x)
  {
    hide BlockEntry, ColumnEntry, BlockId;
    EntryBounds(l, y, x);
    BlockIdInPage(l, block, y, x);
    assert (block + BlockEntry(l, y, x)) * BlockSize(l) + ColumnEntry(l, y, x) < 64 * 512;
  }

  lemma BlockIdInPage(l: Layout, block: nat, y: nat, x: nat)
    requires block < 32 && x < PageWidth(l)
    ensures BlockId(l, block, 0, x, y) == block + BlockEntry(l, y, x)
  {
    hide BlockEntry;
    EntryBounds(l, y, x);
    NoPages(y, x);
    NoColumns(x);
  }

  lemma NoColumns(x: nat)
    ensures x < 64 ==> x / 2 / 32 == 0
    ensures x < 128 ==> x / 4 / 32 == 0
  {
  }

  lemma NoPages(y: nat, x: nat)
    ensures (y / 32 * 32) * (0 / 64) == 0 && (y / 2 / 32 * 32) * (0 / 64) == 0 && (y / 2 / 32 * 32) * (0 / 128) == 0
    ensures (y / 4 / 32 * 32) * (0 / 128) == 0
  {
  }

  /** The page tables give every pixel the address of its block and column, for every base,
      width, x and y in all eight formats. */
  lemma TableIsDirect(l: Layout, block: nat, width: nat, x: nat, y: nat)
    ensures TableAddress(l, block, width, x, y) == DirectAddress(l, block, 64 * width, x, y)
    ensures TableAddress(l, block, width, x, y) == Position(l, block, width, x, y) % Capacity(l)
  {
    hide *;
    DirectIs(l, block, width, x, y);
    TableIs(l, block, width, x, y);
  }

  lemma DirectIs(l: Layout, block: nat, width: nat, x: nat, y: nat)
    ensures DirectAddress(l, block, 64 * width, x, y) == Position(l, block, width, x, y) % Capacity(l)
  {
    hide BlockEntry, ColumnEntry, Wrap32, BlockId, PageEntry, Page, Capacity, Position, BlockSize;
    var b, c, size := BlockEntry(l, y, x), ColumnEntry(l, y, x), BlockSize(l);
    BlockIdIs(l, block, width, x, y);
    Wrap32Inside(block + 32 * Page(l, width, x, y) + b, size, c);
    Wrap32Capacity(l, Position(l, block, width, x, y));
    PositionIs(l, block, width, x, y);
  }

  lemma TableIs(l: Layout, block: nat, width: nat, x: nat, y: nat)
    ensures TableAddress(l, block, width, x, y) == Position(l, block, width, x, y) % Capacity(l)
  {
    hide BlockEntry, ColumnEntry, Wrap32, BlockId, PageEntry, Page, Capacity, Position, BlockSize;
    var b, c, size := BlockEntry(l, y, x), ColumnEntry(l, y, x), BlockSize(l);
    var page := Page(l, width, x, y);
    EntriesPeriodic(l, y, x);
    PageEntryIs(l, block % 32, y % PageHeight(l), x % PageWidth(l));
    PagesOfTable(l, block, width, x, y);
    Wrap32Inside(block / 32 + page, 32 * size, (block % 32 + b) * size + c);
    BlocksOfPages(block, page, b, size, c);
    Wrap32Capacity(l, Position(l, block, width, x, y));
    PositionIs(l, block, width, x, y);
  }

  lemma PositionIs(l: Layout, block: nat, width: nat, x: nat, y: nat)
    ensures Position(l, block, width, x, y)
         == (block + 32 * Page(l, width, x, y) + BlockEntry(l, y, x)) * BlockSize(l) + ColumnEntry(l, y, x)
  {
  }

  lemma PagesOfTable(l: Layout, block: nat, width: nat, x: nat, y: nat)
    ensures (block / 32 + PageRow(l, y) * (match l case L8 => width / 2 case L4 => width / 2 case _ => width)
        + PageColumn(l, x))
         == block / 32 + Page(l, width, x, y)
  {
    PageShifts(width, x, y);
  }

  lemma BlocksOfPages(block: nat, page: int, b: nat, size: nat, c: nat)
    ensures (block / 32 + page) * (32 * size) + ((block % 32 + b) * size + c) == (block + 32 * page + b) * size + c
  {
    assert block == 32 * (block / 32) + block % 32;
    assert (block / 32 + page) * (32 * size) == (32 * (block / 32) + 32 * page) * size;
  }

  // ----- no two pixels of a buffer share a position

  /** The pixel lies inside the width of the buffer, before the end of memory. */
  predicate InBuffer(l: Layout, block: nat, width: nat, x: nat, y: nat) {
    x < PagesPerRow(l, width) * PageWidth(l) && Position(l, block, width, x, y) < Capacity(l)
  }

  lemma ColumnInRow(l: Layout, n: nat, x: nat)
    requires x < n * PageWidth(l)
    ensures PageColumn(l, x) < n
  {
    match l case L8 => case L4 => case _ =>
  }

  lemma PageDistinct(l: Layout, width: nat, x: nat, y: nat, u: nat, v: nat)
    requires x < PagesPerRow(l, width) * PageWidth(l) && u < PagesPerRow(l, width) * PageWidth(l)
    requires Page(l, width, x, y) == Page(l, width, u, v)
    ensures PageRow(l, y) == PageRow(l, v) && PageColumn(l, x) == PageColumn(l, u)
  {
    var n := PagesPerRow(l, width);
    ColumnInRow(l, n, x);
    ColumnInRow(l, n, u);
    SameQuotient(PageRow(l, y), PageColumn(l, x), PageRow(l, v), PageColumn(l, u), n);
  }

  /** Addressing is injective on a buffer that does not wrap around memory. */
  lemma AddressInjective(l: Layout, block: nat, width: nat, x: nat, y: nat, u: nat, v: nat)
    requires InBuffer(l, block, width, x, y) && InBuffer(l, block, width, u, v)
    requires TableAddress(l, block, width, x, y) == TableAddress(l, block, width, u, v)
    ensures x == u && y == v
  {
    hide BlockEntry, ColumnEntry, TableAddress, Position, PagesPerRow, PageWidth, Capacity;
    TableIsDirect(l, block, width, x, y);
    TableIsDirect(l, block, width, u, v);
    PositionSmall(l, block, width, x, y);
    PositionSmall(l, block, width, u, v);
    PositionInjective(l, block, width, x, y, u, v);
  }

  lemma PositionInjective(l: Layout, block: nat, width: nat, x: nat, y: nat, u: nat, v: nat)
    requires x < PagesPerRow(l, width) * PageWidth(l) && u < PagesPerRow(l, width) * PageWidth(l)
    requires Position(l, block, width, x, y) == Position(l, block, width, u, v)
    ensures x == u && y == v
  {
    hide BlockEntry, ColumnEntry, Page, Position, PagesPerRow, PageRow, PageColumn, PageWidth, PageHeight, BlockSize;
    PositionIs(l, block, width, x, y);
    PositionIs(l, block, width, u, v);
    EntriesDistinct(l, y, x, v, u);
    EntryBounds(l, v, u);
    var b, c := BlockEntry(l, y, x), ColumnEntry(l, y, x);
    var b', c' := BlockEntry(l, v, u), ColumnEntry(l, v, u);
    SameQuotient(block + 32 * Page(l, width, x, y) + b, c, block + 32 * Page(l, width, u, v) + b', c', BlockSize(l));
    SameQuotient(Page(l, width, x, y), b, Page(l, width, u, v), b', 32);
    PageDistinct(l, width, x, y, u, v);
    SamePixel(l, x, y, u, v);
  }

  lemma SamePixel(l: Layout, x: nat, y: nat, u: nat, v: nat)
    requires PageRow(l, y) == PageRow(l, v) && PageColumn(l, x) == PageColumn(l, u)
    requires y % PageHeight(l) == v % PageHeight(l) && x % PageWidth(l) == u % PageWidth(l)
    ensures x == u && y == v
  {
    FromPage(y, v, PageHeight(l));
    FromPage(x, u, PageWidth(l));
  }

  lemma FromPage(x: nat, u: nat, n: nat)
    requires n == 32 || n == 64 || n == 128
    requires x / n == u / n && x % n == u % n
    ensures x == u
  {
  }

  lemma PositionSmall(l: Layout, block: nat, width: nat, x: nat, y: nat)
    requires Position(l, block, width, x, y) < Capacity(l)
    ensures Position(l, block, width, x, y) % Capacity(l) == Position(l, block, width, x, y)
  {
    hide BlockEntry, ColumnEntry, PageRow, PageColumn, PagesPerRow;
    assert PageRow(l, y) * PagesPerRow(l, width) >= 0;
  }
}
