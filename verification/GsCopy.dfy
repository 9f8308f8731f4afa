/** Copying a rectangle of pixels inside GS memory, in any of the four scan orders.

    `Copied` follows the loop one pixel at a time. Inside one buffer it is proved to move the
    old rectangle exactly when the destination does not come after the source in the scan
    order, or the two rectangles do not overlap. */
module GsCopy {
  import opened Division
  import opened GsMemory
  import opened Hex
  import opened GsPixels
  import opened GsRaster

  /** A rectangle and the order it is walked in: 0 from the top left, 1 from the bottom left,
      2 from the top right, 3 from the bottom right; always along the rows. */
  datatype Scan = Scan(order: nat, x: nat, y: nat, w: nat, h: nat)

  predicate Proper(s: Scan) {
    s.order < 4 && s.x < 2048 && s.y < 2048 && 0 < s.w < 4096 && 0 < s.h < 4096
  }

  predicate Leftward(s: Scan) { s.order == 2 || s.order == 3 }

  predicate Upward(s: Scan) { s.order == 1 || s.order == 3 }

  function StartX(s: Scan): nat
    requires Proper(s)
  {
    if Leftward(s) then s.x + s.w - 1 else s.x
  }

  function StartY(s: Scan): nat
    requires Proper(s)
  {
    if Upward(s) then s.y + s.h - 1 else s.y
  }

  /** One step in a 16-bit register, then the wrap at 2048. */
  function Stepped(v: nat, back: bool): nat {
    (if back then v + 65535 else v + 1) % 65536 % 2048
  }

  function Row(s: Scan, p: nat): nat
    requires Proper(s)
  {
    p / s.w
  }

  function Column(s: Scan, p: nat): nat
    requires Proper(s)
  {
    p % s.w
  }

  /** The registers at pixel p. The first pixel is taken before any wrap. */
  function ScanX(s: Scan, p: nat): nat
    requires Proper(s)
  {
    if p == 0 then StartX(s)
    else if Column(s, p) == 0 then StartX(s) % 2048
    else Stepped(ScanX(s, p - 1), Leftward(s))
  }

  function ScanY(s: Scan, p: nat): nat
    requires Proper(s)
  {
    if p == 0 then StartY(s)
    else if Column(s, p) == 0 then Stepped(ScanY(s, p - 1), Upward(s))
    else ScanY(s, p - 1) % 2048
  }

  /** Memory after k pixels went from src to dst. */
  function Copied(m: seq<Byte>, f: Format, g: Format, b: Buffer, c: Buffer, src: Scan, dst: Scan,
          k: nat): (r: seq<Byte>)
    requires |m| == MEMORY_SIZE && Proper(src) && Proper(dst)
    ensures |r| == MEMORY_SIZE
  {
    if k == 0 then m
    else
      var before := Copied(m, f, g, b, c, src, dst, k - 1);
      Store(before, g, c, ScanX(dst, k - 1), ScanY(dst, k - 1),
          Fetch(before, f, b, ScanX(src, k - 1), ScanY(src, k - 1)))
  }

  // ----- where the walk is

  /** The rectangle lies below coordinate 2048. */
  predicate OnGrid(s: Scan) { Proper(s) && s.x + s.w <= 2048 && s.y + s.h <= 2048 }

  function CellX(s: Scan, p: nat): int
    requires Proper(s)
  {
    if Leftward(s) then s.x + s.w - 1 - Column(s, p) else s.x + Column(s, p)
  }

  function CellY(s: Scan, p: nat): int
    requires Proper(s)
  {
    if Upward(s) then s.y + s.h - 1 - Row(s, p) else s.y + Row(s, p)
  }

  function Area(s: Scan): nat { s.w * s.h }

  lemma RowInside(s: Scan, p: nat)
    requires Proper(s) && p < Area(s)
    ensures Row(s, p) < s.h && Column(s, p) < s.w
    ensures p == Row(s, p) * s.w + Column(s, p)
  {
    SmallRow(p, p / s.w, p % s.w, s.w, s.h);
  }

  lemma SmallRow(p: nat, q: nat, r: nat, w: nat, h: nat)
    requires p == q * w + r && p < w * h
    ensures q < h
  {
    if q >= h {
      MulGrows(h, q, w);
    }
  }

  lemma FirstCell(s: Scan)
    requires Proper(s)
    ensures Row(s, 0) == 0 && Column(s, 0) == 0
  {
  }

  lemma NextCell(s: Scan, p: nat)
    requires Proper(s)
    ensures if Column(s, p + 1) == 0 then Row(s, p + 1) == Row(s, p) + 1
            else Row(s, p + 1) == Row(s, p) && Column(s, p + 1) == Column(s, p) + 1
  {
    NextQuotient(p, s.w);
  }

  lemma {:induction false} ScanIsCell(s: Scan, p: nat)
    requires OnGrid(s) && p < Area(s)
    ensures ScanX(s, p) == CellX(s, p) && ScanY(s, p) == CellY(s, p)
  {
    hide Row, Column, Stepped, Area, CellX, CellY;
    if p == 0 {
      FirstScanned(s);
    } else {
      ScanIsCell(s, p - 1);
      CellStep(s, p);
    }
  }

  lemma FirstScanned(s: Scan)
    requires OnGrid(s)
    ensures ScanX(s, 0) == CellX(s, 0) && ScanY(s, 0) == CellY(s, 0)
  {
    FirstCell(s);
  }

  lemma CellStep(s: Scan, p: nat)
    requires OnGrid(s) && 0 < p < Area(s)
    requires ScanX(s, p - 1) == CellX(s, p - 1) && ScanY(s, p - 1) == CellY(s, p - 1)
    ensures ScanX(s, p) == CellX(s, p) && ScanY(s, p) == CellY(s, p)
  {
    hide Row, Column, Stepped, Area, ScanX, ScanY;
    RowInside(s, p);
    RowInside(s, p - 1);
    NextCell(s, p - 1);
    ScanUnfolds(s, p);
    StepSmall(ScanX(s, p - 1));
    StepSmall(ScanY(s, p - 1));
  }

  lemma ScanUnfolds(s: Scan, p: nat)
    requires Proper(s) && p > 0
    ensures ScanX(s, p) == if Column(s, p) == 0 then StartX(s) % 2048 else Stepped(ScanX(s, p - 1), Leftward(s))
    ensures ScanY(s, p) == if Column(s, p) == 0 then Stepped(ScanY(s, p - 1), Upward(s)) else ScanY(s, p - 1) % 2048
  {
    hide Row, Column, Stepped;
  }

  lemma StepSmall(v: nat)
    ensures v + 1 < 2048 ==> Stepped(v, false) == v + 1
    ensures 0 < v < 2048 ==> Stepped(v, true) == v - 1
  {
  }

  // ----- source and destination

  /** Both rectangles of a copy, walked alike. */
  predicate SameShape(src: Scan, dst: Scan) {
    OnGrid(src) && OnGrid(dst) && src.order == dst.order && src.w == dst.w && src.h == dst.h
  }

  function Along(src: Scan, dst: Scan): int {
    var d: int := dst.x - src.x;
    if Leftward(src) then -d else d
  }

  function Across(src: Scan, dst: Scan): int {
    var d: int := dst.y - src.y;
    if Upward(src) then -d else d
  }

  /** The destination comes after the source in the scan order. */
  predicate After(src: Scan, dst: Scan) {
    Across(src, dst) > 0 || (Across(src, dst) == 0 && Along(src, dst) > 0)
  }

  predicate Overlap(src: Scan, dst: Scan) {
    && dst.x < src.x + src.w && src.x < dst.x + src.w
    && dst.y < src.y + src.h && src.y < dst.y + src.h
  }

  predicate Safe(src: Scan, dst: Scan) { !(After(src, dst) && Overlap(src, dst)) }

  predicate SameCell(s: Scan, p: nat, t: Scan, q: nat)
    requires Proper(s) && Proper(t)
  {
    CellX(s, p) == CellX(t, q) && CellY(s, p) == CellY(t, q)
  }

  lemma EarlierRow(s: Scan, q: nat, p: nat)
    requires Proper(s) && q < p < Area(s)
    ensures Row(s, q) < Row(s, p) || (Row(s, q) == Row(s, p) && Column(s, q) < Column(s, p))
  {
    hide Row, Column;
    RowInside(s, p);
    RowInside(s, q);
    QuotientOrder(Row(s, q), Column(s, q), Row(s, p), Column(s, p), s.w);
  }

  lemma RowColumnScale(s: Scan, t: Scan, p: nat)
    requires Proper(s) && Proper(t) && s.w == t.w
    ensures Row(s, p) == Row(t, p) && Column(s, p) == Column(t, p)
  {
  }

  lemma AreaScale(s: Scan, t: Scan)
    requires s.w == t.w && s.h == t.h
    ensures Area(s) == Area(t)
  {
  }

  /** No pixel is written before it is read. */
  lemma ReadBeforeWritten(src: Scan, dst: Scan, q: nat, p: nat)
    requires SameShape(src, dst) && Safe(src, dst) && q < p < Area(src)
    ensures !SameCell(dst, q, src, p)
  {
    hide Row, Column, Area;
    EarlierRow(src, q, p);
    RowInside(src, p);
    RowInside(src, q);
    RowColumnScale(src, dst, q);
  }

  /** Pixels of one rectangle are pairwise distinct. */
  lemma CellsDistinct(s: Scan, p: nat, q: nat)
    requires OnGrid(s) && p < Area(s) && q < Area(s) && p != q
    ensures !SameCell(s, p, s, q)
  {
    hide Row, Column, Area;
    if p < q { EarlierRow(s, p, q); } else { EarlierRow(s, q, p); }
  }

  // ----- one step of a copy inside one buffer

  /** Both rectangles lie inside the buffer. */
  ghost predicate CopyFits(f: Format, b: Buffer, src: Scan, dst: Scan)
    requires SameShape(src, dst)
  {
    && (forall p: nat :: p < Area(src) ==> CellInside(f, b, src, p))
    && (forall p: nat :: p < Area(dst) ==> CellInside(f, b, dst, p))
  }

  predicate CellInside(f: Format, b: Buffer, s: Scan, p: nat)
    requires Proper(s)
  {
    CellX(s, p) >= 0 && CellY(s, p) >= 0 && Inside(LayoutOf(f), b, CellX(s, p), CellY(s, p))
  }

  /** The pixel the rectangle has at place p. */
  function Cell(m: seq<Byte>, f: Format, b: Buffer, s: Scan, p: nat): nat
    requires |m| == MEMORY_SIZE && OnGrid(s) && p < Area(s)
  {
    Pixel(m, f, b, ScanX(s, p), ScanY(s, p))
  }

  function Moved(m: seq<Byte>, f: Format, b: Buffer, src: Scan, dst: Scan, k: nat): (r: seq<Byte>)
    requires |m| == MEMORY_SIZE && Proper(src) && Proper(dst)
    ensures |r| == MEMORY_SIZE
  {
    Copied(m, f, f, b, b, src, dst, k)
  }

  /** A store of a fetched word is a store of the pixel. */
  lemma MovedNext(m: seq<Byte>, f: Format, b: Buffer, src: Scan, dst: Scan, k: nat)
    requires |m| == MEMORY_SIZE && SameShape(src, dst) && k < Area(src) && k < Area(dst)
    ensures Moved(m, f, b, src, dst, k + 1)
         == SetPixel(Moved(m, f, b, src, dst, k), f, b, ScanX(dst, k), ScanY(dst, k),
             Cell(Moved(m, f, b, src, dst, k), f, b, src, k))
  {
    hide Store, SetPixel, ScanX, ScanY, Fetch, Pixel, Area;
    var before := Moved(m, f, b, src, dst, k);
    var v := Fetch(before, f, b, ScanX(src, k), ScanY(src, k));
    FetchIsPixel(before, f, b, ScanX(src, k), ScanY(src, k));
    Small4(before, f, b, ScanX(src, k), ScanY(src, k));
    StoreIsSetPixel(before, f, b, ScanX(dst, k), ScanY(dst, k), v);
    if f.CT24? || f.Z24? {
      TruncatedSet(before, f, b, ScanX(dst, k), ScanY(dst, k), v);
    }
  }

  lemma Small4(m: seq<Byte>, f: Format, b: Buffer, x: nat, y: nat)
    requires |m| == MEMORY_SIZE
    ensures f.CT4HL? ==> Fetch(m, f, b, x, y) < 16
  {
    hide ReadWord, ReadHalf, Address;
  }

  lemma TruncatedSet(m: seq<Byte>, f: Format, b: Buffer, x: nat, y: nat, v: nat)
    requires |m| == MEMORY_SIZE && (f.CT24? || f.Z24?)
    ensures SetPixel(m, f, b, x, y, v) == SetPixel(m, f, b, x, y, v % 0x100_0000)
  {
    hide At, SetField, Replaced, Pow16, Shl;
    var start, lo, hi := At(f, b, x, y), v % 0x100_0000, v / 0x100_0000;
    SetFieldIs(m, start, 6, lo);
    SetFieldIs(m, start, 6, v);
    Powers();
    Shifts(hi);
    ReplacedTruncated(m, SetField(m, start, 6, lo), start, 6, lo, hi);
    ReplacedUnique(m, SetField(m, start, 6, lo), SetField(m, start, 6, v), start, 6, v);
  }

  lemma SetKeeps(m: seq<Byte>, f: Format, b: Buffer, src: Scan, dst: Scan, q: nat, s: Scan, p: nat, v: nat)
    requires |m| == MEMORY_SIZE && SameShape(src, dst) && CopyFits(f, b, src, dst) && (s == src || s == dst)
    requires q < Area(dst) && p < Area(s) && !SameCell(dst, q, s, p)
    ensures Cell(SetPixel(m, f, b, ScanX(dst, q), ScanY(dst, q), v), f, b, s, p) == Cell(m, f, b, s, p)
  {
    hide SetPixel, ScanX, ScanY, Pixel, Area, CellX, CellY, Inside, Low, Nibbles;
    ScanIsCell(dst, q);
    ScanIsCell(s, p);
    assert CellInside(f, b, dst, q) && CellInside(f, b, s, p);
    PixelKept(m, f, b, ScanX(dst, q), ScanY(dst, q), v, f, ScanX(s, p), ScanY(s, p));
  }

  lemma SetTakes(m: seq<Byte>, f: Format, b: Buffer, s: Scan, p: nat, v: nat)
    requires |m| == MEMORY_SIZE && OnGrid(s) && p < Area(s) && v < Pow16(Nibbles(f))
    ensures Cell(SetPixel(m, f, b, ScanX(s, p), ScanY(s, p), v), f, b, s, p) == v
  {
    hide SetPixel, ScanX, ScanY, Pixel, Area, Nibbles, Pow16;
    PixelWritten(m, f, b, ScanX(s, p), ScanY(s, p), v);
  }

  lemma CellSmall(m: seq<Byte>, f: Format, b: Buffer, s: Scan, p: nat)
    requires |m| == MEMORY_SIZE && OnGrid(s) && p < Area(s)
    ensures Cell(m, f, b, s, p) < Pow16(Nibbles(f))
  {
    hide ScanX, ScanY, Nibbles, Pow16;
  }

  /** A source pixel that no earlier destination covers is still there when its turn comes. */
  lemma {:induction false} SourceWaits(m: seq<Byte>, f: Format, b: Buffer, src: Scan, dst: Scan, k: nat, p: nat)
    requires |m| == MEMORY_SIZE && SameShape(src, dst) && CopyFits(f, b, src, dst) && k <= p < Area(src)
    requires forall q :: 0 <= q < k ==> !SameCell(dst, q, src, p)
    ensures Cell(Moved(m, f, b, src, dst, k), f, b, src, p) == Cell(m, f, b, src, p)
  {
    hide SetPixel, ScanX, ScanY, Cell, Area, CopyFits, SameCell, Copied, Store, Fetch;
    if k == 0 {
      NothingMoved(m, f, b, src, dst);
    } else {
      AreaScale(src, dst);
      SourceWaits(m, f, b, src, dst, k - 1, p);
      MovedNext(m, f, b, src, dst, k - 1);
      var before := Moved(m, f, b, src, dst, k - 1);
      SetKeeps(before, f, b, src, dst, k - 1, src, p, Cell(before, f, b, src, k - 1));
    }
  }

  lemma NothingMoved(m: seq<Byte>, f: Format, b: Buffer, src: Scan, dst: Scan)
    requires |m| == MEMORY_SIZE && Proper(src) && Proper(dst)
    ensures Moved(m, f, b, src, dst, 0) == m
  {
  }

  /** What a destination pixel gets is what its source held at that moment, for good. */
  lemma {:induction false} DestinationStays(m: seq<Byte>, f: Format, b: Buffer, src: Scan, dst: Scan, p: nat, k: nat)
    requires |m| == MEMORY_SIZE && SameShape(src, dst) && CopyFits(f, b, src, dst) && p < k <= Area(src)
    ensures p < Area(dst)
    ensures Cell(Moved(m, f, b, src, dst, k), f, b, dst, p) == Cell(Moved(m, f, b, src, dst, p), f, b, src, p)
    decreases k
  {
    hide SetPixel, ScanX, ScanY, Cell, Area, CopyFits, SameCell, Moved;
    AreaScale(src, dst);
    MovedNext(m, f, b, src, dst, k - 1);
    var before := Moved(m, f, b, src, dst, k - 1);
    if p == k - 1 {
      CellSmall(before, f, b, src, p);
      SetTakes(before, f, b, dst, p, Cell(before, f, b, src, p));
    } else {
      DestinationStays(m, f, b, src, dst, p, k - 1);
      CellsDistinct(dst, k - 1, p);
      SetKeeps(before, f, b, src, dst, k - 1, dst, p, Cell(before, f, b, src, k - 1));
    }
  }

  // ----- the copy is a move exactly when it is safe

  /** The destination ends up with the old source, pixel by pixel. */
  ghost predicate Carried(m: seq<Byte>, f: Format, b: Buffer, src: Scan, dst: Scan)
    requires |m| == MEMORY_SIZE && SameShape(src, dst)
  {
    forall p: nat :: p < Area(src) && p < Area(dst) ==>
      Cell(Moved(m, f, b, src, dst, Area(src)), f, b, dst, p) == Cell(m, f, b, src, p)
  }

  /** A copy whose destination does not come after its source in the scan order, or does not
      overlap it, carries the old source over. */
  lemma SafeCopyCarries(m: seq<Byte>, f: Format, b: Buffer, src: Scan, dst: Scan)
    requires |m| == MEMORY_SIZE && SameShape(src, dst) && CopyFits(f, b, src, dst) && Safe(src, dst)
    ensures Carried(m, f, b, src, dst)
  {
    hide Cell, Area, CopyFits, SameCell, Moved;
    forall p: nat | p < Area(src) && p < Area(dst)
      ensures Cell(Moved(m, f, b, src, dst, Area(src)), f, b, dst, p) == Cell(m, f, b, src, p)
    {
      DestinationStays(m, f, b, src, dst, p, Area(src));
      forall q | 0 <= q < p ensures !SameCell(dst, q, src, p) { ReadBeforeWritten(src, dst, q, p); }
      SourceWaits(m, f, b, src, dst, p, p);
    }
  }

  /** A copy changes no nibble outside the pixels it writes. */
  lemma {:induction false} CopyKeeps(m: seq<Byte>, f: Format, b: Buffer, src: Scan, dst: Scan, k: nat, i: nat)
    requires |m| == MEMORY_SIZE && SameShape(src, dst) && k <= Area(src) && k <= Area(dst) && i < 2 * MEMORY_SIZE
    requires forall p :: 0 <= p < k ==>
      !(At(f, b, ScanX(dst, p), ScanY(dst, p)) <= i < At(f, b, ScanX(dst, p), ScanY(dst, p)) + Nibbles(f))
    ensures Nib(Moved(m, f, b, src, dst, k), i) == Nib(m, i)
  {
    hide At, ScanX, ScanY, Cell, Area, Nib, SetField, Copied, Digit, Nibbles;
    if k == 0 {
      NothingMoved(m, f, b, src, dst);
    } else {
      CopyKeeps(m, f, b, src, dst, k - 1, i);
      MovedNext(m, f, b, src, dst, k - 1);
      var before := Moved(m, f, b, src, dst, k - 1);
      var start := At(f, b, ScanX(dst, k - 1), ScanY(dst, k - 1));
      assert !(start <= i < start + Nibbles(f));
      SetFieldIs(before, start, Nibbles(f), Cell(before, f, b, src, k - 1));
    }
  }

  /** An unsafe copy writes some pixel before it is read, and the first of them early enough
      to hold an old pixel. */
  lemma UnsafePair(src: Scan, dst: Scan) returns (q: nat, p: nat)
    requires SameShape(src, dst) && !Safe(src, dst)
    ensures q < p < Area(src) && q < Area(dst) && SameCell(dst, q, src, p)
    ensures forall r :: 0 <= r < q ==> !SameCell(dst, r, src, q)
  {
    hide Row, Column, Area;
    var along, across: nat := Along(src, dst), Across(src, dst);
    var from: nat := if along >= 0 then 0 else -along;
    q, p := from, across * src.w + (if along >= 0 then along else 0);
    Placed(src, 0, from, q);
    Placed(src, across, if along >= 0 then along else 0, p);
    RowColumnScale(src, dst, q);
    AreaScale(src, dst);
    if across == 0 {
      assert q == 0 && p == along;
    } else {
      MulGrows(1, across, src.w);
    }
    forall r | 0 <= r < q ensures !SameCell(dst, r, src, q) {
      NotYetWritten(src, dst, q, r);
    }
  }

  /** A pixel of the first row, as far along as the destination begins or at its start, is not
      written before its turn. */
  lemma NotYetWritten(src: Scan, dst: Scan, q: nat, r: nat)
    requires SameShape(src, dst) && !Safe(src, dst) && r < q < Area(src)
    requires Row(src, q) == 0 && Column(src, q) == (if Along(src, dst) >= 0 then 0 else -Along(src, dst))
    ensures r < Area(dst) && !SameCell(dst, r, src, q)
  {
    hide Row, Column, Area;
    AreaScale(src, dst);
    EarlierRow(src, r, q);
    RowColumnScale(src, dst, r);
  }

  lemma Placed(s: Scan, row: nat, column: nat, p: nat)
    requires Proper(s) && row < s.h && column < s.w && p == row * s.w + column
    ensures p < Area(s) && Row(s, p) == row && Column(s, p) == column
  {
    Quotient(p, row, column, s.w);
    assert (row + 1) * s.w == row * s.w + s.w;
    MulGrows(row + 1, s.h, s.w);
  }

  /** In an unsafe copy some pixel arrives from the wrong place, whatever memory holds. */
  lemma UnsafeCopyRepeats(m: seq<Byte>, f: Format, b: Buffer, src: Scan, dst: Scan, q: nat, p: nat)
    requires |m| == MEMORY_SIZE && SameShape(src, dst) && CopyFits(f, b, src, dst)
    requires q < p < Area(src) && q < Area(dst) && SameCell(dst, q, src, p)
    requires forall r :: 0 <= r < q ==> !SameCell(dst, r, src, q)
    ensures p < Area(dst)
    ensures Cell(Moved(m, f, b, src, dst, Area(src)), f, b, dst, p) == Cell(m, f, b, src, q)
  {
    hide Area, CopyFits, Moved, ScanX, ScanY, CellX, CellY, Pixel;
    AreaScale(src, dst);
    DestinationStays(m, f, b, src, dst, p, Area(src));
    ScanIsCell(dst, q);
    ScanIsCell(src, p);
    DestinationStays(m, f, b, src, dst, q, p);
    SourceWaits(m, f, b, src, dst, q, q);
  }

  /** A memory in which two different pixels of a rectangle differ. */
  lemma Distinguishing(f: Format, b: Buffer, src: Scan, dst: Scan, q: nat, p: nat) returns (m: seq<Byte>)
    requires SameShape(src, dst) && CopyFits(f, b, src, dst) && q < Area(src) && p < Area(src) && q != p
    ensures |m| == MEMORY_SIZE && Cell(m, f, b, src, p) != Cell(m, f, b, src, q)
  {
    hide Area, ScanX, ScanY, CellX, CellY, Pixel, SetPixel, Pow16, Inside, Low;
    var zeros: seq<Byte> := seq(MEMORY_SIZE, i => 0);
    var other := if Cell(zeros, f, b, src, q) == 0 then 1 else 0;
    Powers();
    m := SetPixel(zeros, f, b, ScanX(src, p), ScanY(src, p), other);
    SetTakes(zeros, f, b, src, p, other);
    CellsDistinct(src, p, q);
    ScanIsCell(src, p);
    ScanIsCell(src, q);
    assert CellInside(f, b, src, p) && CellInside(f, b, src, q);
    PixelKept(zeros, f, b, ScanX(src, p), ScanY(src, p), other, f, ScanX(src, q), ScanY(src, q));
  }

  ghost predicate AlwaysCarried(f: Format, b: Buffer, src: Scan, dst: Scan)
    requires SameShape(src, dst)
  {
    forall m: seq<Byte> :: |m| == MEMORY_SIZE ==> Carried(m, f, b, src, dst)
  }

  lemma SafeIff(f: Format, b: Buffer, src: Scan, dst: Scan)
    requires SameShape(src, dst) && CopyFits(f, b, src, dst)
    ensures AlwaysCarried(f, b, src, dst) <==> Safe(src, dst)
  {
    hide Area, CopyFits, Cell, Safe, SameCell, Moved;
    if Safe(src, dst) {
      forall m: seq<Byte> | |m| == MEMORY_SIZE ensures Carried(m, f, b, src, dst) {
        SafeCopyCarries(m, f, b, src, dst);
      }
    } else {
      var q, p := UnsafePair(src, dst);
      var m := Distinguishing(f, b, src, dst, q, p);
      UnsafeCopyRepeats(m, f, b, src, dst, q, p);
      assert !Carried(m, f, b, src, dst);
    }
  }

  // ----- the same in coordinates

  /** The pixel i to the right of and j below the corner of a rectangle. */
  function PixelOf(m: seq<Byte>, f: Format, b: Buffer, s: Scan, i: nat, j: nat): nat
    requires |m| == MEMORY_SIZE
  {
    Pixel(m, f, b, s.x + i, s.y + j)
  }

  /** All pixels of a rectangle lie in the buffer. */
  ghost predicate RectangleInside(f: Format, b: Buffer, s: Scan) {
    forall i: nat, j: nat :: i < s.w && j < s.h ==> PlaceInside(f, b, s, i, j)
  }

  predicate PlaceInside(f: Format, b: Buffer, s: Scan, i: nat, j: nat) {
    Inside(LayoutOf(f), b, s.x + i, s.y + j)
  }

  /** Afterwards the destination holds what the source held before, each pixel at its place. */
  ghost predicate RectangleMoved(m: seq<Byte>, after: seq<Byte>, f: Format, b: Buffer, src: Scan, dst: Scan)
    requires |m| == |after| == MEMORY_SIZE
  {
    forall i: nat, j: nat :: i < src.w && j < src.h ==> PixelOf(after, f, b, dst, i, j) == PixelOf(m, f, b, src, i, j)
  }

  /** When the walk comes to that pixel. */
  function Turn(s: Scan, i: nat, j: nat): int {
    (if Upward(s) then s.h - 1 - j else j) * s.w + if Leftward(s) then s.w - 1 - i else i
  }

  lemma TurnIs(s: Scan, i: nat, j: nat)
    requires OnGrid(s) && i < s.w && j < s.h
    ensures 0 <= Turn(s, i, j) < Area(s)
    ensures CellX(s, Turn(s, i, j)) == s.x + i && CellY(s, Turn(s, i, j)) == s.y + j
  {
    hide Row, Column, Area;
    var row: nat := if Upward(s) then s.h - 1 - j else j;
    var column: nat := if Leftward(s) then s.w - 1 - i else i;
    MulGrows(0, row, s.w);
    Placed(s, row, column, row * s.w + column);
  }

  lemma PixelIsCell(m: seq<Byte>, f: Format, b: Buffer, s: Scan, i: nat, j: nat)
    requires |m| == MEMORY_SIZE && OnGrid(s) && i < s.w && j < s.h
    ensures 0 <= Turn(s, i, j) < Area(s) && PixelOf(m, f, b, s, i, j) == Cell(m, f, b, s, Turn(s, i, j))
  {
    hide Area, ScanX, ScanY, CellX, CellY, Turn, Pixel;
    TurnIs(s, i, j);
    ScanIsCell(s, Turn(s, i, j));
  }

  /** Where the walk is at its p-th pixel, in the four orders TRXPOS can ask for. */
  lemma ScanOf(s: Scan, p: nat)
    requires OnGrid(s) && p < Area(s)
    ensures s.order == 0 ==> ScanX(s, p) == s.x + p % s.w && ScanY(s, p) == s.y + p / s.w
    ensures s.order == 1 ==> ScanX(s, p) == s.x + p % s.w && ScanY(s, p) == s.y + s.h - 1 - p / s.w
    ensures s.order == 2 ==> ScanX(s, p) == s.x + s.w - 1 - p % s.w && ScanY(s, p) == s.y + p / s.w
    ensures s.order == 3 ==> ScanX(s, p) == s.x + s.w - 1 - p % s.w && ScanY(s, p) == s.y + s.h - 1 - p / s.w
  {
    hide ScanX, ScanY, Area;
    ScanIsCell(s, p);
  }

  /** Off the grid the same holds up to multiples of 2048. */
  lemma {:induction false} ScanWraps(s: Scan, p: nat) returns (k: int, l: int)
    requires Proper(s)
    ensures s.order == 0 ==> ScanX(s, p) == s.x + p % s.w - 2048 * k
    ensures s.order == 0 ==> ScanY(s, p) == s.y + p / s.w - 2048 * l
    ensures s.order == 1 ==> ScanX(s, p) == s.x + p % s.w - 2048 * k
    ensures s.order == 1 ==> ScanY(s, p) == s.y + s.h - 1 - p / s.w - 2048 * l
    ensures s.order == 2 ==> ScanX(s, p) == s.x + s.w - 1 - p % s.w - 2048 * k
    ensures s.order == 2 ==> ScanY(s, p) == s.y + p / s.w - 2048 * l
    ensures s.order == 3 ==> ScanX(s, p) == s.x + s.w - 1 - p % s.w - 2048 * k
    ensures s.order == 3 ==> ScanY(s, p) == s.y + s.h - 1 - p / s.w - 2048 * l
  {
    hide Row, Column, Stepped, ScanX, ScanY;
    RowColumnAre(s, p);
    if p == 0 {
      FirstCell(s);
      FirstScan(s);
      k, l := 0, 0;
    } else {
      k, l := ScanWraps(s, p - 1);
      RowColumnAre(s, p - 1);
      NextCell(s, p - 1);
      ScanUnfolds(s, p);
      var across, down := SteppedWraps(ScanX(s, p - 1), Leftward(s)), SteppedWraps(ScanY(s, p - 1), Upward(s));
      k := if Column(s, p) == 0 then StartX(s) / 2048 else k + across;
      l := l + if Column(s, p) == 0 then down else ScanY(s, p - 1) / 2048;
    }
  }

  lemma FirstScan(s: Scan)
    requires Proper(s)
    ensures ScanX(s, 0) == StartX(s) && ScanY(s, 0) == StartY(s)
  {
  }

  lemma RowColumnAre(s: Scan, p: nat)
    requires Proper(s)
    ensures Row(s, p) == p / s.w && Column(s, p) == p % s.w
  {
  }

  function SteppedWraps(v: nat, back: bool): (t: int)
    ensures Stepped(v, back) == (if back then v - 1 else v + 1) - 2048 * t
  {
    var u := if back then v + 65535 else v + 1;
    32 * (u / 65536) + u % 65536 / 2048 - if back then 32 else 0
  }

  lemma CarriedIs(m: seq<Byte>, f: Format, b: Buffer, src: Scan, dst: Scan)
    requires |m| == MEMORY_SIZE && SameShape(src, dst)
    ensures Carried(m, f, b, src, dst) <==> RectangleMoved(m, Moved(m, f, b, src, dst, Area(src)), f, b, src, dst)
  {
    hide Area, Cell, Moved, PixelOf;
    var after := Moved(m, f, b, src, dst, Area(src));
    AreaScale(src, dst);
    if Carried(m, f, b, src, dst) {
      forall i: nat, j: nat | i < src.w && j < src.h
        ensures PixelOf(after, f, b, dst, i, j) == PixelOf(m, f, b, src, i, j)
      {
        PixelIsCell(after, f, b, dst, i, j);
        PixelIsCell(m, f, b, src, i, j);
        SameTurn(src, dst, i, j);
      }
    }
    if RectangleMoved(m, after, f, b, src, dst) {
      forall p: nat | p < Area(src) && p < Area(dst) ensures Cell(after, f, b, dst, p) == Cell(m, f, b, src, p) {
        var i, j := PlaceAt(src, p);
        PixelIsCell(after, f, b, dst, i, j);
        PixelIsCell(m, f, b, src, i, j);
        SameTurn(src, dst, i, j);
      }
    }
  }

  lemma SameTurn(src: Scan, dst: Scan, i: nat, j: nat)
    requires SameShape(src, dst)
    ensures Turn(src, i, j) == Turn(dst, i, j)
  {
  }

  lemma PlaceAt(s: Scan, p: nat) returns (i: nat, j: nat)
    requires OnGrid(s) && p < Area(s)
    ensures i < s.w && j < s.h && Turn(s, i, j) == p
  {
    hide Row, Column, Area;
    RowInside(s, p);
    i := if Leftward(s) then s.w - 1 - Column(s, p) else Column(s, p);
    j := if Upward(s) then s.h - 1 - Row(s, p) else Row(s, p);
  }

  lemma InsideFits(f: Format, b: Buffer, src: Scan, dst: Scan)
    requires SameShape(src, dst) && RectangleInside(f, b, src) && RectangleInside(f, b, dst)
    ensures CopyFits(f, b, src, dst)
  {
    hide Area, Inside;
    forall p: nat | p < Area(src) ensures CellInside(f, b, src, p) { PlaceFits(f, b, src, p); }
    forall p: nat | p < Area(dst) ensures CellInside(f, b, dst, p) { PlaceFits(f, b, dst, p); }
  }

  lemma PlaceFits(f: Format, b: Buffer, s: Scan, p: nat)
    requires OnGrid(s) && RectangleInside(f, b, s) && p < Area(s)
    ensures CellInside(f, b, s, p)
  {
    hide Area, Inside, CellX, CellY, Turn;
    var i, j := PlaceAt(s, p);
    TurnIs(s, i, j);
    assert PlaceInside(f, b, s, i, j);
  }

  /** The destination of an overlapping copy is ahead of its source, in the order of the walk. */
  predicate Ahead(src: Scan, dst: Scan) {
    match src.order
    case 0 => dst.y > src.y || (dst.y == src.y && dst.x > src.x)
    case 1 => dst.y < src.y || (dst.y == src.y && dst.x > src.x)
    case 2 => dst.y > src.y || (dst.y == src.y && dst.x < src.x)
    case _ => dst.y < src.y || (dst.y == src.y && dst.x < src.x)
  }

  lemma SafeIs(src: Scan, dst: Scan)
    requires SameShape(src, dst)
    ensures Safe(src, dst) <==> !(Ahead(src, dst) && Overlap(src, dst))
  {
  }

  /** Copying a rectangle inside one buffer moves it, for every content of memory, exactly when
      source and destination do not overlap or the destination is not ahead of the source in
      the order of the walk. */
  lemma CopyCarriesIff(f: Format, b: Buffer, src: Scan, dst: Scan)
    requires SameShape(src, dst) && RectangleInside(f, b, src) && RectangleInside(f, b, dst)
    ensures
      (forall m: seq<Byte> :: |m| == MEMORY_SIZE ==>
        RectangleMoved(m, Copied(m, f, f, b, b, src, dst, src.w * src.h), f, b, src, dst))
      <==> !(Ahead(src, dst) && Overlap(src, dst))
  {
    hide CopyFits, Safe, Ahead, Overlap, Copied, RectangleMoved, RectangleInside, AlwaysCarried;
    InsideFits(f, b, src, dst);
    SafeIff(f, b, src, dst);
    SafeIs(src, dst);
    AlwaysMoved(f, b, src, dst);
  }

  lemma AlwaysMoved(f: Format, b: Buffer, src: Scan, dst: Scan)
    requires SameShape(src, dst)
    ensures AlwaysCarried(f, b, src, dst) <==>
      forall m: seq<Byte> :: |m| == MEMORY_SIZE ==>
        RectangleMoved(m, Copied(m, f, f, b, b, src, dst, src.w * src.h), f, b, src, dst)
  {
    hide Copied, RectangleMoved, Carried;
    if AlwaysCarried(f, b, src, dst) {
      forall m: seq<Byte> | |m| == MEMORY_SIZE
        ensures RectangleMoved(m, Copied(m, f, f, b, b, src, dst, src.w * src.h), f, b, src, dst)
      {
        assert Carried(m, f, b, src, dst);
        CarriedIs(m, f, b, src, dst);
      }
    } else {
      var m :| |m| == MEMORY_SIZE && !Carried(m, f, b, src, dst);
      CarriedIs(m, f, b, src, dst);
      assert !RectangleMoved(m, Copied(m, f, f, b, b, src, dst, src.w * src.h), f, b, src, dst);
    }
  }
}
