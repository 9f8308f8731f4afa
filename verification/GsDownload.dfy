/** Facts about a download between two doublewords and inside one. */
module GsDownload {
  import opened Bits
  import opened GsMemory
  import opened Hex
  import opened GsPixels
  import opened GsRaster
  import opened GsUpload

  /** Nibble j of the window's pixels packed one after the other. */
  function Wanted(m: seq<Byte>, win: Window, j: nat): (r: nat)
    requires |m| == MEMORY_SIZE && win.w > 0
    ensures r < 16
  {
    hide Start, PixelWith, SourceX, SourceY, Pixel;
    var k := PixelWith(win.format, j);
    NibbleInPixel(win.format, j, k + 1);
    Digit(PixelAt(m, win, k), j - Start(win.format, k))
  }

  /** Pixel k of the window, where the download looks for it. */
  function PixelAt(m: seq<Byte>, win: Window, k: nat): (r: nat)
    requires |m| == MEMORY_SIZE && win.w > 0
    ensures r < Pow16(Nibbles(win.format))
  {
    Pixel(m, win.format, win.buffer, SourceX(win, k), SourceY(win, k))
  }

  function Packed(m: seq<Byte>, win: Window, start: nat, n: nat): (r: nat)
    requires |m| == MEMORY_SIZE && win.w > 0
    ensures r < Pow16(n)
    decreases n
  {
    if n == 0 then 0 else Wanted(m, win, start) + 16 * Packed(m, win, start + 1, n - 1)
  }

  // ----- packing

  lemma {:induction false} PackedDigit(m: seq<Byte>, win: Window, start: nat, n: nat, j: nat)
    requires |m| == MEMORY_SIZE && win.w > 0 && j < n
    ensures Digit(Packed(m, win, start, n), j) == Wanted(m, win, start + j)
    decreases n
  {
    hide Wanted, Pow16;
    if j > 0 {
      PackedDigit(m, win, start + 1, n - 1, j - 1);
    }
  }

  lemma {:induction false} PackedSplit(m: seq<Byte>, win: Window, start: nat, n: nat, c: nat)
    requires |m| == MEMORY_SIZE && win.w > 0
    ensures Packed(m, win, start, n + c) == Packed(m, win, start, n) + Shl(Packed(m, win, start + n, c), n)
    decreases n
  {
    hide Wanted, Pow16;
    if n > 0 {
      PackedSplit(m, win, start + 1, n - 1, c);
    }
  }

  lemma WantedOf(m: seq<Byte>, win: Window, k: nat, a: nat)
    requires |m| == MEMORY_SIZE && win.w > 0 && a < Nibbles(win.format)
    ensures Wanted(m, win, Start(win.format, k) + a) == Digit(PixelAt(m, win, k), a)
  {
    hide PixelAt, Digit;
    PixelHolds(win.format, k, a);
  }

  lemma PixelHolds(f: Format, k: nat, a: nat)
    requires a < Nibbles(f)
    ensures PixelWith(f, Start(f, k) + a) == k
  {
  }

  /** The digits of a pixel from the a-th on. */
  lemma PackedPixel(m: seq<Byte>, win: Window, k: nat)
    requires |m| == MEMORY_SIZE && win.w > 0
    ensures Packed(m, win, Start(win.format, k), Nibbles(win.format)) == PixelAt(m, win, k)
  {
    hide Wanted, PixelAt, Digit, Start, Nibbles, Packed, Pow16;
    var n, start := Nibbles(win.format), Start(win.format, k);
    forall j | 0 <= j < n ensures Digit(Packed(m, win, start, n), j) == Digit(PixelAt(m, win, k), j) {
      PackedDigit(m, win, start, n, j);
      WantedOf(m, win, k, j);
    }
    DigitsDetermine(Packed(m, win, start, n), PixelAt(m, win, k), n);
  }

  /** Or-ing a field into the doubleword above what is there. */
  lemma PackedMore(m: seq<Byte>, win: Window, start: nat, n: nat, c: nat)
    requires |m| == MEMORY_SIZE && win.w > 0
    ensures Or(Packed(m, win, start, n), Shl(Packed(m, win, start + n, c), n)) == Packed(m, win, start, n + c)
  {
    hide Or, Packed, Shl, Pow16;
    PackedSplit(m, win, start, n, c);
    OrAbove(Packed(m, win, start, n), Packed(m, win, start + n, c), n);
  }

  lemma {:induction false} ShrOfSplit(lo: nat, hi: nat, n: nat)
    requires lo < Pow16(n)
    ensures Shr(lo + Shl(hi, n), n) == hi
  {
    if n > 0 {
      ShiftOut(lo, Shl(hi, n - 1));
      ShrOfSplit(lo / 16, hi, n - 1);
    }
  }

  lemma {:induction false} ShlSplit(lo: nat, hi: nat, n: nat, t: nat)
    ensures Shl(lo + Shl(hi, n), t) == Shl(lo, t) + Shl(hi, n + t)
  {
    if t > 0 {
      ShlSplit(lo, hi, n, t - 1);
    }
  }

  lemma {:induction false} ShlBound(v: nat, n: nat, t: nat)
    requires v < Pow16(n)
    ensures Shl(v, t) < Pow16(n + t)
  {
    if t > 0 {
      ShlBound(v, n, t - 1);
    }
  }

  lemma Shl16(v: nat)
    ensures Shl(v, 16) == 0x1_0000_0000_0000_0000 * v
  {
    hide Shl;
    ShlSplit(0, v, 8, 8);
    ShlSplit(0, Shl(v, 8), 8, 0);
    Shift8(v);
    Shift8(Shl(v, 8));
    TwiceEight(v);
    ZeroShl(8);
  }

  lemma TwiceEight(v: nat)
    ensures Shl(v, 16) == Shl(Shl(v, 8), 8)
  {
    hide Shl;
    ShlSplit(0, v, 8, 8);
    ZeroShl(8);
  }

  lemma {:induction false} ZeroShl(n: nat)
    ensures Shl(0, n) == 0
  {
    if n > 0 { ZeroShl(n - 1); }
  }

  /** A field that sticks out of the doubleword: what is kept of it, and what is left over. */
  lemma PackedOver(m: seq<Byte>, win: Window, start: nat, t: nat, c: nat)
    requires |m| == MEMORY_SIZE && win.w > 0 && t <= 16 < t + c
    ensures Or(Packed(m, win, start, t), Shl(Packed(m, win, start + t, c), t) % 0x1_0000_0000_0000_0000)
         == Packed(m, win, start, 16)
    ensures Shr(Packed(m, win, start + t, c), 16 - t) == Packed(m, win, start + 16, t + c - 16)
  {
    hide Or, Packed, Shl, Shr, Pow16;
    var lo, hi := Packed(m, win, start + t, 16 - t), Packed(m, win, start + 16, t + c - 16);
    PackedSplit(m, win, start + t, 16 - t, t + c - 16);
    ShrOfSplit(lo, hi, 16 - t);
    ShlSplit(lo, hi, 16 - t, t);
    ShlBound(lo, 16 - t, t);
    PowerOf16();
    Shl16(hi);
    PackedMore(m, win, start, t, 16 - t);
    ModMultiple(Shl(lo, t), hi);
  }

  lemma ModMultiple(r: nat, q: nat)
    requires r < 0x1_0000_0000_0000_0000
    ensures (r + 0x1_0000_0000_0000_0000 * q) % 0x1_0000_0000_0000_0000 == r
  {
  }

  lemma PackedInside(m: seq<Byte>, win: Window, start: nat, t: nat, c: nat)
    requires |m| == MEMORY_SIZE && win.w > 0 && t + c <= 16
    ensures Or(Packed(m, win, start, t), Shl(Packed(m, win, start + t, c), t) % 0x1_0000_0000_0000_0000)
         == Packed(m, win, start, t + c)
    ensures Shl(Packed(m, win, start + t, c), t) < 0x1_0000_0000_0000_0000
  {
    hide Or, Packed, Shl, Pow16;
    ShlBound(Packed(m, win, start + t, c), c, t);
    PowerOf16();
    PowGrows(c + t, 16);
    PackedMore(m, win, start, t, c);
  }

  lemma {:induction false} PowGrows(a: nat, b: nat)
    requires a <= b
    ensures Pow16(a) <= Pow16(b)
  {
    if a < b { PowGrows(a, b - 1); }
  }

  // ----- the stream

  /** How many nibbles of doubleword n are pixels. The 24-bit packer stops at the last pixel of
      the rectangle. */
  function Filled(win: Window, n: nat): (r: nat)
    ensures r <= 16
  {
    if !Is24(win.format) || 16 * (n + 1) <= 6 * PixelCount(win) then 16
    else if 6 * PixelCount(win) <= 16 * n then 0
    else 6 * PixelCount(win) - 16 * n
  }

  /** Doubleword n of a download. One that begins after the last 24-bit pixel holds one pixel
      more. */
  ghost predicate IsDword(m: seq<Byte>, win: Window, n: nat, d: Dword)
    requires |m| == MEMORY_SIZE && win.w > 0
  {
    if Filled(win, n) > 0 then d == Packed(m, win, 16 * n, Filled(win, n)) else d < 0x100_0000
  }

  /** Doublewords packed from the window, one after the other, make the downloaded stream. */
  ghost predicate Streamed(m: seq<Byte>, win: Window, s: seq<Dword>)
    requires |m| == MEMORY_SIZE && win.w > 0
  {
    forall i :: 0 <= i < |s| ==> IsDword(m, win, i, s[i])
  }

  lemma StreamedNibble(m: seq<Byte>, win: Window, s: seq<Dword>, j: nat)
    requires |m| == MEMORY_SIZE && win.w > 0 && Streamed(m, win, s) && j < 16 * |s| && j % 16 < Filled(win, j / 16)
    ensures Nth(s, j) == Wanted(m, win, j)
  {
    hide Packed, Wanted, Digit, Filled;
    assert IsDword(m, win, j / 16, s[j / 16]);
    PackedDigit(m, win, 16 * (j / 16), Filled(win, j / 16), j % 16);
  }

  lemma WholeDword(m: seq<Byte>, win: Window, n: nat, d: Dword)
    requires |m| == MEMORY_SIZE && win.w > 0 && !Is24(win.format) && d == Packed(m, win, 16 * n, 16)
    ensures IsDword(m, win, n, d)
  {
    hide Packed;
  }

  lemma FilledFor(win: Window, j: nat)
    requires Is24(win.format) ==> j < 6 * PixelCount(win)
    ensures j % 16 < Filled(win, j / 16)
  {
    hide PixelCount;
  }

  /** After the last 24-bit pixel the rest of its doubleword is zero. */
  lemma RestIsZero(m: seq<Byte>, win: Window, s: seq<Dword>, j: nat)
    requires |m| == MEMORY_SIZE && win.w > 0 && Streamed(m, win, s) && j < 16 * |s| && Is24(win.format)
    requires 16 * (j / 16) < 6 * PixelCount(win) <= j
    ensures Nth(s, j) == 0
  {
    hide Packed, PixelCount, Digit;
    var n := j / 16;
    assert IsDword(m, win, n, s[n]) && Filled(win, n) == 6 * PixelCount(win) - 16 * n;
    DigitBeyond(s[n], Filled(win, n), j % 16);
  }

  lemma {:induction false} DigitBeyond(v: nat, n: nat, j: nat)
    requires v < Pow16(n) && n <= j
    ensures Digit(v, j) == 0
    decreases j
  {
    if j > 0 {
      DigitBeyond(v / 16, if n == 0 then 0 else n - 1, j - 1);
    }
  }

  lemma StreamedPixel(m: seq<Byte>, win: Window, s: seq<Dword>, k: nat)
    requires |m| == MEMORY_SIZE && win.w > 0 && Streamed(m, win, s) && Carried(win, |s|, k)
    ensures Take(s, Start(win.format, k), Nibbles(win.format)) == PixelAt(m, win, k)
  {
    hide Packed, Wanted, Digit, Take, Nth, Start, PixelAt, Streamed, Pow16, Filled, PixelCount;
    var n, start := Nibbles(win.format), Start(win.format, k);
    forall j | 0 <= j < n ensures Digit(Take(s, start, n), j) == Digit(PixelAt(m, win, k), j) {
      TakeDigit(s, start, n, j);
      PixelEnds(win, k);
      FilledFor(win, start + j);
      StreamedNibble(m, win, s, start + j);
      WantedOf(m, win, k, j);
    }
    DigitsDetermine(Take(s, start, n), PixelAt(m, win, k), n);
  }

  lemma PixelEnds(win: Window, k: nat)
    requires Is24(win.format) ==> k < PixelCount(win)
    ensures Is24(win.format) ==> Start(win.format, k) + Nibbles(win.format) <= 6 * PixelCount(win)
  {
    hide PixelCount;
  }

  lemma StreamedIsDownloaded(m: seq<Byte>, win: Window, s: seq<Dword>)
    requires |m| == MEMORY_SIZE && win.w > 0 && Streamed(m, win, s)
    ensures Downloaded(m, win, s)
  {
    hide Streamed, Take, Pixel, Start, Nibbles, PixelCount, Is24;
    forall k: nat | Carried(win, |s|, k)
      ensures Take(s, Start(win.format, k), Nibbles(win.format))
           == Pixel(m, win.format, win.buffer, SourceX(win, k), SourceY(win, k))
    {
      StreamedPixel(m, win, s, k);
    }
  }

  // ----- the registers of a running download

  lemma {:induction false} SourceBounds(win: Window, k: nat)
    requires win.w > 0 && win.x0 < 2048 && win.y0 < 2048
    ensures SourceX(win, k) < 2048 && SourceY(win, k) <= 2048
    ensures SourceY(win, k) == 2048 ==> Is24(win.format) && k % 8 != 0
  {
    hide DownloadTwice, RowEnd;
    if k > 0 {
      SourceBounds(win, k - 1);
    }
  }

  /** The registers point at the next pixel. */
  predicate AtPixel(win: Window, c: Cursor)
    requires win.w > 0
  {
    c.x == SourceX(win, c.pixels) && c.y == SourceY(win, c.pixels)
  }

  lemma NextPixelRead(win: Window, c: Cursor)
    requires win.w > 0 && win.x0 < 2048 && win.y0 < 2048 && !Is24(win.format) && AtPixel(win, c)
    ensures AtPixel(win, Advanced(win, c.(x := c.x + 1, pixels := c.pixels + 1)))
  {
    hide SourceX, SourceY, RowEnd;
    SourceBounds(win, c.pixels);
    SourceUnfolds(win, c.pixels + 1);
  }

  /** A pixel was read inside a doubleword and not yet used up. */
  predicate AfterRead(win: Window, c: Cursor)
    requires win.w > 0
  {
    c.x == (SourceX(win, c.pixels) + 1) % 2048 && c.y == SourceY(win, c.pixels) % 2048
  }

  /** A doubleword began with what was left of a pixel. */
  predicate Resumed(win: Window, c: Cursor)
    requires win.w > 0
  {
    if DownloadTwice(win, c.pixels) then c.x == win.x0 && c.y == (SourceY(win, c.pixels) + 1) % 2048
    else AfterRead(win, c)
  }

  /** The end-of-row check after a doubleword that ended inside a pixel. */
  lemma CheckInsidePixel(win: Window, c: Cursor)
    requires win.w > 0 && win.x0 < 2048 && win.y0 < 2048 && Is24(win.format)
    requires c.pixels % 8 == 2 || c.pixels % 8 == 5
    requires AfterRead(win, c)
    ensures Resumed(win, Advanced(win, c))
  {
    hide SourceX, SourceY, RowEnd;
    SourceBounds(win, c.pixels);
  }

  /** The end-of-row check inside the packer. */
  function RowChecked(win: Window, c: Cursor): Cursor
    requires win.w > 0
  {
    if RowEnd(win, c.pixels) then c.(x := win.x0, y := c.y + 1) else c
  }

  lemma CheckInsideDword(win: Window, c: Cursor)
    requires win.w > 0 && Is24(win.format) && Resumed(win, c) && (c.pixels + 1) % 8 != 0
    ensures AtPixel(win, RowChecked(win, c.(pixels := c.pixels + 1)))
  {
    hide SourceX, SourceY, RowEnd, DownloadTwice;
    SourceUnfolds(win, c.pixels + 1);
  }

  /** The check after a doubleword that ended with a pixel. */
  lemma CheckAfterDword(win: Window, c: Cursor)
    requires win.w > 0 && win.x0 < 2048 && win.y0 < 2048 && Is24(win.format)
    requires c.pixels % 8 == 7 && AfterRead(win, c)
    ensures AtPixel(win, Advanced(win, c.(pixels := c.pixels + 1)))
  {
    hide SourceX, SourceY, RowEnd;
    SourceBounds(win, c.pixels);
    SourceUnfolds(win, c.pixels + 1);
  }

  lemma NotStraddling(win: Window, c: Cursor)
    requires win.w > 0 && c.pixels % 8 != 2 && c.pixels % 8 != 5
    ensures Resumed(win, c) <==> AfterRead(win, c)
  {
    hide SourceX, SourceY, RowEnd;
  }

  // ----- the 24-bit packer

  /** t nibbles of doubleword n are packed into output. */
  ghost predicate Packing(m: seq<Byte>, win: Window, n: nat, t: nat, output: nat, c: Cursor)
    requires |m| == MEMORY_SIZE && win.w > 0
  {
    && t <= 16 && output == Packed(m, win, 16 * n, t)
    && if c.unpacked == 0 then
         && 6 * c.pixels == 16 * n + t && c.color == 0
         && if t < 16 then AtPixel(win, c) else AfterRead(win, c.(pixels := c.pixels - 1))
       else
         && c.unpacked % 4 == 0 && c.unpacked <= 24 && (0 < t < 16 ==> c.unpacked == 24)
             && (t == 16 ==> c.unpacked < 24)
         && 6 * (c.pixels + 1) == 16 * n + t + c.unpacked / 4
         && c.color == Packed(m, win, 16 * n + t, c.unpacked / 4)
         && if t == 0 then Resumed(win, c) else AfterRead(win, c)
  }

  lemma PackingBegins(m: seq<Byte>, win: Window, c: Cursor)
    requires |m| == MEMORY_SIZE && win.w > 0
    requires c.pixels == 0 && c.x == win.x0 && c.y == win.y0 && c.color == 0 && c.unpacked == 0
    ensures Packing(m, win, 0, 0, 0, c)
  {
    assert Packed(m, win, 0, 0) == 0;
  }

  /** A pixel is read. */
  lemma PixelFetched(m: seq<Byte>, win: Window, n: nat, t: nat, output: nat, c: Cursor)
    requires |m| == MEMORY_SIZE && win.w > 0 && Is24(win.format)
    requires Packing(m, win, n, t, output, c) && c.unpacked == 0 && t < 16
    ensures Packing(m, win, n, t, output,
        c.(x := (c.x + 1) % 2048, y := c.y % 2048, color := PixelAt(m, win, c.pixels), unpacked := 24))
  {
    hide Packed, PixelAt, SourceX, SourceY, Resumed;
    PackedPixel(m, win, c.pixels);
    if t == 0 {
      StartsDword(c.pixels, n);
      NotStraddling(win, c.(x := (c.x + 1) % 2048, y := c.y % 2048, color := PixelAt(m, win, c.pixels),
          unpacked := 24));
    }
  }

  lemma StartsDword(p: nat, n: nat)
    requires 6 * p == 16 * n
    ensures p % 8 == 0
  {
    assert 3 * p == 8 * n;
  }

  /** A pixel that does not fit: the rest of it stays behind. */
  lemma PixelCut(m: seq<Byte>, win: Window, n: nat, t: nat, output: nat, c: Cursor)
    requires |m| == MEMORY_SIZE && win.w > 0 && Is24(win.format)
    requires Packing(m, win, n, t, output, c) && c.unpacked > 0 && t < 16 && t + c.unpacked / 4 > 16
    ensures Or(output, Shl(c.color, t) % 0x1_0000_0000_0000_0000) < 0x1_0000_0000_0000_0000
    ensures Packing(m, win, n, 16, Or(output, Shl(c.color, t) % 0x1_0000_0000_0000_0000),
      c.(color := Shr(c.color, 16 - t), unpacked := 4 * (t + c.unpacked / 4 - 16)))
  {
    hide Packed, AtPixel, Resumed, Or, Shl, Shr, SourceX, SourceY;
    PackedOver(m, win, 16 * n, t, c.unpacked / 4);
    PackedBound(m, win, 16 * n, 16);
  }

  /** A pixel that fits. */
  lemma PixelUsed(m: seq<Byte>, win: Window, n: nat, t: nat, output: nat, c: Cursor)
    requires |m| == MEMORY_SIZE && win.w > 0 && Is24(win.format)
    requires Packing(m, win, n, t, output, c) && c.unpacked > 0 && t + c.unpacked / 4 <= 16
    ensures Or(output, Shl(c.color, t) % 0x1_0000_0000_0000_0000) < 0x1_0000_0000_0000_0000
    ensures var done := c.(pixels := c.pixels + 1, color := 0, unpacked := 0);
      Packing(m, win, n, t + c.unpacked / 4, Or(output, Shl(c.color, t) % 0x1_0000_0000_0000_0000),
        if t + c.unpacked / 4 < 16 then RowChecked(win, done) else done)
  {
    hide Packed, AtPixel, AfterRead, Resumed, Or, Shl, RowEnd;
    PackedInside(m, win, 16 * n, t, c.unpacked / 4);
    PackedBound(m, win, 16 * n, t + c.unpacked / 4);
    var done := c.(pixels := c.pixels + 1, color := 0, unpacked := 0);
    if t + c.unpacked / 4 < 16 {
      EndsInside(c.pixels, n, t, c.unpacked / 4);
      WhereTheRegistersAre(win, n, t, c);
      CheckInsideDword(win, c);
      SamePlace(win, c, done);
    } else {
      EndsDword(c.pixels, n, t, c.unpacked / 4);
      SamePlace(win, c, done);
    }
  }

  lemma UnpackedFits(m: seq<Byte>, win: Window, n: nat, t: nat, output: nat, c: Cursor)
    requires |m| == MEMORY_SIZE && win.w > 0 && Packing(m, win, n, t, output, c)
    ensures c.unpacked % 4 == 0 && c.unpacked <= 24
  {
    hide Packed, AtPixel, AfterRead, Resumed;
  }

  lemma PackingPlace(m: seq<Byte>, win: Window, n: nat, t: nat, output: nat, c: Cursor)
    requires |m| == MEMORY_SIZE && win.w > 0 && Packing(m, win, n, t, output, c) && c.unpacked == 0 && t < 16
    ensures PixelAt(m, win, c.pixels) == Pixel(m, win.format, win.buffer, c.x, c.y)
  {
    hide Packed, SourceX, SourceY, Pixel;
  }

  /** The packer stops at the last pixel: what it has packed by then. */
  lemma LastPixel(m: seq<Byte>, win: Window, n: nat, t: nat, output: Dword, c: Cursor)
    requires |m| == MEMORY_SIZE && win.w > 0 && Is24(win.format) && Packing(m, win, n, t, output, c)
    requires t > 0 && c.pixels == PixelCount(win) && c.unpacked == 0 && 16 * n < 6 * PixelCount(win)
    ensures t == Filled(win, n) && IsDword(m, win, n, output) && c.color == 0
  {
    hide Packed, AtPixel, AfterRead, Resumed, PixelCount;
  }

  lemma PackedInDword(m: seq<Byte>, win: Window, n: nat, t: nat, output: Dword, c: Cursor)
    requires |m| == MEMORY_SIZE && win.w > 0 && Packing(m, win, n, t, output, c) && c.unpacked == 0
    ensures 6 * c.pixels <= 16 * (n + 1)
  {
    hide Packed, AtPixel, AfterRead, Resumed;
  }

  /** A pixel alone in a doubleword. */
  lemma AloneInDword(color: nat)
    requires color < 0x100_0000
    ensures Or(0, Shl(color, 0) % 0x1_0000_0000_0000_0000) == color
  {
    hide Or;
    OrZeroLeft(color);
  }

  lemma {:induction false} OrZeroLeft(a: nat)
    ensures Or(0, a) == a
  {
    if a > 0 {
      OrZeroLeft(a / 2);
    }
  }

  /** The doubleword is full before the last pixel is through. */
  lemma NotTheLast(m: seq<Byte>, win: Window, n: nat, output: Dword, c: Cursor)
    requires |m| == MEMORY_SIZE && win.w > 0 && Is24(win.format) && Packing(m, win, n, 16, output, c)
    requires c.pixels < PixelCount(win)
    ensures Filled(win, n) == 16 && IsDword(m, win, n, output)
  {
    hide Packed, AtPixel, AfterRead, Resumed, PixelCount;
  }

  /** Only the place matters to the position predicates. */
  lemma SamePlace(win: Window, c: Cursor, done: Cursor)
    requires win.w > 0 && done == c.(pixels := c.pixels + 1, color := 0, unpacked := 0)
    ensures AtPixel(win, RowChecked(win, c.(pixels := c.pixels + 1))) ==> AtPixel(win, RowChecked(win, done))
    ensures AfterRead(win, c) <==> AfterRead(win, done.(pixels := done.pixels - 1))
  {
    hide SourceX, SourceY, RowEnd;
  }

  lemma EndsInside(p: nat, n: nat, t: nat, left: nat)
    requires 6 * (p + 1) == 16 * n + t + left && t + left < 16 && left > 0
    ensures (p + 1) % 8 != 0
  {
    var q, r := (p + 1) / 8, (p + 1) % 8;
    assert p + 1 == 8 * q + r;
    assert 48 * q + 6 * r == 16 * n + t + left;
  }

  lemma NotCut(p: nat, n: nat, t: nat)
    requires 6 * p == 16 * n + t && t < 10
    ensures p % 8 != 2 && p % 8 != 5
  {
    var q, r := p / 8, p % 8;
    assert p == 8 * q + r;
    assert 48 * q + 6 * r == 16 * n + t;
  }

  lemma EndsDword(p: nat, n: nat, t: nat, left: nat)
    requires 6 * (p + 1) == 16 * n + t + left && t + left == 16 && 0 < left <= 6
    ensures p % 8 == 7 && t > 0
  {
    StartsDword(p + 1, n + 1);
  }

  lemma WhereTheRegistersAre(win: Window, n: nat, t: nat, c: Cursor)
    requires win.w > 0 && 6 * (c.pixels + 1) == 16 * n + t + c.unpacked / 4 && 0 < c.unpacked <= 24
        && c.unpacked % 4 == 0
    requires t + c.unpacked / 4 < 16 && (t > 0 ==> c.unpacked == 24)
    requires if t == 0 then Resumed(win, c) else AfterRead(win, c)
    ensures Resumed(win, c)
  {
    hide AfterRead, Resumed;
    if t > 0 {
      NotCut(c.pixels, n, t);
      NotStraddling(win, c);
    }
  }

  /** A doubleword is full: the end-of-row check prepares the next one. */
  lemma DwordPacked(m: seq<Byte>, win: Window, n: nat, output: nat, c: Cursor)
    requires |m| == MEMORY_SIZE && win.w > 0 && win.x0 < 2048 && win.y0 < 2048 && Is24(win.format)
    requires Packing(m, win, n, 16, output, c)
    ensures output == Packed(m, win, 16 * n, 16) && output < 0x1_0000_0000_0000_0000
    ensures Packing(m, win, n + 1, 0, 0, Advanced(win, c))
  {
    hide Packed, AtPixel, Resumed, AfterRead, RowEnd, Pow16;
    PowerOf16();
    PackedNothing(m, win, 16 * (n + 1));
    if c.unpacked == 0 {
      StartsDword(c.pixels, n + 1);
      var before := c.(pixels := c.pixels - 1);
      CheckAfterDword(win, before);
    } else {
      CutPixel(c.pixels, n, c.unpacked / 4);
      CheckInsidePixel(win, c);
    }
  }

  lemma PackedBound(m: seq<Byte>, win: Window, start: nat, n: nat)
    requires |m| == MEMORY_SIZE && win.w > 0 && n <= 16
    ensures Packed(m, win, start, n) < 0x1_0000_0000_0000_0000
  {
    hide Packed, Pow16;
    PowGrows(n, 16);
    PowerOf16();
  }

  lemma PackedNothing(m: seq<Byte>, win: Window, start: nat)
    requires |m| == MEMORY_SIZE && win.w > 0
    ensures Packed(m, win, start, 0) == 0
  {
  }

  /** Pixels that lie across two doublewords. */
  lemma CutPixel(p: nat, n: nat, left: nat)
    requires 6 * (p + 1) == 16 * n + 16 + left && 0 < left < 6
    ensures p % 8 == 2 || p % 8 == 5
  {
    var q, r := p / 8, p % 8;
    assert p == 8 * q + r;
    assert 48 * q + 6 * r == 16 * n + 10 + left;
  }

  // ----- formats of whole pixels

  /** t nibbles of doubleword n are gathered, all of whole pixels. */
  ghost predicate Gathering(m: seq<Byte>, win: Window, n: nat, t: nat, data: nat, c: Cursor)
    requires |m| == MEMORY_SIZE && win.w > 0
  {
    t <= 16 && data == Packed(m, win, 16 * n, t) && Start(win.format, c.pixels) == 16 * n + t && AtPixel(win, c)
  }

  lemma GatheringBegins(m: seq<Byte>, win: Window, c: Cursor)
    requires |m| == MEMORY_SIZE && win.w > 0 && c.pixels == 0 && c.x == win.x0 && c.y == win.y0
    ensures Gathering(m, win, 0, 0, 0, c)
  {
    PackedNothing(m, win, 0);
  }

  lemma PixelGathered(m: seq<Byte>, win: Window, n: nat, i: nat, data: nat, c: Cursor)
    requires |m| == MEMORY_SIZE && win.w > 0 && win.x0 < 2048 && win.y0 < 2048 && !Is24(win.format)
    requires Start(win.format, i) <= 16 && Start(win.format, i + 1) <= 16
    requires Gathering(m, win, n, Start(win.format, i), data, c)
    ensures Gathering(m, win, n, Start(win.format, i + 1),
      Or(data, Shl(PixelAt(m, win, c.pixels), Start(win.format, i)) % 0x1_0000_0000_0000_0000),
      Advanced(win, c.(x := c.x + 1, pixels := c.pixels + 1)))
    ensures Or(data, Shl(PixelAt(m, win, c.pixels),
        Start(win.format, i)) % 0x1_0000_0000_0000_0000) < 0x1_0000_0000_0000_0000
    ensures PixelAt(m, win, c.pixels) == Pixel(m, win.format, win.buffer, c.x, c.y)
  {
    hide Packed, Start, Nibbles, Or, Shl, SourceX, SourceY, RowEnd, Pixel;
    StartNext(win.format, i);
    StartNext(win.format, c.pixels);
    PackedPixel(m, win, c.pixels);
    PackedInside(m, win, 16 * n, Start(win.format, i), Nibbles(win.format));
    PackedBound(m, win, 16 * n, Start(win.format, i + 1));
    NextPixelRead(win, c);
  }

  lemma DwordGathered(m: seq<Byte>, win: Window, n: nat, data: nat, c: Cursor)
    requires |m| == MEMORY_SIZE && win.w > 0 && Gathering(m, win, n, 16, data, c)
    ensures data == Packed(m, win, 16 * n, 16) && data < 0x1_0000_0000_0000_0000
    ensures Gathering(m, win, n + 1, 0, 0, c)
  {
    hide Packed, AtPixel, Pow16;
    PowerOf16();
    PackedNothing(m, win, 16 * (n + 1));
  }

  // ----- how far a download is

  lemma PackedSoFar(m: seq<Byte>, win: Window, n: nat, c: Cursor)
    requires |m| == MEMORY_SIZE && win.w > 0 && Is24(win.format) && Packing(m, win, n, 0, 0, c)
    ensures Start(win.format, c.pixels) <= 16 * n < Start(win.format, c.pixels + 1)
  {
    hide Packed, AtPixel, AfterRead, Resumed;
  }

  lemma GatheredSoFar(m: seq<Byte>, win: Window, n: nat, c: Cursor)
    requires |m| == MEMORY_SIZE && win.w > 0 && Gathering(m, win, n, 0, 0, c)
    ensures Start(win.format, c.pixels) <= 16 * n < Start(win.format, c.pixels + 1)
  {
    hide Packed, AtPixel;
  }

  lemma StreamedMore(m: seq<Byte>, win: Window, s: seq<Dword>, first: Dword, second: Dword)
    requires |m| == MEMORY_SIZE && win.w > 0 && Streamed(m, win, s)
    requires IsDword(m, win, |s|, first) && IsDword(m, win, |s| + 1, second)
    ensures Streamed(m, win, s + [first, second])
  {
    hide IsDword;
  }
}
