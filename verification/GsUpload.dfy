/** Facts about an upload between two doublewords and inside one. */
module GsUpload {
  import opened Bits
  import opened GsMemory
  import opened Hex
  import opened GsPixels
  import opened GsRaster

  /** A shift and a mask give a field of the newest doubleword. */
  lemma MaskedField(s: seq<Dword>, d: Dword, j: nat, n: nat, lo: nat, hi: nat)
    requires j + n <= 16 && lo < Pow16(n) && Shr(d, j) == lo + Shl(hi, n)
    ensures Take(s + [d], 16 * |s| + j, n) == lo
  {
    hide Digit, Shr, Shl, Pow16, Take;
    var t := s + [d];
    var start := 16 * |s| + j;
    forall c | 0 <= c < n ensures Digit(Take(t, start, n), c) == Digit(lo, c) {
      TakeDigit(t, start, n, c);
      NthOfLast(s, d, j + c);
      ShrDigit(d, j, c);
      DigitSplit(lo, hi, n, c);
    }
    DigitsDetermine(Take(t, start, n), lo, n);
  }

  lemma NthOfLast(s: seq<Dword>, d: Dword, j: nat)
    requires j < 16
    ensures Nth(s + [d], 16 * |s| + j) == Digit(d, j)
  {
    hide Digit;
    assert (16 * |s| + j) / 16 == |s| && (16 * |s| + j) % 16 == j;
  }

  lemma Field32(s: seq<Dword>, d: Dword, j: nat)
    requires j + 8 <= 16
    ensures Shr(d, j) % 0x1_0000_0000 == Take(s + [d], 16 * |s| + j, 8)
  {
    hide Shr, Shl, Pow16, Take;
    Powers();
    Shift8(Shr(d, j) / 0x1_0000_0000);
    MaskedField(s, d, j, 8, Shr(d, j) % 0x1_0000_0000, Shr(d, j) / 0x1_0000_0000);
  }

  lemma Field16(s: seq<Dword>, d: Dword, j: nat)
    requires j + 4 <= 16
    ensures Shr(d, j) % 0x1_0000 == Take(s + [d], 16 * |s| + j, 4)
  {
    hide Shr, Shl, Pow16, Take;
    Powers();
    Shifts(Shr(d, j) / 0x1_0000);
    MaskedField(s, d, j, 4, Shr(d, j) % 0x1_0000, Shr(d, j) / 0x1_0000);
  }

  lemma Field8(s: seq<Dword>, d: Dword, j: nat)
    requires j + 2 <= 16
    ensures Shr(d, j) % 0x100 == Take(s + [d], 16 * |s| + j, 2)
  {
    hide Shr, Shl, Pow16, Take;
    Powers();
    Shifts(Shr(d, j) / 0x100);
    MaskedField(s, d, j, 2, Shr(d, j) % 0x100, Shr(d, j) / 0x100);
  }

  /** Both halves of a byte. */
  lemma Halves(s: seq<Dword>, d: Dword, j: nat)
    requires j + 2 <= 16
    ensures Shr(d, j) % 0x100 % 16 == Nth(s + [d], 16 * |s| + j)
    ensures Shr(d, j) % 0x100 / 16 == Nth(s + [d], 16 * |s| + j + 1)
  {
    hide Shr, Nth;
    Field8(s, d, j);
    var t := s + [d];
    assert Take(t, 16 * |s| + j + 2, 0) == 0;
    assert Take(t, 16 * |s| + j + 1, 1) == Nth(t, 16 * |s| + j + 1);
  }

  // ----- the registers of a running upload

  datatype Cursor = Cursor(x: nat, y: nat, pixels: nat, color: nat, unpacked: nat)

  /** The row number after u nibbles: late by one while the second check of a row is due. */
  function RowAfter(win: Window, u: nat): nat
    requires win.w > 0
  {
    var p := PixelWith(win.format, u);
    if u % 48 == 12 && UploadTwice(win, p) then (DestY(win, p - 1) + 1) % 2048 else DestY(win, p)
  }

  /** The registers after u nibbles of s. */
  ghost predicate Reached(win: Window, s: seq<Dword>, u: nat, c: Cursor)
    requires win.w > 0 && u <= 16 * |s|
  {
    var p := PixelWith(win.format, u);
    && c.pixels == p && c.x == DestX(win, p) && c.y == RowAfter(win, u)
    && Start(win.format, p) <= u
    && if Is24(win.format) then 6 * p + 2 * c.unpacked == u && c.unpacked < 3
        && c.color == Take(s, 6 * p, 2 * c.unpacked)
       else Start(win.format, p) == u
  }

  lemma Begun(win: Window, s: seq<Dword>, c: Cursor)
    requires win.w > 0
    requires c.pixels == 0 && c.x == win.x0 && c.y == win.y0 && c.color == 0 && c.unpacked == 0
    ensures Reached(win, s, 0, c)
  {
    assert Take(s, 0, 0) == 0;
  }

  /** A new doubleword does not disturb what was reached. */
  lemma NextDword(m: seq<Byte>, win: Window, s: seq<Dword>, d: Dword, c: Cursor)
    requires |m| == MEMORY_SIZE && win.w > 0 && Reached(win, s, 16 * |s|, c)
    ensures Reached(win, s + [d], 16 * |s|, c)
    ensures Start(win.format, c.pixels) <= 16 * |s|
    ensures Uploaded(m, win, s + [d], c.pixels) == Uploaded(m, win, s, c.pixels)
  {
    hide DestX, DestY, Take, Uploaded, UploadTwice;
    UploadedPrefix(m, win, s, [d], c.pixels);
    if Is24(win.format) {
      TakePrefix(s, [d], 6 * c.pixels, 2 * c.unpacked);
    }
  }

  // ----- one pixel

  /** End of row and wrap-around, as both loops do them. */
  function Advanced(win: Window, c: Cursor): Cursor
    requires win.w > 0
  {
    if RowEnd(win, c.pixels) then c.(x := win.x0 % 2048, y := (c.y + 1) % 2048)
        else c.(x := c.x % 2048, y := c.y % 2048)
  }

  lemma {:induction false} DestBounds(win: Window, k: nat)
    requires win.w > 0 && win.x0 < 2048 && win.y0 < 2048
    ensures DestX(win, k) < 2048 && DestY(win, k) < 2048
  {
    if k > 0 {
      DestBounds(win, k - 1);
    }
  }

  lemma NextPixel(win: Window, s: seq<Dword>, u: nat, c: Cursor)
    requires win.w > 0 && win.x0 < 2048 && win.y0 < 2048 && !Is24(win.format)
    requires u + Nibbles(win.format) <= 16 * |s| && Reached(win, s, u, c)
    ensures Reached(win, s, u + Nibbles(win.format), Advanced(win, c.(x := c.x + 1, pixels := c.pixels + 1)))
  {
    hide Take, DestX, DestY, Advanced, Start, Nibbles, PixelWith;
    var p := PixelWith(win.format, u);
    StartNext(win.format, p);
    PixelsCounted(win.format, p + 1);
    NextPlaceWritten(win, c);
  }

  lemma NextPlaceWritten(win: Window, c: Cursor)
    requires win.w > 0 && win.x0 < 2048 && win.y0 < 2048 && !Is24(win.format)
    requires c.x == DestX(win, c.pixels) && c.y == DestY(win, c.pixels)
    ensures var next := Advanced(win, c.(x := c.x + 1, pixels := c.pixels + 1));
      && next.pixels == c.pixels + 1 && next.x == DestX(win, next.pixels) && next.y == DestY(win, next.pixels)
  {
    hide DestX, DestY, RowEnd;
    FirstCheck(win, c.pixels, c.(x := c.x + 1, pixels := c.pixels + 1));
  }

  lemma PixelsCounted(f: Format, k: nat)
    ensures PixelWith(f, Start(f, k)) == k
  {
  }

  /** What a running upload of whole pixels says about the next one. */
  lemma ReachedPixel(win: Window, s: seq<Dword>, u: nat, c: Cursor)
    requires win.w > 0 && u <= 16 * |s| && !Is24(win.format) && Reached(win, s, u, c)
    ensures c.pixels == PixelWith(win.format, u) && Start(win.format, c.pixels) == u
    ensures c.x == DestX(win, c.pixels) && c.y == DestY(win, c.pixels)
    ensures PixelWith(win.format, u + Nibbles(win.format)) == c.pixels + 1
  {
    hide DestX, DestY, Take, Start, Nibbles, PixelWith;
    StartNext(win.format, c.pixels);
    PixelsCounted(win.format, c.pixels + 1);
  }

  /** The value the loop takes from the doubleword is the one the stream has for the pixel. */
  function Extracted(f: Format, data: Dword, i: nat, x: nat): nat {
    hide Shr;
    match Nibbles(f)
    case 8 => Shr(data, 8 * i) % 0x1_0000_0000
    case 4 => Shr(data, 4 * i) % 0x1_0000
    case 2 => Shr(data, 2 * i) % 0x100
    case _ =>
      var value := Shr(data, 2 * (i / 2)) % 0x100;
      if (if f.CT4? then x else i) % 2 == 1 then value / 16 else value % 16
  }

  lemma ExtractedIsValue(win: Window, s: seq<Dword>, d: Dword, i: nat, p: nat)
    requires win.w > 0 && !Is24(win.format)
    requires Start(win.format, p) == 16 * |s| + Start(win.format, i) && Start(win.format, i + 1) <= 16
    ensures Start(win.format, p + 1) <= 16 * |s + [d]|
    ensures Extracted(win.format, d, i, DestX(win, p)) == ValueOf(win, s + [d], p)
  {
    hide DestX, Shr, Take, Nth;
    match Nibbles(win.format) {
      case 8 => Field32(s, d, 8 * i);
      case 4 => Field16(s, d, 4 * i);
      case 2 => Field8(s, d, 2 * i);
      case _ => NibbleExtracted(win, s, d, i, p);
    }
  }

  lemma NibbleExtracted(win: Window, s: seq<Dword>, d: Dword, i: nat, p: nat)
    requires win.w > 0 && Nibbles(win.format) == 1 && Start(win.format, p) == 16 * |s| + i && i < 16
    ensures Start(win.format, p + 1) <= 16 * |s + [d]|
    ensures Extracted(win.format, d, i, DestX(win, p)) == ValueOf(win, s + [d], p)
  {
    hide DestX, Shr, Take, Nth, NibbleOf;
    NibbleIndex(|s|, i, DestX(win, p));
    var even := 2 * (i / 2);
    Halves(s, d, even);
    OneTaken(s + [d], p);
  }

  lemma NibbleIndex(n: nat, i: nat, x: nat)
    requires i < 16
    ensures 2 * (i / 2) + 2 <= 16
    ensures NibbleOf(16 * n + i, x) == 16 * n + 2 * (i / 2) + x % 2 && i == 2 * (i / 2) + i % 2
  {
    var h, r := i / 2, i % 2;
    assert 16 * n + i == 2 * (8 * n + h) + r;
  }

  /** One step of the loop: what it writes, and where the registers go. */
  lemma PixelSent(m: seq<Byte>, win: Window, s: seq<Dword>, d: Dword, i: nat, c: Cursor)
    requires |m| == MEMORY_SIZE && win.w > 0 && win.x0 < 2048 && win.y0 < 2048 && !Is24(win.format)
    requires Start(win.format, i) <= 16 && Start(win.format, i + 1) <= 16
    requires Reached(win, s + [d], 16 * |s| + Start(win.format, i), c)
    ensures Reached(win, s + [d], 16 * |s| + Start(win.format, i + 1),
        Advanced(win, c.(x := c.x + 1, pixels := c.pixels + 1)))
    ensures c.pixels == PixelWith(win.format, 16 * |s| + Start(win.format, i))
    ensures var p := PixelWith(win.format, 16 * |s| + Start(win.format, i + 1));
      && Start(win.format, c.pixels) <= 16 * |s + [d]| && Start(win.format, p) <= 16 * |s + [d]|
      && Uploaded(m, win, s + [d], p)
        == SetPixel(Uploaded(m, win, s + [d], c.pixels), win.format, win.buffer, c.x, c.y,
            Extracted(win.format, d, i, c.x))
    ensures win.format.CT4HL? ==> Extracted(win.format, d, i, c.x) < 16
  {
    hide Reached, DestX, DestY, Extracted, ValueOf, Start, PixelWith, SetPixel, Advanced;
    var u := 16 * |s| + Start(win.format, i);
    StartNext(win.format, i);
    ReachedPixel(win, s + [d], u, c);
    ExtractedIsValue(win, s, d, i, c.pixels);
    NextPixel(win, s + [d], u, c);
    StartNext(win.format, c.pixels);
    Powers();
  }

  // ----- 24-bit pixels, three bytes at a time

  /** One more byte of a pixel. */
  lemma ByteTaken(s: seq<Dword>, d: Dword, first: nat, n: nat, j: nat)
    requires j + 2 <= 16 && first + n == 16 * |s| + j
    ensures first + n + 2 <= 16 * |s + [d]|
    ensures Or(Take(s + [d], first, n), Shl(Shr(d, j) % 0x100, n)) == Take(s + [d], first, n + 2)
  {
    hide Or, Shl, Shr, Take, Nth;
    Field8(s, d, j);
    TakeSplit(s + [d], first, n, 2);
    OrAbove(Take(s + [d], first, n), Shr(d, j) % 0x100, n);
  }

  lemma NothingTaken(s: seq<Dword>, first: nat)
    requires first <= 16 * |s|
    ensures Take(s, first, 0) == 0
  {
  }

  /** The end-of-row check after each third of a doubleword, whether or not that third
      completed a pixel. */
  lemma AfterThird(win: Window, s: seq<Dword>, u: nat, u': nat, c: Cursor, c': Cursor)
    requires win.w > 0 && win.x0 < 2048 && win.y0 < 2048 && Is24(win.format)
    requires u <= u' <= 16 * |s| && Reached(win, s, u, c)
    requires (u % 16 == 0 || u % 16 == 6 || u % 16 == 12) && u' == if u % 16 == 12 then u + 4 else u + 6
    requires c'.x == c.x + (c'.pixels - c.pixels) && c'.y == c.y
    requires 6 * c'.pixels + 2 * c'.unpacked == u' && c'.unpacked < 3
        && c'.color == Take(s, 6 * c'.pixels, 2 * c'.unpacked)
    ensures Reached(win, s, u', Advanced(win, c'))
  {
    hide Take, DestX, DestY, UploadTwice, RowEnd, PixelWith;
    ByPixels24(win, u, u');
    var p := c.pixels;
    if c'.pixels == p {
      NoPixelCompleted(u, u', p);
      SecondCheck(win, p, c');
    } else {
      PixelCompleted(u, u', p);
      FirstCheck(win, p, c');
      NotTwiceElsewhere(win, p + 1);
    }
  }

  lemma NotTwiceElsewhere(win: Window, p: nat)
    requires win.w > 0
    ensures UploadTwice(win, p) ==> p % 8 == 2
  {
  }

  lemma ByPixels24(win: Window, u: nat, u': nat)
    requires Is24(win.format)
    ensures PixelWith(win.format, u) == u / 6 && PixelWith(win.format, u') == u' / 6
  {
  }

  lemma DestUnfolds(win: Window, p: nat)
    requires win.w > 0 && p > 0
    ensures DestX(win, p) == if RowEnd(win, p) then win.x0 else (DestX(win, p - 1) + 1) % 2048
    ensures DestY(win, p) == if !RowEnd(win, p) then DestY(win, p - 1)
                             else if UploadTwice(win, p) then (DestY(win, p - 1) + 2) % 2048
                                 else (DestY(win, p - 1) + 1) % 2048
  {
    hide UploadTwice, RowEnd;
  }

  lemma WrapTwice(y: nat)
    requires y < 2048
    ensures ((y + 1) % 2048 + 1) % 2048 == (y + 2) % 2048
  {
  }

  /** The check that follows a completed pixel. */
  lemma FirstCheck(win: Window, p: nat, c: Cursor)
    requires win.w > 0 && win.x0 < 2048 && win.y0 < 2048
    requires c.pixels == p + 1 && c.x == DestX(win, p) + 1 && c.y == DestY(win, p)
    ensures Advanced(win, c).x == DestX(win, p + 1)
    ensures Advanced(win, c).y == if UploadTwice(win, p + 1) then (DestY(win, p) + 1) % 2048 else DestY(win, p + 1)
  {
    hide DestX, DestY, RowEnd;
    DestBounds(win, p);
    DestUnfolds(win, p + 1);
  }

  /** The check of the third that completed nothing. */
  lemma SecondCheck(win: Window, p: nat, c: Cursor)
    requires win.w > 0 && win.x0 < 2048 && win.y0 < 2048 && Is24(win.format) && p > 0 && p % 8 == 2
    requires c.pixels == p && c.x == DestX(win, p)
    requires c.y == if UploadTwice(win, p) then (DestY(win, p - 1) + 1) % 2048 else DestY(win, p)
    ensures Advanced(win, c).x == DestX(win, p) && Advanced(win, c).y == DestY(win, p)
  {
    hide DestX, DestY, RowEnd;
    DestBounds(win, p);
    DestBounds(win, p - 1);
    DestUnfolds(win, p);
    WrapTwice(DestY(win, p - 1));
  }

  /** Thirds repeat every three doublewords, that is eight pixels. */
  lemma ThirdOf(q: nat, t: nat)
    requires t <= 48
    ensures (48 * q + t) % 16 == t % 16 && (48 * q + t) / 6 == 8 * q + t / 6
    ensures (48 * q + t) % 48 == t % 48 && (8 * q + t / 6) % 8 == t / 6 % 8
  {
    ThirdModulo16(q, t);
    ThirdModulo48(q, t);
    ThirdPixels(q, t);
    ThirdModulo8(q, t / 6);
  }

  lemma ThirdModulo16(q: nat, t: nat)
    ensures (48 * q + t) % 16 == t % 16
  {
  }

  lemma ThirdModulo48(q: nat, t: nat)
    ensures (48 * q + t) % 48 == t % 48
  {
  }

  lemma ThirdPixels(q: nat, t: nat)
    ensures (48 * q + t) / 6 == 8 * q + t / 6
  {
  }

  lemma ThirdModulo8(q: nat, p: nat)
    ensures (8 * q + p) % 8 == p % 8
  {
  }

  /** Where the thirds end, and how many pixels end with them. */
  predicate IsThird(t: nat, t': nat) {
    || (t == 0 && t' == 6) || (t == 6 && t' == 12) || (t == 12 && t' == 16)
    || (t == 16 && t' == 22) || (t == 22 && t' == 28) || (t == 28 && t' == 32)
    || (t == 32 && t' == 38) || (t == 38 && t' == 44) || (t == 44 && t' == 48)
  }

  lemma Thirds(u: nat, u': nat) returns (q: nat, t: nat, t': nat)
    requires (u % 16 == 0 || u % 16 == 6 || u % 16 == 12) && u' == if u % 16 == 12 then u + 4 else u + 6
    ensures IsThird(t, t') && u == 48 * q + t && u' == 48 * q + t'
    ensures u / 6 == 8 * q + t / 6 && u' / 6 == 8 * q + t' / 6
    ensures u % 48 == t && u' % 48 == t' % 48 && (8 * q + t' / 6) % 8 == t' / 6 % 8
  {
    q, t := u / 48, u % 48;
    t' := if u % 16 == 12 then t + 4 else t + 6;
    ThirdOf(q, t);
    SmallThird(t);
    ThirdOf(q, t');
  }

  lemma SmallThird(t: nat)
    requires t < 48 && (t % 16 == 0 || t % 16 == 6 || t % 16 == 12)
    ensures IsThird(t, if t % 16 == 12 then t + 4 else t + 6)
  {
  }

  /** The only third that completes no pixel ends the first of three doublewords. */
  lemma NoPixelCompleted(u: nat, u': nat, p: nat)
    requires (u % 16 == 0 || u % 16 == 6 || u % 16 == 12) && u' == if u % 16 == 12 then u + 4 else u + 6
    requires p == u / 6 == u' / 6
    ensures u % 48 == 12 && u' % 48 == 16 && p % 8 == 2
  {
    var q, t, t' := Thirds(u, u');
  }

  lemma PixelCompleted(u: nat, u': nat, p: nat)
    requires (u % 16 == 0 || u % 16 == 6 || u % 16 == 12) && u' == if u % 16 == 12 then u + 4 else u + 6
    requires p == u / 6 && p != u' / 6
    ensures u' / 6 == p + 1 && u % 48 != 12 && ((p + 1) % 8 == 2 <==> u' % 48 == 12)
  {
    var q, t, t' := Thirds(u, u');
  }

  /** The bytes of a third of a doubleword, b of them taken. The pixel count may have moved on. */
  ghost predicate Unpacking(win: Window, s: seq<Dword>, u: nat, b: nat, c: Cursor, now: Cursor)
    requires win.w > 0 && u + 2 * b <= 16 * |s|
  {
    && 6 * now.pixels + 2 * now.unpacked == u + 2 * b && now.unpacked < 3
    && now.color == Take(s, 6 * now.pixels, 2 * now.unpacked)
    && now.x == c.x + (now.pixels - c.pixels) && now.y == c.y && now.pixels >= c.pixels
  }

  lemma UnpackingBegins(win: Window, s: seq<Dword>, u: nat, c: Cursor)
    requires win.w > 0 && Is24(win.format) && u <= 16 * |s| && Reached(win, s, u, c)
    ensures Unpacking(win, s, u, 0, c, c)
    ensures c.pixels == PixelWith(win.format, u) && Start(win.format, c.pixels) <= 16 * |s|
  {
    hide Take;
  }

  /** After a third and its end-of-row check. */
  lemma ThirdUnpacked(win: Window, s: seq<Dword>, n: nat, i: nat, c: Cursor, now: Cursor)
    requires win.w > 0 && win.x0 < 2048 && win.y0 < 2048 && Is24(win.format) && i < 3 && |s| == n + 1
    requires Reached(win, s, 16 * n + 6 * i, c) && Unpacking(win, s, 16 * n + 6 * i, if i == 2 then 2 else 3, c, now)
    ensures Reached(win, s, 16 * n + (if i == 2 then 16 else 6 * (i + 1)), Advanced(win, now))
    ensures now.pixels == PixelWith(win.format, 16 * n + (if i == 2 then 16 else 6 * (i + 1)))
  {
    hide Take, DestX, DestY, Advanced, Reached;
    var u := 16 * n + 6 * i;
    var u' := 16 * n + (if i == 2 then 16 else 6 * (i + 1));
    SixteenMore(n, i);
    AfterThird(win, s, u, u', c, now);
    ByPixels24(win, u, u');
  }

  lemma SixteenMore(n: nat, i: nat)
    requires i < 3
    ensures (16 * n + 6 * i) % 16 == 6 * i
  {
  }

  lemma PixelsReached(win: Window, s: seq<Dword>, u: nat, c: Cursor)
    requires win.w > 0 && u <= 16 * |s| && Reached(win, s, u, c)
    ensures c.pixels == PixelWith(win.format, u) && Start(win.format, c.pixels) <= u
  {
    hide Take, DestX, DestY;
  }

  /** The registers after one more byte. */
  function WithByte(now: Cursor, color: nat): Cursor {
    if now.unpacked == 2 then Cursor(now.x + 1, now.y, now.pixels + 1, 0, 0)
    else now.(color := color, unpacked := now.unpacked + 1)
  }

  /** The byte that comes next, and the pixel it may complete. */
  lemma ByteSent(m: seq<Byte>, win: Window, s: seq<Dword>, d: Dword, j: nat, b: nat, c: Cursor, now: Cursor, color: nat)
    requires |m| == MEMORY_SIZE && win.w > 0 && Is24(win.format)
    requires (j == 0 || j == 6 || j == 12) && b < 3 && j + 2 * b + 2 <= 16
    requires Reached(win, s + [d], 16 * |s| + j, c) && Unpacking(win, s + [d], 16 * |s| + j, b, c, now)
    requires color == Or(now.color, Shl(Shr(d, j + 2 * b) % 0x100, 2 * now.unpacked))
    ensures Unpacking(win, s + [d], 16 * |s| + j, b + 1, c, WithByte(now, color))
    ensures now.unpacked == 2 ==> PixelComplete(m, win, s + [d], now, color)
  {
    hide Or, Shl, Shr, Take, DestX, DestY, SetPixel, UploadTwice, PixelWith;
    var u := 16 * |s| + j;
    ByteTaken(s, d, 6 * now.pixels, 2 * now.unpacked, j + 2 * b);
    ByPixels24(win, u, u);
    if now.unpacked == 2 {
      CompletedInTime(|s|, j, b, c.pixels, c.unpacked, now.pixels);
      NothingTaken(s + [d], 6 * (now.pixels + 1));
    }
  }

  ghost predicate PixelComplete(m: seq<Byte>, win: Window, s: seq<Dword>, now: Cursor, color: nat)
    requires |m| == MEMORY_SIZE && win.w > 0
  {
    && Start(win.format, now.pixels + 1) <= 16 * |s| && Start(win.format, now.pixels) <= 16 * |s|
    && Uploaded(m, win, s, now.pixels + 1)
      == SetPixel(Uploaded(m, win, s, now.pixels), win.format, win.buffer, now.x, now.y, color)
  }

  lemma CompletedInTime(n: nat, j: nat, b: nat, p: nat, left: nat, p': nat)
    requires 6 * p + 2 * left == 16 * n + j && left < 3 && p <= p' && b < 3 && 6 * p' + 4 == 16 * n + j + 2 * b
    requires (j == 0 || j == 6 || j == 12) && j + 2 * b + 2 <= 16
    ensures p' == p && (16 * n + j) % 48 != 12
  {
  }
}
