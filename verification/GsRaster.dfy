/** Rectangles of pixels and the doublewords they travel in.

    A window is walked left to right, top to bottom. `Uploaded` is memory after the first
    pixels of a stream of doublewords were put into a window; `Downloaded` says that a stream
    holds the pixels of one. The positions follow the transfer loops, wrap-around included. */
module GsRaster {
  import opened Division
  import opened GsMemory
  import opened Hex
  import opened GsPixels

  type Dword = d: nat | d < 0x1_0000_0000_0000_0000

  /** w and h in pixels; a rectangle of TRXREG is at most 4095 by 4095. */
  datatype Window = Window(format: Format, buffer: Buffer, x0: nat, y0: nat, w: nat, h: nat)

  predicate Is24(f: Format) { f.CT24? || f.Z24? }

  // ----- streams of doublewords

  /** Nibble j of a stream. */
  function Nth(s: seq<Dword>, j: nat): (r: nat)
    requires j < 16 * |s|
    ensures r < 16
  {
    Digit(s[j / 16], j % 16)
  }

  /** The number in nibbles start, ..., start + n - 1 of a stream. */
  function Take(s: seq<Dword>, start: nat, n: nat): (r: nat)
    requires start + n <= 16 * |s|
    ensures r < Pow16(n)
    decreases n
  {
    if n == 0 then 0 else Nth(s, start) + 16 * Take(s, start + 1, n - 1)
  }

  /** The first nibble of pixel k. */
  function Start(f: Format, k: nat): nat {
    match Nibbles(f) case 8 => 8 * k case 6 => 6 * k case 4 => 4 * k case 2 => 2 * k case _ => k
  }

  lemma StartNext(f: Format, k: nat)
    ensures Start(f, k + 1) == Start(f, k) + Nibbles(f)
  {
  }

  lemma {:induction false} TakePrefix(s: seq<Dword>, t: seq<Dword>, start: nat, n: nat)
    requires start + n <= 16 * |s|
    ensures Take(s + t, start, n) == Take(s, start, n)
    decreases n
  {
    hide Digit, Pow16;
    if n > 0 {
      TakePrefix(s, t, start + 1, n - 1);
    }
  }

  lemma {:induction false} TakeSplit(s: seq<Dword>, start: nat, n: nat, c: nat)
    requires start + n + c <= 16 * |s|
    ensures Take(s, start, n + c) == Take(s, start, n) + Shl(Take(s, start + n, c), n)
    decreases n
  {
    hide Nth, Pow16;
    if n > 0 {
      TakeSplit(s, start + 1, n - 1, c);
    }
  }

  lemma {:induction false} TakeDigit(s: seq<Dword>, start: nat, n: nat, j: nat)
    requires start + n <= 16 * |s| && j < n
    ensures Digit(Take(s, start, n), j) == Nth(s, start + j)
    decreases j
  {
    hide Nth, Pow16;
    if j > 0 {
      TakeDigit(s, start + 1, n - 1, j - 1);
    }
  }

  // ----- walking a window

  /** A row begins with pixel k. */
  predicate RowEnd(win: Window, k: nat)
    requires win.w > 0
  {
    k % win.w == 0
  }

  /** The row ends twice: a 24-bit upload checks for the end of a row after each third of a
      doubleword, and one third in eight completes no pixel. */
  predicate UploadTwice(win: Window, k: nat)
    requires win.w > 0
  {
    Is24(win.format) && k > 0 && k % 8 == 2 && RowEnd(win, k)
  }

  /** Where the upload puts pixel k. */
  function DestX(win: Window, k: nat): nat
    requires win.w > 0
  {
    if k == 0 || RowEnd(win, k) then win.x0 else (DestX(win, k - 1) + 1) % 2048
  }

  function DestY(win: Window, k: nat): nat
    requires win.w > 0
  {
    if k == 0 then win.y0
    else if !RowEnd(win, k) then DestY(win, k - 1)
    else if UploadTwice(win, k) then (DestY(win, k - 1) + 2) % 2048
    else (DestY(win, k - 1) + 1) % 2048
  }

  /** A 24-bit download checks for the end of a row inside the packer and again after each
      doubleword, and two doublewords in three end inside a pixel. */
  predicate DownloadTwice(win: Window, k: nat)
    requires win.w > 0
  {
    Is24(win.format) && k > 0 && (k % 8 == 2 || k % 8 == 5) && RowEnd(win, k)
  }

  /** Where the download takes pixel k from. The row number is only reduced at the end of a
      doubleword, so the packer can see row 2048. */
  function SourceX(win: Window, k: nat): nat
    requires win.w > 0
  {
    if k == 0 || RowEnd(win, k) || DownloadTwice(win, k - 1) then win.x0 else (SourceX(win, k - 1) + 1) % 2048
  }

  function SourceY(win: Window, k: nat): nat
    requires win.w > 0
  {
    if k == 0 then win.y0
    else
      var y := if DownloadTwice(win, k - 1) then (SourceY(win, k - 1) + 1) % 2048 else SourceY(win, k - 1) % 2048;
      if !RowEnd(win, k) then y
      else if Is24(win.format) && k % 8 != 0 then y + 1
      else (y + 1) % 2048
  }

  // ----- what is transferred

  /** The half of byte k / 2 that belongs to column x. */
  function NibbleOf(k: nat, x: nat): nat {
    k - k % 2 + x % 2
  }

  lemma NibbleInside(k: nat, x: nat, n: nat)
    ensures k < 16 * n ==> NibbleOf(k, x) < 16 * n
  {
  }

  /** The value the upload writes as pixel k. For PSMT4 the nibble of the byte is chosen by
      the column the pixel goes to. */
  function ValueOf(win: Window, s: seq<Dword>, k: nat): (r: nat)
    requires win.w > 0 && Start(win.format, k + 1) <= 16 * |s|
    ensures r < Pow16(Nibbles(win.format))
  {
    hide Nth, Take, DestX;
    NibbleInside(k, DestX(win, k), |s|);
    if win.format.CT4? then Nth(s, NibbleOf(k, DestX(win, k))) else Take(s, Start(win.format, k), Nibbles(win.format))
  }

  /** Memory after the first k pixels of s went to the window. */
  function Uploaded(m: seq<Byte>, win: Window, s: seq<Dword>, k: nat): (r: seq<Byte>)
    requires |m| == MEMORY_SIZE && win.w > 0 && Start(win.format, k) <= 16 * |s|
    ensures |r| == MEMORY_SIZE
  {
    if k == 0 then m
    else
      SetPixel(Uploaded(m, win, s, k - 1), win.format, win.buffer, DestX(win, k - 1), DestY(win, k - 1),
          ValueOf(win, s, k - 1))
  }

  /** The number of pixels of a window. */
  function PixelCount(win: Window): nat { win.w * win.h }

  /** All of pixel k is in a stream of n doublewords. Pixels of 24 bits end with the rectangle;
      those of other formats go on to the end of the stream. */
  predicate Carried(win: Window, n: nat, k: nat) {
    Start(win.format, k) + Nibbles(win.format) <= 16 * n && (Is24(win.format) ==> k < PixelCount(win))
  }

  /** The stream holds the first pixels of the window, packed without gaps. */
  ghost predicate Downloaded(m: seq<Byte>, win: Window, s: seq<Dword>)
    requires |m| == MEMORY_SIZE && win.w > 0
  {
    forall k: nat :: Carried(win, |s|, k) ==>
      Take(s, Start(win.format, k), Nibbles(win.format))
        == Pixel(m, win.format, win.buffer, SourceX(win, k), SourceY(win, k))
  }

  lemma {:induction false} UploadedPrefix(m: seq<Byte>, win: Window, s: seq<Dword>, t: seq<Dword>, k: nat)
    requires |m| == MEMORY_SIZE && win.w > 0 && Start(win.format, k) <= 16 * |s|
    ensures Uploaded(m, win, s + t, k) == Uploaded(m, win, s, k)
  {
    hide SetPixel, DestX, DestY, Take, ValueOf;
    if k > 0 {
      UploadedPrefix(m, win, s, t, k - 1);
      ValuePrefix(win, s, t, k - 1);
    }
  }

  lemma ValuePrefix(win: Window, s: seq<Dword>, t: seq<Dword>, k: nat)
    requires win.w > 0 && Start(win.format, k + 1) <= 16 * |s|
    ensures ValueOf(win, s + t, k) == ValueOf(win, s, k)
  {
    hide DestX, Take, Digit, Nth, NibbleOf;
    if win.format.CT4? {
      NibbleInside(k, DestX(win, k), |s|);
      NthPrefix(s, t, NibbleOf(k, DestX(win, k)));
    } else {
      TakePrefix(s, t, Start(win.format, k), Nibbles(win.format));
    }
  }

  lemma NthPrefix(s: seq<Dword>, t: seq<Dword>, j: nat)
    requires j < 16 * |s|
    ensures Nth(s + t, j) == Nth(s, j)
  {
    hide Digit;
  }

  // ----- rows and columns

  function ColumnOf(win: Window, k: nat): nat
    requires win.w > 0
  {
    k % win.w
  }

  function RowOf(win: Window, k: nat): nat
    requires win.w > 0
  {
    k / win.w
  }

  lemma NextPlace(win: Window, k: nat)
    requires win.w > 0
    ensures if RowEnd(win, k + 1) then RowOf(win, k + 1) == RowOf(win, k) + 1 && ColumnOf(win, k + 1) == 0
            else RowOf(win, k + 1) == RowOf(win, k) && ColumnOf(win, k + 1) == ColumnOf(win, k) + 1
    ensures ColumnOf(win, k) < win.w
  {
    NextQuotient(k, win.w);
  }

  lemma FirstPlace(win: Window)
    requires win.w > 0
    ensures RowOf(win, 0) == 0 && ColumnOf(win, 0) == 0
  {
  }

  lemma DistinctPlaces(win: Window, j: nat, k: nat)
    requires win.w > 0 && RowOf(win, j) == RowOf(win, k) && ColumnOf(win, j) == ColumnOf(win, k)
    ensures j == k
  {
    assert j == (j / win.w) * win.w + j % win.w;
    assert k == (k / win.w) * win.w + k % win.w;
  }

  /** The first n pixels stay below coordinate 2048. */
  ghost predicate OnScreen(win: Window, n: nat)
    requires win.w > 0
  {
    win.x0 + win.w <= 2048 && forall k: nat :: k < n ==> win.y0 + RowOf(win, k) < 2048
  }

  predicate PlacedAt(win: Window, k: nat)
    requires win.w > 0
  {
    DestX(win, k) == win.x0 + ColumnOf(win, k) && DestY(win, k) == win.y0 + RowOf(win, k)
  }

  predicate TakenFrom(win: Window, k: nat)
    requires win.w > 0
  {
    SourceX(win, k) == win.x0 + ColumnOf(win, k) && SourceY(win, k) == win.y0 + RowOf(win, k)
  }

  lemma {:induction false} Placed(win: Window, n: nat, k: nat)
    requires win.w > 0 && k < n && OnScreen(win, n)
    requires forall j :: 0 <= j < n ==> !UploadTwice(win, j)
    ensures PlacedAt(win, k)
  {
    hide RowOf, ColumnOf, UploadTwice;
    if k == 0 {
      FirstPlace(win);
    } else {
      Placed(win, n, k - 1);
      NextPlace(win, k - 1);
      NextPlace(win, k);
      assert win.y0 + RowOf(win, k) < 2048;
    }
  }

  lemma TwiceMisplaces(win: Window, n: nat, k: nat)
    requires win.w > 0 && k < n && OnScreen(win, n) && UploadTwice(win, k)
    ensures !(PlacedAt(win, k - 1) && PlacedAt(win, k))
  {
    hide RowOf, ColumnOf;
    NextPlace(win, k - 1);
    assert win.y0 + RowOf(win, k) < 2048;
  }

  /** An upload puts every pixel in its row and column exactly when no row end falls on the
      third of a doubleword that completes no pixel. */
  lemma UploadPlacedIff(win: Window, n: nat)
    requires win.w > 0 && OnScreen(win, n)
    ensures (forall k :: 0 <= k < n ==> PlacedAt(win, k)) <==> (forall k :: 0 <= k < n ==> !UploadTwice(win, k))
  {
    hide RowOf, ColumnOf, PlacedAt, OnScreen, DestX, DestY;
    if k: nat :| k < n && UploadTwice(win, k) {
      TwiceMisplaces(win, n, k);
    } else {
      forall k | 0 <= k < n ensures PlacedAt(win, k) { Placed(win, n, k); }
    }
  }

  lemma {:induction false} Taken(win: Window, n: nat, k: nat)
    requires win.w > 0 && k < n && OnScreen(win, n)
    requires forall j :: 0 <= j < n - 1 ==> !DownloadTwice(win, j)
    ensures TakenFrom(win, k)
  {
    hide RowOf, ColumnOf, DownloadTwice, SourceX, SourceY, TakenFrom;
    if k == 0 {
      FirstTaken(win);
    } else {
      Taken(win, n, k - 1);
      NextTaken(win, k - 1);
    }
  }

  lemma FirstTaken(win: Window)
    requires win.w > 0
    ensures TakenFrom(win, 0)
  {
    FirstPlace(win);
  }

  lemma SourceUnfolds(win: Window, p: nat)
    requires win.w > 0 && p > 0
    ensures SourceX(win, p) == if RowEnd(win, p) || DownloadTwice(win, p - 1) then win.x0
        else (SourceX(win, p - 1) + 1) % 2048
    ensures var y := if DownloadTwice(win, p - 1) then (SourceY(win, p - 1) + 1) % 2048 else SourceY(win, p - 1) % 2048;
      SourceY(win, p) == if !RowEnd(win, p) then y
                         else if Is24(win.format) && p % 8 != 0 then y + 1 else (y + 1) % 2048
  {
    hide DownloadTwice, RowEnd;
  }

  lemma NextTaken(win: Window, k: nat)
    requires win.w > 0 && win.x0 + win.w <= 2048
    requires win.y0 + RowOf(win, k) < 2048 && win.y0 + RowOf(win, k + 1) < 2048
    requires TakenFrom(win, k) && !DownloadTwice(win, k)
    ensures TakenFrom(win, k + 1)
  {
    hide RowOf, ColumnOf, DownloadTwice, SourceX, SourceY, RowEnd;
    SourceUnfolds(win, k + 1);
    NextPlace(win, k);
    NextPlace(win, k + 1);
  }

  lemma TwiceMistakes(win: Window, n: nat, k: nat)
    requires win.w > 0 && k + 1 < n && OnScreen(win, n) && DownloadTwice(win, k)
    ensures !(TakenFrom(win, k) && TakenFrom(win, k + 1))
  {
    hide RowOf, ColumnOf;
    NextPlace(win, k);
    assert win.y0 + RowOf(win, k) < 2048;
    assert win.y0 + RowOf(win, k + 1) < 2048;
  }

  /** A download takes every pixel from its row and column exactly when no row begins inside
      a doubleword's last pixel. */
  lemma DownloadTakenIff(win: Window, n: nat)
    requires win.w > 0 && OnScreen(win, n)
    ensures (forall k :: 0 <= k < n ==> TakenFrom(win, k)) <==> (forall k :: 0 <= k < n - 1 ==> !DownloadTwice(win, k))
  {
    hide RowOf, ColumnOf, TakenFrom, OnScreen, SourceX, SourceY;
    if k: nat :| k < n - 1 && DownloadTwice(win, k) {
      TwiceMistakes(win, n, k);
    } else {
      forall k | 0 <= k < n ensures TakenFrom(win, k) { Taken(win, n, k); }
    }
  }

  /** Widths that are multiples of four never meet either case. */
  lemma MultiplesOfFour(win: Window, k: nat)
    requires win.w > 0 && win.w % 4 == 0
    ensures !UploadTwice(win, k) && !DownloadTwice(win, k)
  {
    if k % win.w == 0 {
      var q, c := k / win.w, win.w / 4;
      assert k == q * win.w;
      assert q * (4 * c) == 4 * (q * c);
      FourTimes(q * c);
    }
  }

  lemma FourTimes(x: nat)
    ensures 4 * x % 8 == 0 || 4 * x % 8 == 4
  {
  }

  /** The first row of a narrow window that an upload begins twice, and a download. */
  function UploadRow(w: nat): nat {
    match w % 8 case 1 => 2 case 2 => 1 case 3 => 6 case 5 => 2 case 6 => 3 case _ => 6
  }

  function DownloadRow(w: nat): nat {
    match w % 8 case 1 => 2 case 2 => 1 case 3 => 6 case 5 => 1 case 6 => 3 case _ => 3
  }

  lemma RowResidue(w: nat, j: nat)
    ensures (w * j) % 8 == ((w % 8) * j) % 8
  {
    var q, r := w / 8, w % 8;
    assert w * j == (8 * q + r) * j == 8 * (q * j) + r * j;
    EightTimes(q * j, r * j);
  }

  lemma EightTimes(a: nat, b: nat)
    ensures (8 * a + b) % 8 == b % 8
  {
  }

  /** Rows before the first bad one begin at harmless pixels, and that one does not. */
  lemma FirstBadRow(w: nat, j: nat)
    requires w % 4 != 0 && 0 < j
    ensures j < UploadRow(w) ==> (w * j) % 8 != 2
    ensures (w * UploadRow(w)) % 8 == 2
    ensures j < DownloadRow(w) ==> (w * j) % 8 != 2 && (w * j) % 8 != 5
    ensures (w * DownloadRow(w)) % 8 == 2 || (w * DownloadRow(w)) % 8 == 5
  {
    hide UploadRow, DownloadRow;
    ByResidue(w);
    RowResidue(w, UploadRow(w));
    RowResidue(w, DownloadRow(w));
    BadRows(w % 8);
    if j < 6 {
      RowResidue(w, j);
      SmallRows(w % 8, j);
    }
  }

  lemma ByResidue(w: nat)
    ensures UploadRow(w) == UploadRow(w % 8) <= 6 && DownloadRow(w) == DownloadRow(w % 8) <= 6
  {
  }

  lemma BadRows(r: nat)
    requires r < 8 && r % 4 != 0
    ensures (r * UploadRow(r)) % 8 == 2
    ensures (r * DownloadRow(r)) % 8 == 2 || (r * DownloadRow(r)) % 8 == 5
  {
    assert r == 1 || r == 2 || r == 3 || r == 5 || r == 6 || r == 7;
  }

  lemma SmallRows(r: nat, j: nat)
    requires r < 8 && r % 4 != 0 && 0 < j < 6
    ensures j < UploadRow(r) ==> (r * j) % 8 != 2
    ensures j < DownloadRow(r) ==> (r * j) % 8 != 2 && (r * j) % 8 != 5
  {
    assert r == 1 || r == 2 || r == 3 || r == 5 || r == 6 || r == 7;
    assert j == 1 || j == 2 || j == 3 || j == 4 || j == 5;
  }

  lemma RowBegins(win: Window, j: nat)
    requires win.w > 0
    ensures RowEnd(win, win.w * j)
  {
    Quotient(win.w * j, j, 0, win.w);
  }

  lemma RowNumber(win: Window, k: nat) returns (j: nat)
    requires win.w > 0 && k > 0 && RowEnd(win, k)
    ensures k == win.w * j && j > 0
  {
    j := k / win.w;
    assert k == j * win.w;
  }

  /** No row of an upload ends twice exactly when the width is a multiple of four, or the
      window ends before the first bad row. */
  lemma UploadStraightIff(win: Window, n: nat)
    requires win.w > 0 && Is24(win.format)
    ensures (forall k :: 0 <= k < n ==> !UploadTwice(win, k)) <==> win.w % 4 == 0 || n <= win.w * UploadRow(win.w)
  {
    hide UploadRow, DownloadRow, RowEnd;
    if win.w % 4 == 0 {
      forall k | 0 <= k < n ensures !UploadTwice(win, k) { MultiplesOfFour(win, k); }
    } else if n <= win.w * UploadRow(win.w) {
      forall k | 0 <= k < n ensures !UploadTwice(win, k) {
        if k > 0 && RowEnd(win, k) {
          var j := RowNumber(win, k);
          MulMonotone(UploadRow(win.w), j, win.w);
          FirstBadRow(win.w, j);
        }
      }
    } else {
      FirstBadRow(win.w, 1);
      RowBegins(win, UploadRow(win.w));
      assert UploadTwice(win, win.w * UploadRow(win.w));
    }
  }

  lemma DownloadStraightIff(win: Window, n: nat)
    requires win.w > 0 && Is24(win.format)
    ensures (forall k :: 0 <= k < n - 1 ==> !DownloadTwice(win, k))
      <==> (win.w % 4 == 0 || n <= win.w * DownloadRow(win.w) + 1)
  {
    hide UploadRow, DownloadRow, RowEnd;
    if win.w % 4 == 0 {
      forall k | 0 <= k < n - 1 ensures !DownloadTwice(win, k) { MultiplesOfFour(win, k); }
    } else if n <= win.w * DownloadRow(win.w) + 1 {
      forall k | 0 <= k < n - 1 ensures !DownloadTwice(win, k) {
        if k > 0 && RowEnd(win, k) {
          var j := RowNumber(win, k);
          MulMonotone(DownloadRow(win.w), j, win.w);
          FirstBadRow(win.w, j);
        }
      }
    } else {
      FirstBadRow(win.w, 1);
      RowBegins(win, DownloadRow(win.w));
      assert DownloadTwice(win, win.w * DownloadRow(win.w));
    }
  }

  /** A 24-bit rectangle two pixels wide: the second row goes to, and comes from, the wrong
      place. */
  lemma TwoPixelsWide(b: Buffer)
    ensures var win := Window(CT24, b, 0, 0, 2, 8);
      && RowOf(win, 2) == 1 && DestY(win, 2) == 2
      && ColumnOf(win, 3) == 1 && SourceX(win, 3) == 0 && RowOf(win, 3) == 1 && SourceY(win, 3) == 2
  {
    var win := Window(CT24, b, 0, 0, 2, 8);
    assert DestY(win, 1) == 0;
    assert SourceY(win, 1) == 0;
    assert SourceY(win, 2) == 1;
  }

  /** Nibbles of a byte go to the columns they came from exactly when rows start at even
      columns. */
  lemma NibblesPlacedIff(win: Window, n: nat)
    requires win.w > 0 && n > 0 && forall k :: 0 <= k < n ==> PlacedAt(win, k)
    ensures (forall k :: 0 <= k < n ==> NibbleOf(k, DestX(win, k)) == k)
      <==> (win.x0 % 2 == 0 && (win.w % 2 == 0 || n <= win.w))
  {
    hide DestX, DestY, ColumnOf, RowOf;
    assert PlacedAt(win, 0);
    FirstPlace(win);
    if win.x0 % 2 == 1 {
      assert NibbleOf(0, DestX(win, 0)) == 1;
    } else if n > win.w && win.w % 2 == 1 {
      assert PlacedAt(win, win.w);
      RowStart(win);
      assert NibbleOf(win.w, DestX(win, win.w)) == win.w - 1;
    } else {
      forall k | 0 <= k < n ensures NibbleOf(k, DestX(win, k)) == k {
        assert PlacedAt(win, k);
        ColumnParity(win, k, n);
      }
    }
  }

  lemma RowStart(win: Window)
    requires win.w > 0
    ensures ColumnOf(win, win.w) == 0
  {
  }

  lemma ColumnParity(win: Window, k: nat, n: nat)
    requires win.w > 0 && k < n && (win.w % 2 == 0 || n <= win.w)
    ensures ColumnOf(win, k) % 2 == k % 2
  {
    if n <= win.w {
      Quotient(k, 0, k, win.w);
    } else {
      var q, c := k / win.w, win.w / 2;
      assert k == q * win.w + k % win.w;
      assert q * (2 * c) == 2 * (q * c);
    }
  }

  // ----- what an upload leaves, and what a download brings back

  /** The first n pixels of the window are on screen and inside the buffer. */
  ghost predicate Fits(win: Window, n: nat)
    requires win.w > 0
  {
    && OnScreen(win, n)
    && forall k: nat :: k < n ==>
      Inside(LayoutOf(win.format), win.buffer, win.x0 + ColumnOf(win, k), win.y0 + RowOf(win, k))
  }

  function CellOf(win: Window, k: nat): nat
    requires win.w > 0
  {
    At(win.format, win.buffer, DestX(win, k), DestY(win, k))
  }

  lemma ValueRead(m: seq<Byte>, win: Window, s: seq<Dword>, k: nat)
    requires |m| == MEMORY_SIZE && win.w > 0 && Start(win.format, k + 1) <= 16 * |s|
    ensures Pixel(Uploaded(m, win, s, k + 1), win.format, win.buffer, DestX(win, k), DestY(win, k))
        == ValueOf(win, s, k)
  {
    hide Pixel, SetPixel, DestX, DestY, ValueOf, At;
    PixelWritten(Uploaded(m, win, s, k), win.format, win.buffer, DestX(win, k), DestY(win, k), ValueOf(win, s, k));
  }

  lemma CellsApart(win: Window, n: nat, j: nat, k: nat)
    requires win.w > 0 && j < n && k < n && j != k && Fits(win, n)
    requires PlacedAt(win, j) && PlacedAt(win, k)
    ensures Inside(LayoutOf(win.format), win.buffer, DestX(win, j), DestY(win, j))
    ensures Inside(LayoutOf(win.format), win.buffer, DestX(win, k), DestY(win, k))
    ensures !(DestX(win, j) == DestX(win, k) && DestY(win, j) == DestY(win, k))
  {
    hide ColumnOf, RowOf, DestX, DestY, Inside, OnScreen;
    if ColumnOf(win, j) == ColumnOf(win, k) && RowOf(win, j) == RowOf(win, k) {
      DistinctPlaces(win, j, k);
    }
  }

  /** Every pixel of an upload that keeps to its rows and columns reads back as sent. */
  lemma {:induction false} UploadedReads(m: seq<Byte>, win: Window, s: seq<Dword>, n: nat, k: nat)
    requires |m| == MEMORY_SIZE && win.w > 0 && k < n && Start(win.format, n) <= 16 * |s|
    requires Fits(win, n) && forall j :: 0 <= j < n ==> PlacedAt(win, j)
    ensures Start(win.format, k + 1) <= Start(win.format, n)
    ensures Pixel(Uploaded(m, win, s, n), win.format, win.buffer, DestX(win, k), DestY(win, k)) == ValueOf(win, s, k)
    decreases n
  {
    hide PlacedAt, Pixel, SetPixel, DestX, DestY, ValueOf, ColumnOf, RowOf, Inside, LayoutOf, Low;
    if k == n - 1 {
      ValueRead(m, win, s, k);
    } else {
      UploadedReads(m, win, s, n - 1, k);
      CellsApart(win, n, n - 1, k);
      PixelKept(Uploaded(m, win, s, n - 1), win.format, win.buffer, DestX(win, n - 1), DestY(win, n - 1),
        ValueOf(win, s, n - 1), win.format, DestX(win, k), DestY(win, k));
    }
  }

  /** An upload changes no nibble outside the pixels it writes. */
  lemma {:induction false} UploadedKeeps(m: seq<Byte>, win: Window, s: seq<Dword>, n: nat, i: nat)
    requires |m| == MEMORY_SIZE && win.w > 0 && Start(win.format, n) <= 16 * |s| && i < 2 * MEMORY_SIZE
    requires forall k :: 0 <= k < n ==> !(CellOf(win, k) <= i < CellOf(win, k) + Nibbles(win.format))
    ensures Nib(Uploaded(m, win, s, n), i) == Nib(m, i)
    decreases n
  {
    hide Nib, At, DestX, DestY, ValueOf, SetField, Digit;
    if n > 0 {
      UploadedKeeps(m, win, s, n - 1, i);
      assert !(CellOf(win, n - 1) <= i < CellOf(win, n - 1) + Nibbles(win.format));
      SetFieldIs(Uploaded(m, win, s, n - 1), CellOf(win, n - 1), Nibbles(win.format), ValueOf(win, s, n - 1));
    }
  }

  /** The stream that is downloaded after an upload of n pixels to the same place carries the
      same pixels. */
  lemma PixelReturns(m: seq<Byte>, win: Window, s: seq<Dword>, n: nat, out: seq<Dword>, k: nat)
    requires |m| == MEMORY_SIZE && win.w > 0 && k < n && Start(win.format, n) <= 16 * |s|
    requires Fits(win, n) && forall j :: 0 <= j < n ==> PlacedAt(win, j) && TakenFrom(win, j)
    requires win.format.CT4? ==> win.x0 % 2 == 0 && (win.w % 2 == 0 || n <= win.w)
    requires Downloaded(Uploaded(m, win, s, n), win, out) && Carried(win, |out|, k)
    ensures Start(win.format, k) + Nibbles(win.format) <= 16 * |s|
    ensures Start(win.format, k) + Nibbles(win.format) <= 16 * |out|
    ensures Take(out, Start(win.format, k), Nibbles(win.format)) == Take(s, Start(win.format, k), Nibbles(win.format))
  {
    hide DestX, DestY, SourceX, SourceY, Take, Pixel, Fits, ValueOf, Uploaded, Start, Nibbles, PlacedAt, TakenFrom;
    StartNext(win.format, k);
    UploadedReads(m, win, s, n, k);
    SamePlace(win, k);
    ValueIsTaken(win, s, n, k);
  }

  lemma SamePlace(win: Window, k: nat)
    requires win.w > 0 && PlacedAt(win, k) && TakenFrom(win, k)
    ensures DestX(win, k) == SourceX(win, k) && DestY(win, k) == SourceY(win, k)
  {
    hide DestX, DestY, SourceX, SourceY;
  }

  lemma ValueIsTaken(win: Window, s: seq<Dword>, n: nat, k: nat)
    requires win.w > 0 && k < n && Start(win.format, k + 1) <= 16 * |s| && forall j :: 0 <= j < n ==> PlacedAt(win, j)
    requires win.format.CT4? ==> win.x0 % 2 == 0 && (win.w % 2 == 0 || n <= win.w)
    ensures Start(win.format, k) + Nibbles(win.format) <= 16 * |s|
    ensures ValueOf(win, s, k) == Take(s, Start(win.format, k), Nibbles(win.format))
  {
    hide DestX, DestY, Take, NibbleOf, PlacedAt;
    StartNext(win.format, k);
    if win.format.CT4? {
      NibblesPlacedIff(win, n);
      assert NibbleOf(k, DestX(win, k)) == k;
      OneTaken(s, k);
    }
  }

  lemma OneTaken(s: seq<Dword>, k: nat)
    requires k < 16 * |s|
    ensures Take(s, k, 1) == Nth(s, k)
  {
    hide Nth;
    assert Take(s, k + 1, 0) == 0;
  }

  // ----- streams are known by their pixels

  lemma {:induction false} SameDword(d: nat, e: nat)
    requires d < 0x1_0000_0000_0000_0000 && e < 0x1_0000_0000_0000_0000
    requires forall j :: 0 <= j < 16 ==> Digit(d, j) == Digit(e, j)
    ensures d == e
  {
    PowerOf16();
    DigitsDetermine(d, e, 16);
  }

  lemma PowerOf16()
    ensures Pow16(16) == 0x1_0000_0000_0000_0000
  {
    Powers();
    assert Pow16(9) == 0x10_0000_0000;
    assert Pow16(10) == 0x100_0000_0000;
    assert Pow16(11) == 0x1000_0000_0000;
    assert Pow16(12) == 0x1_0000_0000_0000;
    assert Pow16(13) == 0x10_0000_0000_0000;
    assert Pow16(14) == 0x100_0000_0000_0000;
    assert Pow16(15) == 0x1000_0000_0000_0000;
  }

  /** The first n nibbles of two streams are the same. */
  ghost predicate Same(s: seq<Dword>, t: seq<Dword>, n: nat) {
    n <= 16 * |s| && n <= 16 * |t| && forall j :: 0 <= j < n ==> Nth(s, j) == Nth(t, j)
  }

  lemma NibblesDetermineStream(s: seq<Dword>, t: seq<Dword>)
    requires Same(s, t, 16 * |s|)
    ensures |s| <= |t| && t[..|s|] == s
  {
    hide Digit;
    forall i | 0 <= i < |s| ensures s[i] == t[i] {
      forall j | 0 <= j < 16 ensures Digit(s[i], j) == Digit(t[i], j) {
        assert Nth(s, 16 * i + j) == Nth(t, 16 * i + j);
        assert (16 * i + j) / 16 == i && (16 * i + j) % 16 == j;
      }
      SameDword(s[i], t[i]);
    }
  }

  /** The pixel a nibble belongs to. */
  function PixelWith(f: Format, j: nat): nat {
    match Nibbles(f) case 8 => j / 8 case 6 => j / 6 case 4 => j / 4 case 2 => j / 2 case _ => j
  }

  lemma NibbleInPixel(f: Format, j: nat, n: nat)
    ensures j < Start(f, n) ==> PixelWith(f, j) < n
    ensures Start(f, PixelWith(f, j)) <= j < Start(f, PixelWith(f, j)) + Nibbles(f)
  {
  }

  lemma PixelsDetermineNibbles(f: Format, s: seq<Dword>, t: seq<Dword>, n: nat)
    requires Start(f, n) <= 16 * |s| && Start(f, n) <= 16 * |t|
    requires forall k: nat :: k < n ==> Start(f, k) + Nibbles(f) <= 16 * |s| && Start(f, k) + Nibbles(f) <= 16 * |t|
    requires forall k: nat :: k < n ==> Take(s, Start(f, k), Nibbles(f)) == Take(t, Start(f, k), Nibbles(f))
    ensures Same(s, t, Start(f, n))
  {
    hide Nth, Take, Digit, Start, Nibbles, PixelWith;
    forall j | 0 <= j < Start(f, n) ensures Nth(s, j) == Nth(t, j) {
      var k := PixelWith(f, j);
      NibbleInPixel(f, j, n);
      assert Take(s, Start(f, k), Nibbles(f)) == Take(t, Start(f, k), Nibbles(f));
      TakeDigit(s, Start(f, k), Nibbles(f), j - Start(f, k));
      TakeDigit(t, Start(f, k), Nibbles(f), j - Start(f, k));
    }
  }

  /** The first n pixels of the window go where they belong and come back from there. For
      24-bit pixels no row may begin inside a doubleword's last pixel; for 4-bit pixels rows
      begin at even columns. */
  ghost predicate Faithful(win: Window, n: nat)
    requires win.w > 0
  {
    && Fits(win, n)
    && (forall k :: 0 <= k < n ==> !UploadTwice(win, k) && !DownloadTwice(win, k))
    && (win.format.CT4? ==> win.x0 % 2 == 0 && (win.w % 2 == 0 || n <= win.w))
  }

  /** After an upload of n pixels, the first r pixels of a download hold the nibbles that were
      sent. */
  lemma StreamReturns(m: seq<Byte>, win: Window, s: seq<Dword>, n: nat, out: seq<Dword>, r: nat)
    requires |m| == MEMORY_SIZE && win.w > 0 && r <= n && Start(win.format, n) <= 16 * |s| && Faithful(win, n)
    requires Start(win.format, r) <= 16 * |out| && (Is24(win.format) ==> r <= PixelCount(win))
    requires Downloaded(Uploaded(m, win, s, n), win, out)
    ensures Same(s, out, Start(win.format, r))
  {
    hide DestX, DestY, SourceX, SourceY, ColumnOf, RowOf, Take, Uploaded, Fits, Downloaded, Start, Nibbles, UploadTwice,
      DownloadTwice, PlacedAt, TakenFrom, Is24, PixelCount, Same;
    forall j | 0 <= j < n ensures PlacedAt(win, j) && TakenFrom(win, j) {
      FitsOnScreen(win, n);
      Placed(win, n, j);
      Taken(win, n, j);
    }
    StartMonotone(win.format, r, n);
    forall k: nat | k < r
      ensures Start(win.format, k) + Nibbles(win.format) <= 16 * |s|
      ensures Start(win.format, k) + Nibbles(win.format) <= 16 * |out|
      ensures Take(s, Start(win.format, k), Nibbles(win.format)) == Take(out, Start(win.format, k), Nibbles(win.format))
    {
      StartNext(win.format, k);
      StartMonotone(win.format, k + 1, r);
      PixelReturns(m, win, s, n, out, k);
    }
    PixelsDetermineNibbles(win.format, s, out, r);
  }

  lemma FitsOnScreen(win: Window, n: nat)
    requires win.w > 0 && Fits(win, n)
    ensures OnScreen(win, n)
  {
    hide OnScreen;
  }

  lemma StartMonotone(f: Format, a: nat, b: nat)
    requires a <= b
    ensures Start(f, a) <= Start(f, b)
  {
  }
}