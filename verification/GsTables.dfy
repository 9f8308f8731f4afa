/** The block and column tables of GS video memory (gsmem.cpp), entry by entry.

    Every table permutes address bits, some of them inverted or added to each other; that is
    what `...Bits` says and what makes two different positions have two different entries. */
module GsTables {

  function N(b: bool): nat { if b then 1 else 0 }

  function Pick4(i: nat, a: nat, b: nat, c: nat, d: nat): nat {
    if i == 0 then a else if i == 1 then b else if i == 2 then c else d
  }

  function Pick8(i: nat, a: nat, b: nat, c: nat, d: nat, e: nat, f: nat, g: nat, h: nat): nat {
    if i < 4 then Pick4(i, a, b, c, d) else Pick4(i - 4, e, f, g, h)
  }

  // ----- binary digits

  lemma Binary2(x: nat) returns (x1: bool, x0: bool)
    requires x < 4
    ensures x == 2 * N(x1) + N(x0)
  {
    var r := x;
    x1 := r >= 2;
    r := r - 2 * N(x1);
    x0 := r >= 1;
  }

  lemma Binary3(x: nat) returns (x2: bool, x1: bool, x0: bool)
    requires x < 8
    ensures x == 4 * N(x2) + 2 * N(x1) + N(x0)
  {
    var r := x;
    x2 := r >= 4;
    r := r - 4 * N(x2);
    x1 := r >= 2;
    r := r - 2 * N(x1);
    x0 := r >= 1;
  }

  lemma Binary4(x: nat) returns (x3: bool, x2: bool, x1: bool, x0: bool)
    requires x < 16
    ensures x == 8 * N(x3) + 4 * N(x2) + 2 * N(x1) + N(x0)
  {
    var r := x;
    x3 := r >= 8;
    r := r - 8 * N(x3);
    x2 := r >= 4;
    r := r - 4 * N(x2);
    x1 := r >= 2;
    r := r - 2 * N(x1);
    x0 := r >= 1;
  }

  lemma Binary5(x: nat) returns (x4: bool, x3: bool, x2: bool, x1: bool, x0: bool)
    requires x < 32
    ensures x == 16 * N(x4) + 8 * N(x3) + 4 * N(x2) + 2 * N(x1) + N(x0)
  {
    var r := x;
    x4 := r >= 16;
    r := r - 16 * N(x4);
    x3 := r >= 8;
    r := r - 8 * N(x3);
    x2 := r >= 4;
    r := r - 4 * N(x2);
    x1 := r >= 2;
    r := r - 2 * N(x1);
    x0 := r >= 1;
  }

  lemma TopDigit(w: nat, a: bool, r: nat, b: bool, q: nat)
    requires r < w && q < w && w * N(a) + r == w * N(b) + q
    ensures N(a) == N(b) && r == q
  {
  }

  lemma Digits5(a4: bool, a3: bool, a2: bool, a1: bool, a0: bool, b4: bool, b3: bool, b2: bool, b1: bool, b0: bool)
    requires 16 * N(a4) + 8 * N(a3) + 4 * N(a2) + 2 * N(a1) + N(a0)
          == 16 * N(b4) + 8 * N(b3) + 4 * N(b2) + 2 * N(b1) + N(b0)
    ensures N(a4) == N(b4) && N(a3) == N(b3) && N(a2) == N(b2) && N(a1) == N(b1) && N(a0) == N(b0)
  {
    TopDigit(16, a4, 8 * N(a3) + 4 * N(a2) + 2 * N(a1) + N(a0), b4, 8 * N(b3) + 4 * N(b2) + 2 * N(b1) + N(b0));
  }

  lemma Digits6(a5: bool, a4: bool, a3: bool, a2: bool, a1: bool, a0: bool, b5: bool, b4: bool, b3: bool, b2: bool,
          b1: bool, b0: bool)
    requires 32 * N(a5) + 16 * N(a4) + 8 * N(a3) + 4 * N(a2) + 2 * N(a1) + N(a0)
          == 32 * N(b5) + 16 * N(b4) + 8 * N(b3) + 4 * N(b2) + 2 * N(b1) + N(b0)
    ensures N(a5) == N(b5) && N(a4) == N(b4) && N(a3) == N(b3) && N(a2) == N(b2) && N(a1) == N(b1) && N(a0) == N(b0)
  {
    TopDigit(32, a5, 16 * N(a4) + 8 * N(a3) + 4 * N(a2) + 2 * N(a1) + N(a0), b5,
        16 * N(b4) + 8 * N(b3) + 4 * N(b2) + 2 * N(b1) + N(b0));
    Digits5(a4, a3, a2, a1, a0, b4, b3, b2, b1, b0);
  }

  lemma Digits7(a6: bool, a5: bool, a4: bool, a3: bool, a2: bool, a1: bool, a0: bool, b6: bool, b5: bool, b4: bool,
          b3: bool, b2: bool, b1: bool, b0: bool)
    requires 64 * N(a6) + 32 * N(a5) + 16 * N(a4) + 8 * N(a3) + 4 * N(a2) + 2 * N(a1) + N(a0)
          == 64 * N(b6) + 32 * N(b5) + 16 * N(b4) + 8 * N(b3) + 4 * N(b2) + 2 * N(b1) + N(b0)
    ensures N(a6) == N(b6) && N(a5) == N(b5) && N(a4) == N(b4) && N(a3) == N(b3) && N(a2) == N(b2) && N(a1) == N(b1)
        && N(a0) == N(b0)
  {
    TopDigit(64, a6, 32 * N(a5) + 16 * N(a4) + 8 * N(a3) + 4 * N(a2) + 2 * N(a1) + N(a0), b6,
        32 * N(b5) + 16 * N(b4) + 8 * N(b3) + 4 * N(b2) + 2 * N(b1) + N(b0));
    Digits6(a5, a4, a3, a2, a1, a0, b5, b4, b3, b2, b1, b0);
  }

  lemma Digits8(a7: bool, a6: bool, a5: bool, a4: bool, a3: bool, a2: bool, a1: bool, a0: bool, b7: bool, b6: bool,
          b5: bool, b4: bool, b3: bool, b2: bool, b1: bool, b0: bool)
    requires 128 * N(a7) + 64 * N(a6) + 32 * N(a5) + 16 * N(a4) + 8 * N(a3) + 4 * N(a2) + 2 * N(a1) + N(a0)
          == 128 * N(b7) + 64 * N(b6) + 32 * N(b5) + 16 * N(b4) + 8 * N(b3) + 4 * N(b2) + 2 * N(b1) + N(b0)
    ensures N(a7) == N(b7) && N(a6) == N(b6) && N(a5) == N(b5) && N(a4) == N(b4) && N(a3) == N(b3) && N(a2) == N(b2)
        && N(a1) == N(b1) && N(a0) == N(b0)
  {
    TopDigit(128, a7, 64 * N(a6) + 32 * N(a5) + 16 * N(a4) + 8 * N(a3) + 4 * N(a2) + 2 * N(a1) + N(a0), b7,
        64 * N(b6) + 32 * N(b5) + 16 * N(b4) + 8 * N(b3) + 4 * N(b2) + 2 * N(b1) + N(b0));
    Digits7(a6, a5, a4, a3, a2, a1, a0, b6, b5, b4, b3, b2, b1, b0);
  }

  lemma Digits9(a8: bool, a7: bool, a6: bool, a5: bool, a4: bool, a3: bool, a2: bool, a1: bool, a0: bool, b8: bool,
          b7: bool, b6: bool, b5: bool, b4: bool, b3: bool, b2: bool, b1: bool, b0: bool)
    requires 256 * N(a8) + 128 * N(a7) + 64 * N(a6) + 32 * N(a5) + 16 * N(a4) + 8 * N(a3) + 4 * N(a2) + 2 * N(a1)
        + N(a0)
          == 256 * N(b8) + 128 * N(b7) + 64 * N(b6) + 32 * N(b5) + 16 * N(b4) + 8 * N(b3) + 4 * N(b2) + 2 * N(b1)
              + N(b0)
    ensures N(a8) == N(b8) && N(a7) == N(b7) && N(a6) == N(b6) && N(a5) == N(b5) && N(a4) == N(b4) && N(a3) == N(b3)
        && N(a2) == N(b2) && N(a1) == N(b1) && N(a0) == N(b0)
  {
    TopDigit(256, a8, 128 * N(a7) + 64 * N(a6) + 32 * N(a5) + 16 * N(a4) + 8 * N(a3) + 4 * N(a2) + 2 * N(a1) + N(a0),
        b8, 128 * N(b7) + 64 * N(b6) + 32 * N(b5) + 16 * N(b4) + 8 * N(b3) + 4 * N(b2) + 2 * N(b1) + N(b0));
    Digits8(a7, a6, a5, a4, a3, a2, a1, a0, b7, b6, b5, b4, b3, b2, b1, b0);
  }

  lemma AddedDigit(a: bool, b: bool, c: bool, d: bool, e: bool, f: bool)
    requires N((a != b) != c) == N((d != e) != f) && N(b) == N(e) && N(c) == N(f)
    ensures N(a) == N(d)
  {
  }

  lemma InvertedDigit(a: bool, b: bool)
    requires N(!a) == N(!b)
    ensures N(a) == N(b)
  {
  }

  // ----- the tables

  /** blockTable32 (blockTable8 has the same entries) */
  function Block32(y: nat, x: nat): nat {
    if y == 0 then Pick8(x, 0, 1, 4, 5, 16, 17, 20, 21)
    else if y == 1 then Pick8(x, 2, 3, 6, 7, 18, 19, 22, 23)
    else if y == 2 then Pick8(x, 8, 9, 12, 13, 24, 25, 28, 29)
    else Pick8(x, 10, 11, 14, 15, 26, 27, 30, 31)
  }

  function Block32Bits(y1: bool, y0: bool, x2: bool, x1: bool, x0: bool): nat {
    16 * N(x2) + 8 * N(y1) + 4 * N(x1) + 2 * N(y0) + N(x0)
  }

  lemma Block32IsBits(y1: bool, y0: bool, x2: bool, x1: bool, x0: bool)
    ensures Block32(2 * N(y1) + N(y0), 4 * N(x2) + 2 * N(x1) + N(x0)) == Block32Bits(y1, y0, x2, x1, x0)
  {
  }

  /** blockTable32Z */
  function Block32Z(y: nat, x: nat): nat {
    if y == 0 then Pick8(x, 24, 25, 28, 29, 8, 9, 12, 13)
    else if y == 1 then Pick8(x, 26, 27, 30, 31, 10, 11, 14, 15)
    else if y == 2 then Pick8(x, 16, 17, 20, 21, 0, 1, 4, 5)
    else Pick8(x, 18, 19, 22, 23, 2, 3, 6, 7)
  }

  function Block32ZBits(y1: bool, y0: bool, x2: bool, x1: bool, x0: bool): nat {
    16 * N(!x2) + 8 * N(!y1) + 4 * N(x1) + 2 * N(y0) + N(x0)
  }

  lemma Block32ZIsBits(y1: bool, y0: bool, x2: bool, x1: bool, x0: bool)
    ensures Block32Z(2 * N(y1) + N(y0), 4 * N(x2) + 2 * N(x1) + N(x0)) == Block32ZBits(y1, y0, x2, x1, x0)
  {
  }

  /** blockTable16 (blockTable4 has the same entries) */
  function Block16(y: nat, x: nat): nat {
    if y == 0 then Pick4(x, 0, 2, 8, 10)
    else if y == 1 then Pick4(x, 1, 3, 9, 11)
    else if y == 2 then Pick4(x, 4, 6, 12, 14)
    else if y == 3 then Pick4(x, 5, 7, 13, 15)
    else if y == 4 then Pick4(x, 16, 18, 24, 26)
    else if y == 5 then Pick4(x, 17, 19, 25, 27)
    else if y == 6 then Pick4(x, 20, 22, 28, 30)
    else Pick4(x, 21, 23, 29, 31)
  }

  function Block16Bits(y2: bool, y1: bool, y0: bool, x1: bool, x0: bool): nat {
    16 * N(y2) + 8 * N(x1) + 4 * N(y1) + 2 * N(x0) + N(y0)
  }

  lemma Block16IsBits(y2: bool, y1: bool, y0: bool, x1: bool, x0: bool)
    ensures Block16(4 * N(y2) + 2 * N(y1) + N(y0), 2 * N(x1) + N(x0)) == Block16Bits(y2, y1, y0, x1, x0)
  {
  }

  /** blockTable16S */
  function Block16S(y: nat, x: nat): nat {
    if y == 0 then Pick4(x, 0, 2, 16, 18)
    else if y == 1 then Pick4(x, 1, 3, 17, 19)
    else if y == 2 then Pick4(x, 8, 10, 24, 26)
    else if y == 3 then Pick4(x, 9, 11, 25, 27)
    else if y == 4 then Pick4(x, 4, 6, 20, 22)
    else if y == 5 then Pick4(x, 5, 7, 21, 23)
    else if y == 6 then Pick4(x, 12, 14, 28, 30)
    else Pick4(x, 13, 15, 29, 31)
  }

  function Block16SBits(y2: bool, y1: bool, y0: bool, x1: bool, x0: bool): nat {
    16 * N(x1) + 8 * N(y1) + 4 * N(y2) + 2 * N(x0) + N(y0)
  }

  lemma Block16SIsBits(y2: bool, y1: bool, y0: bool, x1: bool, x0: bool)
    ensures Block16S(4 * N(y2) + 2 * N(y1) + N(y0), 2 * N(x1) + N(x0)) == Block16SBits(y2, y1, y0, x1, x0)
  {
  }

  /** blockTable16Z */
  function Block16Z(y: nat, x: nat): nat {
    if y == 0 then Pick4(x, 24, 26, 16, 18)
    else if y == 1 then Pick4(x, 25, 27, 17, 19)
    else if y == 2 then Pick4(x, 28, 30, 20, 22)
    else if y == 3 then Pick4(x, 29, 31, 21, 23)
    else if y == 4 then Pick4(x, 8, 10, 0, 2)
    else if y == 5 then Pick4(x, 9, 11, 1, 3)
    else if y == 6 then Pick4(x, 12, 14, 4, 6)
    else Pick4(x, 13, 15, 5, 7)
  }

  function Block16ZBits(y2: bool, y1: bool, y0: bool, x1: bool, x0: bool): nat {
    16 * N(!y2) + 8 * N(!x1) + 4 * N(y1) + 2 * N(x0) + N(y0)
  }

  lemma Block16ZIsBits(y2: bool, y1: bool, y0: bool, x1: bool, x0: bool)
    ensures Block16Z(4 * N(y2) + 2 * N(y1) + N(y0), 2 * N(x1) + N(x0)) == Block16ZBits(y2, y1, y0, x1, x0)
  {
  }

  /** blockTable16SZ */
  function Block16SZ(y: nat, x: nat): nat {
    if y == 0 then Pick4(x, 24, 26, 8, 10)
    else if y == 1 then Pick4(x, 25, 27, 9, 11)
    else if y == 2 then Pick4(x, 16, 18, 0, 2)
    else if y == 3 then Pick4(x, 17, 19, 1, 3)
    else if y == 4 then Pick4(x, 28, 30, 12, 14)
    else if y == 5 then Pick4(x, 29, 31, 13, 15)
    else if y == 6 then Pick4(x, 20, 22, 4, 6)
    else Pick4(x, 21, 23, 5, 7)
  }

  function Block16SZBits(y2: bool, y1: bool, y0: bool, x1: bool, x0: bool): nat {
    16 * N(!x1) + 8 * N(!y1) + 4 * N(y2) + 2 * N(x0) + N(y0)
  }

  lemma Block16SZIsBits(y2: bool, y1: bool, y0: bool, x1: bool, x0: bool)
    ensures Block16SZ(4 * N(y2) + 2 * N(y1) + N(y0), 2 * N(x1) + N(x0)) == Block16SZBits(y2, y1, y0, x1, x0)
  {
  }

  /** columnTable32 */
  function Column32(y: nat, x: nat): nat {
    if y == 0 then Pick8(x, 0, 1, 4, 5, 8, 9, 12, 13)
    else if y == 1 then Pick8(x, 2, 3, 6, 7, 10, 11, 14, 15)
    else if y == 2 then Pick8(x, 16, 17, 20, 21, 24, 25, 28, 29)
    else if y == 3 then Pick8(x, 18, 19, 22, 23, 26, 27, 30, 31)
    else if y == 4 then Pick8(x, 32, 33, 36, 37, 40, 41, 44, 45)
    else if y == 5 then Pick8(x, 34, 35, 38, 39, 42, 43, 46, 47)
    else if y == 6 then Pick8(x, 48, 49, 52, 53, 56, 57, 60, 61)
    else Pick8(x, 50, 51, 54, 55, 58, 59, 62, 63)
  }

  function Column32Bits(y2: bool, y1: bool, y0: bool, x2: bool, x1: bool, x0: bool): nat {
    32 * N(y2) + 16 * N(y1) + 8 * N(x2) + 4 * N(x1) + 2 * N(y0) + N(x0)
  }

  lemma Column32IsBits(y2: bool, y1: bool, y0: bool, x2: bool, x1: bool, x0: bool)
    ensures Column32(4 * N(y2) + 2 * N(y1) + N(y0), 4 * N(x2) + 2 * N(x1) + N(x0))
        == Column32Bits(y2, y1, y0, x2, x1, x0)
  {
  }

  /** columnTable16 */
  function Column16Row0(x: nat): nat {
    if x < 8 then Pick8(x, 0, 2, 8, 10, 16, 18, 24, 26)
    else Pick8(x - 8, 1, 3, 9, 11, 17, 19, 25, 27)
  }

  function Column16Row1(x: nat): nat {
    if x < 8 then Pick8(x, 4, 6, 12, 14, 20, 22, 28, 30)
    else Pick8(x - 8, 5, 7, 13, 15, 21, 23, 29, 31)
  }

  function Column16Row2(x: nat): nat {
    if x < 8 then Pick8(x, 32, 34, 40, 42, 48, 50, 56, 58)
    else Pick8(x - 8, 33, 35, 41, 43, 49, 51, 57, 59)
  }

  function Column16Row3(x: nat): nat {
    if x < 8 then Pick8(x, 36, 38, 44, 46, 52, 54, 60, 62)
    else Pick8(x - 8, 37, 39, 45, 47, 53, 55, 61, 63)
  }

  function Column16Row4(x: nat): nat {
    if x < 8 then Pick8(x, 64, 66, 72, 74, 80, 82, 88, 90)
    else Pick8(x - 8, 65, 67, 73, 75, 81, 83, 89, 91)
  }

  function Column16Row5(x: nat): nat {
    if x < 8 then Pick8(x, 68, 70, 76, 78, 84, 86, 92, 94)
    else Pick8(x - 8, 69, 71, 77, 79, 85, 87, 93, 95)
  }

  function Column16Row6(x: nat): nat {
    if x < 8 then Pick8(x, 96, 98, 104, 106, 112, 114, 120, 122)
    else Pick8(x - 8, 97, 99, 105, 107, 113, 115, 121, 123)
  }

  function Column16Row7(x: nat): nat {
    if x < 8 then Pick8(x, 100, 102, 108, 110, 116, 118, 124, 126)
    else Pick8(x - 8, 101, 103, 109, 111, 117, 119, 125, 127)
  }

  function Column16(y: nat, x: nat): nat {
    if y == 0 then Column16Row0(x)
    else if y == 1 then Column16Row1(x)
    else if y == 2 then Column16Row2(x)
    else if y == 3 then Column16Row3(x)
    else if y == 4 then Column16Row4(x)
    else if y == 5 then Column16Row5(x)
    else if y == 6 then Column16Row6(x)
    else Column16Row7(x)
  }

  function Column16Bits(y2: bool, y1: bool, y0: bool, x3: bool, x2: bool, x1: bool, x0: bool): nat {
    64 * N(y2) + 32 * N(y1) + 16 * N(x2) + 8 * N(x1) + 4 * N(y0) + 2 * N(x0) + N(x3)
  }

  lemma Column16Row0IsBits(x3: bool, x2: bool, x1: bool, x0: bool)
    ensures Column16Row0(8 * N(x3) + 4 * N(x2) + 2 * N(x1) + N(x0)) == Column16Bits(false, false, false, x3, x2, x1, x0)
  {
  }

  lemma Column16Row1IsBits(x3: bool, x2: bool, x1: bool, x0: bool)
    ensures Column16Row1(8 * N(x3) + 4 * N(x2) + 2 * N(x1) + N(x0)) == Column16Bits(false, false, true, x3, x2, x1, x0)
  {
  }

  lemma Column16Row2IsBits(x3: bool, x2: bool, x1: bool, x0: bool)
    ensures Column16Row2(8 * N(x3) + 4 * N(x2) + 2 * N(x1) + N(x0)) == Column16Bits(false, true, false, x3, x2, x1, x0)
  {
  }

  lemma Column16Row3IsBits(x3: bool, x2: bool, x1: bool, x0: bool)
    ensures Column16Row3(8 * N(x3) + 4 * N(x2) + 2 * N(x1) + N(x0)) == Column16Bits(false, true, true, x3, x2, x1, x0)
  {
  }

  lemma Column16Row4IsBits(x3: bool, x2: bool, x1: bool, x0: bool)
    ensures Column16Row4(8 * N(x3) + 4 * N(x2) + 2 * N(x1) + N(x0)) == Column16Bits(true, false, false, x3, x2, x1, x0)
  {
  }

  lemma Column16Row5IsBits(x3: bool, x2: bool, x1: bool, x0: bool)
    ensures Column16Row5(8 * N(x3) + 4 * N(x2) + 2 * N(x1) + N(x0)) == Column16Bits(true, false, true, x3, x2, x1, x0)
  {
  }

  lemma Column16Row6IsBits(x3: bool, x2: bool, x1: bool, x0: bool)
    ensures Column16Row6(8 * N(x3) + 4 * N(x2) + 2 * N(x1) + N(x0)) == Column16Bits(true, true, false, x3, x2, x1, x0)
  {
  }

  lemma Column16Row7IsBits(x3: bool, x2: bool, x1: bool, x0: bool)
    ensures Column16Row7(8 * N(x3) + 4 * N(x2) + 2 * N(x1) + N(x0)) == Column16Bits(true, true, true, x3, x2, x1, x0)
  {
  }

  lemma Column16IsBits(y2: bool, y1: bool, y0: bool, x3: bool, x2: bool, x1: bool, x0: bool)
    ensures Column16(4 * N(y2) + 2 * N(y1) + N(y0), 8 * N(x3) + 4 * N(x2) + 2 * N(x1) + N(x0))
        == Column16Bits(y2, y1, y0, x3, x2, x1, x0)
  {
    if !y2 && !y1 && !y0 { Column16Row0IsBits(x3, x2, x1, x0); }
    else if !y2 && !y1 && y0 { Column16Row1IsBits(x3, x2, x1, x0); }
    else if !y2 && y1 && !y0 { Column16Row2IsBits(x3, x2, x1, x0); }
    else if !y2 && y1 && y0 { Column16Row3IsBits(x3, x2, x1, x0); }
    else if y2 && !y1 && !y0 { Column16Row4IsBits(x3, x2, x1, x0); }
    else if y2 && !y1 && y0 { Column16Row5IsBits(x3, x2, x1, x0); }
    else if y2 && y1 && !y0 { Column16Row6IsBits(x3, x2, x1, x0); }
    else { Column16Row7IsBits(x3, x2, x1, x0); }
  }

  /** columnTable8 */
  function Column8Row0(x: nat): nat {
    if x < 8 then Pick8(x, 0, 4, 16, 20, 32, 36, 48, 52)
    else Pick8(x - 8, 2, 6, 18, 22, 34, 38, 50, 54)
  }

  function Column8Row1(x: nat): nat {
    if x < 8 then Pick8(x, 8, 12, 24, 28, 40, 44, 56, 60)
    else Pick8(x - 8, 10, 14, 26, 30, 42, 46, 58, 62)
  }

  function Column8Row2(x: nat): nat {
    if x < 8 then Pick8(x, 33, 37, 49, 53, 1, 5, 17, 21)
    else Pick8(x - 8, 35, 39, 51, 55, 3, 7, 19, 23)
  }

  function Column8Row3(x: nat): nat {
    if x < 8 then Pick8(x, 41, 45, 57, 61, 9, 13, 25, 29)
    else Pick8(x - 8, 43, 47, 59, 63, 11, 15, 27, 31)
  }

  function Column8Row4(x: nat): nat {
    if x < 8 then Pick8(x, 96, 100, 112, 116, 64, 68, 80, 84)
    else Pick8(x - 8, 98, 102, 114, 118, 66, 70, 82, 86)
  }

  function Column8Row5(x: nat): nat {
    if x < 8 then Pick8(x, 104, 108, 120, 124, 72, 76, 88, 92)
    else Pick8(x - 8, 106, 110, 122, 126, 74, 78, 90, 94)
  }

  function Column8Row6(x: nat): nat {
    if x < 8 then Pick8(x, 65, 69, 81, 85, 97, 101, 113, 117)
    else Pick8(x - 8, 67, 71, 83, 87, 99, 103, 115, 119)
  }

  function Column8Row7(x: nat): nat {
    if x < 8 then Pick8(x, 73, 77, 89, 93, 105, 109, 121, 125)
    else Pick8(x - 8, 75, 79, 91, 95, 107, 111, 123, 127)
  }

  function Column8Row8(x: nat): nat {
    if x < 8 then Pick8(x, 128, 132, 144, 148, 160, 164, 176, 180)
    else Pick8(x - 8, 130, 134, 146, 150, 162, 166, 178, 182)
  }

  function Column8Row9(x: nat): nat {
    if x < 8 then Pick8(x, 136, 140, 152, 156, 168, 172, 184, 188)
    else Pick8(x - 8, 138, 142, 154, 158, 170, 174, 186, 190)
  }

  function Column8Row10(x: nat): nat {
    if x < 8 then Pick8(x, 161, 165, 177, 181, 129, 133, 145, 149)
    else Pick8(x - 8, 163, 167, 179, 183, 131, 135, 147, 151)
  }

  function Column8Row11(x: nat): nat {
    if x < 8 then Pick8(x, 169, 173, 185, 189, 137, 141, 153, 157)
    else Pick8(x - 8, 171, 175, 187, 191, 139, 143, 155, 159)
  }

  function Column8Row12(x: nat): nat {
    if x < 8 then Pick8(x, 224, 228, 240, 244, 192, 196, 208, 212)
    else Pick8(x - 8, 226, 230, 242, 246, 194, 198, 210, 214)
  }

  function Column8Row13(x: nat): nat {
    if x < 8 then Pick8(x, 232, 236, 248, 252, 200, 204, 216, 220)
    else Pick8(x - 8, 234, 238, 250, 254, 202, 206, 218, 222)
  }

  function Column8Row14(x: nat): nat {
    if x < 8 then Pick8(x, 193, 197, 209, 213, 225, 229, 241, 245)
    else Pick8(x - 8, 195, 199, 211, 215, 227, 231, 243, 247)
  }

  function Column8Row15(x: nat): nat {
    if x < 8 then Pick8(x, 201, 205, 217, 221, 233, 237, 249, 253)
    else Pick8(x - 8, 203, 207, 219, 223, 235, 239, 251, 255)
  }

  function Column8(y: nat, x: nat): nat {
    if y == 0 then Column8Row0(x)
    else if y == 1 then Column8Row1(x)
    else if y == 2 then Column8Row2(x)
    else if y == 3 then Column8Row3(x)
    else if y == 4 then Column8Row4(x)
    else if y == 5 then Column8Row5(x)
    else if y == 6 then Column8Row6(x)
    else if y == 7 then Column8Row7(x)
    else if y == 8 then Column8Row8(x)
    else if y == 9 then Column8Row9(x)
    else if y == 10 then Column8Row10(x)
    else if y == 11 then Column8Row11(x)
    else if y == 12 then Column8Row12(x)
    else if y == 13 then Column8Row13(x)
    else if y == 14 then Column8Row14(x)
    else Column8Row15(x)
  }

  function Column8Bits(y3: bool, y2: bool, y1: bool, y0: bool, x3: bool, x2: bool, x1: bool, x0: bool): nat {
    128 * N(y3) + 64 * N(y2) + 32 * N((x2 != y1) != y2) + 16 * N(x1) + 8 * N(y0) + 4 * N(x0) + 2 * N(x3) + N(y1)
  }

  lemma Column8Row0IsBits(x3: bool, x2: bool, x1: bool, x0: bool)
    ensures Column8Row0(8 * N(x3) + 4 * N(x2) + 2 * N(x1) + N(x0))
        == Column8Bits(false, false, false, false, x3, x2, x1, x0)
  {
  }

  lemma Column8Row1IsBits(x3: bool, x2: bool, x1: bool, x0: bool)
    ensures Column8Row1(8 * N(x3) + 4 * N(x2) + 2 * N(x1) + N(x0))
        == Column8Bits(false, false, false, true, x3, x2, x1, x0)
  {
  }

  lemma Column8Row2IsBits(x3: bool, x2: bool, x1: bool, x0: bool)
    ensures Column8Row2(8 * N(x3) + 4 * N(x2) + 2 * N(x1) + N(x0))
        == Column8Bits(false, false, true, false, x3, x2, x1, x0)
  {
  }

  lemma Column8Row3IsBits(x3: bool, x2: bool, x1: bool, x0: bool)
    ensures Column8Row3(8 * N(x3) + 4 * N(x2) + 2 * N(x1) + N(x0))
        == Column8Bits(false, false, true, true, x3, x2, x1, x0)
  {
  }

  lemma Column8Row4IsBits(x3: bool, x2: bool, x1: bool, x0: bool)
    ensures Column8Row4(8 * N(x3) + 4 * N(x2) + 2 * N(x1) + N(x0))
        == Column8Bits(false, true, false, false, x3, x2, x1, x0)
  {
  }

  lemma Column8Row5IsBits(x3: bool, x2: bool, x1: bool, x0: bool)
    ensures Column8Row5(8 * N(x3) + 4 * N(x2) + 2 * N(x1) + N(x0))
        == Column8Bits(false, true, false, true, x3, x2, x1, x0)
  {
  }

  lemma Column8Row6IsBits(x3: bool, x2: bool, x1: bool, x0: bool)
    ensures Column8Row6(8 * N(x3) + 4 * N(x2) + 2 * N(x1) + N(x0))
        == Column8Bits(false, true, true, false, x3, x2, x1, x0)
  {
  }

  lemma Column8Row7IsBits(x3: bool, x2: bool, x1: bool, x0: bool)
    ensures Column8Row7(8 * N(x3) + 4 * N(x2) + 2 * N(x1) + N(x0))
        == Column8Bits(false, true, true, true, x3, x2, x1, x0)
  {
  }

  lemma Column8Row8IsBits(x3: bool, x2: bool, x1: bool, x0: bool)
    ensures Column8Row8(8 * N(x3) + 4 * N(x2) + 2 * N(x1) + N(x0))
        == Column8Bits(true, false, false, false, x3, x2, x1, x0)
  {
  }

  lemma Column8Row9IsBits(x3: bool, x2: bool, x1: bool, x0: bool)
    ensures Column8Row9(8 * N(x3) + 4 * N(x2) + 2 * N(x1) + N(x0))
        == Column8Bits(true, false, false, true, x3, x2, x1, x0)
  {
  }

  lemma Column8Row10IsBits(x3: bool, x2: bool, x1: bool, x0: bool)
    ensures Column8Row10(8 * N(x3) + 4 * N(x2) + 2 * N(x1) + N(x0))
        == Column8Bits(true, false, true, false, x3, x2, x1, x0)
  {
  }

  lemma Column8Row11IsBits(x3: bool, x2: bool, x1: bool, x0: bool)
    ensures Column8Row11(8 * N(x3) + 4 * N(x2) + 2 * N(x1) + N(x0))
        == Column8Bits(true, false, true, true, x3, x2, x1, x0)
  {
  }

  lemma Column8Row12IsBits(x3: bool, x2: bool, x1: bool, x0: bool)
    ensures Column8Row12(8 * N(x3) + 4 * N(x2) + 2 * N(x1) + N(x0))
        == Column8Bits(true, true, false, false, x3, x2, x1, x0)
  {
  }

  lemma Column8Row13IsBits(x3: bool, x2: bool, x1: bool, x0: bool)
    ensures Column8Row13(8 * N(x3) + 4 * N(x2) + 2 * N(x1) + N(x0))
        == Column8Bits(true, true, false, true, x3, x2, x1, x0)
  {
  }

  lemma Column8Row14IsBits(x3: bool, x2: bool, x1: bool, x0: bool)
    ensures Column8Row14(8 * N(x3) + 4 * N(x2) + 2 * N(x1) + N(x0))
        == Column8Bits(true, true, true, false, x3, x2, x1, x0)
  {
  }

  lemma Column8Row15IsBits(x3: bool, x2: bool, x1: bool, x0: bool)
    ensures Column8Row15(8 * N(x3) + 4 * N(x2) + 2 * N(x1) + N(x0))
        == Column8Bits(true, true, true, true, x3, x2, x1, x0)
  {
  }

  lemma Column8IsBits(y3: bool, y2: bool, y1: bool, y0: bool, x3: bool, x2: bool, x1: bool, x0: bool)
    ensures Column8(8 * N(y3) + 4 * N(y2) + 2 * N(y1) + N(y0), 8 * N(x3) + 4 * N(x2) + 2 * N(x1) + N(x0))
        == Column8Bits(y3, y2, y1, y0, x3, x2, x1, x0)
  {
    if !y3 && !y2 && !y1 && !y0 { Column8Row0IsBits(x3, x2, x1, x0); }
    else if !y3 && !y2 && !y1 && y0 { Column8Row1IsBits(x3, x2, x1, x0); }
    else if !y3 && !y2 && y1 && !y0 { Column8Row2IsBits(x3, x2, x1, x0); }
    else if !y3 && !y2 && y1 && y0 { Column8Row3IsBits(x3, x2, x1, x0); }
    else if !y3 && y2 && !y1 && !y0 { Column8Row4IsBits(x3, x2, x1, x0); }
    else if !y3 && y2 && !y1 && y0 { Column8Row5IsBits(x3, x2, x1, x0); }
    else if !y3 && y2 && y1 && !y0 { Column8Row6IsBits(x3, x2, x1, x0); }
    else if !y3 && y2 && y1 && y0 { Column8Row7IsBits(x3, x2, x1, x0); }
    else if y3 && !y2 && !y1 && !y0 { Column8Row8IsBits(x3, x2, x1, x0); }
    else if y3 && !y2 && !y1 && y0 { Column8Row9IsBits(x3, x2, x1, x0); }
    else if y3 && !y2 && y1 && !y0 { Column8Row10IsBits(x3, x2, x1, x0); }
    else if y3 && !y2 && y1 && y0 { Column8Row11IsBits(x3, x2, x1, x0); }
    else if y3 && y2 && !y1 && !y0 { Column8Row12IsBits(x3, x2, x1, x0); }
    else if y3 && y2 && !y1 && y0 { Column8Row13IsBits(x3, x2, x1, x0); }
    else if y3 && y2 && y1 && !y0 { Column8Row14IsBits(x3, x2, x1, x0); }
    else { Column8Row15IsBits(x3, x2, x1, x0); }
  }

  /** columnTable4 */
  function Column4Row0(x: nat): nat {
    if x < 8 then Pick8(x, 0, 8, 32, 40, 64, 72, 96, 104)
    else if x < 16 then Pick8(x - 8, 2, 10, 34, 42, 66, 74, 98, 106)
    else if x < 24 then Pick8(x - 16, 4, 12, 36, 44, 68, 76, 100, 108)
    else Pick8(x - 24, 6, 14, 38, 46, 70, 78, 102, 110)
  }

  function Column4Row1(x: nat): nat {
    if x < 8 then Pick8(x, 16, 24, 48, 56, 80, 88, 112, 120)
    else if x < 16 then Pick8(x - 8, 18, 26, 50, 58, 82, 90, 114, 122)
    else if x < 24 then Pick8(x - 16, 20, 28, 52, 60, 84, 92, 116, 124)
    else Pick8(x - 24, 22, 30, 54, 62, 86, 94, 118, 126)
  }

  function Column4Row2(x: nat): nat {
    if x < 8 then Pick8(x, 65, 73, 97, 105, 1, 9, 33, 41)
    else if x < 16 then Pick8(x - 8, 67, 75, 99, 107, 3, 11, 35, 43)
    else if x < 24 then Pick8(x - 16, 69, 77, 101, 109, 5, 13, 37, 45)
    else Pick8(x - 24, 71, 79, 103, 111, 7, 15, 39, 47)
  }

  function Column4Row3(x: nat): nat {
    if x < 8 then Pick8(x, 81, 89, 113, 121, 17, 25, 49, 57)
    else if x < 16 then Pick8(x - 8, 83, 91, 115, 123, 19, 27, 51, 59)
    else if x < 24 then Pick8(x - 16, 85, 93, 117, 125, 21, 29, 53, 61)
    else Pick8(x - 24, 87, 95, 119, 127, 23, 31, 55, 63)
  }

  function Column4Row4(x: nat): nat {
    if x < 8 then Pick8(x, 192, 200, 224, 232, 128, 136, 160, 168)
    else if x < 16 then Pick8(x - 8, 194, 202, 226, 234, 130, 138, 162, 170)
    else if x < 24 then Pick8(x - 16, 196, 204, 228, 236, 132, 140, 164, 172)
    else Pick8(x - 24, 198, 206, 230, 238, 134, 142, 166, 174)
  }

  function Column4Row5(x: nat): nat {
    if x < 8 then Pick8(x, 208, 216, 240, 248, 144, 152, 176, 184)
    else if x < 16 then Pick8(x - 8, 210, 218, 242, 250, 146, 154, 178, 186)
    else if x < 24 then Pick8(x - 16, 212, 220, 244, 252, 148, 156, 180, 188)
    else Pick8(x - 24, 214, 222, 246, 254, 150, 158, 182, 190)
  }

  function Column4Row6(x: nat): nat {
    if x < 8 then Pick8(x, 129, 137, 161, 169, 193, 201, 225, 233)
    else if x < 16 then Pick8(x - 8, 131, 139, 163, 171, 195, 203, 227, 235)
    else if x < 24 then Pick8(x - 16, 133, 141, 165, 173, 197, 205, 229, 237)
    else Pick8(x - 24, 135, 143, 167, 175, 199, 207, 231, 239)
  }

  function Column4Row7(x: nat): nat {
    if x < 8 then Pick8(x, 145, 153, 177, 185, 209, 217, 241, 249)
    else if x < 16 then Pick8(x - 8, 147, 155, 179, 187, 211, 219, 243, 251)
    else if x < 24 then Pick8(x - 16, 149, 157, 181, 189, 213, 221, 245, 253)
    else Pick8(x - 24, 151, 159, 183, 191, 215, 223, 247, 255)
  }

  function Column4Row8(x: nat): nat {
    if x < 8 then Pick8(x, 256, 264, 288, 296, 320, 328, 352, 360)
    else if x < 16 then Pick8(x - 8, 258, 266, 290, 298, 322, 330, 354, 362)
    else if x < 24 then Pick8(x - 16, 260, 268, 292, 300, 324, 332, 356, 364)
    else Pick8(x - 24, 262, 270, 294, 302, 326, 334, 358, 366)
  }

  function Column4Row9(x: nat): nat {
    if x < 8 then Pick8(x, 272, 280, 304, 312, 336, 344, 368, 376)
    else if x < 16 then Pick8(x - 8, 274, 282, 306, 314, 338, 346, 370, 378)
    else if x < 24 then Pick8(x - 16, 276, 284, 308, 316, 340, 348, 372, 380)
    else Pick8(x - 24, 278, 286, 310, 318, 342, 350, 374, 382)
  }

  function Column4Row10(x: nat): nat {
    if x < 8 then Pick8(x, 321, 329, 353, 361, 257, 265, 289, 297)
    else if x < 16 then Pick8(x - 8, 323, 331, 355, 363, 259, 267, 291, 299)
    else if x < 24 then Pick8(x - 16, 325, 333, 357, 365, 261, 269, 293, 301)
    else Pick8(x - 24, 327, 335, 359, 367, 263, 271, 295, 303)
  }

  function Column4Row11(x: nat): nat {
    if x < 8 then Pick8(x, 337, 345, 369, 377, 273, 281, 305, 313)
    else if x < 16 then Pick8(x - 8, 339, 347, 371, 379, 275, 283, 307, 315)
    else if x < 24 then Pick8(x - 16, 341, 349, 373, 381, 277, 285, 309, 317)
    else Pick8(x - 24, 343, 351, 375, 383, 279, 287, 311, 319)
  }

  function Column4Row12(x: nat): nat {
    if x < 8 then Pick8(x, 448, 456, 480, 488, 384, 392, 416, 424)
    else if x < 16 then Pick8(x - 8, 450, 458, 482, 490, 386, 394, 418, 426)
    else if x < 24 then Pick8(x - 16, 452, 460, 484, 492, 388, 396, 420, 428)
    else Pick8(x - 24, 454, 462, 486, 494, 390, 398, 422, 430)
  }

  function Column4Row13(x: nat): nat {
    if x < 8 then Pick8(x, 464, 472, 496, 504, 400, 408, 432, 440)
    else if x < 16 then Pick8(x - 8, 466, 474, 498, 506, 402, 410, 434, 442)
    else if x < 24 then Pick8(x - 16, 468, 476, 500, 508, 404, 412, 436, 444)
    else Pick8(x - 24, 470, 478, 502, 510, 406, 414, 438, 446)
  }

  function Column4Row14(x: nat): nat {
    if x < 8 then Pick8(x, 385, 393, 417, 425, 449, 457, 481, 489)
    else if x < 16 then Pick8(x - 8, 387, 395, 419, 427, 451, 459, 483, 491)
    else if x < 24 then Pick8(x - 16, 389, 397, 421, 429, 453, 461, 485, 493)
    else Pick8(x - 24, 391, 399, 423, 431, 455, 463, 487, 495)
  }

  function Column4Row15(x: nat): nat {
    if x < 8 then Pick8(x, 401, 409, 433, 441, 465, 473, 497, 505)
    else if x < 16 then Pick8(x - 8, 403, 411, 435, 443, 467, 475, 499, 507)
    else if x < 24 then Pick8(x - 16, 405, 413, 437, 445, 469, 477, 501, 509)
    else Pick8(x - 24, 407, 415, 439, 447, 471, 479, 503, 511)
  }

  function Column4(y: nat, x: nat): nat {
    if y == 0 then Column4Row0(x)
    else if y == 1 then Column4Row1(x)
    else if y == 2 then Column4Row2(x)
    else if y == 3 then Column4Row3(x)
    else if y == 4 then Column4Row4(x)
    else if y == 5 then Column4Row5(x)
    else if y == 6 then Column4Row6(x)
    else if y == 7 then Column4Row7(x)
    else if y == 8 then Column4Row8(x)
    else if y == 9 then Column4Row9(x)
    else if y == 10 then Column4Row10(x)
    else if y == 11 then Column4Row11(x)
    else if y == 12 then Column4Row12(x)
    else if y == 13 then Column4Row13(x)
    else if y == 14 then Column4Row14(x)
    else Column4Row15(x)
  }

  function Column4Bits(y3: bool, y2: bool, y1: bool, y0: bool, x4: bool, x3: bool, x2: bool, x1: bool, x0: bool): nat {
    256 * N(y3) + 128 * N(y2) + 64 * N((x2 != y1) != y2) + 32 * N(x1) + 16 * N(y0) + 8 * N(x0) + 4 * N(x4) + 2 * N(x3)
        + N(y1)
  }

  lemma Column4Row0IsBits(x4: bool, x3: bool, x2: bool, x1: bool, x0: bool)
    ensures Column4Row0(16 * N(x4) + 8 * N(x3) + 4 * N(x2) + 2 * N(x1) + N(x0))
        == Column4Bits(false, false, false, false, x4, x3, x2, x1, x0)
  {
  }

  lemma Column4Row1IsBits(x4: bool, x3: bool, x2: bool, x1: bool, x0: bool)
    ensures Column4Row1(16 * N(x4) + 8 * N(x3) + 4 * N(x2) + 2 * N(x1) + N(x0))
        == Column4Bits(false, false, false, true, x4, x3, x2, x1, x0)
  {
  }

  lemma Column4Row2IsBits(x4: bool, x3: bool, x2: bool, x1: bool, x0: bool)
    ensures Column4Row2(16 * N(x4) + 8 * N(x3) + 4 * N(x2) + 2 * N(x1) + N(x0))
        == Column4Bits(false, false, true, false, x4, x3, x2, x1, x0)
  {
  }

  lemma Column4Row3IsBits(x4: bool, x3: bool, x2: bool, x1: bool, x0: bool)
    ensures Column4Row3(16 * N(x4) + 8 * N(x3) + 4 * N(x2) + 2 * N(x1) + N(x0))
        == Column4Bits(false, false, true, true, x4, x3, x2, x1, x0)
  {
  }

  lemma Column4Row4IsBits(x4: bool, x3: bool, x2: bool, x1: bool, x0: bool)
    ensures Column4Row4(16 * N(x4) + 8 * N(x3) + 4 * N(x2) + 2 * N(x1) + N(x0))
        == Column4Bits(false, true, false, false, x4, x3, x2, x1, x0)
  {
  }

  lemma Column4Row5IsBits(x4: bool, x3: bool, x2: bool, x1: bool, x0: bool)
    ensures Column4Row5(16 * N(x4) + 8 * N(x3) + 4 * N(x2) + 2 * N(x1) + N(x0))
        == Column4Bits(false, true, false, true, x4, x3, x2, x1, x0)
  {
  }

  lemma Column4Row6IsBits(x4: bool, x3: bool, x2: bool, x1: bool, x0: bool)
    ensures Column4Row6(16 * N(x4) + 8 * N(x3) + 4 * N(x2) + 2 * N(x1) + N(x0))
        == Column4Bits(false, true, true, false, x4, x3, x2, x1, x0)
  {
  }

  lemma Column4Row7IsBits(x4: bool, x3: bool, x2: bool, x1: bool, x0: bool)
    ensures Column4Row7(16 * N(x4) + 8 * N(x3) + 4 * N(x2) + 2 * N(x1) + N(x0))
        == Column4Bits(false, true, true, true, x4, x3, x2, x1, x0)
  {
  }

  lemma Column4Row8IsBits(x4: bool, x3: bool, x2: bool, x1: bool, x0: bool)
    ensures Column4Row8(16 * N(x4) + 8 * N(x3) + 4 * N(x2) + 2 * N(x1) + N(x0))
        == Column4Bits(true, false, false, false, x4, x3, x2, x1, x0)
  {
  }

  lemma Column4Row9IsBits(x4: bool, x3: bool, x2: bool, x1: bool, x0: bool)
    ensures Column4Row9(16 * N(x4) + 8 * N(x3) + 4 * N(x2) + 2 * N(x1) + N(x0))
        == Column4Bits(true, false, false, true, x4, x3, x2, x1, x0)
  {
  }

  lemma Column4Row10IsBits(x4: bool, x3: bool, x2: bool, x1: bool, x0: bool)
    ensures Column4Row10(16 * N(x4) + 8 * N(x3) + 4 * N(x2) + 2 * N(x1) + N(x0))
        == Column4Bits(true, false, true, false, x4, x3, x2, x1, x0)
  {
  }

  lemma Column4Row11IsBits(x4: bool, x3: bool, x2: bool, x1: bool, x0: bool)
    ensures Column4Row11(16 * N(x4) + 8 * N(x3) + 4 * N(x2) + 2 * N(x1) + N(x0))
        == Column4Bits(true, false, true, true, x4, x3, x2, x1, x0)
  {
  }

  lemma Column4Row12IsBits(x4: bool, x3: bool, x2: bool, x1: bool, x0: bool)
    ensures Column4Row12(16 * N(x4) + 8 * N(x3) + 4 * N(x2) + 2 * N(x1) + N(x0))
        == Column4Bits(true, true, false, false, x4, x3, x2, x1, x0)
  {
  }

  lemma Column4Row13IsBits(x4: bool, x3: bool, x2: bool, x1: bool, x0: bool)
    ensures Column4Row13(16 * N(x4) + 8 * N(x3) + 4 * N(x2) + 2 * N(x1) + N(x0))
        == Column4Bits(true, true, false, true, x4, x3, x2, x1, x0)
  {
  }

  lemma Column4Row14IsBits(x4: bool, x3: bool, x2: bool, x1: bool, x0: bool)
    ensures Column4Row14(16 * N(x4) + 8 * N(x3) + 4 * N(x2) + 2 * N(x1) + N(x0))
        == Column4Bits(true, true, true, false, x4, x3, x2, x1, x0)
  {
  }

  lemma Column4Row15IsBits(x4: bool, x3: bool, x2: bool, x1: bool, x0: bool)
    ensures Column4Row15(16 * N(x4) + 8 * N(x3) + 4 * N(x2) + 2 * N(x1) + N(x0))
        == Column4Bits(true, true, true, true, x4, x3, x2, x1, x0)
  {
  }

  lemma Column4IsBits(y3: bool, y2: bool, y1: bool, y0: bool, x4: bool, x3: bool, x2: bool, x1: bool, x0: bool)
    ensures Column4(8 * N(y3) + 4 * N(y2) + 2 * N(y1) + N(y0), 16 * N(x4) + 8 * N(x3) + 4 * N(x2) + 2 * N(x1) + N(x0))
        == Column4Bits(y3, y2, y1, y0, x4, x3, x2, x1, x0)
  {
    if !y3 && !y2 && !y1 && !y0 { Column4Row0IsBits(x4, x3, x2, x1, x0); }
    else if !y3 && !y2 && !y1 && y0 { Column4Row1IsBits(x4, x3, x2, x1, x0); }
    else if !y3 && !y2 && y1 && !y0 { Column4Row2IsBits(x4, x3, x2, x1, x0); }
    else if !y3 && !y2 && y1 && y0 { Column4Row3IsBits(x4, x3, x2, x1, x0); }
    else if !y3 && y2 && !y1 && !y0 { Column4Row4IsBits(x4, x3, x2, x1, x0); }
    else if !y3 && y2 && !y1 && y0 { Column4Row5IsBits(x4, x3, x2, x1, x0); }
    else if !y3 && y2 && y1 && !y0 { Column4Row6IsBits(x4, x3, x2, x1, x0); }
    else if !y3 && y2 && y1 && y0 { Column4Row7IsBits(x4, x3, x2, x1, x0); }
    else if y3 && !y2 && !y1 && !y0 { Column4Row8IsBits(x4, x3, x2, x1, x0); }
    else if y3 && !y2 && !y1 && y0 { Column4Row9IsBits(x4, x3, x2, x1, x0); }
    else if y3 && !y2 && y1 && !y0 { Column4Row10IsBits(x4, x3, x2, x1, x0); }
    else if y3 && !y2 && y1 && y0 { Column4Row11IsBits(x4, x3, x2, x1, x0); }
    else if y3 && y2 && !y1 && !y0 { Column4Row12IsBits(x4, x3, x2, x1, x0); }
    else if y3 && y2 && !y1 && y0 { Column4Row13IsBits(x4, x3, x2, x1, x0); }
    else if y3 && y2 && y1 && !y0 { Column4Row14IsBits(x4, x3, x2, x1, x0); }
    else { Column4Row15IsBits(x4, x3, x2, x1, x0); }
  }

  lemma Block32BitsDistinct(y1: bool, y0: bool, x2: bool, x1: bool, x0: bool,
                         v1: bool, v0: bool, u2: bool, u1: bool, u0: bool)
    requires Block32Bits(y1, y0, x2, x1, x0) == Block32Bits(v1, v0, u2, u1, u0)
    ensures N(y1) == N(v1) && N(y0) == N(v0) && N(x2) == N(u2) && N(x1) == N(u1) && N(x0) == N(u0)
  {
    hide N;
    Digits5(x2, y1, x1, y0, x0,
            u2, v1, u1, v0, u0);
  }

  lemma Block32InRange(y: nat, x: nat) returns (y1: bool, y0: bool, x2: bool, x1: bool, x0: bool)
    requires y < 4 && x < 8
    ensures Block32(y, x) == Block32Bits(y1, y0, x2, x1, x0) < 32
    ensures y == 2 * N(y1) + N(y0)
    ensures x == 4 * N(x2) + 2 * N(x1) + N(x0)
  {
    hide Block32;
    y1, y0 := Binary2(y);
    x2, x1, x0 := Binary3(x);
    Block32IsBits(y1, y0, x2, x1, x0);
  }

  lemma Block32Distinct(y: nat, x: nat, v: nat, u: nat)
    requires y < 4 && x < 8 && v < 4 && u < 8
    ensures Block32(y, x) < 32
    ensures Block32(y, x) == Block32(v, u) ==> y == v && x == u
  {
    hide Block32, Block32Bits, N;
    var y1, y0, x2, x1, x0 := Block32InRange(y, x);
    if Block32(y, x) == Block32(v, u) {
      var v1, v0, u2, u1, u0 := Block32InRange(v, u);
      Block32BitsDistinct(y1, y0, x2, x1, x0, v1, v0, u2, u1, u0);
    }
  }

  lemma Block32ZBitsDistinct(y1: bool, y0: bool, x2: bool, x1: bool, x0: bool,
                         v1: bool, v0: bool, u2: bool, u1: bool, u0: bool)
    requires Block32ZBits(y1, y0, x2, x1, x0) == Block32ZBits(v1, v0, u2, u1, u0)
    ensures N(y1) == N(v1) && N(y0) == N(v0) && N(x2) == N(u2) && N(x1) == N(u1) && N(x0) == N(u0)
  {
    hide N;
    Digits5(!x2, !y1, x1, y0, x0,
            !u2, !v1, u1, v0, u0);
    InvertedDigit(x2, u2);
    InvertedDigit(y1, v1);
  }

  lemma Block32ZInRange(y: nat, x: nat) returns (y1: bool, y0: bool, x2: bool, x1: bool, x0: bool)
    requires y < 4 && x < 8
    ensures Block32Z(y, x) == Block32ZBits(y1, y0, x2, x1, x0) < 32
    ensures y == 2 * N(y1) + N(y0)
    ensures x == 4 * N(x2) + 2 * N(x1) + N(x0)
  {
    hide Block32Z;
    y1, y0 := Binary2(y);
    x2, x1, x0 := Binary3(x);
    Block32ZIsBits(y1, y0, x2, x1, x0);
  }

  lemma Block32ZDistinct(y: nat, x: nat, v: nat, u: nat)
    requires y < 4 && x < 8 && v < 4 && u < 8
    ensures Block32Z(y, x) < 32
    ensures Block32Z(y, x) == Block32Z(v, u) ==> y == v && x == u
  {
    hide Block32Z, Block32ZBits, N;
    var y1, y0, x2, x1, x0 := Block32ZInRange(y, x);
    if Block32Z(y, x) == Block32Z(v, u) {
      var v1, v0, u2, u1, u0 := Block32ZInRange(v, u);
      Block32ZBitsDistinct(y1, y0, x2, x1, x0, v1, v0, u2, u1, u0);
    }
  }

  lemma Block16BitsDistinct(y2: bool, y1: bool, y0: bool, x1: bool, x0: bool,
                         v2: bool, v1: bool, v0: bool, u1: bool, u0: bool)
    requires Block16Bits(y2, y1, y0, x1, x0) == Block16Bits(v2, v1, v0, u1, u0)
    ensures N(y2) == N(v2) && N(y1) == N(v1) && N(y0) == N(v0) && N(x1) == N(u1) && N(x0) == N(u0)
  {
    hide N;
    Digits5(y2, x1, y1, x0, y0,
            v2, u1, v1, u0, v0);
  }

  lemma Block16InRange(y: nat, x: nat) returns (y2: bool, y1: bool, y0: bool, x1: bool, x0: bool)
    requires y < 8 && x < 4
    ensures Block16(y, x) == Block16Bits(y2, y1, y0, x1, x0) < 32
    ensures y == 4 * N(y2) + 2 * N(y1) + N(y0)
    ensures x == 2 * N(x1) + N(x0)
  {
    hide Block16;
    y2, y1, y0 := Binary3(y);
    x1, x0 := Binary2(x);
    Block16IsBits(y2, y1, y0, x1, x0);
  }

  lemma Block16Distinct(y: nat, x: nat, v: nat, u: nat)
    requires y < 8 && x < 4 && v < 8 && u < 4
    ensures Block16(y, x) < 32
    ensures Block16(y, x) == Block16(v, u) ==> y == v && x == u
  {
    hide Block16, Block16Bits, N;
    var y2, y1, y0, x1, x0 := Block16InRange(y, x);
    if Block16(y, x) == Block16(v, u) {
      var v2, v1, v0, u1, u0 := Block16InRange(v, u);
      Block16BitsDistinct(y2, y1, y0, x1, x0, v2, v1, v0, u1, u0);
    }
  }

  lemma Block16SBitsDistinct(y2: bool, y1: bool, y0: bool, x1: bool, x0: bool,
                         v2: bool, v1: bool, v0: bool, u1: bool, u0: bool)
    requires Block16SBits(y2, y1, y0, x1, x0) == Block16SBits(v2, v1, v0, u1, u0)
    ensures N(y2) == N(v2) && N(y1) == N(v1) && N(y0) == N(v0) && N(x1) == N(u1) && N(x0) == N(u0)
  {
    hide N;
    Digits5(x1, y1, y2, x0, y0,
            u1, v1, v2, u0, v0);
  }

  lemma Block16SInRange(y: nat, x: nat) returns (y2: bool, y1: bool, y0: bool, x1: bool, x0: bool)
    requires y < 8 && x < 4
    ensures Block16S(y, x) == Block16SBits(y2, y1, y0, x1, x0) < 32
    ensures y == 4 * N(y2) + 2 * N(y1) + N(y0)
    ensures x == 2 * N(x1) + N(x0)
  {
    hide Block16S;
    y2, y1, y0 := Binary3(y);
    x1, x0 := Binary2(x);
    Block16SIsBits(y2, y1, y0, x1, x0);
  }

  lemma Block16SDistinct(y: nat, x: nat, v: nat, u: nat)
    requires y < 8 && x < 4 && v < 8 && u < 4
    ensures Block16S(y, x) < 32
    ensures Block16S(y, x) == Block16S(v, u) ==> y == v && x == u
  {
    hide Block16S, Block16SBits, N;
    var y2, y1, y0, x1, x0 := Block16SInRange(y, x);
    if Block16S(y, x) == Block16S(v, u) {
      var v2, v1, v0, u1, u0 := Block16SInRange(v, u);
      Block16SBitsDistinct(y2, y1, y0, x1, x0, v2, v1, v0, u1, u0);
    }
  }

  lemma Block16ZBitsDistinct(y2: bool, y1: bool, y0: bool, x1: bool, x0: bool,
                         v2: bool, v1: bool, v0: bool, u1: bool, u0: bool)
    requires Block16ZBits(y2, y1, y0, x1, x0) == Block16ZBits(v2, v1, v0, u1, u0)
    ensures N(y2) == N(v2) && N(y1) == N(v1) && N(y0) == N(v0) && N(x1) == N(u1) && N(x0) == N(u0)
  {
    hide N;
    Digits5(!y2, !x1, y1, x0, y0,
            !v2, !u1, v1, u0, v0);
    InvertedDigit(y2, v2);
    InvertedDigit(x1, u1);
  }

  lemma Block16ZInRange(y: nat, x: nat) returns (y2: bool, y1: bool, y0: bool, x1: bool, x0: bool)
    requires y < 8 && x < 4
    ensures Block16Z(y, x) == Block16ZBits(y2, y1, y0, x1, x0) < 32
    ensures y == 4 * N(y2) + 2 * N(y1) + N(y0)
    ensures x == 2 * N(x1) + N(x0)
  {
    hide Block16Z;
    y2, y1, y0 := Binary3(y);
    x1, x0 := Binary2(x);
    Block16ZIsBits(y2, y1, y0, x1, x0);
  }

  lemma Block16ZDistinct(y: nat, x: nat, v: nat, u: nat)
    requires y < 8 && x < 4 && v < 8 && u < 4
    ensures Block16Z(y, x) < 32
    ensures Block16Z(y, x) == Block16Z(v, u) ==> y == v && x == u
  {
    hide Block16Z, Block16ZBits, N;
    var y2, y1, y0, x1, x0 := Block16ZInRange(y, x);
    if Block16Z(y, x) == Block16Z(v, u) {
      var v2, v1, v0, u1, u0 := Block16ZInRange(v, u);
      Block16ZBitsDistinct(y2, y1, y0, x1, x0, v2, v1, v0, u1, u0);
    }
  }

  lemma Block16SZBitsDistinct(y2: bool, y1: bool, y0: bool, x1: bool, x0: bool,
                         v2: bool, v1: bool, v0: bool, u1: bool, u0: bool)
    requires Block16SZBits(y2, y1, y0, x1, x0) == Block16SZBits(v2, v1, v0, u1, u0)
    ensures N(y2) == N(v2) && N(y1) == N(v1) && N(y0) == N(v0) && N(x1) == N(u1) && N(x0) == N(u0)
  {
    hide N;
    Digits5(!x1, !y1, y2, x0, y0,
            !u1, !v1, v2, u0, v0);
    InvertedDigit(x1, u1);
    InvertedDigit(y1, v1);
  }

  lemma Block16SZInRange(y: nat, x: nat) returns (y2: bool, y1: bool, y0: bool, x1: bool, x0: bool)
    requires y < 8 && x < 4
    ensures Block16SZ(y, x) == Block16SZBits(y2, y1, y0, x1, x0) < 32
    ensures y == 4 * N(y2) + 2 * N(y1) + N(y0)
    ensures x == 2 * N(x1) + N(x0)
  {
    hide Block16SZ;
    y2, y1, y0 := Binary3(y);
    x1, x0 := Binary2(x);
    Block16SZIsBits(y2, y1, y0, x1, x0);
  }

  lemma Block16SZDistinct(y: nat, x: nat, v: nat, u: nat)
    requires y < 8 && x < 4 && v < 8 && u < 4
    ensures Block16SZ(y, x) < 32
    ensures Block16SZ(y, x) == Block16SZ(v, u) ==> y == v && x == u
  {
    hide Block16SZ, Block16SZBits, N;
    var y2, y1, y0, x1, x0 := Block16SZInRange(y, x);
    if Block16SZ(y, x) == Block16SZ(v, u) {
      var v2, v1, v0, u1, u0 := Block16SZInRange(v, u);
      Block16SZBitsDistinct(y2, y1, y0, x1, x0, v2, v1, v0, u1, u0);
    }
  }

  lemma Column32BitsDistinct(y2: bool, y1: bool, y0: bool, x2: bool, x1: bool, x0: bool,
                         v2: bool, v1: bool, v0: bool, u2: bool, u1: bool, u0: bool)
    requires Column32Bits(y2, y1, y0, x2, x1, x0) == Column32Bits(v2, v1, v0, u2, u1, u0)
    ensures N(y2) == N(v2) && N(y1) == N(v1) && N(y0) == N(v0) && N(x2) == N(u2) && N(x1) == N(u1) && N(x0) == N(u0)
  {
    hide N;
    Digits6(y2, y1, x2, x1, y0, x0,
            v2, v1, u2, u1, v0, u0);
  }

  lemma Column32InRange(y: nat, x: nat) returns (y2: bool, y1: bool, y0: bool, x2: bool, x1: bool, x0: bool)
    requires y < 8 && x < 8
    ensures Column32(y, x) == Column32Bits(y2, y1, y0, x2, x1, x0) < 64
    ensures y == 4 * N(y2) + 2 * N(y1) + N(y0)
    ensures x == 4 * N(x2) + 2 * N(x1) + N(x0)
  {
    hide Column32;
    y2, y1, y0 := Binary3(y);
    x2, x1, x0 := Binary3(x);
    Column32IsBits(y2, y1, y0, x2, x1, x0);
  }

  lemma Column32Distinct(y: nat, x: nat, v: nat, u: nat)
    requires y < 8 && x < 8 && v < 8 && u < 8
    ensures Column32(y, x) < 64
    ensures Column32(y, x) == Column32(v, u) ==> y == v && x == u
  {
    hide Column32, Column32Bits, N;
    var y2, y1, y0, x2, x1, x0 := Column32InRange(y, x);
    if Column32(y, x) == Column32(v, u) {
      var v2, v1, v0, u2, u1, u0 := Column32InRange(v, u);
      Column32BitsDistinct(y2, y1, y0, x2, x1, x0, v2, v1, v0, u2, u1, u0);
    }
  }

  lemma Column16BitsDistinct(y2: bool, y1: bool, y0: bool, x3: bool, x2: bool, x1: bool, x0: bool,
                         v2: bool, v1: bool, v0: bool, u3: bool, u2: bool, u1: bool, u0: bool)
    requires Column16Bits(y2, y1, y0, x3, x2, x1, x0) == Column16Bits(v2, v1, v0, u3, u2, u1, u0)
    ensures N(y2) == N(v2) && N(y1) == N(v1) && N(y0) == N(v0) && N(x3) == N(u3) && N(x2) == N(u2) && N(x1) == N(u1)
        && N(x0) == N(u0)
  {
    hide N;
    Digits7(y2, y1, x2, x1, y0, x0, x3,
            v2, v1, u2, u1, v0, u0, u3);
  }

  lemma Column16InRange(y: nat, x: nat) returns (y2: bool, y1: bool, y0: bool, x3: bool, x2: bool, x1: bool, x0: bool)
    requires y < 8 && x < 16
    ensures Column16(y, x) == Column16Bits(y2, y1, y0, x3, x2, x1, x0) < 128
    ensures y == 4 * N(y2) + 2 * N(y1) + N(y0)
    ensures x == 8 * N(x3) + 4 * N(x2) + 2 * N(x1) + N(x0)
  {
    hide Column16;
    y2, y1, y0 := Binary3(y);
    x3, x2, x1, x0 := Binary4(x);
    Column16IsBits(y2, y1, y0, x3, x2, x1, x0);
  }

  lemma Column16Distinct(y: nat, x: nat, v: nat, u: nat)
    requires y < 8 && x < 16 && v < 8 && u < 16
    ensures Column16(y, x) < 128
    ensures Column16(y, x) == Column16(v, u) ==> y == v && x == u
  {
    hide Column16, Column16Bits, N;
    var y2, y1, y0, x3, x2, x1, x0 := Column16InRange(y, x);
    if Column16(y, x) == Column16(v, u) {
      var v2, v1, v0, u3, u2, u1, u0 := Column16InRange(v, u);
      Column16BitsDistinct(y2, y1, y0, x3, x2, x1, x0, v2, v1, v0, u3, u2, u1, u0);
    }
  }

  lemma Column8BitsDistinct(y3: bool, y2: bool, y1: bool, y0: bool, x3: bool, x2: bool, x1: bool, x0: bool,
                         v3: bool, v2: bool, v1: bool, v0: bool, u3: bool, u2: bool, u1: bool, u0: bool)
    requires Column8Bits(y3, y2, y1, y0, x3, x2, x1, x0) == Column8Bits(v3, v2, v1, v0, u3, u2, u1, u0)
    ensures N(y3) == N(v3) && N(y2) == N(v2) && N(y1) == N(v1) && N(y0) == N(v0) && N(x3) == N(u3) && N(x2) == N(u2)
        && N(x1) == N(u1) && N(x0) == N(u0)
  {
    hide N;
    Digits8(y3, y2, (x2 != y1) != y2, x1, y0, x0, x3, y1,
            v3, v2, (u2 != v1) != v2, u1, v0, u0, u3, v1);
    AddedDigit(x2, y1, y2, u2, v1, v2);
  }

  lemma Column8InRange(y: nat, x: nat)
      returns (y3: bool, y2: bool, y1: bool, y0: bool, x3: bool, x2: bool, x1: bool, x0: bool)
    requires y < 16 && x < 16
    ensures Column8(y, x) == Column8Bits(y3, y2, y1, y0, x3, x2, x1, x0) < 256
    ensures y == 8 * N(y3) + 4 * N(y2) + 2 * N(y1) + N(y0)
    ensures x == 8 * N(x3) + 4 * N(x2) + 2 * N(x1) + N(x0)
  {
    hide Column8;
    y3, y2, y1, y0 := Binary4(y);
    x3, x2, x1, x0 := Binary4(x);
    Column8IsBits(y3, y2, y1, y0, x3, x2, x1, x0);
  }

  lemma Column8Distinct(y: nat, x: nat, v: nat, u: nat)
    requires y < 16 && x < 16 && v < 16 && u < 16
    ensures Column8(y, x) < 256
    ensures Column8(y, x) == Column8(v, u) ==> y == v && x == u
  {
    hide Column8, Column8Bits, N;
    var y3, y2, y1, y0, x3, x2, x1, x0 := Column8InRange(y, x);
    if Column8(y, x) == Column8(v, u) {
      var v3, v2, v1, v0, u3, u2, u1, u0 := Column8InRange(v, u);
      Column8BitsDistinct(y3, y2, y1, y0, x3, x2, x1, x0, v3, v2, v1, v0, u3, u2, u1, u0);
    }
  }

  lemma Column4BitsDistinct(y3: bool, y2: bool, y1: bool, y0: bool, x4: bool, x3: bool, x2: bool, x1: bool, x0: bool,
                         v3: bool, v2: bool, v1: bool, v0: bool, u4: bool, u3: bool, u2: bool, u1: bool, u0: bool)
    requires Column4Bits(y3, y2, y1, y0, x4, x3, x2, x1, x0) == Column4Bits(v3, v2, v1, v0, u4, u3, u2, u1, u0)
    ensures N(y3) == N(v3) && N(y2) == N(v2) && N(y1) == N(v1) && N(y0) == N(v0) && N(x4) == N(u4) && N(x3) == N(u3)
        && N(x2) == N(u2) && N(x1) == N(u1) && N(x0) == N(u0)
  {
    hide N;
    Digits9(y3, y2, (x2 != y1) != y2, x1, y0, x0, x4, x3, y1,
            v3, v2, (u2 != v1) != v2, u1, v0, u0, u4, u3, v1);
    AddedDigit(x2, y1, y2, u2, v1, v2);
  }

  lemma Column4InRange(y: nat, x: nat)
      returns (y3: bool, y2: bool, y1: bool, y0: bool, x4: bool, x3: bool, x2: bool, x1: bool, x0: bool)
    requires y < 16 && x < 32
    ensures Column4(y, x) == Column4Bits(y3, y2, y1, y0, x4, x3, x2, x1, x0) < 512
    ensures y == 8 * N(y3) + 4 * N(y2) + 2 * N(y1) + N(y0)
    ensures x == 16 * N(x4) + 8 * N(x3) + 4 * N(x2) + 2 * N(x1) + N(x0)
  {
    hide Column4;
    y3, y2, y1, y0 := Binary4(y);
    x4, x3, x2, x1, x0 := Binary5(x);
    Column4IsBits(y3, y2, y1, y0, x4, x3, x2, x1, x0);
  }

  lemma Column4Distinct(y: nat, x: nat, v: nat, u: nat)
    requires y < 16 && x < 32 && v < 16 && u < 32
    ensures Column4(y, x) < 512
    ensures Column4(y, x) == Column4(v, u) ==> y == v && x == u
  {
    hide Column4, Column4Bits, N;
    var y3, y2, y1, y0, x4, x3, x2, x1, x0 := Column4InRange(y, x);
    if Column4(y, x) == Column4(v, u) {
      var v3, v2, v1, v0, u4, u3, u2, u1, u0 := Column4InRange(v, u);
      Column4BitsDistinct(y3, y2, y1, y0, x4, x3, x2, x1, x0, v3, v2, v1, v0, u4, u3, u2, u1, u0);
    }
  }
}
