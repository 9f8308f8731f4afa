/** The transfer engine of the GS thread: uploads, downloads and their registers. */
module GsTransfer {
  import opened Bits
  import opened GsMemory
  import opened Hex
  import opened Wrappers
  import opened GsPixels
  import opened GsRaster
  import opened GsUpload
  import opened GsDownload
  import opened GsCopy

  /** The destination formats write_HWREG knows. */
  function UploadFormat(code: nat): Option<Format> {
    match FormatOf(code)
    case None => None
    case Some(f) => if f.Z32? || f.Z16? || f.Z16S? then None else Some(f)
  }

  /** The source formats local_to_host knows. */
  function DownloadFormat(code: nat): Option<Format> {
    match FormatOf(code)
    case None => None
    case Some(f) => if f.CT4HL? || f.CT4HH? then None else Some(f)
  }

  /** The source and destination formats local_to_local knows. */
  function CopySource(code: nat): Option<Format> {
    match FormatOf(code)
    case None => None
    case Some(f) => if f.CT4HL? || f.Z16? || f.Z16S? then None else Some(f)
  }

  function CopyTarget(code: nat): Option<Format> {
    match FormatOf(code)
    case None => None
    case Some(f) => if f.Z16? then None else Some(f)
  }

  /** The codes each transfer knows. */
  lemma FormatsKnown(code: nat)
    ensures UploadFormat(code).Some? <==>
      code in {0x00, 0x01, 0x02, 0x0A, 0x13, 0x14, 0x1B, 0x24, 0x2C, 0x31}
    ensures DownloadFormat(code).Some? <==>
      code in {0x00, 0x01, 0x02, 0x0A, 0x13, 0x14, 0x1B, 0x30, 0x31, 0x32, 0x3A}
    ensures CopySource(code).Some? <==>
      code in {0x00, 0x01, 0x02, 0x0A, 0x13, 0x14, 0x1B, 0x2C, 0x30, 0x31}
    ensures CopyTarget(code).Some? <==>
      code in {0x00, 0x01, 0x02, 0x0A, 0x13, 0x14, 0x1B, 0x24, 0x2C, 0x30, 0x31, 0x3A}
  {
  }

  /** Nibbles of a doubleword that are taken after i steps. */
  function TakenAfter(f: Format, i: nat): nat {
    if !Is24(f) then Start(f, i) else if i < 3 then 6 * i else 16
  }

  /** Steps per doubleword. */
  function StepsPerDword(f: Format): nat {
    match Nibbles(f) case 8 => 2 case 6 => 3 case 4 => 4 case 2 => 8 case _ => 16
  }

  class Transfer {
    const localMem: array<Byte>
    // BITBLTBUF
    var sourceBase: nat
    var sourceWidth: nat
    var sourceFormat: nat
    var destBase: nat
    var destWidth: nat
    var destFormat: nat
    // TRXPOS
    var sourceX: nat
    var sourceY: nat
    var destX: nat
    var destY: nat
    var intSourceX: nat
    var intSourceY: nat
    var intDestX: nat
    var intDestY: nat
    var transOrder: nat
    // TRXREG
    var width: nat
    var height: nat
    // TRXDIR and the state of a running transfer
    var trxDir: nat
    var pixelsTransferred: nat
    var psmct24Color: nat
    var psmct24UnpackedCount: nat

    /** Registers hold what their bit fields can. */
    ghost predicate Valid()
      reads this
    {
      && localMem.Length == MEMORY_SIZE
      && sourceX < 2048 && sourceY < 2048 && destX < 2048 && destY < 2048
      && width < 4096 && height < 4096 && transOrder < 4
    }

    /** The number of pixels of the rectangle. */
    function Pixels(): nat
      reads `width, `height
    {
      width * height
    }

    constructor ()
      ensures Valid() && fresh(localMem)
      ensures trxDir == 3 && pixelsTransferred == 0
    {
      localMem := new Byte[MEMORY_SIZE];
      sourceX, sourceY, destX, destY := 0, 0, 0, 0;
      width, height, transOrder := 0, 0, 0;
      trxDir, pixelsTransferred := 3, 0;
    }

    // ----- memory

    method StoreWord(a: nat, v: nat)
      requires localMem.Length == MEMORY_SIZE && a + 4 <= MEMORY_SIZE && v < 0x1_0000_0000
      modifies localMem
      ensures localMem[..] == Store32(old(localMem[..]), a, v)
    {
      StoreHalf(a, v % 0x1_0000);
      StoreHalf(a + 2, v / 0x1_0000);
    }

    method StoreHalf(a: nat, v: nat)
      requires localMem.Length == MEMORY_SIZE && a + 2 <= MEMORY_SIZE && v < 0x1_0000
      modifies localMem
      ensures localMem[..] == Store16(old(localMem[..]), a, v)
    {
      localMem[a] := v % 0x100;
      localMem[a + 1] := v / 0x100;
    }

    /** write_*_block, and the read-and-merge of the palette formats */
    method WriteBlock(f: Format, b: Buffer, x: nat, y: nat, v: nat)
      requires localMem.Length == MEMORY_SIZE
      modifies localMem
      ensures localMem[..] == Store(old(localMem[..]), f, b, x, y, v)
    {
      hide Address, Store32, Store16, Load32, Merged;
      var a := Address(LayoutOf(f), b, x, y);
      match LayoutOf(f) {
        case L32 => StoreWord(4 * a, Merged(f, Word(localMem[..], a), v));
        case L32Z => StoreWord(4 * a, Merged(f, Word(localMem[..], a), v));
        case L8 => localMem[a] := v % 0x100;
        case L4 =>
          var oldByte := localMem[a / 2];
          localMem[a / 2] := if a % 2 == 0 then Pack(v % 16, oldByte / 16) else Pack(oldByte % 16, v % 16);
        case _ => StoreHalf(2 * a, v % 0x1_0000);
      }
    }

    // ----- upload

    ghost function Target(f: Format): Window
      reads this
    {
      Window(f, Buffer(destBase, destWidth), destX, destY, width, height)
    }

    ghost function Now(): Cursor
      reads this
    {
      Cursor(intDestX, intDestY, pixelsTransferred, psmct24Color, psmct24UnpackedCount)
    }

    /** u nibbles of s have gone to the target window, and m was memory before. */
    ghost predicate Sent(f: Format, m: seq<Byte>, s: seq<Dword>, u: nat)
      requires |m| == MEMORY_SIZE && width > 0 && u <= 16 * |s|
      reads this, localMem
    {
      && Reached(Target(f), s, u, Now())
      && localMem[..] == Uploaded(m, Target(f), s, PixelWith(f, u))
    }

    /** One whole pixel of a doubleword. */
    method WritePixel(f: Format, data: Dword, i: nat, ghost m: seq<Byte>, ghost s: seq<Dword>)
      requires Valid() && |m| == MEMORY_SIZE && width > 0 && !Is24(f)
      requires Start(f, i) <= 16 && Start(f, i + 1) <= 16
      requires Sent(f, m, s + [data], 16 * |s| + Start(f, i))
      modifies `pixelsTransferred, `intDestX, `intDestY, localMem
      ensures Valid()
      ensures Sent(f, m, s + [data], 16 * |s| + Start(f, i + 1))
    {
      hide Reached, Uploaded, SetPixel, Store, Extracted, Start, PixelWith, Nibbles, Advanced;
      PixelSent(m, Target(f), s, data, i, Now());
      StoreIsSetPixel(localMem[..], f, Buffer(destBase, destWidth), intDestX, intDestY,
          Extracted(f, data, i, intDestX));
      WriteBlock(f, Buffer(destBase, destWidth), intDestX, intDestY, Extracted(f, data, i, intDestX));
      pixelsTransferred := pixelsTransferred + 1;
      intDestX := intDestX + 1;
      Advance();
    }

    /** End of row, and coordinates wrap at 2048 pixels. */
    method Advance()
      requires Valid() && width > 0
      modifies `intDestX, `intDestY
      ensures forall f :: Now() == Advanced(Target(f), old(Now()))
    {
      if pixelsTransferred % width == 0 {
        intDestX := destX;
        intDestY := intDestY + 1;
      }
      intDestX := intDestX % 2048;
      intDestY := intDestY % 2048;
    }

    /** b bytes of the third that begins at nibble j of the last doubleword are unpacked; the
        registers were c before the third. */
    ghost predicate Unpacked(f: Format, m: seq<Byte>, s: seq<Dword>, u: nat, b: nat, c: Cursor)
      requires |m| == MEMORY_SIZE && width > 0 && u + 2 * b <= 16 * |s|
      reads this, localMem
    {
      && Unpacking(Target(f), s, u, b, c, Now())
      && Start(f, pixelsTransferred) <= 16 * |s|
      && localMem[..] == Uploaded(m, Target(f), s, pixelsTransferred)
    }

    method UnpackByte(f: Format, data: Dword, j: nat, b: nat, ghost m: seq<Byte>, ghost s: seq<Dword>, ghost c: Cursor)
      requires Valid() && |m| == MEMORY_SIZE && width > 0 && Is24(f)
      requires (j == 0 || j == 6 || j == 12) && b < 3 && j + 2 * b + 2 <= 16
      requires Reached(Target(f), s + [data], 16 * |s| + j, c)
      requires Unpacked(f, m, s + [data], 16 * |s| + j, b, c)
      modifies `pixelsTransferred, `intDestX, `psmct24Color, `psmct24UnpackedCount, localMem
      ensures Valid()
      ensures Unpacked(f, m, s + [data], 16 * |s| + j, b + 1, c)
    {
      hide Reached, Unpacking, Uploaded, SetPixel, Store, Or, Shl, Shr;
      ghost var now := Now();
      psmct24Color := Or(psmct24Color, Shl(Shr(data, j + 2 * b) % 0x100, 2 * psmct24UnpackedCount));
      ByteSent(m, Target(f), s, data, j, b, c, now, psmct24Color);
      psmct24UnpackedCount := psmct24UnpackedCount + 1;
      if psmct24UnpackedCount == 3 {
        StoreIsSetPixel(localMem[..], f, Buffer(destBase, destWidth), intDestX, intDestY, psmct24Color);
        WriteBlock(f, Buffer(destBase, destWidth), intDestX, intDestY, psmct24Color);
        psmct24Color := 0;
        psmct24UnpackedCount := 0;
        intDestX := intDestX + 1;
        pixelsTransferred := pixelsTransferred + 1;
      }
    }

    /** One third of a doubleword: three bytes, or the last two. */
    method UnpackPSMCT24(f: Format, data: Dword, offset: nat, ghost m: seq<Byte>, ghost s: seq<Dword>)
      requires Valid() && |m| == MEMORY_SIZE && width > 0 && Is24(f) && offset < 3
      requires Sent(f, m, s + [data], 16 * |s| + 6 * offset)
      modifies `pixelsTransferred, `intDestX, `psmct24Color, `psmct24UnpackedCount, localMem
      ensures Valid()
      ensures Unpacked(f, m, s + [data], 16 * |s| + 6 * offset, if offset == 2 then 2 else 3, old(Now()))
    {
      hide Reached, Unpacking, Uploaded;
      ghost var c := Now();
      UnpackingBegins(Target(f), s + [data], 16 * |s| + 6 * offset, c);
      var bytesUnpacked := 0;
      var i := offset * 24;
      while bytesUnpacked < 3 && i < 64
        invariant bytesUnpacked <= 3 && i == offset * 24 + 8 * bytesUnpacked && i <= 64
        invariant Unpacked(f, m, s + [data], 16 * |s| + 6 * offset, bytesUnpacked, c)
        decreases 3 - bytesUnpacked
      {
        UnpackByte(f, data, 6 * offset, bytesUnpacked, m, s, c);
        bytesUnpacked := bytesUnpacked + 1;
        i := i + 8;
      }
    }

    method Step(f: Format, data: Dword, i: nat, ghost m: seq<Byte>, ghost s: seq<Dword>)
      requires Valid() && |m| == MEMORY_SIZE && width > 0 && i < StepsPerDword(f)
      requires TakenAfter(f, i) <= 16 && Sent(f, m, s + [data], 16 * |s| + TakenAfter(f, i))
      modifies `pixelsTransferred, `intDestX, `intDestY, `psmct24Color, `psmct24UnpackedCount, localMem
      ensures Valid()
      ensures TakenAfter(f, i + 1) <= 16 && Sent(f, m, s + [data], 16 * |s| + TakenAfter(f, i + 1))
    {
      hide Reached, Unpacking, Uploaded, PixelWith, Advanced;
      ghost var c := Now();
      if Is24(f) {
        UnpackPSMCT24(f, data, i, m, s);
        ThirdUnpacked(Target(f), s + [data], |s|, i, c, Now());
        Advance();
      } else {
        WritePixel(f, data, i, m, s);
      }
    }

    /** One doubleword arrives. s arrived before it, since the transfer began with memory m. */
    method WriteHwReg(data: Dword, ghost m: seq<Byte>, ghost s: seq<Dword>)
      requires Valid() && |m| == MEMORY_SIZE
      requires width > 0 && height > 0 && UploadFormat(destFormat).Some? ==>
        Sent(UploadFormat(destFormat).value, m, s, 16 * |s|)
      modifies `trxDir, `pixelsTransferred, `intDestX, `intDestY, `psmct24Color, `psmct24UnpackedCount, localMem
      ensures Valid()
      ensures width == 0 || height == 0 ==> trxDir == 3 && pixelsTransferred == 0 && localMem[..] == old(localMem[..])
      ensures width > 0 && height > 0 && UploadFormat(destFormat).None? ==>
        Now() == old(Now()) && trxDir == old(trxDir) && localMem[..] == old(localMem[..])
      ensures width > 0 && height > 0 && UploadFormat(destFormat).Some? ==>
        var f := UploadFormat(destFormat).value;
        var n := PixelWith(f, 16 * |s + [data]|);
        && Start(f, n) <= 16 * |s + [data]|
        && localMem[..] == Uploaded(m, Target(f), s + [data], n)
        && if n >= Pixels() then trxDir == 3 && pixelsTransferred == 0
           else trxDir == old(trxDir) && Sent(f, m, s + [data], 16 * |s + [data]|)
    {
      hide Reached, Uploaded, PixelWith, UploadFormat;
      if width == 0 || height == 0 {
        trxDir := 3;
        pixelsTransferred := 0;
        return;
      }
      var format := UploadFormat(destFormat);
      if format.None? {
        return;
      }
      var f := format.value;
      AllTaken(f);
      PixelsReached(Target(f), s, 16 * |s|, Now());
      NextDword(m, Target(f), s, data, Now());
      var ppd := StepsPerDword(f);
      for i := 0 to ppd
        invariant Valid() && trxDir == old(trxDir)
        invariant TakenAfter(f, i) <= 16 && Sent(f, m, s + [data], 16 * |s| + TakenAfter(f, i))
      {
        Step(f, data, i, m, s);
      }
      PixelsReached(Target(f), s + [data], 16 * |s| + 16, Now());
      var maxPixels := Pixels();
      if pixelsTransferred >= maxPixels {
        trxDir := 3;
        pixelsTransferred := 0;
      }
    }

    // ----- download

    ghost function Origin(f: Format): Window
      reads this
    {
      Window(f, Buffer(sourceBase, sourceWidth), sourceX, sourceY, width, height)
    }

    ghost function Here(): Cursor
      reads this
    {
      Cursor(intSourceX, intSourceY, pixelsTransferred, psmct24Color, psmct24UnpackedCount)
    }

    /** End of row, and coordinates wrap at 2048 pixels. */
    method AdvanceSource()
      requires Valid() && width > 0
      modifies `intSourceX, `intSourceY
      ensures forall f :: Here() == Advanced(Origin(f), old(Here()))
    {
      if pixelsTransferred % width == 0 {
        intSourceX := sourceX;
        intSourceY := intSourceY + 1;
      }
      intSourceX := intSourceX % 2048;
      intSourceY := intSourceY % 2048;
    }

    /** One pixel joins the doubleword. */
    method GatherPixel(f: Format, i: nat, data: Dword, ghost n: nat) returns (more: Dword)
      requires Valid() && width > 0 && !Is24(f) && i < StepsPerDword(f) && Start(f, i) <= 16
      requires Gathering(localMem[..], Origin(f), n, Start(f, i), data, Here())
      modifies `pixelsTransferred, `intSourceX, `intSourceY
      ensures Valid()
      ensures Gathering(localMem[..], Origin(f), n, Start(f, i + 1), more, Here())
    {
      hide Gathering, Start, Pixel, PixelAt, Fetch, Advanced, Or, Shl, StepsPerDword;
      StepsInside(f, i);
      PixelGathered(localMem[..], Origin(f), n, i, data, Here());
      FetchIsPixel(localMem[..], f, Buffer(sourceBase, sourceWidth), intSourceX, intSourceY);
      var pixel := Fetch(localMem[..], f, Buffer(sourceBase, sourceWidth), intSourceX, intSourceY);
      more := Or(data, Shl(pixel, Start(f, i)) % 0x1_0000_0000_0000_0000);
      pixelsTransferred := pixelsTransferred + 1;
      intSourceX := intSourceX + 1;
      AdvanceSource();
    }

    /** The next doubleword of a download, of whole pixels. n came before it. */
    method GatherDword(f: Format, ghost n: nat) returns (data: Dword)
      requires Valid() && width > 0 && !Is24(f)
      requires Gathering(localMem[..], Origin(f), n, 0, 0, Here())
      modifies `pixelsTransferred, `intSourceX, `intSourceY
      ensures Valid() && data == Packed(localMem[..], Origin(f), 16 * n, 16)
      ensures Gathering(localMem[..], Origin(f), n + 1, 0, 0, Here())
    {
      hide Gathering, Start, Packed;
      StepsInside(f, 0);
      data := 0;
      var ppd := StepsPerDword(f);
      for i := 0 to ppd
        invariant Valid() && i <= ppd && Start(f, i) <= 16
        invariant Gathering(localMem[..], Origin(f), n, Start(f, i), data, Here())
      {
        StepsInside(f, i);
        data := GatherPixel(f, i, data, n);
      }
      DwordGathered(localMem[..], Origin(f), n, data, Here());
    }

    /** The packer's own end-of-row check: the row number is not reduced. */
    method CheckRow()
      requires width > 0
      modifies `intSourceX, `intSourceY
      ensures forall f :: Here() == RowChecked(Origin(f), old(Here()))
    {
      if pixelsTransferred % width == 0 {
        intSourceX := sourceX;
        intSourceY := intSourceY + 1;
      }
    }

    /** A pixel read after the last one of the rectangle. */
    predicate OneMore(output: Dword, dataInOutput: nat)
      reads this
    {
      dataInOutput == 0 && output == 0 && psmct24UnpackedCount == 24 && psmct24Color < 0x100_0000
    }

    /** The pixel at hand goes into the doubleword as far as it fits. */
    method UsePixel(f: Format, output: Dword, dataInOutput: nat, ghost n: nat) returns (more: Dword, dataNow: nat)
      requires Valid() && width > 0 && Is24(f) && dataInOutput < 64 && dataInOutput % 4 == 0 && psmct24UnpackedCount > 0
      requires Packing(localMem[..], Origin(f), n, dataInOutput / 4, output, Here()) || OneMore(output, dataInOutput)
      modifies `pixelsTransferred, `intSourceX, `intSourceY, `psmct24Color, `psmct24UnpackedCount
      ensures Valid() && dataNow % 4 == 0 && dataNow > dataInOutput
      ensures if old(psmct24UnpackedCount) + dataInOutput > 64 then pixelsTransferred == old(pixelsTransferred)
              else pixelsTransferred == old(pixelsTransferred) + 1 && psmct24UnpackedCount == 0 == psmct24Color
      ensures old(Packing(localMem[..], Origin(f), n, dataInOutput / 4, output, Here())) ==>
        Packing(localMem[..], Origin(f), n, if dataNow < 64 then dataNow / 4 else 16, more, Here())
      ensures old(OneMore(output, dataInOutput)) ==> more < 0x100_0000
    {
      hide Packing, Or, Shl, Shr, RowChecked;
      ghost var t, now := dataInOutput / 4, Here();
      ghost var inside := Packing(localMem[..], Origin(f), n, t, output, now);
      if inside {
        UnpackedFits(localMem[..], Origin(f), n, t, output, now);
      }
      if OneMore(output, dataInOutput) {
        AloneInDword(psmct24Color);
      }
      dataNow := dataInOutput + psmct24UnpackedCount;
      var shifted := Shl(psmct24Color, dataInOutput / 4) % 0x1_0000_0000_0000_0000;
      if dataNow > 64 {
        PixelCut(localMem[..], Origin(f), n, t, output, now);
        more := Or(output, shifted);
        psmct24Color := Shr(psmct24Color, (psmct24UnpackedCount - (dataNow - 64)) / 4);
        psmct24UnpackedCount := dataNow - 64;
      } else {
        if inside {
          PixelUsed(localMem[..], Origin(f), n, t, output, now);
        }
        more := Or(output, shifted);
        psmct24UnpackedCount := 0;
        psmct24Color := 0;
        pixelsTransferred := pixelsTransferred + 1;
        if dataNow < 64 {
          CheckRow();
        }
      }
    }

    method FetchPixel(f: Format, ghost output: Dword, ghost t: nat, ghost n: nat)
      requires Valid() && width > 0 && Is24(f) && t < 16 && psmct24UnpackedCount == 0
      modifies `intSourceX, `intSourceY, `psmct24Color, `psmct24UnpackedCount
      ensures Valid() && psmct24UnpackedCount == 24 && psmct24Color < 0x100_0000
      ensures old(Packing(localMem[..], Origin(f), n, t, output, Here())) ==>
        Packing(localMem[..], Origin(f), n, t, output, Here())
    {
      hide Packing, Fetch, Pixel;
      if Packing(localMem[..], Origin(f), n, t, output, Here()) {
        PixelFetched(localMem[..], Origin(f), n, t, output, Here());
        PackingPlace(localMem[..], Origin(f), n, t, output, Here());
        FetchIsPixel(localMem[..], f, Buffer(sourceBase, sourceWidth), intSourceX, intSourceY);
      }
      psmct24Color := Fetch(localMem[..], f, Buffer(sourceBase, sourceWidth), intSourceX, intSourceY) % 0x100_0000;
      psmct24UnpackedCount := psmct24UnpackedCount + 24;
      intSourceX := (intSourceX + 1) % 2048;
      intSourceY := intSourceY % 2048;
    }

    /** A download between two doublewords, n of them done. */
    ghost predicate Between(f: Format, n: nat)
      requires localMem.Length == MEMORY_SIZE && width > 0
      reads this, localMem
    {
      if Is24(f) then Packing(localMem[..], Origin(f), n, 0, 0, Here())
      else Gathering(localMem[..], Origin(f), n, 0, 0, Here())
    }

    /** All 24-bit pixels of the rectangle are packed, in no more than n doublewords. */
    predicate Over(n: nat)
      reads this
    {
      && pixelsTransferred >= Pixels() && 6 * Pixels() <= 16 * n
      && psmct24UnpackedCount == 0 == psmct24Color
    }

    /** Doubleword n of a download of 24-bit pixels. The packer stops at the last pixel of the
        rectangle, and after it packs one pixel more if it is called again. */
    method PackPSMCT24(f: Format, ghost n: nat) returns (output: Dword)
      requires Valid() && width > 0 && Is24(f)
      requires if pixelsTransferred < Pixels() then Packing(localMem[..], Origin(f), n, 0, 0, Here()) else Over(n)
      modifies `pixelsTransferred, `intSourceX, `intSourceY, `psmct24Color, `psmct24UnpackedCount
      ensures Valid() && IsDword(localMem[..], Origin(f), n, output)
      ensures if pixelsTransferred < Pixels() then Packing(localMem[..], Origin(f), n, 16, output, Here())
              else Over(n + 1)
    {
      hide Packing, Packed, Filled;
      ghost var inside := pixelsTransferred < Pixels();
      PackingSoFar(f, n);
      output := 0;
      var dataInOutput: nat := 0;
      while dataInOutput < 64
        invariant Valid() && dataInOutput % 4 == 0
        invariant inside ==> pixelsTransferred < Pixels()
        invariant inside ==> Packing(localMem[..], Origin(f), n, if dataInOutput < 64 then dataInOutput / 4
            else 16, output, Here())
        invariant !inside ==> pixelsTransferred >= Pixels() && dataInOutput == 0 && output == 0
        invariant !inside && psmct24UnpackedCount > 0 ==> OneMore(output, dataInOutput)
        decreases 64 - dataInOutput, if psmct24UnpackedCount == 0 then 1 else 0
      {
        if psmct24UnpackedCount > 0 {
          output, dataInOutput := UsePixel(f, output, dataInOutput, n);
          var maxPixels := Pixels();
          if pixelsTransferred >= maxPixels {
            Stopped(f, n, if dataInOutput < 64 then dataInOutput / 4 else 16, output, inside);
            return;
          }
        } else {
          FetchPixel(f, output, dataInOutput / 4, n);
        }
      }
      NotTheLast(localMem[..], Origin(f), n, output, Here());
    }

    lemma PackingSoFar(f: Format, n: nat)
      requires Valid() && width > 0 && Is24(f)
      requires if pixelsTransferred < Pixels() then Packing(localMem[..], Origin(f), n, 0, 0, Here()) else Over(n)
      ensures pixelsTransferred < Pixels() <==> 16 * n < 6 * Pixels()
      ensures pixelsTransferred >= Pixels() ==> psmct24UnpackedCount == 0
    {
      hide Packing;
      if pixelsTransferred < Pixels() {
        PackedSoFar(localMem[..], Origin(f), n, Here());
      }
    }

    lemma Stopped(f: Format, n: nat, t: nat, output: Dword, inside: bool)
      requires Valid() && width > 0 && Is24(f) && t > 0 && psmct24UnpackedCount == 0 == psmct24Color
      requires inside <==> 16 * n < 6 * Pixels()
      requires inside ==> pixelsTransferred == Pixels() && Packing(localMem[..], Origin(f), n, t, output, Here())
      requires !inside ==> pixelsTransferred >= Pixels() && output < 0x100_0000
      ensures IsDword(localMem[..], Origin(f), n, output) && Over(n + 1)
    {
      hide Packing, Packed;
      if inside {
        LastPixel(localMem[..], Origin(f), n, t, output, Here());
        PackedInDword(localMem[..], Origin(f), n, t, output, Here());
      }
    }

    /** n doublewords of a download are done. */
    ghost predicate Ready(f: Format, n: nat)
      requires localMem.Length == MEMORY_SIZE && width > 0
      reads this, localMem
    {
      if Is24(f) && pixelsTransferred >= Pixels() then Over(n) else Between(f, n)
    }

    lemma Begins(f: Format, n: nat)
      requires Valid() && width > 0 && Is24(f)
      ensures Ready(f, n) <==>
        if pixelsTransferred < Pixels() then Packing(localMem[..], Origin(f), n, 0, 0, Here()) else Over(n)
    {
    }

    /** A doubleword of 24-bit pixels, and the end-of-row check of the main loop. */
    method PackDword(f: Format, ghost n: nat) returns (data: Dword)
      requires Valid() && width > 0 && Is24(f) && Ready(f, n)
      modifies `pixelsTransferred, `intSourceX, `intSourceY, `psmct24Color, `psmct24UnpackedCount
      ensures Valid() && IsDword(localMem[..], Origin(f), n, data) && Ready(f, n + 1)
    {
      hide Packing, Gathering, Advanced, Pixels, IsDword, Ready;
      Begins(f, n);
      data := PackPSMCT24(f, n);
      ghost var m, win, before := localMem[..], Origin(f), Here();
      AdvanceSource();
      assert localMem[..] == m && Origin(f) == win && Here() == Advanced(win, before);
      NextReady(f, n, data, before);
    }

    lemma NextReady(f: Format, n: nat, data: Dword, before: Cursor)
      requires Valid() && width > 0 && Is24(f) && Here() == Advanced(Origin(f), before)
      requires if pixelsTransferred < Pixels() then Packing(localMem[..], Origin(f), n, 16, data, before)
               else Over(n + 1)
      ensures Ready(f, n + 1)
    {
      hide Packing, Advanced, Pixels;
      if pixelsTransferred < Pixels() {
        DwordPacked(localMem[..], Origin(f), n, data, before);
      }
    }

    method DownloadDword(f: Format, ghost n: nat) returns (data: Dword)
      requires Valid() && width > 0 && Ready(f, n)
      modifies `pixelsTransferred, `intSourceX, `intSourceY, `psmct24Color, `psmct24UnpackedCount
      ensures Valid() && IsDword(localMem[..], Origin(f), n, data) && Ready(f, n + 1)
    {
      hide Packing, Gathering, Packed, Pixels, IsDword;
      if Is24(f) {
        data := PackDword(f, n);
      } else {
        data := GatherDword(f, n);
        WholeDword(localMem[..], Origin(f), n, data);
      }
    }

    method DownloadQuadword(f: Format, ghost n: nat) returns (first: Dword, second: Dword)
      requires Valid() && width > 0 && Ready(f, n)
      modifies `pixelsTransferred, `intSourceX, `intSourceY, `psmct24Color, `psmct24UnpackedCount
      ensures Valid() && Ready(f, n + 2)
      ensures IsDword(localMem[..], Origin(f), n, first) && IsDword(localMem[..], Origin(f), n + 1, second)
    {
      hide Ready, IsDword;
      first := DownloadDword(f, n);
      second := DownloadDword(f, n + 1);
    }

    /** out holds the quadwords of a download so far. */
    ghost predicate Downloading(f: Format, out: seq<Dword>)
      requires localMem.Length == MEMORY_SIZE && width > 0
      reads this, localMem
    {
      Ready(f, |out|) && Streamed(localMem[..], Origin(f), out) && |out| % 2 == 0
    }

    method DownloadMore(f: Format, out: seq<Dword>) returns (more: seq<Dword>)
      requires Valid() && width > 0 && Downloading(f, out) && pixelsTransferred < Pixels()
      modifies `pixelsTransferred, `intSourceX, `intSourceY, `psmct24Color, `psmct24UnpackedCount
      ensures Valid() && Downloading(f, more) && |more| == |out| + 2 && 16 * |out| < Start(f, Pixels())
    {
      hide Streamed, Ready, Start, IsDword, Pixels, Nibbles, Is24, Pow16;
      MoreToCome(f, |out|);
      var first, second := DownloadQuadword(f, |out|);
      StreamedMore(localMem[..], Origin(f), out, first, second);
      more := out + [first, second];
    }

    /** A quadword at a time until the rectangle is through. */
    method DownloadAll(f: Format) returns (out: seq<Dword>)
      requires Valid() && width > 0 && height > 0 && Here() == Cursor(sourceX, sourceY, 0, 0, 0)
      modifies `pixelsTransferred, `intSourceX, `intSourceY, `psmct24Color, `psmct24UnpackedCount
      ensures Valid() && Streamed(localMem[..], Origin(f), out)
      ensures |out| % 2 == 0 && Start(f, Pixels()) <= 16 * |out| < Start(f, Pixels()) + 32
    {
      hide Streamed, Ready, Start, Packed, Pixels;
      NothingDownloaded(f);
      out := [];
      while pixelsTransferred < Pixels()
        invariant Valid() && Downloading(f, out)
        invariant 16 * |out| < Start(f, Pixels()) + 32
        decreases Start(f, Pixels()) - 16 * |out|
      {
        out := DownloadMore(f, out);
      }
      AllDownloaded(f, |out|);
    }

    /** The download, from where writing TRXDIR left the registers. After the last 24-bit pixel
        its doubleword is filled up with zeros. */
    method LocalToHost() returns (out: seq<Dword>, died: bool)
      requires Valid()
      requires trxDir != 3 && width > 0 && height > 0 && DownloadFormat(sourceFormat).Some? ==>
        Here() == Cursor(sourceX, sourceY, 0, 0, 0)
      modifies `trxDir, `pixelsTransferred, `intSourceX, `intSourceY, `psmct24Color, `psmct24UnpackedCount
      ensures Valid()
      ensures old(trxDir) == 3 || width == 0 || height == 0 ==> out == [] && !died && trxDir == 3
      ensures died <==> old(trxDir) != 3 && width > 0 && height > 0 && DownloadFormat(sourceFormat).None?
      ensures old(trxDir) != 3 && width > 0 && height > 0 && !died ==>
        var f := DownloadFormat(sourceFormat).value;
        && trxDir == 3 && pixelsTransferred == 0
        && Downloaded(localMem[..], Origin(f), out)
        && |out| % 2 == 0 && Start(f, Pixels()) <= 16 * |out| < Start(f, Pixels()) + 32
        && (Is24(f) ==> forall j :: 0 <= 16 * (j / 16) < 6 * Pixels() <= j < 16 * |out| ==> Nth(out, j) == 0)
    {
      hide Downloaded, Streamed, Start, DownloadFormat, Nth;
      out, died := [], false;
      if trxDir == 3 {
        return;
      }
      if width == 0 || height == 0 {
        trxDir := 3;
        pixelsTransferred := 0;
        return;
      }
      var format := DownloadFormat(sourceFormat);
      if format.None? {
        died := true;
        return;
      }
      out := DownloadAll(format.value);
      StreamedIsDownloaded(localMem[..], Origin(format.value), out);
      if Is24(format.value) {
        forall j | 0 <= 16 * (j / 16) < 6 * Pixels() <= j < 16 * |out| ensures Nth(out, j) == 0 {
          RestIsZero(localMem[..], Origin(format.value), out, j);
        }
      }
      trxDir := 3;
      pixelsTransferred := 0;
    }

    lemma NothingDownloaded(f: Format)
      requires Valid() && width > 0 && height > 0 && Here() == Cursor(sourceX, sourceY, 0, 0, 0)
      ensures Ready(f, 0) && Streamed(localMem[..], Origin(f), [])
    {
      hide Packing, Gathering;
      SomePixels();
      if Is24(f) {
        PackingBegins(localMem[..], Origin(f), Here());
      } else {
        GatheringBegins(localMem[..], Origin(f), Here());
      }
    }

    lemma MoreToCome(f: Format, n: nat)
      requires Valid() && width > 0 && Ready(f, n) && pixelsTransferred < Pixels()
      ensures 16 * n < Start(f, Pixels())
    {
      hide Packing, Gathering;
      if Is24(f) {
        PackedSoFar(localMem[..], Origin(f), n, Here());
      } else {
        GatheredSoFar(localMem[..], Origin(f), n, Here());
      }
      StartMonotone(f, pixelsTransferred + 1, Pixels());
    }

    lemma AllDownloaded(f: Format, n: nat)
      requires Valid() && width > 0 && Ready(f, n) && pixelsTransferred >= Pixels()
      ensures 16 * n >= Start(f, Pixels())
    {
      hide Gathering;
      if !Is24(f) {
        GatheredSoFar(localMem[..], Origin(f), n, Here());
        StartMonotone(f, Pixels(), pixelsTransferred);
      }
    }

    // ----- copy inside memory

    ghost function From(): Scan
      reads this
    {
      Scan(transOrder, sourceX, sourceY, width, height)
    }

    ghost function To(): Scan
      reads this
    {
      Scan(transOrder, destX, destY, width, height)
    }

    /** The first pixel of each rectangle in the scan order. */
    method CopyStarts() returns (destStartX: nat, sourceStartX: nat, left: bool, up: bool)
      requires Valid() && width > 0 && height > 0
      modifies `intSourceX, `intSourceY, `intDestX, `intDestY
      ensures intSourceX == sourceStartX == StartX(From()) && intSourceY == StartY(From())
      ensures intDestX == destStartX == StartX(To()) && intDestY == StartY(To())
      ensures left == Leftward(From()) && up == Upward(From())
    {
      match transOrder {
        case 0 =>
          destStartX, sourceStartX, left, up := destX, sourceX, false, false;
          intDestY, intSourceY := destY, sourceY;
        case 1 =>
          destStartX, sourceStartX, left, up := destX, sourceX, false, true;
          intDestY, intSourceY := destY + height - 1, sourceY + height - 1;
        case 2 =>
          destStartX, sourceStartX, left, up := destX + width - 1, sourceX + width - 1, true, false;
          intDestY, intSourceY := destY, sourceY;
        case _ =>
          destStartX, sourceStartX, left, up := destX + width - 1, sourceX + width - 1, true, true;
          intDestY, intSourceY := destY + height - 1, sourceY + height - 1;
      }
      intDestX, intSourceX := destStartX, sourceStartX;
    }

    /** p pixels are copied since memory was m. */
    ghost predicate CopyReached(f: Format, g: Format, m: seq<Byte>)
      requires |m| == MEMORY_SIZE && Valid() && width > 0 && height > 0
      reads this, localMem
    {
      var p := pixelsTransferred;
      && intSourceX == ScanX(From(), p) && intSourceY == ScanY(From(), p)
      && intDestX == ScanX(To(), p) && intDestY == ScanY(To(), p)
      && localMem[..] == Copied(m, f, g, Buffer(sourceBase, sourceWidth), Buffer(destBase, destWidth), From(), To(), p)
    }

    /** The registers go on to the next pixel. */
    method CopyAdvance(destStartX: nat, sourceStartX: nat, left: bool, up: bool)
      requires Valid() && width > 0 && height > 0 && pixelsTransferred > 0
      requires sourceStartX == StartX(From()) && destStartX == StartX(To())
      requires left == Leftward(From()) && up == Upward(From())
      requires intSourceX == ScanX(From(), pixelsTransferred - 1) && intSourceY == ScanY(From(), pixelsTransferred - 1)
      requires intDestX == ScanX(To(), pixelsTransferred - 1) && intDestY == ScanY(To(), pixelsTransferred - 1)
      modifies `intSourceX, `intSourceY, `intDestX, `intDestY
      ensures intSourceX == ScanX(From(), pixelsTransferred) && intSourceY == ScanY(From(), pixelsTransferred)
      ensures intDestX == ScanX(To(), pixelsTransferred) && intDestY == ScanY(To(), pixelsTransferred)
    {
      hide ScanX, ScanY, StartX, StartY, Column, Step16;
      ScanUnfolds(From(), pixelsTransferred);
      ScanUnfolds(To(), pixelsTransferred);
      SteppedIs(intSourceX, left);
      SteppedIs(intSourceY, up);
      SteppedIs(intDestX, left);
      SteppedIs(intDestY, up);
      RowEnds(pixelsTransferred);
      hide Stepped;
      intSourceX, intDestX := Step16(intSourceX, left), Step16(intDestX, left);
      if pixelsTransferred % width == 0 {
        intSourceX, intSourceY := sourceStartX, Step16(intSourceY, up);
        intDestX, intDestY := destStartX, Step16(intDestY, up);
      }
      intSourceX, intSourceY := intSourceX % 2048, intSourceY % 2048;
      intDestX, intDestY := intDestX % 2048, intDestY % 2048;
    }

    lemma RowEnds(p: nat)
      requires Valid() && width > 0 && height > 0
      ensures p % width == 0 <==> Column(From(), p) == 0
      ensures p % width == 0 <==> Column(To(), p) == 0
    {
    }

    method CopyPixel(f: Format, g: Format, destStartX: nat, sourceStartX: nat, left: bool, up: bool, ghost m: seq<Byte>)
      requires Valid() && width > 0 && height > 0 && |m| == MEMORY_SIZE && CopyReached(f, g, m)
      requires sourceStartX == StartX(From()) && destStartX == StartX(To())
      requires left == Leftward(From()) && up == Upward(From())
      modifies `pixelsTransferred, `intSourceX, `intSourceY, `intDestX, `intDestY, localMem
      ensures Valid() && CopyReached(f, g, m) && pixelsTransferred == old(pixelsTransferred) + 1
    {
      hide Store, Fetch, ScanX, ScanY, StartX, StartY;
      var data := Fetch(localMem[..], f, Buffer(sourceBase, sourceWidth), intSourceX, intSourceY);
      WriteBlock(g, Buffer(destBase, destWidth), intDestX, intDestY, data);
      pixelsTransferred := pixelsTransferred + 1;
      CopyAdvance(destStartX, sourceStartX, left, up);
    }

    /** The copy. It dies on the first pixel if it does not know one of the formats. */
    method LocalToLocal() returns (died: bool)
      requires Valid() && pixelsTransferred == 0
      modifies `trxDir, `pixelsTransferred, `intSourceX, `intSourceY, `intDestX, `intDestY, localMem
      ensures Valid()
      ensures died <==> width > 0 && height > 0 && (CopySource(sourceFormat).None? || CopyTarget(destFormat).None?)
      ensures died || width == 0 || height == 0 ==> localMem[..] == old(localMem[..])
      ensures !died ==> trxDir == 3 && pixelsTransferred == 0
      ensures !died && width > 0 && height > 0 ==>
        localMem[..] == Copied(old(localMem[..]), CopySource(sourceFormat).value, CopyTarget(destFormat).value,
          Buffer(sourceBase, sourceWidth), Buffer(destBase, destWidth), From(), To(), Pixels())
    {
      hide Store, Fetch, CopySource, CopyTarget, StartX, StartY, Pixels;
      died := false;
      if width == 0 || height == 0 {
        trxDir := 3;
        pixelsTransferred := 0;
        return;
      }
      var maxPixels := Pixels();
      SomePixels();
      var destStartX, sourceStartX, left, up := CopyStarts();
      var format, target := CopySource(sourceFormat), CopyTarget(destFormat);
      if format.None? || target.None? {
        died := true;
        return;
      }
      while pixelsTransferred < maxPixels
        invariant Valid() && pixelsTransferred <= maxPixels
        invariant CopyReached(format.value, target.value, old(localMem[..]))
      {
        CopyPixel(format.value, target.value, destStartX, sourceStartX, left, up, old(localMem[..]));
      }
      pixelsTransferred := 0;
      trxDir := 3;
    }

    lemma SomePixels()
      requires width > 0 && height > 0
      ensures Pixels() > 0
    {
    }

    // ----- transfers as a whole

    method BeginTransfer()
      modifies `pixelsTransferred, `intSourceX, `intSourceY, `intDestX, `intDestY, `psmct24Color, `psmct24UnpackedCount
      ensures Now() == Cursor(destX, destY, 0, 0, 0) && Here() == Cursor(sourceX, sourceY, 0, 0, 0)
    {
      pixelsTransferred := 0;
      intDestX, intDestY := destX, destY;
      intSourceX, intSourceY := sourceX, sourceY;
      psmct24UnpackedCount, psmct24Color := 0, 0;
    }

    /** A write to TRXDIR begins a transfer; a copy runs at once. */
    method WriteTrxDir(value: nat) returns (died: bool)
      requires Valid()
      modifies `trxDir, `pixelsTransferred, `intSourceX, `intSourceY, `intDestX, `intDestY, `psmct24Color,
        `psmct24UnpackedCount, localMem
      ensures Valid()
      ensures value % 4 != 2 ==> !died && trxDir == value % 4 && localMem[..] == old(localMem[..])
      ensures value % 4 < 2 ==> Now() == Cursor(destX, destY, 0, 0, 0) && Here() == Cursor(sourceX, sourceY, 0, 0, 0)
      ensures value % 4 == 2 ==>
        && (died <==> width > 0 && height > 0 && (CopySource(sourceFormat).None? || CopyTarget(destFormat).None?))
        && (died || width == 0 || height == 0 ==> localMem[..] == old(localMem[..]))
        && (!died ==> trxDir == 3)
        && (!died && width > 0 && height > 0 ==>
          localMem[..] == Copied(old(localMem[..]), CopySource(sourceFormat).value, CopyTarget(destFormat).value,
            Buffer(sourceBase, sourceWidth), Buffer(destBase, destWidth), From(), To(), Pixels()))
    {
      hide Copied, CopySource, CopyTarget, Pixels;
      died := false;
      trxDir := value % 4;
      if trxDir != 3 {
        BeginTransfer();
        if trxDir == 2 {
          died := LocalToLocal();
          if !died {
            trxDir := 3;
          }
        }
      }
    }

    /** Doublewords up to the one that completes the rectangle. */
    method UploadAll(f: Format, data: seq<Dword>)
      requires Valid() && width > 0 && height > 0 && 0 < |data|
      requires trxDir == 0 && Now() == Cursor(destX, destY, 0, 0, 0) && UploadFormat(destFormat) == Some(f)
      requires PixelWith(f, 16 * (|data| - 1)) < Pixels() <= PixelWith(f, 16 * |data|)
      modifies `trxDir, `pixelsTransferred, `intDestX, `intDestY, `psmct24Color, `psmct24UnpackedCount, localMem
      ensures Valid() && trxDir == 3
      ensures Start(f, PixelWith(f, 16 * |data|)) <= 16 * |data|
      ensures localMem[..] == Uploaded(old(localMem[..]), Target(f), data, PixelWith(f, 16 * |data|))
    {
      hide Sent, Uploaded, UploadFormat, PixelWith, Start, Pixels;
      UploadBegins(f);
      var i := 0;
      while i < |data|
        invariant Valid() && i <= |data|
        invariant i < |data| ==> trxDir == 0 && Sent(f, old(localMem[..]), data[..i], 16 * i)
        invariant i == |data| ==> trxDir == 3 && Start(f, PixelWith(f, 16 * i)) <= 16 * i
        invariant i == |data| ==> localMem[..] == Uploaded(old(localMem[..]), Target(f), data, PixelWith(f, 16 * i))
      {
        assert data[..i] + [data[i]] == data[..i + 1];
        WriteHwReg(data[i], old(localMem[..]), data[..i]);
        i := i + 1;
        if i < |data| {
          PixelsGrow(f, i, |data| - 1);
        }
        assert data[..|data|] == data;
      }
    }

    lemma UploadBegins(f: Format)
      requires Valid() && width > 0 && Now() == Cursor(destX, destY, 0, 0, 0)
      ensures Sent(f, localMem[..], [], 0)
    {
      hide Reached;
      Begun(Target(f), [], Now());
    }

    lemma SameWindow(f: Format)
      requires sourceBase == destBase && sourceWidth == destWidth && sourceX == destX && sourceY == destY
      ensures Origin(f) == Target(f) && PixelCount(Target(f)) == Pixels()
    {
    }

    /** Uploading a rectangle and downloading the same one gives back what was sent of its
        pixels, for every format both directions know. Those are all of the doublewords, but
        for what follows the last pixel of a 24-bit rectangle in its doubleword. */
    method RoundTrip(f: Format, data: seq<Dword>) returns (out: seq<Dword>)
      requires Valid() && width > 0 && height > 0 && 0 < |data|
      requires UploadFormat(destFormat) == Some(f) == DownloadFormat(sourceFormat)
      requires sourceBase == destBase && sourceWidth == destWidth && sourceX == destX && sourceY == destY
      requires PixelWith(f, 16 * (|data| - 1)) < Pixels() <= PixelWith(f, 16 * |data|)
      requires Faithful(Target(f), PixelWith(f, 16 * |data|))
      modifies `trxDir, `pixelsTransferred, `intSourceX, `intSourceY, `intDestX, `intDestY, `psmct24Color,
        `psmct24UnpackedCount, localMem
      ensures |out| >= |data| && Same(data, out, Start(f, Pixels()))
      ensures !Is24(f) || Pixels() % 8 == 0 ==> out[..|data|] == data
    {
      hide Reached, Uploaded, Faithful, Downloaded, UploadFormat, DownloadFormat, PixelWith, Start, Pixels, Copied,
          CopySource,
        CopyTarget, Is24, Nibbles, Pow16;
      ghost var m := localMem[..];
      var died := WriteTrxDir(0);
      UploadAll(f, data);
      died := WriteTrxDir(1);
      out, died := LocalToHost();
      SameWindow(f);
      DataReturns(m, Target(f), data, PixelWith(f, 16 * |data|), out);
    }
  }

  /** A 16-bit register one step on. */
  function Step16(v: nat, back: bool): nat {
    (if back then v + 65535 else v + 1) % 65536
  }

  lemma PixelsGrow(f: Format, i: nat, n: int)
    requires i <= n
    ensures PixelWith(f, 16 * i) <= PixelWith(f, 16 * n)
  {
  }

  lemma DwordsHoldWhole(f: Format, d: nat)
    requires !Is24(f)
    ensures Start(f, PixelWith(f, 16 * d)) == 16 * d
  {
    var k := match Nibbles(f) case 8 => 2 * d case 4 => 4 * d case 2 => 8 * d case _ => 16 * d;
    assert Start(f, k) == 16 * d;
    hide Start, PixelWith, Nibbles;
    PixelsCounted(f, k);
  }

  lemma DataReturns(m: seq<Byte>, win: Window, s: seq<Dword>, n: nat, out: seq<Dword>)
    requires |m| == MEMORY_SIZE && win.w > 0 && 0 < |s|
    requires PixelWith(win.format, 16 * (|s| - 1)) < PixelCount(win) <= n == PixelWith(win.format, 16 * |s|)
    requires Start(win.format, PixelCount(win)) <= 16 * |out|
    requires Start(win.format, n) <= 16 * |s| && Faithful(win, n)
    requires Downloaded(Uploaded(m, win, s, n), win, out)
    ensures |out| >= |s| && Same(s, out, Start(win.format, PixelCount(win)))
    ensures !Is24(win.format) || PixelCount(win) % 8 == 0 ==> out[..|s|] == s
  {
    hide *;
    EnoughComesBack(win.format, PixelCount(win), |s|, |out|);
    if Is24(win.format) {
      StreamReturns(m, win, s, n, out, PixelCount(win));
      if PixelCount(win) % 8 == 0 {
        WholeDwords(win.format, PixelCount(win), |s|);
        NibblesDetermineStream(s, out);
      }
    } else {
      DwordsHoldWhole(win.format, |s|);
      StreamReturns(m, win, s, n, out, n);
      StartMonotone(win.format, PixelCount(win), n);
      SameFewer(s, out, Start(win.format, n), Start(win.format, PixelCount(win)));
      NibblesDetermineStream(s, out);
    }
  }

  lemma SameFewer(s: seq<Dword>, t: seq<Dword>, n: nat, r: nat)
    requires Same(s, t, n) && r <= n
    ensures Same(s, t, r)
  {
    hide Nth;
  }

  /** A multiple of eight 24-bit pixels fills its doublewords. */
  lemma WholeDwords(f: Format, max: nat, d: nat)
    requires Is24(f) && max % 8 == 0 && d > 0 && PixelWith(f, 16 * (d - 1)) < max <= PixelWith(f, 16 * d)
    ensures Start(f, max) == 16 * d
  {
    ByPixels24(Window(f, Buffer(0, 0), 0, 0, 0, 0), 16 * (d - 1), 16 * d);
    EightPixels(max / 8, 16 * (d - 1) / 6, 16 * d / 6, d);
  }

  lemma EightPixels(r: nat, a: nat, b: nat, d: nat)
    requires 16 * (d - 1) < 6 * (a + 1) && 6 * b <= 16 * d && a < 8 * r <= b
    ensures 48 * r == 16 * d
  {
  }

  lemma EnoughComesBack(f: Format, max: nat, d: nat, n: nat)
    requires d > 0 && PixelWith(f, 16 * (d - 1)) < max && Start(f, max) <= 16 * n
    ensures n >= d
  {
  }

  lemma SteppedIs(v: nat, back: bool)
    ensures Stepped(v, back) == Step16(v, back) % 2048
  {
  }

  lemma AllTaken(f: Format)
    ensures TakenAfter(f, 0) == 0 && TakenAfter(f, StepsPerDword(f)) == 16
  {
  }

  lemma StepsInside(f: Format, i: nat)
    requires !Is24(f) && i < StepsPerDword(f)
    ensures Start(f, 0) == 0 && Start(f, i) <= 16 && Start(f, i + 1) <= 16 && Start(f, StepsPerDword(f)) == 16
  {
  }
}