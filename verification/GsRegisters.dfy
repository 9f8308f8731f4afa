/** The registers of the GS, kept once by its manager and once by its thread.

    The manager sends every operation to the thread as a message and performs it on its own
    copy as well. Over every run the thread's copy, once the queued messages are applied, is
    proved to be the manager's, except for two fields that only the manager uses. */
module GsRegisters {
  import opened Bits

  datatype Pmode = Pmode(circuit1: bool, circuit2: bool, outputSwitching: nat, useAlp: bool, out1Circuit2: bool,
                         blendWithBg: bool, alp: nat)

  datatype Smode1 = Smode1(pllReset: bool, ycbcrColor: bool, referenceDivider: nat, loopDivider: nat,
      outputDivider: nat,
                           colorSystem: nat)

  datatype Smode2 = Smode2(interlaced: bool, frameMode: bool, powerMode: nat)

  datatype Synch1 = Synch1(frontPorch: nat, backPorch: nat)

  datatype Syncv = Syncv(frontPorch: nat, backPorch: nat, afterFrontPorch: nat, afterBackPorch: nat, withVideo: nat,
                         withVsync: nat)

  datatype Dispfb = Dispfb(frameBase: nat, width: nat, format: nat, x: nat, y: nat)

  datatype Display = Display(x: nat, y: nat, magnifyX: nat, magnifyY: nat, width: nat, height: nat)

  datatype Imr = Imr(signal: bool, finish: bool, hsync: bool, vsync: bool, rawt: bool)

  datatype Csr = Csr(signalGenerated: bool, signalStall: bool, signalIrqPending: bool, hblankGenerated: bool,
                     vblankGenerated: bool, isOddFrame: bool, finishGenerated: bool, finishRequested: bool,
                     fifoStatus: nat)

  datatype Siglblid = Siglblid(sigId: nat, backupSigId: nat, lblId: nat)

  datatype Deinterlace = NoDeinterlace | Bob

  /** The registers of the picture, which no event changes. */
  datatype Video = Video(pmode: Pmode, smode1: Smode1, smode2: Smode2, synch1: Synch1, syncv: Syncv, dispfb1: Dispfb,
                         dispfb2: Dispfb, display1: Display, display2: Display, busdir: nat, crtMode: nat, bgcolor: nat,
                         deinterlace: Deinterlace)

  datatype Registers = Registers(video: Video, imr: Imr, csr: Csr, siglblid: Siglblid)

  /** An operation that dies leaves no registers. */
  datatype Result<T> = Ok(value: T) | Died

  // ----- fields of a 64-bit value

  function Bit(value: nat, n: nat): bool { ShiftRight(value, n) % 2 == 1 }

  function BitField(value: nat, n: nat, width: nat): nat { Truncate(width, ShiftRight(value, n)) }

  /** (old & ~mask) | (value & mask), on 32 bits */
  function Masked(oldValue: nat, mask: nat, value: nat): nat {
    Or(And(oldValue, if mask <= 0xFFFF_FFFF then 0xFFFF_FFFF - mask else 0), And(value, mask))
  }

  function ReadDispfb(value: nat): Dispfb {
    Dispfb(BitField(value, 0, 9) * 2048, BitField(value, 9, 6) * 64, BitField(value, 15, 5), BitField(value, 32, 11),
           BitField(value, 43, 11))
  }

  function ReadDisplay(value: nat): Display {
    var magnifyX, magnifyY := BitField(value, 23, 4) + 1, BitField(value, 27, 2) + 1;
    hide BitField;
    Display(Unmagnified(BitField(value, 0, 12), magnifyX), Unmagnified(BitField(value, 12, 11), magnifyY),
            magnifyX, magnifyY, Unmagnified(BitField(value, 32, 12) + 1, magnifyX),
            Unmagnified(BitField(value, 44, 11) + 1, magnifyY))
  }

  function Unmagnified(size: nat, magnify: nat): nat
    requires magnify > 0
  {
    size / magnify
  }

  // ----- the operations of the register file

  function CrtSet(v: Video, interlaced: bool, mode: nat, frameMode: bool): Video {
    v.(smode2 := v.smode2.(interlaced := interlaced, frameMode := frameMode), crtMode := mode)
  }

  function SetCrt(r: Registers, interlaced: bool, mode: nat, frameMode: bool): Registers {
    r.(video := CrtSet(r.video, interlaced, mode, frameMode))
  }

  function VideoReset(v: Video): Video {
    CrtSet(v.(
      smode1 := Smode1(false, false, 0, 0, 0, 0), smode2 := Smode2(false, false, 0), deinterlace := Bob,
      synch1 := Synch1(0, 0), syncv := Syncv(0, 0, 0, 0, 0, 0),
      dispfb1 := v.dispfb1.(frameBase := 0, width := 0, x := 0, y := 0),
      dispfb2 := v.dispfb2.(frameBase := 0, width := 0, x := 0, y := 0),
      display1 := Display(0, 0, 1, 1, 0, 0), display2 := Display(0, 0, 1, 1, 0, 0),
      pmode := v.pmode.(circuit1 := false, circuit2 := false)), false, 2, false)
  }

  function Reset(r: Registers, soft: bool): Registers {
    Registers(VideoReset(r.video), Imr(true, true, true, true, true),
              Csr(false, false, false, false, false, if soft then r.csr.isOddFrame else true, false, false, 1),
              Siglblid(0, 0, 0))
  }

  /** Acknowledging SIGNAL brings on one that was held up, but leaves its interrupt pending. */
  function AcknowledgeSignal(r: Registers): Registers {
    if r.csr.signalStall then
      r.(csr := r.csr.(signalStall := false, signalGenerated := true, signalIrqPending := true),
         siglblid := r.siglblid.(sigId := r.siglblid.backupSigId))
    else r.(csr := r.csr.(signalGenerated := false, signalIrqPending := false))
  }

  function Acknowledge(r: Registers, finish: bool, hblank: bool, vblank: bool): Registers {
    r.(csr := r.csr.(finishGenerated := r.csr.finishGenerated && !finish,
                     hblankGenerated := r.csr.hblankGenerated && !hblank,
                     vblankGenerated := r.csr.vblankGenerated && !vblank))
  }

  /** A write to CSR acknowledges interrupts, and may reset. */
  function WriteCsr(r: Registers, value: nat): Registers {
    var a := if Bit(value, 0) then AcknowledgeSignal(r) else r;
    var b := Acknowledge(a, Bit(value, 1), Bit(value, 2), Bit(value, 3));
    if Bit(value, 9) then Reset(b, true) else b
  }

  /** The picture registers; anything unknown dies. */
  function WriteVideo(v: Video, addr: nat, value: nat): Result<Video> {
    match addr
    case 0x0000 =>
      Ok(v.(pmode := Pmode(Bit(value, 0), Bit(value, 1), BitField(value, 2, 3), Bit(value, 5), Bit(value, 6),
          Bit(value, 7),
                           BitField(value, 8, 8))))
    case 0x0010 =>
      Ok(v.(smode1 := Smode1(Bit(value, 16), Bit(value, 25), BitField(value, 0, 3), BitField(value, 3, 7),
                             BitField(value, 10, 2), BitField(value, 13, 2))))
    case 0x0020 =>
      var smode2 := Smode2(Bit(value, 0), Bit(value, 1), BitField(value, 2, 2));
      Ok(v.(smode2 := smode2, deinterlace := if smode2.interlaced && smode2.frameMode then NoDeinterlace else Bob))
    case 0x0030 => Ok(v)
    case 0x0040 => Ok(v.(synch1 := Synch1(BitField(value, 0, 11), BitField(value, 11, 11))))
    case 0x0050 => Ok(v)
    case 0x0060 =>
      Ok(v.(syncv := Syncv(BitField(value, 0, 10), BitField(value, 20, 12), BitField(value, 10, 10),
          BitField(value, 32, 10),
                           BitField(value, 42, 11), BitField(value, 53, 11))))
    case 0x0070 => Ok(v.(dispfb1 := ReadDispfb(value)))
    case 0x0080 => Ok(v.(display1 := ReadDisplay(value)))
    case 0x0090 => Ok(v.(dispfb2 := ReadDispfb(value)))
    case 0x00A0 => Ok(v.(display2 := ReadDisplay(value)))
    case 0x00B0 => Ok(v)
    case 0x00C0 => Ok(v)
    case 0x00D0 => if Bit(value, 0) then Died else Ok(v)
    case 0x00E0 => Ok(v.(bgcolor := BitField(value, 0, 24)))
    case 0x1040 => Ok(v.(busdir := BitField(value, 0, 8)))
    case _ => Died
  }

  function Write64Privileged(r: Registers, addr: nat, value: nat): Result<Registers> {
    match And(addr, 0x13F0)
    case 0x1000 => Ok(WriteCsr(r, value))
    case 0x1010 => Ok(r.(imr := Imr(Bit(value, 8), Bit(value, 9), Bit(value, 10), Bit(value, 11), Bit(value, 12))))
    case 0x1080 => Ok(r.(siglblid := r.siglblid.(sigId := BitField(value, 0, 32), lblId := BitField(value, 32, 32))))
    case other =>
      match WriteVideo(r.video, other, value)
      case Died => Died
      case Ok(video) => Ok(r.(video := video))
  }

  /** A second SIGNAL before the first is acknowledged stalls. */
  function Signal(r: Registers, mask: nat, value: nat): Registers {
    if r.csr.signalGenerated then
      r.(csr := r.csr.(signalStall := true),
          siglblid := r.siglblid.(backupSigId := Masked(r.siglblid.sigId, mask, value)))
    else
      r.(csr := r.csr.(signalGenerated := true),
          siglblid := r.siglblid.(sigId := Masked(r.siglblid.sigId, mask, value)))
  }

  function Label(r: Registers, mask: nat, value: nat): Registers {
    r.(siglblid := r.siglblid.(lblId := Masked(r.siglblid.lblId, mask, value)))
  }

  /** SIGNAL, FINISH and LABEL; other addresses are not the register file's. */
  function Write64(r: Registers, addr: nat, value: nat): Registers {
    match BitField(addr, 0, 16)
    case 0x60 => Signal(r, BitField(value, 32, 32), BitField(value, 0, 32))
    case 0x61 => r.(csr := r.csr.(finishRequested := true))
    case 0x62 => Label(r, BitField(value, 32, 32), BitField(value, 0, 32))
    case _ => r
  }

  function SwapField(r: Registers): Registers {
    r.(csr := r.csr.(isOddFrame := if r.video.syncv.frontPorch % 2 == 1 then !r.csr.isOddFrame else true))
  }

  /** The assert_* operations also say whether an interrupt is due. */
  function AssertHblank(r: Registers): (Registers, bool) {
    if r.csr.hblankGenerated then (r, false) else (r.(csr := r.csr.(hblankGenerated := true)), !r.imr.hsync)
  }

  function AssertVsync(r: Registers): (Registers, bool) {
    if r.csr.vblankGenerated then (r, false) else (r.(csr := r.csr.(vblankGenerated := true)), !r.imr.vsync)
  }

  function AssertFinish(r: Registers): (Registers, bool) {
    if r.csr.finishRequested && !r.csr.finishGenerated then
      (r.(csr := r.csr.(finishRequested := false, finishGenerated := true)), !r.imr.finish)
    else (r, false)
  }

  // ----- the fields after an operation

  lemma BitIs(value: nat)
    ensures Bit(value, 0) == (value % 2 == 1) && Bit(value, 1) == (value / 2 % 2 == 1)
    ensures Bit(value, 2) == (value / 4 % 2 == 1) && Bit(value, 3) == (value / 8 % 2 == 1)
    ensures Bit(value, 8) == (value / 256 % 2 == 1) && Bit(value, 9) == (value / 512 % 2 == 1)
    ensures Bit(value, 10) == (value / 1024 % 2 == 1) && Bit(value, 11) == (value / 2048 % 2 == 1)
    ensures Bit(value, 12) == (value / 4096 % 2 == 1)
  {
    Shifted3(value);
    Shifted3(value / 8);
    Shifted3(value / 64);
    Shifted3(value / 512);
    assert value / 8 / 8 == value / 64 && value / 64 / 8 == value / 512 && value / 512 / 8 == value / 4096;
    assert value / 64 / 4 == value / 256 && value / 512 / 2 == value / 1024 && value / 512 / 4 == value / 2048;
    ShiftSum(value, 3, 3);
    ShiftSum(value, 6, 2);
    ShiftSum(value, 6, 3);
    ShiftSum(value, 9, 1);
    ShiftSum(value, 9, 2);
    ShiftSum(value, 9, 3);
  }

  lemma Shifted3(value: nat)
    ensures ShiftRight(value, 0) == value && ShiftRight(value, 1) == value / 2
    ensures ShiftRight(value, 2) == value / 4 && ShiftRight(value, 3) == value / 8
  {
    assert ShiftRight(value / 2 / 2, 0) == value / 2 / 2;
    assert ShiftRight(value / 2, 1) == ShiftRight(value / 2 / 2, 0);
    assert ShiftRight(value / 2 / 2, 1) == ShiftRight(value / 2 / 2 / 2, 0);
    assert ShiftRight(value / 2, 2) == ShiftRight(value / 2 / 2, 1);
  }

  lemma {:induction false} ShiftSum(value: nat, m: nat, n: nat)
    ensures ShiftRight(value, m + n) == ShiftRight(ShiftRight(value, m), n)
  {
    if m > 0 {
      ShiftSum(value / 2, m - 1, n);
    }
  }

  /** An event sets its own flag and no other field; it interrupts when the flag was clear and
      its own mask bit is clear. FINISH waits until one was requested. */
  lemma EventsSet(r: Registers)
    ensures AssertHblank(r) == (r.(csr := r.csr.(hblankGenerated := true)), !r.csr.hblankGenerated && !r.imr.hsync)
    ensures AssertVsync(r) == (r.(csr := r.csr.(vblankGenerated := true)), !r.csr.vblankGenerated && !r.imr.vsync)
    ensures var finishes := r.csr.finishRequested && !r.csr.finishGenerated;
      && AssertFinish(r).1 == (finishes && !r.imr.finish)
      && AssertFinish(r).0 == r.(csr := r.csr.(finishRequested := r.csr.finishRequested && !finishes,
                                               finishGenerated := r.csr.finishGenerated || finishes))
  {
  }

  /** What writing CSR acknowledges, bit by bit, when it does not reset. */
  lemma CsrWritten(r: Registers, value: nat)
    requires value / 512 % 2 == 0
    ensures var w := WriteCsr(r, value);
      && w.video == r.video && w.imr == r.imr
      && w.csr.finishGenerated == (r.csr.finishGenerated && value / 2 % 2 == 0)
      && w.csr.hblankGenerated == (r.csr.hblankGenerated && value / 4 % 2 == 0)
      && w.csr.vblankGenerated == (r.csr.vblankGenerated && value / 8 % 2 == 0)
      && w.csr.isOddFrame == r.csr.isOddFrame && w.csr.finishRequested == r.csr.finishRequested
      && w.csr.fifoStatus == r.csr.fifoStatus
      && w.siglblid.lblId == r.siglblid.lblId && w.siglblid.backupSigId == r.siglblid.backupSigId
    ensures var w, c := WriteCsr(r, value), r.csr;
      if value % 2 == 0 then
        && w.csr.signalGenerated == c.signalGenerated && w.csr.signalStall == c.signalStall
        && w.csr.signalIrqPending == c.signalIrqPending && w.siglblid == r.siglblid
      else
        && w.csr.signalGenerated == w.csr.signalIrqPending == c.signalStall && !w.csr.signalStall
        && w.siglblid.sigId == if c.signalStall then r.siglblid.backupSigId else r.siglblid.sigId
  {
    hide Bit, Reset;
    BitIs(value);
  }

  /** Writing the reset bit of CSR leaves no interrupt and all masks, whatever the other bits. */
  lemma CsrResets(r: Registers, value: nat)
    requires value / 512 % 2 == 1
    ensures var w := WriteCsr(r, value);
      && w == Reset(r, true) && w.imr == Imr(true, true, true, true, true)
      && !w.csr.signalGenerated && !w.csr.signalStall && !w.csr.signalIrqPending && !w.csr.hblankGenerated
      && !w.csr.vblankGenerated && !w.csr.finishGenerated && !w.csr.finishRequested
      && w.csr.isOddFrame == r.csr.isOddFrame
  {
    hide Bit, VideoReset, AcknowledgeSignal, Acknowledge;
    BitIs(value);
    AcknowledgingKeeps(r, Bit(value, 0), Bit(value, 1), Bit(value, 2), Bit(value, 3));
  }

  lemma AcknowledgingKeeps(r: Registers, signal: bool, finish: bool, hblank: bool, vblank: bool)
    ensures var a := Acknowledge(if signal then AcknowledgeSignal(r) else r, finish, hblank, vblank);
      a.video == r.video && a.csr.isOddFrame == r.csr.isOddFrame
  {
  }

  /** The mask bits, at any address where IMR is found. */
  lemma ImrWritten(r: Registers, addr: nat, value: nat)
    requires And(addr, 0x13F0) == 0x1010
    ensures Write64Privileged(r, addr, value) == Ok(r.(imr := Imr(value / 256 % 2 == 1, value / 512 % 2 == 1,
      value / 1024 % 2 == 1, value / 2048 % 2 == 1, value / 4096 % 2 == 1)))
  {
    hide Bit, And;
    BitIs(value);
  }

  /** Two SIGNALs in a row: the first keeps its id until it is acknowledged, then the second
      comes on with its own, its interrupt pending; acknowledging that one ends it. */
  lemma SignalProtocol(r: Registers, mask: nat, value: nat, mask2: nat, value2: nat)
    requires !r.csr.signalGenerated && !r.csr.signalStall
    ensures var one := Signal(r, mask, value);
      && one.csr == r.csr.(signalGenerated := true) && one.siglblid.sigId == Masked(r.siglblid.sigId, mask, value)
      && one.video == r.video && one.imr == r.imr && one.siglblid.lblId == r.siglblid.lblId
    ensures var one, two := Signal(r, mask, value), Signal(Signal(r, mask, value), mask2, value2);
      && two.csr == one.csr.(signalStall := true) && two.siglblid.sigId == one.siglblid.sigId
      && var three := AcknowledgeSignal(two);
        && three.csr == r.csr.(signalGenerated := true, signalIrqPending := true)
        && three.siglblid.sigId == Masked(one.siglblid.sigId, mask2, value2)
        && AcknowledgeSignal(three).csr == r.csr.(signalIrqPending := false)
  {
    hide Masked;
  }

  /** A masked write replaces the bits under the mask and keeps the others. */
  lemma MaskedBits(oldValue: nat, mask: nat, value: nat, i: nat)
    requires mask < Pow2(32) && i < 32
    ensures ToBits(32, Masked(oldValue, mask, value))[i]
         == if ToBits(32, mask)[i] then ToBits(32, value)[i] else ToBits(32, oldValue)[i]
  {
    hide And, Or, ToBits, Pow2;
    Pow2Of32();
    ComplementBits(32, mask);
    OrBits(32, And(oldValue, 0xFFFF_FFFF - mask), And(value, mask));
    AndBits(32, oldValue, 0xFFFF_FFFF - mask);
    AndBits(32, value, mask);
  }

  /** The field alternates when the front porch is odd, and is the odd one otherwise. */
  lemma FieldSwaps(r: Registers)
    ensures SwapField(r) == r.(csr := r.csr.(isOddFrame :=
      if r.video.syncv.frontPorch % 2 == 1 then !r.csr.isOddFrame else true))
    ensures r.video.syncv.frontPorch % 2 == 1 ==> SwapField(SwapField(r)) == r
    ensures r.video.syncv.frontPorch % 2 == 0 ==> SwapField(SwapField(r)) == SwapField(r)
  {
  }

  // ----- messages

  datatype Message = Write(addr: nat, value: nat) | WritePrivileged(addr: nat, value: nat)
                   | Crt(interlaced: bool, mode: nat, frameMode: bool) | Finish | Vsync | Hblank | SwapFields

  const CSR_ADDRESS: nat := 0x1200_1000

  /** What the thread does to its registers for a message. A reset through CSR is done by the
      register write and again by the thread's own soft reset. */
  function Handled(r: Registers, m: Message): Result<Registers> {
    match m
    case Write(addr, value) => Ok(Write64(r, addr, value))
    case WritePrivileged(addr, value) =>
      var written := Write64Privileged(r, addr, value);
      if written.Ok? && addr == CSR_ADDRESS && Bit(value, 9) then Ok(Reset(written.value, true)) else written
    case Crt(interlaced, mode, frameMode) => Ok(SetCrt(r, interlaced, mode, frameMode))
    case Finish => Ok(AssertFinish(r).0)
    case Vsync => Ok(AssertVsync(r).0)
    case Hblank => Ok(AssertHblank(r).0)
    case SwapFields => Ok(SwapField(r))
  }

  function HandledAll(r: Registers, queue: seq<Message>): Result<Registers>
    decreases |queue|
  {
    if queue == [] then Ok(r)
    else
      var first := Handled(r, queue[0]);
      if first.Died? then Died else HandledAll(first.value, queue[1..])
  }

  /** The same up to the FIFO status and the pending SIGNAL interrupt. */
  predicate Agree(a: Registers, b: Registers) {
    a == b.(csr := b.csr.(fifoStatus := a.csr.fifoStatus, signalIrqPending := a.csr.signalIrqPending))
  }

  predicate AgreeResults(a: Result<Registers>, b: Result<Registers>) {
    if a.Ok? && b.Ok? then Agree(a.value, b.value) else a.Died? && b.Died?
  }

  /** Resetting twice is resetting once, and a reset forgets the two fields too. */
  lemma ResetTwice(a: Registers, b: Registers, soft: bool)
    requires Agree(a, b)
    ensures Reset(Reset(a, soft), true) == Reset(a, soft) == Reset(b, soft)
  {
    VideoResetTwice(a.video);
    hide VideoReset;
  }

  lemma VideoResetTwice(v: Video)
    ensures VideoReset(VideoReset(v)) == VideoReset(v)
  {
  }

  lemma SignalAgrees(a: Registers, b: Registers)
    requires Agree(a, b)
    ensures Agree(AcknowledgeSignal(a), AcknowledgeSignal(b))
  {
  }

  lemma AcknowledgeAgrees(a: Registers, b: Registers, finish: bool, hblank: bool, vblank: bool)
    requires Agree(a, b)
    ensures Agree(Acknowledge(a, finish, hblank, vblank), Acknowledge(b, finish, hblank, vblank))
  {
  }

  lemma ResetAgrees(a: Registers)
    ensures Agree(a, a)
  {
  }

  lemma CsrAgrees(a: Registers, b: Registers, value: nat)
    requires Agree(a, b)
    ensures Agree(WriteCsr(a, value), WriteCsr(b, value))
    ensures Bit(value, 9) ==> Reset(WriteCsr(a, value), true) == WriteCsr(a, value)
  {
    hide Bit, Agree, Acknowledge, AcknowledgeSignal, Reset;
    SignalAgrees(a, b);
    var a1 := if Bit(value, 0) then AcknowledgeSignal(a) else a;
    var b1 := if Bit(value, 0) then AcknowledgeSignal(b) else b;
    AcknowledgeAgrees(a1, b1, Bit(value, 1), Bit(value, 2), Bit(value, 3));
    var a2, b2 := Acknowledge(a1, Bit(value, 1), Bit(value, 2), Bit(value, 3)),
        Acknowledge(b1, Bit(value, 1), Bit(value, 2), Bit(value, 3));
    ResetTwice(a2, b2, true);
    ResetAgrees(Reset(a2, true));
  }

  lemma PrivilegedAgrees(a: Registers, b: Registers, addr: nat, value: nat)
    requires Agree(a, b)
    ensures AgreeResults(Handled(a, WritePrivileged(addr, value)), Write64Privileged(b, addr, value))
  {
    hide Bit, BitField, WriteVideo, WriteCsr, Reset, And;
    CsrAgrees(a, b, value);
    CsrAddress();
  }

  /** The address the thread looks for is that of CSR. */
  lemma CsrAddress()
    ensures And(CSR_ADDRESS, 0x13F0) == 0x1000
  {
    assert And(0x12001, 1) == 1 by { assert And(0x9000, 0) == 0; }
    assert And(0x24002, 0x2) == 2;
    assert And(0x48004, 0x4) == 4;
    assert And(0x90008, 0x9) == 8 by { assert And(0x48004, 4) == 4; }
    assert And(0x120010, 0x13) == 0x10 by { assert And(0x90008, 0x9) == 8; }
    assert And(0x240020, 0x27) == 0x20 by { assert And(0x120010, 0x13) == 0x10; }
    assert And(0x480040, 0x4F) == 0x40 by { assert And(0x240020, 0x27) == 0x20; }
    assert And(0x900080, 0x9F) == 0x80 by { assert And(0x480040, 0x4F) == 0x40; }
    assert And(0x1200100, 0x13F) == 0x100 by { assert And(0x900080, 0x9F) == 0x80; }
    assert And(0x2400200, 0x27E) == 0x200 by { assert And(0x1200100, 0x13F) == 0x100; }
    assert And(0x4800400, 0x4FC) == 0x400 by { assert And(0x2400200, 0x27E) == 0x200; }
    assert And(0x9000800, 0x9F8) == 0x800 by { assert And(0x4800400, 0x4FC) == 0x400; }
    assert And(0x12001000, 0x13F0) == 0x1000 by { assert And(0x9000800, 0x9F8) == 0x800; }
  }

  lemma SignalWritten(a: Registers, b: Registers, mask: nat, value: nat)
    requires Agree(a, b)
    ensures Agree(Signal(a, mask, value), Signal(b, mask, value)) && Agree(Label(a, mask, value), Label(b, mask, value))
  {
    hide Masked;
  }

  lemma WriteAgrees(a: Registers, b: Registers, addr: nat, value: nat)
    requires Agree(a, b)
    ensures Agree(Write64(a, addr, value), Write64(b, addr, value))
  {
    hide BitField, Signal, Label;
    SignalWritten(a, b, BitField(value, 32, 32), BitField(value, 0, 32));
  }

  lemma EventsAgree(a: Registers, b: Registers)
    requires Agree(a, b)
    ensures Agree(AssertHblank(a).0, AssertHblank(b).0) && Agree(AssertVsync(a).0, AssertVsync(b).0)
    ensures Agree(AssertFinish(a).0, AssertFinish(b).0) && Agree(SwapField(a), SwapField(b))
    ensures forall i, m, f :: Agree(SetCrt(a, i, m, f), SetCrt(b, i, m, f))
  {
    hide CrtSet;
  }

  /** What the manager does to its own copy for the same message. */
  function Managed(r: Registers, m: Message): Result<Registers> {
    match m
    case Write(addr, value) => Ok(Write64(r, addr, value))
    case WritePrivileged(addr, value) => Write64Privileged(r, addr, value)
    case Crt(interlaced, mode, frameMode) => Ok(SetCrt(r, interlaced, mode, frameMode))
    case Finish => Ok(AssertFinish(r).0)
    case Vsync => Ok(AssertVsync(r).0)
    case Hblank => Ok(AssertHblank(r).0)
    case SwapFields => Ok(SwapField(r))
  }

  lemma MessageAgrees(a: Registers, b: Registers, m: Message)
    requires Agree(a, b)
    ensures AgreeResults(Handled(a, m), Managed(b, m))
  {
    hide Write64, Write64Privileged, AssertHblank, AssertVsync, AssertFinish, SwapField, SetCrt, Reset, Bit, Agree;
    EventsAgree(a, b);
    match m
    case Write(addr, value) => WriteAgrees(a, b, addr, value);
    case WritePrivileged(addr, value) => PrivilegedAgrees(a, b, addr, value);
    case Crt(_, _, _) =>
    case Finish =>
    case Vsync =>
    case Hblank =>
    case SwapFields =>
  }

  lemma {:induction false} HandledMore(r: Registers, queue: seq<Message>, m: Message)
    ensures HandledAll(r, queue + [m]) ==
      if HandledAll(r, queue).Died? then Died else Handled(HandledAll(r, queue).value, m)
    decreases |queue|
  {
    hide Handled;
    if queue == [] {
      assert queue + [m] == [m];
      assert [m][1..] == [];
    } else {
      assert (queue + [m])[1..] == queue[1..] + [m];
      if Handled(r, queue[0]).Ok? {
        HandledMore(Handled(r, queue[0]).value, queue[1..], m);
      }
    }
  }

  /** Whether an event raises an interrupt: it was not raised already, and is not masked. */
  function Interrupts(r: Registers, m: Message): bool
    requires m.Hblank? || m.Vsync? || m.Finish?
  {
    match m
    case Hblank => AssertHblank(r).1
    case Vsync => AssertVsync(r).1
    case Finish => AssertFinish(r).1
  }

  /** The manager, the queue to the thread, and the thread's copy. */
  class Manager {
    var reg: Registers
    var queue: seq<Message>
    var threadReg: Registers

    /** The queued messages would bring the thread's copy to where the manager's is. */
    ghost predicate Valid()
      reads this
    {
      HandledAll(threadReg, queue).Ok? && Agree(HandledAll(threadReg, queue).value, reg)
    }

    constructor (r: Registers)
      ensures Valid() && reg == threadReg == Reset(r, false)
    {
      hide Reset;
      reg := Reset(r, false);
      threadReg := Reset(r, false);
      queue := [];
    }

    /** A message goes out, and the same is done here. */
    method SendAndDo(m: Message) returns (died: bool)
      requires Valid()
      modifies `reg, `queue
      ensures queue == old(queue) + [m] && died == Managed(old(reg), m).Died?
      ensures died ==> HandledAll(threadReg, queue).Died? && reg == old(reg)
      ensures !died ==> Valid() && reg == Managed(old(reg), m).value
    {
      hide Handled, HandledAll, Managed, Agree;
      HandledMore(threadReg, queue, m);
      MessageAgrees(HandledAll(threadReg, queue).value, reg, m);
      queue := queue + [m];
      var r := Managed(reg, m);
      died := r.Died?;
      if !died {
        reg := r.value;
      }
    }

    /** The manager's own bookkeeping. */
    method SetPending(pending: bool)
      requires Valid()
      modifies `reg
      ensures Valid() && reg == old(reg).(csr := old(reg).csr.(signalIrqPending := pending))
    {
      hide HandledAll;
      reg := reg.(csr := reg.csr.(signalIrqPending := pending));
    }

    method SetCsrFifo(status: nat)
      requires Valid()
      modifies `reg
      ensures Valid() && reg == old(reg).(csr := old(reg).csr.(fifoStatus := status))
    {
      hide HandledAll;
      reg := reg.(csr := reg.csr.(fifoStatus := status));
    }

    /** A register write. A SIGNAL interrupts at once if it may, or is left pending. */
    method Write64(addr: nat, value: nat) returns (irq: bool)
      requires Valid()
      modifies `reg, `queue
      ensures Valid() && queue == old(queue) + [Write(addr, value)]
      ensures Managed(old(reg), Write(addr, value)).Ok?
      ensures var r := Managed(old(reg), Write(addr, value)).value;
        var signals := addr == 0x60 && r.csr.signalGenerated && !r.csr.signalStall;
        && irq == (signals && !r.imr.signal)
        && reg == if signals && r.imr.signal then r.(csr := r.csr.(signalIrqPending := true)) else r
    {
      hide HandledAll, Managed, Agree;
      var died := SendAndDo(Write(addr, value));
      NeverDies(old(reg), addr, value);
      irq := false;
      if addr == 0x60 {
        if reg.csr.signalGenerated && !reg.csr.signalStall {
          if !reg.imr.signal {
            irq := true;
          } else {
            SetPending(true);
          }
        }
      }
    }

    lemma NeverDies(r: Registers, addr: nat, value: nat)
      ensures Managed(r, Write(addr, value)).Ok?
    {
    }

    predicate TurnsBus(r: Registers, addr: nat, value: nat) {
      addr == 0x1200_1040 && r.video.busdir == 0 && value != 0
    }

    /** A privileged write. Turning the bus around waits for the thread; unmasking SIGNAL brings
        on an interrupt that was left pending. */
    method Write64Privileged(addr: nat, value: nat) returns (irq: bool, died: bool)
      requires Valid()
      modifies `reg, `queue, `threadReg
      ensures died == Managed(old(reg), WritePrivileged(addr, value)).Died?
      ensures !died ==> Valid() && var r := Managed(old(reg), WritePrivileged(addr, value)).value;
        && irq == (old(reg).imr.signal && !r.imr.signal && r.csr.signalIrqPending)
        && reg == if irq then r.(csr := r.csr.(signalIrqPending := false)) else r
      ensures !died ==>
        if TurnsBus(old(reg), addr, value) then queue == [] && Agree(threadReg, reg)
        else queue == old(queue) + [WritePrivileged(addr, value)] && threadReg == old(threadReg)
    {
      hide HandledAll, Handled, Managed;
      irq := false;
      var wasMasked := reg.imr.signal;
      var turning := TurnsBus(reg, addr, value);
      died := SendAndDo(WritePrivileged(addr, value));
      if died {
        return;
      }
      if turning {
        Drain();
      }
      if wasMasked && !reg.imr.signal && reg.csr.signalIrqPending {
        irq := true;
        SetPending(false);
      }
    }

    method SetCrt(interlaced: bool, mode: nat, frameMode: bool)
      requires Valid()
      modifies `reg, `queue
      ensures Valid() && queue == old(queue) + [Crt(interlaced, mode, frameMode)]
      ensures Managed(old(reg), Crt(interlaced, mode, frameMode)) == Ok(reg)
    {
      hide HandledAll, Agree;
      var died := SendAndDo(Crt(interlaced, mode, frameMode));
    }

    /** HBLANK, VSYNC and FINISH: the interrupt is the manager's to raise. */
    method AssertEvent(m: Message) returns (irq: bool)
      requires Valid() && (m.Hblank? || m.Vsync? || m.Finish?)
      modifies `reg, `queue
      ensures Valid() && queue == old(queue) + [m] && Managed(old(reg), m) == Ok(reg)
      ensures irq == match m
        case Hblank => !old(reg).csr.hblankGenerated && !old(reg).imr.hsync
        case Vsync => !old(reg).csr.vblankGenerated && !old(reg).imr.vsync
        case _ => old(reg).csr.finishRequested && !old(reg).csr.finishGenerated && !old(reg).imr.finish
      ensures m.Hblank? ==> reg == old(reg).(csr := old(reg).csr.(hblankGenerated := true))
      ensures m.Vsync? ==> reg == old(reg).(csr := old(reg).csr.(vblankGenerated := true))
      ensures m.Finish? ==> reg.csr.finishGenerated == (old(reg).csr.finishRequested || old(reg).csr.finishGenerated)
    {
      hide HandledAll, Agree;
      irq := Interrupts(reg, m);
      var died := SendAndDo(m);
    }

    method SwapCsrField()
      requires Valid()
      modifies `reg, `queue
      ensures Valid() && queue == old(queue) + [SwapFields] && Managed(old(reg), SwapFields) == Ok(reg)
    {
      hide HandledAll, Agree;
      var died := SendAndDo(SwapFields);
    }

    // ----- the thread

    /** The thread takes the next message. */
    method ThreadStep()
      requires Valid() && queue != []
      modifies `queue, `threadReg
      ensures Valid() && queue == old(queue)[1..]
    {
      hide Handled, Agree;
      var r := Handled(threadReg, queue[0]);
      threadReg := r.value;
      queue := queue[1..];
    }

    /** With nothing left to read, the copies agree. */
    method Drain()
      requires Valid()
      modifies `queue, `threadReg
      ensures Valid() && queue == [] && Agree(threadReg, reg)
    {
      hide Handled, Agree;
      while queue != []
        invariant Valid()
        decreases |queue|
      {
        ThreadStep();
      }
    }
  }
}
