/** The FLAC bit reader: a refillable buffer of words with a bit cursor and a running
    CRC-16 that survives refills and partial words.

    `Stream()` is the meaning of a reader: the bits it has not consumed yet, followed by
    the bytes its client has not delivered yet.  Refilling leaves it unchanged; every
    read takes its prefix. */
module BitReaders {
  import opened Arrival
  import opened Bits
  import opened Crc16
  import opened ReaderState
  import opened RiceCode
  import opened Words
  import opened Wrappers
  import opened WordBuffer

  /** A read of one of the kinds that keep the CRC up to date. */
  datatype Request = Raw(n: nat) | Unary | Rice(parameter: nat) | RiceBlock(nvals: nat, parameter: nat) {
    predicate Proper() {
      match this
      case Raw(n) => n <= 32
      case Unary => true
      case Rice(parameter) => parameter <= 31
      case RiceBlock(_, parameter) => parameter <= 31
    }
  }

  /** The read callback: it delivers at least one byte, in pieces of any size, or fails. */
  class Client {
    var pending: seq<byte>
    var failures: nat

    constructor (data: seq<byte>)
      ensures pending == data && failures == 0
    {
      pending := data;
      failures := 0;
    }

    method Read(room: nat) returns (ok: bool, data: seq<byte>)
      requires room > 0
      modifies this
      ensures ok ==> 1 <= |data| <= room && old(pending) == data + pending && failures == old(failures)
      ensures !ok ==> data == [] && pending == old(pending) && failures == old(failures) + 1
    {
      if pending == [] {
        ok, data, failures := false, [], failures + 1;
      } else {
        var n: nat :| 0 <= n <= room && n <= |pending|;
        if n == 0 {
          ok, data, failures := false, [], failures + 1;
        } else {
          ok, data, pending := true, pending[..n], pending[n..];
        }
      }
    }
  }

  class BitReader {
    const W: nat
    const buffer: array<nat>
    const client: Client
    var words: nat
    var bytes: nat
    var consumedWords: nat
    var consumedBits: nat
    var readCrc16: Register
    var crc16Offset: nat
    var crc16Align: nat

    // since the last reset of the CRC: the seed, everything there was to read, and the
    // part of it that the CRC has already taken in
    ghost var seed: Register
    ghost var tape: seq<bool>
    ghost var crcd: seq<bool>

    ghost function State(): Shape
      reads this, buffer
    {
      Shape(W, buffer[..], words, bytes, consumedWords, consumedBits)
    }

    ghost predicate Valid()
      reads this, buffer
    {
      && State().Valid()
      && crc16Offset <= consumedWords
      && crc16Align % 8 == 0 && crc16Align <= W
    }

    /** The bits in the buffer ahead of the cursor. */
    ghost function Unread(): seq<bool>
      reads this, buffer
      requires Valid()
    {
      State().Unread()
    }

    ghost function Stream(): seq<bool>
      reads this, buffer, client
      requires Valid()
    {
      Unread() + ByteBits(client.pending)
    }

    /** The running CRC covers exactly the first bits of the tape, and the cursor is past them. */
    ghost predicate Tracking()
      reads this, buffer, client
      requires Valid()
    {
      Track(readCrc16, crc16Offset, crc16Align, seed, crcd, tape).Covers(State(), ByteBits(client.pending))
    }

    /** Everything consumed since the last reset of the CRC. */
    ghost function Consumed(): seq<bool>
      reads this, buffer, client
      requires Valid() && |Stream()| <= |tape|
    {
      tape[..|tape| - |Stream()|]
    }

    constructor (W: nat, capacity: nat, client: Client)
      requires IsWidth(W) && capacity >= 2
      ensures Valid() && this.client == client && fresh(buffer)
      ensures Stream() == ByteBits(client.pending)
    {
      hide ToBits, TimesX, Pow2, ByteBits;
      this.W := W;
      this.client := client;
      buffer := new nat[capacity](i => 0);
      words, bytes, consumedWords, consumedBits := 0, 0, 0, 0;
      readCrc16, crc16Offset, crc16Align := Zeros(16), 0, 0;
    }

    // ----- the running CRC

    /** crc16_update_word_ */
    method Crc16UpdateWord(word: nat)
      requires IsWidth(W) && crc16Align % 8 == 0 && crc16Align <= W
      modifies this`readCrc16, this`crc16Align
      ensures crc16Align == 0
      ensures readCrc16 == Crc(old(readCrc16), ToBits(W, word)[old(crc16Align)..])
    {
      hide Crc, Update, ToBits, ByteAt, TimesX, Xor;
      ghost var start, c := crc16Align, readCrc16;
      NoBits(c, ToBits(W, word), start);
      while crc16Align < W
        invariant start <= crc16Align <= W && crc16Align % 8 == 0
        invariant readCrc16 == Crc(c, ToBits(W, word)[start..crc16Align])
      {
        NextByte(W, word, start, crc16Align, c);
        readCrc16 := Update(ByteAt(word, W - 8 - crc16Align), readCrc16);
        crc16Align := crc16Align + 8;
      }
      assert ToBits(W, word)[start..W] == ToBits(W, word)[start..];
      crc16Align := 0;
    }

    method UpdateWords(from: nat, to: nat) returns (crc: Register)
      requires IsWidth(W) && from <= to <= buffer.Length
      ensures crc == Crc(readCrc16, WholeWords(W, buffer[..], from, to))
    {
      hide Crc, WholeWords, WordBits;
      WholeWordsIsWordBits(W, buffer[..], from, to);
      assert buffer[from..to] == buffer[..][from..to];
      if W == 32 {
        crc := UpdateWords32(buffer[from..to], readCrc16);
      } else {
        crc := UpdateWords64(buffer[from..to], readCrc16);
      }
    }

    /** crc16_update_block_ */
    method Crc16UpdateBlock()
      requires Valid()
      modifies this`readCrc16, this`crc16Align, this`crc16Offset
      ensures Valid() && crc16Offset == 0
      ensures crc16Align == if old(crc16Offset) < consumedWords then 0 else old(crc16Align)
      ensures readCrc16 == Crc(old(readCrc16),
          BehindCursor(W, buffer[..], old(crc16Offset), consumedWords, old(crc16Align)))
    {
      hide Crc, ToBits, WholeWords;
      BehindCursorCases(W, buffer[..], crc16Offset, consumedWords, crc16Align, readCrc16);
      if consumedWords > crc16Offset && crc16Align > 0 {
        Crc16UpdateWord(buffer[crc16Offset]);
        crc16Offset := crc16Offset + 1;
      }
      readCrc16 := UpdateWords(crc16Offset, consumedWords);
      crc16Offset := 0;
    }

    // ----- refilling

    /** First half of a refill: CRC the consumed words, then move the rest to the front. */
    method Compact()
      requires Valid()
      modifies this, buffer
      ensures Valid() && consumedWords == 0
      ensures Unread() == old(Unread())
      ensures old(Tracking()) ==> Tracking()
      ensures tape == old(tape) && seed == old(seed)
    {
      hide Crc, BitsFrom, BehindCursor, ByteBits, Pow2, WholeWords;
      if consumedWords > 0 {
        var start, end := consumedWords, words + (if bytes > 0 then 1 else 0);
        ghost var before := State();
        ghost var skipped := BehindCursor(W, buffer[..], crc16Offset, start, crc16Align);
        ghost var track := Track(readCrc16, crc16Offset, crc16Align, seed, crcd, tape);
        Crc16UpdateBlock();
        crcd := crcd + skipped;
        forall i | 0 <= i < end - start {
          buffer[i] := buffer[i + start];
        }
        words := words - start;
        consumedWords := 0;
        CompactShape(before, State());
        CompactTrack(before, State(), track, Track(readCrc16, crc16Offset, crc16Align, seed, crcd, tape),
            ByteBits(client.pending));
      }
    }

    /** Second half: the client's bytes land in memory right after the data. */
    method Store(data: seq<byte>)
      requires Valid() && consumedWords == 0
      requires |data| <= Room(W, buffer.Length, words, bytes)
      modifies this`words, this`bytes, buffer
      ensures Valid()
      ensures State().Block(0) == old(State().Block(0)) + ByteBits(data)
    {
      hide ToBits, PutByte, Pow2, BitsFrom, ByteBits;
      ghost var before := State().Block(0);
      var j := 0;
      NoBytes(data);
      while j < |data|
        invariant 0 <= j <= |data|
        invariant Valid()
        invariant Room(W, buffer.Length, words, bytes) >= |data| - j
        invariant State().Block(0) == before + ByteBits(data[..j])
      {
        ghost var s := State();
        PutByteBits(W, buffer[words], bytes, data[j]);
        buffer[words] := PutByte(W, buffer[words], bytes, data[j]);
        bytes := bytes + 1;
        if bytes == BytesPerWord(W) {
          words, bytes := words + 1, 0;
        }
        StoredByte(s, State(), data[j]);
        ByteBitsSnoc(data, j);
        j := j + 1;
      }
      assert data[..j] == data;
    }

    /** bitreader_read_from_client_ */
    method ReadFromClient() returns (ok: bool)
      requires Valid()
      modifies this, buffer, client
      ensures Valid()
      ensures Stream() == old(Stream())
      ensures ok ==> |Unread()| > old(|Unread()|) && |client.pending| < old(|client.pending|)
      ensures !ok ==> client.pending == old(client.pending)
      ensures !ok ==> Unread() == old(Unread())
      ensures !ok ==>
        client.failures == old(client.failures) + 1 || (words == buffer.Length && consumedWords == 0)
      ensures ok ==> client.failures == old(client.failures)
      ensures old(Tracking()) ==> Tracking()
      ensures tape == old(tape) && seed == old(seed)
    {
      hide Crc, BitsFrom, Pow2, ByteBits;
      Compact();
      ghost var before := State();
      ghost var track := Track(readCrc16, crc16Offset, crc16Align, seed, crcd, tape);
      var room := Room(W, buffer.Length, words, bytes);
      if room == 0 {
        return false;
      }
      var data;
      ok, data := client.Read(room);
      if ok {
        Store(data);
        ByteBitsConcat(data, client.pending);
        GrownShape(before, State(), ByteBits(data), ByteBits(client.pending), track);
      }
    }

    // ----- the CRC's two public operations

    /** FLAC__bitreader_reset_read_crc16 */
    method ResetReadCrc16(seed: Register)
      requires Valid() && consumedBits % 8 == 0
      modifies this
      ensures Valid() && Stream() == old(Stream())
      ensures Tracking() && this.seed == seed && tape == Stream() && Consumed() == []
    {
      hide BitsFrom, ByteBits, ToBits, TimesX, Pow2;
      this.seed, tape, crcd := seed, Stream(), [];
      readCrc16, crc16Offset, crc16Align := seed, consumedWords, consumedBits;
      CursorInside(State());
      assert tape == [] + (Unread() + ByteBits(client.pending));
    }

    /** FLAC__bitreader_get_read_crc16 */
    method GetReadCrc16() returns (crc: Register)
      requires Valid() && Tracking() && consumedBits % 8 == 0
      modifies this
      ensures Valid() && Stream() == old(Stream())
      ensures old(|Stream()| <= |tape|)
      ensures crc == Crc(old(seed), old(Consumed()))
    {
      hide Crc, BitsFrom, Pow2, ByteBits, ToBits, BehindCursor;
      ghost var t, s := Track(readCrc16, crc16Offset, crc16Align, seed, crcd, tape), State();
      ConsumedParts(s, t, ByteBits(client.pending));
      ghost var skipped := BehindCursor(W, buffer[..], crc16Offset, consumedWords, crc16Align);
      CrcConcat(seed, crcd, skipped);
      Crc16UpdateBlock();
      ghost var a := crc16Align;
      ghost var word := if consumedBits > 0 then buffer[consumedWords] else 0;
      CrcConcat(seed, crcd + skipped, ToBits(W, word)[a..consumedBits]);
      Crc16UpdateTail();
      crc := readCrc16;
    }

    /** The rest of it: the consumed bytes of a partly consumed word. */
    method Crc16UpdateTail()
      requires IsWidth(W) && crc16Align % 8 == 0 && consumedBits % 8 == 0 && crc16Align <= consumedBits <= W
      requires consumedBits > 0 ==> consumedWords < buffer.Length
      modifies this`readCrc16, this`crc16Align
      ensures crc16Align == consumedBits
      ensures readCrc16 == Crc(old(readCrc16),
        ToBits(W, if consumedBits > 0 then buffer[consumedWords] else 0)[old(crc16Align)..consumedBits])
    {
      hide Crc, ToBits, Update, ByteAt, TimesX, Xor;
      ghost var a, c := crc16Align, readCrc16;
      NoBits(c, ToBits(W, 0), a);
      if consumedBits > 0 {
        var tail := buffer[consumedWords];
        NoBits(c, ToBits(W, tail), a);
        while crc16Align < consumedBits
          invariant a <= crc16Align <= consumedBits && crc16Align % 8 == 0
          invariant readCrc16 == Crc(c, ToBits(W, tail)[a..crc16Align])
          modifies this`readCrc16, this`crc16Align
        {
          NextByte(W, tail, a, crc16Align, c);
          readCrc16 := Update(ByteAt(tail, W - 8 - crc16Align), readCrc16);
          crc16Align := crc16Align + 8;
        }
      }
    }

    /** What has arrived of the stream is what is unread. */
    lemma UnreadArrived()
      requires Valid()
      ensures 8 * |client.pending| <= |Stream()| && Without(Stream(), 8 * |client.pending|) == Unread()
    {
      hide ByteBits, Shape.Unread, Without;
      Arrived(Unread(), ByteBits(client.pending));
    }

    // ----- reading a field

    /** FLAC__bitreader_read_raw_uint32 */
    method ReadRawUint32(n: nat) returns (ok: bool, val: nat)
      requires Valid() && n <= 32
      modifies this, buffer, client
      ensures Valid()
      ensures ok ==> n <= |old(Stream())| && val == Value(old(Stream())[..n]) && Stream() == old(Stream())[n..]
      ensures ok ==> client.failures == old(client.failures)
      ensures !ok ==> client.failures == old(client.failures) + 1 && Stream() == old(Stream())
      ensures !ok ==> |Unread()| < n
      ensures n <= |old(Unread())| ==> ok && client.pending == old(client.pending)
      ensures |client.pending| <= |old(client.pending)|
      ensures old(Tracking()) ==> Tracking()
      ensures tape == old(tape) && seed == old(seed)
    {
      hide Crc, BitsFrom, Pow2, ByteBits, ToBits, Value, Shape.Valid, Shape.Unread, Track.Covers;
      var bits := n;
      if bits == 0 {
        ok, val := true, 0;
        assert Value([]) == 0 by { ValueZeros(0); assert Zeros(0) == []; }
        assert old(Stream())[..0] == [];
        return;
      }
      while UnconsumedBits(W, words, bytes, consumedWords, consumedBits) < bits
        invariant Valid() && Stream() == old(Stream())
        invariant client.pending != old(client.pending) ==> |old(Unread())| < n
        invariant client.pending == old(client.pending) ==> |Unread()| == |old(Unread())|
        invariant |client.pending| <= |old(client.pending)|
        invariant client.failures == old(client.failures)
        invariant old(Tracking()) ==> Tracking()
        invariant tape == old(tape) && seed == old(seed)
        decreases |client.pending|
      {
        UnreadLength(State());
        var more := ReadFromClient();
        if !more {
          RoomForAField(State());
          return false, 0;
        }
      }
      UnreadLength(State());
      ghost var s := State();
      ghost var t := Track(readCrc16, crc16Offset, crc16Align, seed, crcd, tape);
      val := TakeField(bits);
      ok := true;
      CursorMoved(s, State(), t, ByteBits(client.pending));
      TakenFromStream(s, State(), n, ByteBits(client.pending));
    }

    /** The part of it that reads bits known to be in the buffer. */
    method TakeField(n: nat) returns (val: nat)
      requires Valid() && 0 < n <= 32 && n <= |Unread()|
      modifies this`consumedWords, this`consumedBits
      ensures Valid() && val == Value(old(Unread())[..n]) && Unread() == old(Unread())[n..]
      ensures consumedWords > old(consumedWords)
          || (consumedWords == old(consumedWords) && consumedBits >= old(consumedBits))
    {
      hide Crc, BitsFrom, Pow2, ByteBits, ToBits, Value, And, Or, ShiftRight, ShiftLeft, Wrap32;
      if consumedWords < words {
        val := TakeFromWord(n);
      } else {
        ghost var s := State();
        UnreadLength(s);
        if consumedBits > 0 {
          val := Wrap32(ShiftRight(And(buffer[consumedWords], ShiftRight(AllOnes(W), consumedBits)),
              W - consumedBits - n));
          FieldWithin(s, n);
        } else {
          val := Wrap32(ShiftRight(buffer[consumedWords], W - n));
          FieldAtStart(s, n);
        }
        consumedBits := consumedBits + n;
      }
    }

    /** ... when the cursor is in a complete word. */
    method TakeFromWord(n: nat) returns (val: nat)
      requires Valid() && 0 < n <= 32 && n <= |Unread()| && consumedWords < words
      modifies this`consumedWords, this`consumedBits
      ensures Valid() && val == Value(old(Unread())[..n]) && Unread() == old(Unread())[n..]
      ensures consumedWords > old(consumedWords)
          || (consumedWords == old(consumedWords) && consumedBits >= old(consumedBits))
    {
      hide Crc, BitsFrom, Pow2, ByteBits, ToBits, Value, And, Or, ShiftRight, ShiftLeft, Wrap32;
      ghost var s := State();
      UnreadLength(s);
      var word := buffer[consumedWords];
      if consumedBits > 0 {
        var left := W - consumedBits;
        if n < left {
          val := Wrap32(ShiftRight(And(word, ShiftRight(AllOnes(W), consumedBits)), left - n));
          FieldWithin(s, n);
          consumedBits := consumedBits + n;
        } else {
          val := TakeAcross(n);
        }
      } else {
        val := TakeAtStart(n);
      }
    }

    /** ... up to the end of its word, and on into the next. */
    method TakeAcross(n: nat) returns (val: nat)
      requires Valid() && 0 < n <= 32 && n <= |Unread()| && consumedWords < words
      requires 0 < consumedBits && W - consumedBits <= n
      modifies this`consumedWords, this`consumedBits
      ensures Valid() && val == Value(old(Unread())[..n]) && Unread() == old(Unread())[n..]
      ensures consumedWords > old(consumedWords)
          || (consumedWords == old(consumedWords) && consumedBits >= old(consumedBits))
    {
      hide Crc, BitsFrom, Pow2, ByteBits, ToBits, Value, And, Or, ShiftRight, ShiftLeft, Wrap32;
      ghost var s := State();
      UnreadLength(s);
      var left := W - consumedBits;
      val := Wrap32(And(buffer[consumedWords], ShiftRight(AllOnes(W), consumedBits)));
      var bits := n - left;
      FieldAcross(s, bits);
      consumedWords := consumedWords + 1;
      consumedBits := 0;
      if bits > 0 {
        val := ShiftLeft(32, val, bits);
        val := Or(val, Wrap32(ShiftRight(buffer[consumedWords], W - bits)));
        consumedBits := bits;
      }
    }

    /** ... from the first bit of a word. */
    method TakeAtStart(n: nat) returns (val: nat)
      requires Valid() && 0 < n <= 32 && n <= |Unread()| && consumedWords < words && consumedBits == 0
      modifies this`consumedWords, this`consumedBits
      ensures Valid() && val == Value(old(Unread())[..n]) && Unread() == old(Unread())[n..]
      ensures consumedWords > old(consumedWords)
          || (consumedWords == old(consumedWords) && consumedBits >= old(consumedBits))
    {
      hide Crc, BitsFrom, Pow2, ByteBits, ToBits, Value, And, Or, ShiftRight, ShiftLeft, Wrap32;
      ghost var s := State();
      UnreadLength(s);
      var word := buffer[consumedWords];
      FieldAtStart(s, n);
      if n < W {
        val := Wrap32(ShiftRight(word, W - n));
        consumedBits := n;
      } else {
        val := Wrap32(word);
        FieldAcross(s, 0);
        consumedWords := consumedWords + 1;
      }
    }

    // ----- reading zeros up to a stop bit

    /** The inner loop of FLAC__bitreader_read_unary_unsigned: a word at a time. */
    method ScanWords(start: nat) returns (found: bool, val: nat, ghost zeros: nat)
      requires Valid() && start < 0x1_0000_0000
      modifies this`consumedWords, this`consumedBits
      ensures Valid() && val == Wrap32(start + zeros)
      ensures Scanned(old(Unread()), Unread(), zeros, found)
      ensures !found ==> consumedWords == words
      ensures Forward(old(State()), State())
    {
      hide Crc, BitsFrom, Pow2, ToBits, Bits.LeadingZeros, CountZeroMsbs, ShiftLeft, Shape.Valid, Shape.Unread,
          Scanned, Wrap32;
      found, val, zeros := false, start, 0;
      WrapSmall(start);
      ScannedNothing(Unread());
      while consumedWords < words
        invariant Valid() && val == Wrap32(start + zeros)
        invariant Scanned(old(Unread()), Unread(), zeros, false)
        invariant Forward(old(State()), State())
        decreases words - consumedWords
      {
        ghost var s := State();
        WordInside(s);
        var b := ShiftLeft(W, buffer[consumedWords], consumedBits);
        ScanWord(s);
        if b != 0 {
          var i := CountZeroMsbs(W, b);
          WrapSum(start + zeros, i);
          val := Wrap32(val + i);
          found, zeros := true, zeros + i;
          i := i + 1;
          consumedBits := consumedBits + i;
          if consumedBits >= W {
            consumedWords := consumedWords + 1;
            consumedBits := 0;
          }
          ScannedThen(old(Unread()), s.Unread(), Unread(), zeros - (i - 1), i - 1, true);
          return;
        } else {
          var i := W - consumedBits;
          WrapSum(start + zeros, i);
          val := Wrap32(val + i);
          zeros := zeros + i;
          consumedWords := consumedWords + 1;
          consumedBits := 0;
          ScannedThen(old(Unread()), s.Unread(), Unread(), zeros - i, i, false);
        }
      }
      CursorOrdered(State());
    }

    /** Its second part: the bytes of an incomplete word. */
    method ScanTail(start: nat) returns (found: bool, val: nat, ghost zeros: nat)
      requires Valid() && start < 0x1_0000_0000 && consumedWords == words
      modifies this`consumedBits
      ensures Valid() && val == Wrap32(start + zeros)
      ensures Scanned(old(Unread()), Unread(), zeros, found)
      ensures !found ==> consumedBits == 8 * bytes
      ensures consumedBits >= old(consumedBits)
    {
      hide Crc, BitsFrom, Pow2, ToBits, Bits.LeadingZeros, CountZeroMsbs, ShiftLeft, And, Scanned;
      found, val, zeros := false, start, 0;
      ScannedNothing(Unread());
      if bytes * 8 > consumedBits {
        var end := bytes * 8;
        var b := ShiftLeft(W, And(buffer[consumedWords], ShiftLeft(W, AllOnes(W), W - end)), consumedBits);
        ScanPartialWord(State());
        if b != 0 {
          var i := CountZeroMsbs(W, b);
          val := Wrap32(val + i);
          zeros := i;
          i := i + 1;
          consumedBits := consumedBits + i;
          found := true;
        } else {
          val := Wrap32(val + (end - consumedBits));
          zeros := end - consumedBits;
          consumedBits := end;
        }
      }
    }

    /** Both parts: everything in the buffer. */
    method ScanBuffer(start: nat) returns (found: bool, val: nat, ghost zeros: nat)
      requires Valid() && start < 0x1_0000_0000
      modifies this`consumedWords, this`consumedBits
      ensures Valid() && val == Wrap32(start + zeros)
      ensures Scanned(old(Unread()), Unread(), zeros, found)
      ensures !found ==> Unread() == []
      ensures Forward(old(State()), State())
    {
      hide Crc, BitsFrom, Pow2, ToBits, ByteBits, Bits.LeadingZeros, Shape.Valid, Shape.Unread, Scanned, Wrap32;
      found, val, zeros := ScanWords(start);
      if !found {
        ghost var n, middle := zeros, Unread();
        found, val, zeros := ScanTail(val);
        WrapSum(start + n, zeros);
        ScannedThen(old(Unread()), middle, Unread(), n, zeros, found);
        zeros := n + zeros;
        ScannedAll(State());
      }
    }

    /** What that means for the stream and the CRC. */
    method ScanStream(start: nat) returns (found: bool, val: nat, ghost zeros: nat)
      requires Valid() && start < 0x1_0000_0000
      modifies this`consumedWords, this`consumedBits
      ensures Valid() && val == Wrap32(start + zeros)
      ensures Scanned(old(Stream()), Stream(), zeros, found)
      ensures !found ==> Unread() == []
      ensures old(Tracking()) ==> Tracking()
    {
      hide Crc, BitsFrom, Pow2, ToBits, ByteBits, Bits.LeadingZeros, Shape.Valid, Shape.Unread, Track.Covers, Scanned;
      ghost var s, pending := State(), ByteBits(client.pending);
      found, val, zeros := ScanBuffer(start);
      ScannedNothing(s.Unread() + pending);
      ScannedInStream(s.Unread() + pending, s.Unread(), Unread(), pending, 0, zeros, found);
      CursorMoved(s, State(), Track(readCrc16, crc16Offset, crc16Align, seed, crcd, tape), pending);
    }

    /** FLAC__bitreader_read_unary_unsigned */
    method ReadUnaryUnsigned() returns (ok: bool, val: nat)
      requires Valid()
      modifies this, buffer, client
      ensures Valid() && val < 0x1_0000_0000
      ensures ok ==> var q := LeadingZeros(old(Stream()));
                     q < |old(Stream())| && val == Wrap32(q) && Stream() == old(Stream())[q + 1..]
      ensures ok ==> client.failures == old(client.failures)
      ensures !ok ==> client.failures == old(client.failures) + 1
      ensures !ok ==> exists k :: Scanned(old(Stream()), Stream(), k, false)
      ensures !ok ==> NoStop(Without(old(Stream()), 8 * |client.pending|))
      ensures !NoStop(old(Unread())) ==> ok && client.pending == old(client.pending)
      ensures |client.pending| <= |old(client.pending)|
      ensures old(Tracking()) ==> Tracking()
      ensures tape == old(tape) && seed == old(seed)
    {
      hide Bits.LeadingZeros, Shape.Valid, Shape.Unread, Stream, Tracking, Scanned, Wrap32, NoStop, Without;
      ok, val := false, 0;
      WrapSmall(0);
      UnreadArrived();
      ghost var zeros, all := 0, Stream();
      ScannedNothing(all);
      while true
        invariant Valid() && val == Wrap32(zeros)
        invariant Scanned(all, Stream(), zeros, false)
        invariant client.pending != old(client.pending) ==> NoStop(old(Unread()))
        invariant |client.pending| <= |old(client.pending)|
        invariant client.failures == old(client.failures)
        invariant old(Tracking()) ==> Tracking()
        invariant tape == old(tape) && seed == old(seed)
        decreases |client.pending|
      {
        ghost var middle, n := Stream(), 0;
        ok, val, n := ScanStream(val);
        WrapSum(zeros, n);
        ScannedThen(all, middle, Stream(), zeros, n, ok);
        zeros := zeros + n;
        if ok {
          ScannedToStopBit(all, Stream(), zeros);
          return;
        }
        OnlyZeros(all, Stream(), zeros);
        NothingUnread();
        var more := ReadFromClient();
        if !more {
          ScannedAll(State());
          return false, val;
        }
      }
    }

    lemma NothingUnread()
      requires Valid() && Unread() == []
      ensures |Stream()| == 8 * |client.pending|
    {
      hide Shape.Unread;
    }

    /** FLAC__bitreader_read_rice_signed */
    method ReadRiceSigned(parameter: nat) returns (ok: bool, val: int)
      requires Valid() && parameter <= 31
      modifies this, buffer, client
      ensures Valid()
      ensures ok ==> Decode(old(Stream()), parameter) == Some(Decoded(val, Stream()))
      ensures ok ==> client.failures == old(client.failures)
      ensures !ok ==> client.failures == old(client.failures) + 1
      ensures !ok ==> Decode(Without(old(Stream()), 8 * |client.pending|), parameter).None?
      ensures Decode(old(Unread()), parameter).Some? ==> ok && client.pending == old(client.pending)
      ensures |client.pending| <= |old(client.pending)|
      ensures old(Tracking()) ==> Tracking()
      ensures tape == old(tape) && seed == old(seed)
    {
      hide Crc, BitsFrom, Pow2, ToBits, ByteBits, Bits.LeadingZeros, Value, Or, ShiftLeft, Decode, Stream, Unread,
          Tracking, Without, NoStop, Shape.Valid;
      val := 0;
      var msbs, lsbs;
      ghost var all, given := Stream(), client.pending;
      UnreadArrived();
      NoStopNoCodeIf(Unread(), parameter);
      ok, msbs := ReadUnaryUnsigned();
      if !ok {
        NoStopNoCode(Without(all, 8 * |client.pending|), parameter);
        return;
      }
      ghost var rest, q := Stream(), LeadingZeros(all);
      UnreadArrived();
      ok, lsbs := ReadLowBits(parameter, all, q);
      if !ok {
        return;
      }
      DropTwice(all, q + 1, parameter);
      ComposeCode(all, q, rest[..parameter], Stream());
      var uval: int := Or(ShiftLeft(32, msbs, parameter), lsbs);
      if uval % 2 == 1 {
        val := -(uval / 2) - 1;
      } else {
        val := uval / 2;
      }
    }

    /** The low bits of a code that begins `all` and whose stop bit is at q. */
    method ReadLowBits(n: nat, ghost all: seq<bool>, ghost q: nat) returns (ok: bool, val: nat)
      requires Valid() && n <= 31 && q == LeadingZeros(all) < |all| && Stream() == all[q + 1..]
      modifies this, buffer, client
      ensures Valid()
      ensures ok ==> n <= |old(Stream())| && val == Value(old(Stream())[..n]) && Stream() == old(Stream())[n..]
      ensures ok ==> client.failures == old(client.failures)
      ensures !ok ==> client.failures == old(client.failures) + 1
      ensures !ok ==> Decode(Without(all, 8 * |client.pending|), n).None?
      ensures client.pending != old(client.pending) ==> Decode(Without(all, 8 * |old(client.pending)|), n).None?
      ensures |client.pending| <= |old(client.pending)|
      ensures old(Tracking()) ==> Tracking()
      ensures tape == old(tape) && seed == old(seed)
    {
      hide Bits.LeadingZeros, Value, Decode, Stream, Unread, Tracking, Without, Shape.Valid;
      ghost var rest, given := Stream(), client.pending;
      UnreadArrived();
      assert [] + rest == rest;
      if |Unread()| < n {
        LowBitsMissing(all, q, [], rest, n, 8 * |given|);
      }
      ok, val := ReadRawUint32(n);
      if !ok {
        UnreadArrived();
        LowBitsMissing(all, q, [], rest, n, 8 * |client.pending|);
      }
    }

    // ----- a block of Rice codes, with the cursor in registers

    /** The unary part of a code that starts in the registers. */
    method FastMsbs(cwords0: nat, ucbits0: nat, b0: nat, ghost ahead: seq<bool>)
      returns (complete: bool, cwords: nat, ucbits: nat, b: nat, x: nat, ghost rest: seq<bool>, ghost zeros: nat)
      requires Valid() && Loaded(State(), cwords0, ucbits0, b0, ahead)
      ensures x == Wrap32(zeros) && Scanned(ahead, rest, zeros, complete)
      ensures complete ==> Loaded(State(), cwords, ucbits, b, rest)
      ensures complete ==> cwords0 < cwords || (cwords0 == cwords && ucbits <= ucbits0)
      ensures !complete ==> cwords == words && rest == State().Block(words)
    {
      hide Crc, BitsFrom, Pow2, ToBits, Bits.LeadingZeros, CountZeroMsbs, ShiftLeft, Shape.Valid, Shape.Block, Scanned,
          Wrap32, Loaded, Times;
      ghost var s := State();
      cwords, ucbits, b, rest, zeros := cwords0, ucbits0, b0, ahead, 0;
      var y := CountZeroMsbs(W, b);
      x := y;
      ghost var moves := 0;
      ScannedNothing(ahead);
      LoadedBounds(s, cwords, ucbits, b, ahead);
      LoadedZeros(s, cwords, ucbits, b, ahead);
      WrapSmall(y);
      TimesSteps(W, 0);
      if x == W {
        complete, cwords, b, x, y, rest, zeros, moves := SkipZeroWords(cwords, ucbits, ahead);
        if !complete {
          return;
        }
        rest := PastStopBit(s, cwords, W, b, ahead, rest, zeros);
        ModuloWord(W, ucbits0, moves, y);
      } else {
        rest := PastStopBit(s, cwords, ucbits, b, ahead, rest, zeros);
        ModuloWord(W, ucbits0, 0, y);
      }
      zeros := zeros + y;
      b := ShiftLeft(W, b, y);
      b := ShiftLeft(W, b, 1);
      ucbits := Wrap32(ucbits0 - x - 1) % W;
      complete := true;
    }

    /** Its inner loop: the registers are all zeros, look for the stop bit word by word. */
    method SkipZeroWords(cwords0: nat, ucbits: nat, ghost ahead: seq<bool>)
      returns (complete: bool, cwords: nat, b: nat, x: nat, y: nat, ghost rest: seq<bool>, ghost zeros: nat,
          ghost moves: nat)
      requires Valid() && cwords0 < words && ucbits <= W
      requires Scanned(ahead, State().Block(cwords0 + 1), ucbits, false)
      ensures zeros == ucbits + Times(W, moves) && Scanned(ahead, rest, zeros, false)
      ensures complete ==> cwords0 < cwords < words && Loaded(State(), cwords, W, b, rest)
      ensures complete ==> y == CountZeroMsbs(W, b) != W
      ensures complete ==> x == Wrap32(zeros + y)
      ensures !complete ==> cwords == words && rest == State().Block(words) && x == Wrap32(zeros)
    {
      hide Crc, BitsFrom, Pow2, ToBits, Bits.LeadingZeros, CountZeroMsbs, Shape.Valid, Shape.Block, Scanned, Wrap32,
          Loaded, Times;
      ghost var s := State();
      WidthOf(s);
      cwords, x, b, y := cwords0, ucbits, 0, 0;
      zeros, rest, moves := ucbits, s.Block(cwords + 1), 0;
      WrapSmall(x);
      TimesSteps(W, 0);
      while true
        invariant cwords0 <= cwords < words
        invariant x == Wrap32(zeros) && zeros == ucbits + Times(W, moves)
        invariant rest == s.Block(cwords + 1) && Scanned(ahead, rest, zeros, false)
        decreases words - cwords
      {
        cwords := cwords + 1;
        if cwords >= words {
          return false, cwords, b, x, y, rest, zeros, moves;
        }
        b := buffer[cwords];
        LoadWord(s, cwords);
        LoadedZeros(s, cwords, W, b, rest);
        y := CountZeroMsbs(W, b);
        WrapSum(zeros, y);
        x := Wrap32(x + y);
        if y != W {
          return true, cwords, b, x, y, rest, zeros, moves;
        }
        ScannedThen(ahead, rest, s.Block(cwords + 1), zeros, W, false);
        TimesSteps(W, moves);
        zeros, rest, moves := zeros + W, s.Block(cwords + 1), moves + 1;
      }
    }

    /** The binary part of a code that starts in the registers. */
    method FastLsbs(cwords0: nat, ucbits0: nat, b0: nat, parameter: nat, ghost ahead: seq<bool>)
      returns (complete: bool, cwords: nat, ucbits: nat, b: nat, x: nat, ghost rest: seq<bool>)
      requires Valid() && Loaded(State(), cwords0, ucbits0, b0, ahead) && 0 < parameter < 32
      ensures complete ==> Loaded(State(), cwords, ucbits, b, rest)
      ensures complete ==> cwords0 < cwords || (cwords0 == cwords && ucbits <= ucbits0)
      ensures complete ==> parameter <= |ahead| && x == Value(ahead[..parameter]) && rest == ahead[parameter..]
      ensures !complete ==> cwords == words && rest == State().Block(words) && ucbits == ucbits0 < parameter
      ensures !complete ==> ucbits <= |ahead| && rest == ahead[ucbits..]
      ensures !complete ==> x == Double(Value(ahead[..ucbits]), parameter - ucbits)
    {
      hide Crc, BitsFrom, Pow2, ToBits, ShiftLeft, ShiftRight, Value, Double, Or, Shape.Valid, Shape.Block, Wrap32,
          Loaded;
      ghost var s := State();
      cwords, ucbits, b := cwords0, ucbits0, b0;
      LoadedBounds(s, cwords, ucbits, b, ahead);
      x := Wrap32(ShiftRight(b, W - parameter));
      TopOfLoaded(s, cwords, ucbits, b, ahead, parameter);
      if parameter <= ucbits {
        ShiftLoaded(s, cwords, ucbits, b, ahead, parameter);
        ucbits := ucbits - parameter;
        b := ShiftLeft(W, b, parameter);
        rest := ahead[parameter..];
      } else {
        cwords := cwords + 1;
        rest := s.Block(cwords);
        if cwords >= words {
          return false, cwords, ucbits, b, x, rest;
        }
        b := buffer[cwords];
        LoadWord(s, cwords);
        LoadedBounds(s, cwords, W, b, rest);
        ucbits := ucbits + (W - parameter);
        TopOfLoaded(s, cwords, W, b, rest, parameter - ucbits0);
        ShiftLoaded(s, cwords, W, b, rest, parameter - ucbits0);
        JoinSplitField(ahead, rest, ucbits0, parameter);
        x := Or(x, Wrap32(ShiftRight(b, ucbits)));
        b := ShiftLeft(W, b, W - ucbits);
        rest := ahead[parameter..];
      }
      complete := true;
    }

    /** One code, read in the registers as far as the complete words go. */
    method FastCode(cwords0: nat, ucbits0: nat, b0: nat, parameter: nat, ghost ahead: seq<bool>)
      returns (entry: Entry, cwords: nat, ucbits: nat, b: nat, x: nat, msbs: nat, ghost rest: seq<bool>,
          ghost p: Progress)
      requires Valid() && 0 < parameter < 32 && Loaded(State(), cwords0, ucbits0, b0, ahead)
      ensures entry == Head ==> Loaded(State(), cwords, ucbits, b, rest)
      ensures entry == Head ==> cwords0 < cwords || (cwords0 == cwords && ucbits <= ucbits0)
      ensures entry == Head ==>
        Decode(ahead + ByteBits(client.pending), parameter) == Some(Decoded(Unfold(x), rest + ByteBits(client.pending)))
      ensures entry != Head ==> entry != ProcessTail && cwords == words && Fits(W, buffer[..], words, bytes)
      ensures entry != Head ==>
        Resumes(entry, ahead + ByteBits(client.pending), State().Block(words) + ByteBits(client.pending), x, ucbits,
            msbs, parameter, p)
    {
      hide Crc, BitsFrom, Pow2, ToBits, ByteBits, ShiftLeft, Value, Double, Or, Decode, Unfold,
           Bits.LeadingZeros, Shape.Valid, Shape.Block, Wrap32, Loaded, Scanned;
      ghost var pending := ByteBits(client.pending);
      ghost var s := State();
      ghost var zeros;
      var complete;
      WidthOf(s);
      complete, cwords, ucbits, b, x, rest, zeros := FastMsbs(cwords0, ucbits0, b0, ahead);
      ScannedNothing(ahead + pending);
      ScannedInStream(ahead + pending, ahead, rest, pending, 0, zeros, complete);
      msbs := x;
      p := Progress(zeros, []);
      if !complete {
        return IncompleteMsbs, cwords, ucbits, b, x, msbs, rest, p;
      }
      ScannedToStopBit(ahead + pending, rest + pending, zeros);
      ghost var low := rest;
      var cwords1, ucbits1 := cwords, ucbits;
      complete, cwords, ucbits, b, x, rest := FastLsbs(cwords, ucbits, b, parameter, low);
      if !complete {
        p := Progress(zeros, low[..ucbits]);
        SplitAt(low, ucbits, pending);
        return IncompleteLsbs, cwords, ucbits, b, x, msbs, rest, p;
      }
      SplitAt(low, parameter, pending);
      TakeAfterStop(ahead + pending, zeros, low[..parameter], rest + pending);
      ComposeCode(ahead + pending, zeros, low[..parameter], rest + pending);
      x := Or(ShiftLeft(32, msbs, parameter), x);
      entry := Head;
    }

    /** Flushing the registers when all complete words are used up. */
    method Flush(cwords: nat)
      requires Valid() && consumedWords < words && cwords == words && Fits(W, buffer[..], words, bytes)
      modifies this`consumedWords, this`consumedBits
      ensures Valid() && Stream() == old(State().Block(words) + ByteBits(client.pending))
      ensures old(Tracking()) ==> Tracking()
    {
      hide Crc, BitsFrom, ByteBits, Track.Covers;
      ghost var s := State();
      consumedBits := 0;
      consumedWords := cwords;
      ghost var block := s.Block(words);
      assert block[0..] == block;
      CursorMoved(s, State(), Track(readCrc16, crc16Offset, crc16Align, seed, crcd, tape), ByteBits(client.pending));
    }

    /** One pass of the tail loop: the rest of a code, read with refills. */
    method TailCode(entry: Entry, cwords: nat, x0: nat, ucbits0: nat, msbs0: nat, parameter: nat,
            ghost code: seq<bool>, ghost p: Progress)
      returns (ok: bool, x: nat)
      requires Valid() && Fits(W, buffer[..], words, bytes) && 0 < parameter < 32 && entry != Head
      requires entry != ProcessTail ==> consumedWords < words && cwords == words
      requires Resumes(entry, code,
        if entry == ProcessTail then Stream() else State().Block(words) + ByteBits(client.pending), x0, ucbits0, msbs0,
            parameter, p)
      modifies this, buffer, client
      ensures Valid()
      ensures ok ==> Decode(code, parameter) == Some(Decoded(Unfold(x), Stream()))
      ensures ok ==> client.failures == old(client.failures)
      ensures !ok ==> client.failures == old(client.failures) + 1
      ensures !ok ==> Decode(Without(code, 8 * |client.pending|), parameter).None?
      ensures client.pending != old(client.pending) ==>
        Decode(Without(code, 8 * |old(client.pending)|), parameter).None?
      ensures |client.pending| <= |old(client.pending)|
      ensures old(Tracking()) ==> Tracking()
      ensures tape == old(tape) && seed == old(seed)
    {
      hide Crc, BitsFrom, ByteBits, Stream, Tracking, Resumes, Decode, Unfold, Shape.Block, Shape.Valid,
          Without;
      var ucbits, msbs := ucbits0, msbs0;
      x := x0;
      ghost var q := p;
      if entry != IncompleteLsbs {
        if entry == IncompleteMsbs {
          Flush(cwords);
        }
        ok, msbs, q := TailMsbs(entry, x, msbs, ucbits, parameter, code, p);
        if !ok {
          return;
        }
        x, ucbits := 0, 0;
      } else {
        Flush(cwords);
      }
      ok, x := TailLsbs(x, ucbits, msbs, parameter, code, q);
    }

    /** Its unary half. */
    method TailMsbs(entry: Entry, x: nat, msbs0: nat, ucbits: nat, parameter: nat, ghost code: seq<bool>,
            ghost p: Progress)
      returns (ok: bool, msbs: nat, ghost q: Progress)
      requires Valid() && 0 < parameter && (entry == ProcessTail || entry == IncompleteMsbs)
      requires Resumes(entry, code, Stream(), x, ucbits, msbs0, parameter, p)
      modifies this, buffer, client
      ensures Valid()
      ensures ok ==> Resumes(IncompleteLsbs, code, Stream(), 0, 0, msbs, parameter, q)
      ensures ok ==> client.failures == old(client.failures)
      ensures !ok ==> client.failures == old(client.failures) + 1
      ensures !ok ==> Decode(Without(code, 8 * |client.pending|), parameter).None?
      ensures client.pending != old(client.pending) ==>
        Decode(Without(code, 8 * |old(client.pending)|), parameter).None?
      ensures |client.pending| <= |old(client.pending)|
      ensures old(Tracking()) ==> Tracking()
      ensures tape == old(tape) && seed == old(seed)
    {
      hide Stream, Unread, Tracking, Bits.LeadingZeros, Shape.Valid, Wrap32, Resumes, Decode, Without, NoStop;
      ghost var after, given := Stream(), client.pending;
      UnreadArrived();
      if NoStop(Unread()) {
        StopBitMissing(entry, code, after, x, ucbits, msbs0, parameter, p, 8 * |given|);
      }
      ok, msbs := ReadUnaryUnsigned();
      if !ok {
        StopBitMissing(entry, code, after, x, ucbits, msbs0, parameter, p, 8 * |client.pending|);
      }
      q := p;
      if ok {
        q := ResumeCounting(entry, code, after, Stream(), x, msbs0, ucbits, parameter, p);
        msbs := Wrap32(msbs + x);
      }
    }

    /** Its binary half. */
    method TailLsbs(x0: nat, ucbits: nat, msbs: nat, parameter: nat, ghost code: seq<bool>, ghost p: Progress)
      returns (ok: bool, x: nat)
      requires Valid() && 0 < parameter < 32
      requires Resumes(IncompleteLsbs, code, Stream(), x0, ucbits, msbs, parameter, p)
      modifies this, buffer, client
      ensures Valid()
      ensures ok ==> Decode(code, parameter) == Some(Decoded(Unfold(x), Stream()))
      ensures ok ==> client.failures == old(client.failures)
      ensures !ok ==> client.failures == old(client.failures) + 1
      ensures !ok ==> Decode(Without(code, 8 * |client.pending|), parameter).None?
      ensures client.pending != old(client.pending) ==>
        Decode(Without(code, 8 * |old(client.pending)|), parameter).None?
      ensures |client.pending| <= |old(client.pending)|
      ensures old(Tracking()) ==> Tracking()
      ensures tape == old(tape) && seed == old(seed)
    {
      hide Stream, Unread, Tracking, Double, Value, Or, ShiftLeft, Bits.LeadingZeros, Shape.Valid, Wrap32, Decode,
          Unfold, Without;
      ghost var after, given := Stream(), client.pending;
      UnreadArrived();
      if |Unread()| < parameter - ucbits {
        LowBitsMissing(code, p.zeros, p.part, after, parameter, 8 * |given|);
      }
      var lsbs;
      ok, lsbs := ReadRawUint32(parameter - ucbits);
      if !ok {
        UnreadArrived();
        LowBitsMissing(code, p.zeros, p.part, after, parameter, 8 * |client.pending|);
      }
      x := x0;
      if ok {
        lsbs := Or(x, lsbs);
        PartAndRest(p.part, after, parameter);
        ghost var ahead := p.part + after;
        TakeAfterStop(code, p.zeros, ahead[..parameter], ahead[parameter..]);
        ComposeCode(code, p.zeros, ahead[..parameter], ahead[parameter..]);
        x := Or(ShiftLeft(32, msbs, parameter), lsbs);
      }
    }

    /** Reading the cursor back into registers.  (The word under it is loaded only when
        there is one.) */
    method Reload() returns (cwords: nat, ucbits: nat, b: nat)
      requires Valid()
      ensures cwords == consumedWords && InRegisters(State(), cwords, ucbits, b, Unread())
    {
      hide Crc, BitsFrom, ToBits, ShiftLeft, Pow2;
      cwords := consumedWords;
      ucbits := W - consumedBits;
      b := 0;
      if cwords < words {
        b := ShiftLeft(W, buffer[cwords], consumedBits);
        LoadShifted(State(), cwords, consumedBits);
      }
    }

    lemma AfterInCode(entry: Entry, code: seq<bool>, after: seq<bool>, x: nat, ucbits: nat, msbs: nat, parameter: nat,
            p: Progress, all: seq<bool>, done: nat)
      requires Valid() && Resumes(entry, code, after, x, ucbits, msbs, parameter, p)
      requires after == if entry == ProcessTail then Stream() else State().Block(words) + ByteBits(client.pending)
      requires DecodeMany(all, done, parameter).Some? && DecodeMany(all, done, parameter).value.rest == code
      ensures 8 * |client.pending| <= |code| <= |all|
    {
      hide Resumes, DecodeMany, Shape.Block, Shape.Valid, Shape.Unread, ByteBits;
      ResumesShorter(entry, code, after, x, ucbits, msbs, parameter, p);
      RestIsShorter(all, done, parameter);
    }

    /** One value of the tail loop, number `done` of at least n that are wanted. */
    method TailValue(vals: array<int>, done: nat, entry: Entry, cwords: nat, x0: nat, ucbits: nat, msbs: nat,
            parameter: nat, ghost all: seq<bool>, ghost code: seq<bool>, ghost p: Progress, ghost orig: seq<int>,
            ghost n: nat)
      returns (ok: bool)
      requires Valid() && Fits(W, buffer[..], words, bytes) && 0 < parameter < 32 && entry != Head
      requires entry != ProcessTail ==> consumedWords < words && cwords == words
      requires Resumes(entry, code,
        if entry == ProcessTail then Stream() else State().Block(words) + ByteBits(client.pending), x0, ucbits, msbs,
            parameter, p)
      requires (vals as object) != buffer && done < n && done < vals.Length == |orig| && vals[done..] == orig[done..]
      requires DecodeMany(all, done, parameter) == Some(Decoded(vals[..done], code))
      modifies this, buffer, client, vals
      ensures Valid()
      ensures ok ==> DecodeMany(all, done + 1, parameter) == Some(Decoded(vals[..done + 1], Stream()))
      ensures ok ==> vals[done + 1..] == orig[done + 1..]
      ensures ok ==> client.failures == old(client.failures)
      ensures !ok ==> client.failures == old(client.failures) + 1
      ensures !ok ==> DecodeMany(Without(all, 8 * |client.pending|), n, parameter).None?
      ensures client.pending != old(client.pending) ==>
        DecodeMany(Without(all, 8 * |old(client.pending)|), n, parameter).None?
      ensures |client.pending| <= |old(client.pending)|
      ensures old(Tracking()) ==> Tracking()
      ensures tape == old(tape) && seed == old(seed)
    {
      hide Crc, BitsFrom, ByteBits, Stream, Unread, Tracking, Resumes, Decode, DecodeMany, Unfold, Shape.Block,
          Shape.Valid, Without;
      ghost var given := client.pending;
      ghost var after :=
        if entry == ProcessTail then Stream() else State().Block(words) + ByteBits(client.pending);
      AfterInCode(entry, code, after, x0, ucbits, msbs, parameter, p, all, done);
      var x;
      ok, x := TailCode(entry, cwords, x0, ucbits, msbs, parameter, code, p);
      if client.pending != given {
        NotArrived(all, done, code, parameter, 8 * |given|, n);
      }
      if !ok {
        NotArrived(all, done, code, parameter, 8 * |client.pending|, n);
        return;
      }
      ghost var before := vals[..];
      vals[done] := FlipIf(x / 2, x % 2 == 1);
      NextValue(all, done, parameter, orig, before, vals[..], code, x, Stream());
    }

    /** The tail loop: codes that need bytes beyond the complete words, until there are
        complete words again or enough values. */
    method TailLoop(vals: array<int>, done0: nat, nvals: nat, entry0: Entry, cwords0: nat, x0: nat, ucbits0: nat,
            msbs0: nat, parameter: nat,
                    ghost all: seq<bool>, ghost code0: seq<bool>, ghost p: Progress)
      returns (ok: bool, done: nat, cwords: nat, ucbits: nat, b: nat)
      requires Valid() && Fits(W, buffer[..], words, bytes) && 0 < parameter < 32 && entry0 != Head
      requires entry0 != ProcessTail ==> consumedWords < words && cwords0 == words
      requires Resumes(entry0, code0,
        if entry0 == ProcessTail then Stream() else State().Block(words) + ByteBits(client.pending), x0, ucbits0,
            msbs0, parameter, p)
      requires (vals as object) != buffer && done0 < vals.Length && nvals <= vals.Length
      requires DecodeMany(all, done0, parameter) == Some(Decoded(vals[..done0], code0))
      modifies this, buffer, client, vals
      ensures Valid()
      ensures ok ==> done0 < done <= vals.Length && (done <= nvals || done == done0 + 1)
      ensures ok ==> InRegisters(State(), cwords, ucbits, b, Unread()) && (cwords < words || done >= nvals)
      ensures ok ==> DecodeMany(all, done, parameter) == Some(Decoded(vals[..done], Stream()))
      ensures ok ==> vals[done..] == old(vals[..])[done..]
      ensures ok ==> client.failures == old(client.failures)
      ensures !ok ==> client.failures == old(client.failures) + 1
      ensures !ok ==> DecodeMany(Without(all, 8 * |client.pending|), Max(nvals, done0 + 1), parameter).None?
      ensures client.pending != old(client.pending) ==>
        DecodeMany(Without(all, 8 * |old(client.pending)|), Max(nvals, done0 + 1), parameter).None?
      ensures |client.pending| <= |old(client.pending)|
      ensures old(Tracking()) ==> Tracking()
      ensures tape == old(tape) && seed == old(seed)
    {
      hide Crc, BitsFrom, ByteBits, Stream, Unread, Tracking, Resumes, Decode, DecodeMany, Unfold, Shape.Block,
          Shape.Valid, InRegisters, Without;
      var entry, x: nat, msbs: nat := entry0, x0, msbs0;
      done, cwords, ucbits, b := done0, cwords0, ucbits0, 0;
      ghost var code := code0;
      ghost var after :=
        if entry == ProcessTail then Stream() else State().Block(words) + ByteBits(client.pending);
      while true
        invariant Valid() && Fits(W, buffer[..], words, bytes) && entry != Head
        invariant entry != ProcessTail ==> consumedWords < words && cwords == words
        invariant after == if entry == ProcessTail then Stream() else State().Block(words) + ByteBits(client.pending)
        invariant Resumes(entry, code, after, x, ucbits, msbs, parameter, p)
        invariant client.pending != old(client.pending) ==>
            DecodeMany(Without(all, 8 * |old(client.pending)|), Max(nvals, done0 + 1), parameter).None?
        invariant |client.pending| <= |old(client.pending)|
        invariant done0 <= done < vals.Length && (done < nvals || done == done0)
        invariant DecodeMany(all, done, parameter) == Some(Decoded(vals[..done], code))
        invariant vals[done..] == old(vals[..])[done..]
        invariant client.failures == old(client.failures)
        invariant old(Tracking()) ==> Tracking()
        invariant tape == old(tape) && seed == old(seed)
        decreases vals.Length - done
      {
        ok := TailValue(vals, done, entry, cwords, x, ucbits, msbs, parameter, all, code, p, old(vals[..]),
            Max(nvals, done0 + 1));
        if !ok {
          return;
        }
        done := done + 1;
        x := 0;
        cwords, ucbits, b := Reload();
        if !(cwords >= words && done < nvals) {
          CursorOrdered(State());
          return;
        }
        entry, code, after := ProcessTail, Stream(), Stream();
        WidthOf(State());
        ResumesAtTail(code, ucbits, msbs, parameter, p);
      }
    }

    /** FLAC__bitreader_read_rice_signed_block */
    method ReadRiceSignedBlock(vals: array<int>, nvals: nat, parameter: nat) returns (ok: bool)
      requires Valid() && parameter <= 31 && (vals as object) != buffer
      requires ValuesRead(nvals, parameter, consumedWords < words) <= vals.Length
      modifies this, buffer, client, vals
      ensures Valid()
      ensures ok ==> var n := ValuesRead(nvals, parameter, old(consumedWords < words));
        DecodeMany(old(Stream()), n, parameter) == Some(Decoded(vals[..n], Stream())) && vals[n..] == old(vals[..])[n..]
      ensures ok ==> client.failures == old(client.failures)
      ensures !ok ==> client.failures == old(client.failures) + 1
      ensures !ok ==>
        DecodeMany(Without(old(Stream()), 8 * |client.pending|),
          ValuesRead(nvals, parameter, old(consumedWords < words)), parameter).None?
      ensures DecodeMany(old(Unread()), ValuesRead(nvals, parameter, old(consumedWords < words)), parameter).Some? ==>
        ok && client.pending == old(client.pending)
      ensures |client.pending| <= |old(client.pending)|
      ensures old(Tracking()) ==> Tracking()
      ensures tape == old(tape) && seed == old(seed)
    {
      if parameter == 0 {
        ok := ReadUnaryBlock(vals, nvals);
      } else {
        ok := ReadRiceBlock(vals, nvals, parameter);
      }
    }

    /** ... with parameter 0 */
    method ReadUnaryBlock(vals: array<int>, nvals: nat) returns (ok: bool)
      requires Valid() && (vals as object) != buffer && nvals <= vals.Length
      modifies this, buffer, client, vals
      ensures Valid()
      ensures ok ==> DecodeMany(old(Stream()), nvals, 0) == Some(Decoded(vals[..nvals], Stream()))
      ensures ok ==> vals[nvals..] == old(vals[..])[nvals..]
      ensures ok ==> client.failures == old(client.failures)
      ensures !ok ==> client.failures == old(client.failures) + 1
      ensures !ok ==>
        DecodeMany(Without(old(Stream()), 8 * |client.pending|), nvals, 0).None?
      ensures DecodeMany(old(Unread()), nvals, 0).Some? ==>
        ok && client.pending == old(client.pending)
      ensures |client.pending| <= |old(client.pending)|
      ensures old(Tracking()) ==> Tracking()
      ensures tape == old(tape) && seed == old(seed)
    {
      hide Crc, BitsFrom, ByteBits, Stream, Unread, Tracking, Decode, DecodeMany, Unfold, Shape.Valid,
          Bits.LeadingZeros, Wrap32, Without, NoStop;
      var done := 0;
      UnreadArrived();
      ghost var all, code := Stream(), Stream();
      NoValues(all, 0, vals[..]);
      while done < nvals
        invariant Valid() && done <= nvals && code == Stream()
        invariant client.pending != old(client.pending) ==> DecodeMany(old(Unread()), nvals, 0).None?
        invariant |client.pending| <= |old(client.pending)|
        invariant DecodeMany(all, done, 0) == Some(Decoded(vals[..done], code))
        invariant vals[done..] == old(vals[..])[done..]
        invariant client.failures == old(client.failures)
        invariant old(Tracking()) ==> Tracking()
        invariant tape == old(tape) && seed == old(seed)
      {
        ghost var given := client.pending;
        UnreadArrived();
        RestIsShorter(all, done, 0);
        if NoStop(Unread()) {
          NoStopNoCode(Unread(), 0);
          NotArrived(all, done, code, 0, 8 * |given|, nvals);
        }
        var msbs;
        ok, msbs := ReadUnaryUnsigned();
        if !ok {
          NoStopNoCode(Without(code, 8 * |client.pending|), 0);
          NotArrived(all, done, code, 0, 8 * |client.pending|, nvals);
          return;
        }
        UnaryCode(code);
        ghost var before := vals[..];
        vals[done] := FlipIf(msbs / 2, msbs % 2 == 1);
        NextValue(all, done, 0, old(vals[..]), before, vals[..], code, msbs, Stream());
        done := done + 1;
        code := Stream();
      }
      ok := true;
    }

    /** One code in the registers, stored if it is complete. */
    method FastStep(vals: array<int>, done: nat, cwords0: nat, ucbits0: nat, b0: nat, parameter: nat,
                    ghost all: seq<bool>, ghost ahead: seq<bool>, ghost orig: seq<int>)
      returns (entry: Entry, cwords: nat, ucbits: nat, b: nat, x: nat, msbs: nat, ghost rest: seq<bool>,
          ghost p: Progress)
      requires Valid() && 0 < parameter < 32 && InRegisters(State(), cwords0, ucbits0, b0, ahead) && cwords0 < words
      requires (vals as object) != buffer && done < vals.Length == |orig| && vals[done..] == orig[done..]
      requires DecodeMany(all, done, parameter) == Some(Decoded(vals[..done], ahead + ByteBits(client.pending)))
      modifies vals
      ensures Valid()
      ensures entry == Head ==> InRegisters(State(), cwords, ucbits, b, rest) && cwords < words
      ensures entry == Head ==> vals[done + 1..] == orig[done + 1..]
      ensures entry == Head ==>
        DecodeMany(all, done + 1, parameter) == Some(Decoded(vals[..done + 1], rest + ByteBits(client.pending)))
      ensures entry != Head ==> vals[..] == old(vals[..])
      ensures entry != Head ==> entry != ProcessTail && cwords == words && consumedWords < words
      ensures entry != Head ==> Fits(W, buffer[..], words, bytes)
      ensures entry != Head ==>
        Resumes(entry, ahead + ByteBits(client.pending), State().Block(words) + ByteBits(client.pending), x, ucbits,
            msbs, parameter, p)
    {
      hide Crc, BitsFrom, ByteBits, Resumes, Decode, DecodeMany, Unfold, Shape.Block, Shape.Valid, InRegisters, Loaded;
      ghost var s := State();
      InWords(s, cwords0, ucbits0, b0, ahead);
      entry, cwords, ucbits, b, x, msbs, rest, p := FastCode(cwords0, ucbits0, b0, parameter, ahead);
      if entry == Head {
        StillInRegisters(s, cwords0, ucbits0, cwords, ucbits, b, rest);
        ghost var before := vals[..];
        vals[done] := FlipIf(x / 2, x % 2 == 1);
        NextValue(all, done, parameter, orig, before, vals[..], ahead + ByteBits(client.pending), x,
            rest + ByteBits(client.pending));
      }
    }

    /** One turn of the loop: a value in the registers, or as many as the tail loop reads. */
    method BlockStep(vals: array<int>, done0: nat, nvals: nat, entry0: Entry, cwords0: nat, ucbits0: nat, b0: nat,
            msbs0: nat, parameter: nat, ghost all: seq<bool>, ghost ahead: seq<bool>, ghost orig: seq<int>,
            ghost total: nat)
      returns (ok: bool, done: nat, cwords: nat, ucbits: nat, b: nat, ghost rest: seq<bool>)
      requires Valid() && 0 < parameter < 32 && (vals as object) != buffer
      requires done0 < total <= vals.Length == |orig| && total == Max(nvals, done0 + 1)
      requires vals[done0..] == orig[done0..]
      requires entry0 == Head || entry0 == ProcessTail
      requires entry0 == Head ==>
        done0 < nvals && cwords0 < words && InRegisters(State(), cwords0, ucbits0, b0, ahead)
      requires entry0 == ProcessTail ==> ahead == Unread() && Fits(W, buffer[..], words, bytes)
      requires entry0 == ProcessTail ==>
        Resumes(entry0, Stream(), Stream(), 0, ucbits0, msbs0, parameter, Progress(0, []))
      requires DecodeMany(all, done0, parameter) == Some(Decoded(vals[..done0], ahead + ByteBits(client.pending)))
      modifies this, buffer, client, vals
      ensures Valid()
      ensures ok ==> done0 < done <= total
      ensures ok ==> InRegisters(State(), cwords, ucbits, b, rest) && (cwords < words || done >= nvals)
      ensures ok ==>
        DecodeMany(all, done, parameter) == Some(Decoded(vals[..done], rest + ByteBits(client.pending)))
      ensures ok ==> vals[done..] == orig[done..]
      ensures ok ==> client.failures == old(client.failures)
      ensures !ok ==> client.failures == old(client.failures) + 1
      ensures !ok ==> DecodeMany(Without(all, 8 * |client.pending|), total, parameter).None?
      ensures client.pending != old(client.pending) ==>
        DecodeMany(Without(all, 8 * |old(client.pending)|), total, parameter).None?
      ensures |client.pending| <= |old(client.pending)|
      ensures old(Tracking()) ==> Tracking()
      ensures tape == old(tape) && seed == old(seed)
    {
      hide Crc, BitsFrom, ByteBits, Tracking, Resumes, Decode, DecodeMany, Unfold, Shape.Block, Shape.Valid,
          Shape.Unread, InRegisters, Loaded, Without;
      var entry, x, msbs: nat := entry0, 0, msbs0;
      cwords, ucbits, b, rest := cwords0, ucbits0, b0, ahead;
      ghost var code, p := ahead + ByteBits(client.pending), Progress(0, []);
      if entry == Head {
        entry, cwords, ucbits, b, x, msbs, rest, p :=
          FastStep(vals, done0, cwords, ucbits, b, parameter, all, ahead, orig);
        if entry == Head {
          return true, done0 + 1, cwords, ucbits, b, rest;
        }
      }
      ok, done, cwords, ucbits, b :=
        TailLoop(vals, done0, nvals, entry, cwords, x, ucbits, msbs, parameter, all, code, p);
      rest := Unread();
    }

    /** ... with a positive parameter */
    method ReadRiceBlock(vals: array<int>, nvals: nat, parameter: nat) returns (ok: bool)
      requires Valid() && 0 < parameter <= 31 && (vals as object) != buffer
      requires ValuesRead(nvals, parameter, consumedWords < words) <= vals.Length
      modifies this, buffer, client, vals
      ensures Valid()
      ensures ok ==> var n := ValuesRead(nvals, parameter, old(consumedWords < words));
        DecodeMany(old(Stream()), n, parameter) == Some(Decoded(vals[..n], Stream())) && vals[n..] == old(vals[..])[n..]
      ensures ok ==> client.failures == old(client.failures)
      ensures !ok ==> client.failures == old(client.failures) + 1
      ensures !ok ==>
        DecodeMany(Without(old(Stream()), 8 * |client.pending|),
          ValuesRead(nvals, parameter, old(consumedWords < words)), parameter).None?
      ensures DecodeMany(old(Unread()), ValuesRead(nvals, parameter, old(consumedWords < words)), parameter).Some? ==>
        ok && client.pending == old(client.pending)
      ensures |client.pending| <= |old(client.pending)|
      ensures old(Tracking()) ==> Tracking()
      ensures tape == old(tape) && seed == old(seed)
    {
      hide Crc, BitsFrom, ByteBits, Tracking, Resumes, Decode, DecodeMany, Unfold, Shape.Block, Shape.Valid,
          Shape.Unread, InRegisters, Loaded, Without;
      UnreadArrived();
      var done: nat, entry: Entry, msbs: nat := 0, Head, 0;
      ghost var all := Stream();
      ghost var ahead := Unread();
      ghost var total := ValuesRead(nvals, parameter, consumedWords < words);
      NoValues(all, parameter, vals[..]);
      var cwords: nat, ucbits: nat, b: nat;
      cwords, ucbits, b := Reload();
      if cwords >= words {
        entry := ProcessTail;
        WidthOf(State());
        ResumesAtTail(all, ucbits, msbs, parameter, Progress(0, []));
      }
      while done < nvals || entry != Head
        invariant Valid() && (entry == Head || (entry == ProcessTail && done == 0))
        invariant done <= total && (entry != Head ==> done < total) && (nvals > 0 ==> total == nvals)
        invariant entry == Head ==> done > 0 || total == nvals
        invariant entry == Head ==> InRegisters(State(), cwords, ucbits, b, ahead) && (cwords < words || done >= nvals)
        invariant entry == ProcessTail ==> ahead == Unread() && Fits(W, buffer[..], words, bytes)
        invariant entry == ProcessTail ==>
            Resumes(entry, Stream(), Stream(), 0, ucbits, msbs, parameter, Progress(0, []))
        invariant DecodeMany(all, done, parameter) == Some(Decoded(vals[..done], ahead + ByteBits(client.pending)))
        invariant client.pending != old(client.pending) ==> DecodeMany(old(Unread()), total, parameter).None?
        invariant |client.pending| <= |old(client.pending)|
        invariant vals[done..] == old(vals[..])[done..]
        invariant client.failures == old(client.failures)
        invariant old(Tracking()) ==> Tracking()
        invariant tape == old(tape) && seed == old(seed)
        decreases total - done
      {
        ok, done, cwords, ucbits, b, ahead :=
          BlockStep(vals, done, nvals, entry, cwords, ucbits, b, msbs, parameter, all, ahead, old(vals[..]), total);
        if !ok {
          return;
        }
        entry := Head;
      }
      FlushBack(cwords, ucbits, b, ahead);
      ok := true;
    }

    /** Its end: the registers go back to the reader. */
    method FlushBack(cwords0: nat, ucbits0: nat, ghost b: nat, ghost ahead: seq<bool>)
      requires Valid() && InRegisters(State(), cwords0, ucbits0, b, ahead)
      modifies this`consumedWords, this`consumedBits
      ensures Valid() && Stream() == ahead + ByteBits(client.pending)
      ensures old(Tracking()) ==> Tracking()
    {
      hide Crc, BitsFrom, ByteBits, Track.Covers, Shape.Valid, Shape.Unread, InRegisters;
      ghost var t := Track(readCrc16, crc16Offset, crc16Align, seed, crcd, tape);
      FlushRegisters(State(), cwords0, ucbits0, b, ahead, t, ByteBits(client.pending));
      var cwords, ucbits := cwords0, ucbits0;
      if ucbits == 0 && cwords < words {
        cwords := cwords + 1;
        ucbits := W;
      }
      consumedBits := W - ucbits;
      consumedWords := cwords;
    }

    // ----- a tracked session

    lemma ConsumedThenStream()
      requires Valid() && Tracking()
      ensures |Stream()| <= |tape| && tape == Consumed() + Stream()
    {
      hide Crc, BitsFrom, Pow2, ByteBits, ToBits, BehindCursor;
      ConsumedParts(State(), Track(readCrc16, crc16Offset, crc16Align, seed, crcd, tape), ByteBits(client.pending));
    }

    /** One read of any kind; its value is not kept. */
    method Serve(request: Request) returns (ok: bool)
      requires Valid() && Tracking() && request.Proper()
      modifies this, buffer, client
      ensures Valid() && Tracking() && tape == old(tape) && seed == old(seed)
    {
      hide Crc, Tracking, Stream, Decode, DecodeMany, Shape.Valid, Shape.Unread;
      match request {
        case Raw(n) =>
          var val;
          ok, val := ReadRawUint32(n);
        case Unary =>
          var val;
          ok, val := ReadUnaryUnsigned();
        case Rice(parameter) =>
          var val;
          ok, val := ReadRiceSigned(parameter);
        case RiceBlock(nvals, parameter) =>
          var vals := new int[nvals + 1];
          ok := ReadRiceSignedBlock(vals, nvals, parameter);
      }
    }

    /** From a reset through any reads, whatever refills they need, to the first time the CRC is
        asked for: it is the CRC of exactly the bits that were consumed. */
    method ReadTracked(start: Register, requests: seq<Request>) returns (crc: Option<Register>, ghost read: seq<bool>)
      requires Valid() && consumedBits % 8 == 0
      requires forall i :: 0 <= i < |requests| ==> requests[i].Proper()
      modifies this, buffer, client
      ensures Valid() && old(Stream()) == read + Stream()
      ensures crc.None? ==> consumedBits % 8 != 0
      ensures crc.Some? ==> crc.value == Crc(start, read)
    {
      hide Crc, Tracking, Stream, Consumed, Shape.Valid, Shape.Unread, Request.Proper;
      ghost var all := Stream();
      ResetReadCrc16(start);
      for i := 0 to |requests|
        invariant Valid() && Tracking() && tape == all && seed == start
      {
        var ok := Serve(requests[i]);
      }
      ConsumedThenStream();
      read := Consumed();
      crc := None;
      if consumedBits % 8 == 0 {
        var value := GetReadCrc16();
        crc := Some(value);
      }
    }
  }
}
