/** The state of the bit reader as a value, and what its operations do to it.

    A `Shape` is the buffer and the cursor, a `Track` how far the running CRC has come. The
    lemmas say, for each step of the reader, what stays ahead of the cursor and what the CRC
    still covers. */
module ReaderState {
  import opened Bits
  import opened Crc16
  import opened RiceCode
  import opened Words
  import opened Wrappers
  import opened WordBuffer

  /** The buffer and cursor of a reader, as a value. */
  datatype Shape = Shape(W: nat, buffer: seq<nat>, words: nat, bytes: nat, consumedWords: nat, consumedBits: nat) {
    ghost predicate Valid() {
      && IsWidth(W)
      && |buffer| >= 2
      && (forall k :: 0 <= k < |buffer| ==> buffer[k] < Pow2(W))
      && Fits(W, buffer, words, bytes)
      && consumedWords <= words
      && (consumedWords < words ==> consumedBits < W)
      && (consumedWords == words ==> consumedBits <= 8 * bytes)
    }

    /** The bits from word i on. */
    ghost function Block(i: nat): seq<bool>
      requires Fits(W, buffer, words, bytes) && i <= words
    {
      BitsFrom(W, buffer, words, bytes, i)
    }

    /** The bits ahead of the cursor. */
    ghost function Unread(): seq<bool>
      requires Valid()
    {
      Block(consumedWords)[consumedBits..]
    }
  }

  /** How far the running CRC has come since it was last reset: it has taken in `crcd`, it
      stands `align` bits into word `offset`, and the whole tape is what it took in, then
      what follows in the buffer, then what the client still holds. */
  datatype Track = Track(crc: Register, offset: nat, align: nat, seed: Register, crcd: seq<bool>, tape: seq<bool>) {
    ghost predicate Covers(s: Shape, pending: seq<bool>)
      requires s.Valid()
    {
      && offset <= s.consumedWords
      && align < s.W
      && (offset == s.consumedWords ==> align <= s.consumedBits)
      && crc == Crc(seed, crcd)
      && tape == crcd + (s.Block(offset)[align..] + pending)
    }
  }

  /** Moving the unconsumed words to the front changes nothing ahead of the cursor. */
  lemma CompactShape(before: Shape, after: Shape)
    requires before.Valid() && |after.buffer| == |before.buffer|
    requires after.W == before.W && after.bytes == before.bytes && after.consumedBits == before.consumedBits
    requires after.consumedWords == 0 && after.words == before.words - before.consumedWords
    requires forall k :: before.consumedWords <= k < before.words + (if before.bytes > 0 then 1 else 0) ==>
      after.buffer[k - before.consumedWords] == before.buffer[k]
    requires forall k :: 0 <= k < |after.buffer| ==> after.buffer[k] < Pow2(after.W)
    ensures after.Valid() && after.Block(0) == before.Block(before.consumedWords) && after.Unread() == before.Unread()
  {
    Moved(before.W, before.buffer, after.buffer, before.words, before.bytes, before.consumedWords,
        before.consumedWords);
  }

  lemma CompactTrack(before: Shape, after: Shape, t: Track, u: Track, pending: seq<bool>)
    requires before.Valid() && after.Valid() && t.offset <= before.consumedWords && t.align <= before.W
    requires after.W == before.W && after.consumedBits == before.consumedBits
    requires after.consumedWords == 0 && after.Block(0) == before.Block(before.consumedWords)
    requires u.offset == 0 && u.align == if t.offset < before.consumedWords then 0 else t.align
    requires u.crcd == t.crcd + BehindCursor(before.W, before.buffer, t.offset, before.consumedWords, t.align)
    requires u.crc == Crc(t.crc, BehindCursor(before.W, before.buffer, t.offset, before.consumedWords, t.align))
    requires u.seed == t.seed && u.tape == t.tape
    ensures t.Covers(before, pending) ==> u.Covers(after, pending)
  {
    hide Crc, BehindCursor, BitsFrom, Pow2;
    if t.Covers(before, pending) {
      var skipped := BehindCursor(before.W, before.buffer, t.offset, before.consumedWords, t.align);
      CrcConcat(t.seed, t.crcd, skipped);
      CursorInside(before);
      BlockBehindCursor(before.W, before.buffer, before.words, before.bytes, t.offset, before.consumedWords, t.align);
    }
  }

  lemma CursorInside(s: Shape)
    requires s.Valid()
    ensures s.consumedBits <= |s.Block(s.consumedWords)|
  {
  }

  lemma StoredByte(before: Shape, after: Shape, d: byte)
    requires before.Valid() && before.words < |before.buffer| && before.consumedWords == 0
    requires after.W == before.W && after.consumedWords == 0 && after.consumedBits == before.consumedBits
    requires PutByte(before.W, before.buffer[before.words], before.bytes, d) < Pow2(before.W)
    requires after.buffer
        == before.buffer[before.words := PutByte(before.W, before.buffer[before.words], before.bytes, d)]
    requires if before.bytes + 1 == BytesPerWord(before.W) then after.words == before.words + 1 && after.bytes == 0
             else after.words == before.words && after.bytes == before.bytes + 1
    ensures after.Valid() && after.Block(0) == before.Block(0) + ToBits(8, d)
    ensures Room(after.W, |after.buffer|, after.words, after.bytes)
        == Room(before.W, |before.buffer|, before.words, before.bytes) - 1
  {
    hide ToBits, PutByte, BitsFrom, Pow2;
    Appended(before.W, before.buffer, before.words, before.bytes, d, 0);
  }

  /** Delivered bytes go to the end of what is unread, and the tape does not notice. */
  lemma GrownShape(before: Shape, after: Shape, data: seq<bool>, pending: seq<bool>, t: Track)
    requires before.Valid() && after.Valid() && before.consumedWords == after.consumedWords == 0
    requires before.W == after.W && before.consumedBits == after.consumedBits
    requires after.Block(0) == before.Block(0) + data
    ensures after.Unread() == before.Unread() + data
    ensures t.Covers(before, data + pending) ==> t.Covers(after, pending)
  {
    hide Crc, BitsFrom, Pow2;
    CursorInside(before);
    if t.Covers(before, data + pending) {
      assert after.Block(0)[t.align..] == before.Block(0)[t.align..] + data;
      assert before.Block(0)[t.align..] + (data + pending) == (before.Block(0)[t.align..] + data) + pending;
    }
  }

  lemma NoBytes(data: seq<byte>)
    ensures ByteBits(data[..0]) == []
  {
  }

  lemma NoBits(c: Register, s: seq<bool>, n: nat)
    requires n <= |s|
    ensures Crc(c, s[n..n]) == c
  {
  }

  lemma NextByte(W: nat, word: nat, start: nat, a: nat, c: Register)
    requires start <= a && a + 8 <= W
    ensures Crc(c, ToBits(W, word)[start..a + 8]) == Update(ByteAt(word, W - 8 - a), Crc(c, ToBits(W, word)[start..a]))
  {
    hide Crc, Update, ToBits, ByteAt;
    ByteAtBits(W, word, W - 8 - a);
    UpdateIsCrc(ByteAt(word, W - 8 - a), Crc(c, ToBits(W, word)[start..a]));
    CrcConcat(c, ToBits(W, word)[start..a], ToBits(W, word)[a..a + 8]);
    assert ToBits(W, word)[start..a + 8] == ToBits(W, word)[start..a] + ToBits(W, word)[a..a + 8];
  }

  /** The whole words behind the cursor that a CRC which has seen `align` bits of the first
      one has yet to take in. */
  ghost function BehindCursor(W: nat, buffer: seq<nat>, offset: nat, consumed: nat, align: nat): seq<bool>
    requires offset <= consumed <= |buffer| && align <= W
  {
    if offset == consumed then [] else ToBits(W, buffer[offset])[align..] + WholeWords(W, buffer, offset + 1, consumed)
  }

  lemma BehindCursorCases(W: nat, buffer: seq<nat>, offset: nat, consumed: nat, align: nat, c: Register)
    requires offset <= consumed <= |buffer| && align <= W
    ensures offset == consumed ==>
      Crc(c, BehindCursor(W, buffer, offset, consumed, align)) == Crc(c, WholeWords(W, buffer, offset, consumed)) == c
    ensures offset < consumed && align == 0 ==>
      Crc(c, BehindCursor(W, buffer, offset, consumed, align)) == Crc(c, WholeWords(W, buffer, offset, consumed))
    ensures offset < consumed ==>
      Crc(c, BehindCursor(W, buffer, offset, consumed, align))
      == Crc(Crc(c, ToBits(W, buffer[offset])[align..]), WholeWords(W, buffer, offset + 1, consumed))
  {
    if offset < consumed {
      CrcConcat(c, ToBits(W, buffer[offset])[align..], WholeWords(W, buffer, offset + 1, consumed));
      assert ToBits(W, buffer[offset])[0..] == ToBits(W, buffer[offset]);
    }
  }

  function BytesPerWord(W: nat): nat { if W == 32 then 4 else 8 }

  /** The free bytes of a buffer. */
  function Room(W: nat, capacity: nat, words: nat, bytes: nat): (r: nat)
    requires IsWidth(W) && words <= capacity && 8 * bytes < W && (bytes > 0 ==> words < capacity)
    ensures r == 0 <==> words == capacity
  {
    if W == 32 then (capacity - words) * 4 - bytes else (capacity - words) * 8 - bytes
  }

  lemma ByteBitsSnoc(data: seq<byte>, j: nat)
    requires j < |data|
    ensures ByteBits(data[..j + 1]) == ByteBits(data[..j]) + ToBits(8, data[j])
  {
    assert data[..j + 1] == data[..j] + [data[j]];
    ByteBitsConcat(data[..j], [data[j]]);
    ByteBitsOne(data[j]);
  }

  /** What lies after the CRC's position is what is behind the cursor, then what is ahead. */
  lemma BlockBehindCursor(W: nat, buffer: seq<nat>, words: nat, bytes: nat, offset: nat, consumed: nat, align: nat)
    requires Fits(W, buffer, words, bytes) && offset <= consumed <= words && align <= W
    requires offset == consumed ==> align <= |BitsFrom(W, buffer, words, bytes, offset)|
    ensures align <= |BitsFrom(W, buffer, words, bytes, offset)|
    ensures BitsFrom(W, buffer, words, bytes, offset)[align..]
         == BehindCursor(W, buffer, offset, consumed, align)
          + BitsFrom(W, buffer, words, bytes, consumed)[if offset < consumed then 0 else align..]
  {
    if offset < consumed {
      BitsFromSplit(W, buffer, words, bytes, offset + 1, consumed);
      DropHead(ToBits(W, buffer[offset]), WholeWords(W, buffer, offset + 1, consumed),
          BitsFrom(W, buffer, words, bytes, consumed), align);
    }
  }

  lemma DropHead(h: seq<bool>, m: seq<bool>, t: seq<bool>, k: nat)
    requires k <= |h|
    ensures (h + (m + t))[k..] == (h[k..] + m) + t[0..]
  {
  }

  /** FLAC__bitreader_get_input_bits_unconsumed */
  function UnconsumedBits(W: nat, words: nat, bytes: nat, consumedWords: nat, consumedBits: nat): int {
    (if W == 32 then (words - consumedWords) * 32 else (words - consumedWords) * 64) + bytes * 8 - consumedBits
  }

  lemma {:induction false} BlockLength(W: nat, buffer: seq<nat>, words: nat, bytes: nat, i: nat)
    requires IsWidth(W) && Fits(W, buffer, words, bytes) && i <= words
    ensures |BitsFrom(W, buffer, words, bytes, i)| == UnconsumedBits(W, words, bytes, i, 0)
    decreases words - i
  {
    if i < words {
      BlockLength(W, buffer, words, bytes, i + 1);
    }
  }

  lemma UnreadLength(s: Shape)
    requires s.Valid()
    ensures |s.Unread()| == UnconsumedBits(s.W, s.words, s.bytes, s.consumedWords, s.consumedBits)
  {
    BlockLength(s.W, s.buffer, s.words, s.bytes, s.consumedWords);
  }

  /** A buffer with no room left holds more than any field. */
  lemma RoomForAField(s: Shape)
    requires s.Valid()
    ensures s.consumedWords == 0 && s.words == |s.buffer| ==> |s.Unread()| >= 32
  {
    UnreadLength(s);
  }

  /** What was consumed since the reset: what the CRC took in, the whole words behind the
      cursor, and the consumed part of the current word. */
  lemma ConsumedParts(s: Shape, t: Track, pending: seq<bool>)
    requires s.Valid() && t.Covers(s, pending)
    ensures |s.Unread() + pending| <= |t.tape|
    ensures t.tape == t.tape[..|t.tape| - |s.Unread() + pending|] + (s.Unread() + pending)
    ensures var a := if t.offset < s.consumedWords then 0 else t.align;
            var word := if s.consumedBits > 0 then s.buffer[s.consumedWords] else 0;
            a <= s.consumedBits <= s.W &&
            t.tape[..|t.tape| - |s.Unread() + pending|]
            == (t.crcd + BehindCursor(s.W, s.buffer, t.offset, s.consumedWords, t.align))
                + ToBits(s.W, word)[a..s.consumedBits]
  {
    hide Crc, ToBits, BehindCursor, BitsFrom, Pow2;
    var a := if t.offset < s.consumedWords then 0 else t.align;
    var word := if s.consumedBits > 0 then s.buffer[s.consumedWords] else 0;
    var skipped := BehindCursor(s.W, s.buffer, t.offset, s.consumedWords, t.align);
    CursorInside(s);
    BlockBehindCursor(s.W, s.buffer, s.words, s.bytes, t.offset, s.consumedWords, t.align);
    CurrentWord(s, a);
    SplitTape(t.crcd, skipped, ToBits(s.W, word)[a..s.consumedBits], s.Unread(), pending);
  }

  lemma CurrentWord(s: Shape, a: nat)
    requires s.Valid() && a <= s.consumedBits
    ensures s.consumedBits <= |s.Block(s.consumedWords)|
    ensures var word := if s.consumedBits > 0 then s.buffer[s.consumedWords] else 0;
            s.Block(s.consumedWords)[a..] == ToBits(s.W, word)[a..s.consumedBits] + s.Unread()
  {
    hide ToBits, Pow2;
    CursorInside(s);
    var block := s.Block(s.consumedWords);
    assert block[a..] == block[a..s.consumedBits] + block[s.consumedBits..];
    if s.consumedBits > 0 {
      var bits := ToBits(s.W, s.buffer[s.consumedWords]);
      if s.consumedWords < s.words {
        assert block == bits + s.Block(s.consumedWords + 1);
      } else {
        assert block == bits[..8 * s.bytes];
      }
      assert block[..s.consumedBits] == bits[..s.consumedBits];
      SameMiddle(block, bits, a, s.consumedBits);
    }
  }

  lemma SameMiddle(s: seq<bool>, t: seq<bool>, a: nat, n: nat)
    requires a <= n <= |s| && n <= |t| && s[..n] == t[..n]
    ensures s[a..n] == t[a..n]
  {
    assert s[a..n] == s[..n][a..];
    assert t[a..n] == t[..n][a..];
  }

  lemma SplitTape(crcd: seq<bool>, skipped: seq<bool>, part: seq<bool>, unread: seq<bool>, pending: seq<bool>)
    ensures var tape := crcd + ((skipped + (part + unread)) + pending);
            |unread + pending| <= |tape| && tape[..|tape| - |unread + pending|] == (crcd + skipped) + part
  {
  }

  /** Moving the cursor forward is invisible to the CRC. */
  lemma CursorMoved(before: Shape, after: Shape, t: Track, pending: seq<bool>)
    requires before.Valid() && after.Valid()
    requires after == before.(consumedWords := after.consumedWords, consumedBits := after.consumedBits)
    requires after.consumedWords > before.consumedWords
          || (after.consumedWords == before.consumedWords && after.consumedBits >= before.consumedBits)
    ensures t.Covers(before, pending) ==> t.Covers(after, pending)
  {
    hide Crc, BitsFrom, Pow2;
  }

  lemma TakenFromStream(before: Shape, after: Shape, n: nat, pending: seq<bool>)
    requires before.Valid() && after.Valid() && n <= |before.Unread()| && after.Unread() == before.Unread()[n..]
    ensures (before.Unread() + pending)[..n] == before.Unread()[..n]
    ensures (before.Unread() + pending)[n..] == after.Unread() + pending
  {
  }

  /** The bits of the word under the cursor that hold data. */
  function Limit(s: Shape): nat {
    if s.consumedWords < s.words then s.W else 8 * s.bytes
  }

  lemma AdvanceWithin(s: Shape, n: nat)
    requires s.Valid() && s.consumedBits + n <= Limit(s) && s.consumedBits + n < s.W
    ensures n <= |s.Unread()|
    ensures s.(consumedBits := s.consumedBits + n).Valid()
    ensures s.(consumedBits := s.consumedBits + n).Unread() == s.Unread()[n..]
    ensures n > 0 ==> s.consumedWords < |s.buffer|
    ensures n > 0 ==> s.Unread()[..n] == ToBits(s.W, s.buffer[s.consumedWords])[s.consumedBits..s.consumedBits + n]
  {
    hide ToBits, Pow2;
    CursorInside(s);
    var c, block := s.consumedBits, s.Block(s.consumedWords);
    DropTwice(block, c, n);
    if n > 0 {
      assert block[c..c + n] == ToBits(s.W, s.buffer[s.consumedWords])[c..c + n];
    }
  }

  lemma DropTwice(s: seq<bool>, a: nat, b: nat)
    requires a + b <= |s|
    ensures s[a..][b..] == s[a + b..] && s[a..][..b] == s[a..a + b]
  {
  }

  lemma AdvanceAcross(s: Shape, m: nat)
    requires s.Valid() && s.consumedWords < s.words
    requires m < s.W && m <= Limit(s.(consumedWords := s.consumedWords + 1))
    ensures var after := s.(consumedWords := s.consumedWords + 1, consumedBits := m);
            var left := s.W - s.consumedBits;
            && after.Valid() && left + m <= |s.Unread()| && after.Unread() == s.Unread()[left + m..]
            && s.Unread()[..left] == ToBits(s.W, s.buffer[s.consumedWords])[s.consumedBits..]
            && (m > 0 ==> s.consumedWords + 1 < |s.buffer|)
            && (m > 0 ==> s.Unread()[left..left + m] == ToBits(s.W, s.buffer[s.consumedWords + 1])[..m])
  {
    hide ToBits, Pow2;
    CursorInside(s);
    var next := s.(consumedWords := s.consumedWords + 1, consumedBits := 0);
    CursorInside(next);
    assert s.Unread() == ToBits(s.W, s.buffer[s.consumedWords])[s.consumedBits..] + next.Block(next.consumedWords);
    if m > 0 {
      AdvanceWithin(next, m);
    }
  }

  lemma SmallField(s: seq<bool>)
    requires |s| <= 32
    ensures Wrap32(Value(s)) == Value(s)
  {
    hide Value, ToBits, Pow2;
    BitsOfValue(s);
    Pow2Monotone(|s|, 32);
    Pow2Of32();
  }

  /** A field inside the current word. */
  lemma FieldWithin(s: Shape, bits: nat)
    requires s.Valid() && 0 < bits <= 32 && s.consumedBits + bits <= Limit(s) && s.consumedBits + bits < s.W
    ensures s.consumedWords < |s.buffer| && bits <= |s.Unread()|
    ensures Wrap32(ShiftRight(And(s.buffer[s.consumedWords], ShiftRight(AllOnes(s.W), s.consumedBits)),
        s.W - s.consumedBits - bits))
         == Value(s.Unread()[..bits])
    ensures s.(consumedBits := s.consumedBits + bits).Valid()
    ensures s.(consumedBits := s.consumedBits + bits).Unread() == s.Unread()[bits..]
  {
    hide BitsFrom, ToBits, Value, And, ShiftRight, Wrap32;
    AdvanceWithin(s, bits);
    ExtractField(s.W, s.buffer[s.consumedWords], s.consumedBits, bits);
    SmallField(s.Unread()[..bits]);
  }

  /** A field at the start of a word. */
  lemma FieldAtStart(s: Shape, bits: nat)
    requires s.Valid() && 0 < bits <= 32 && s.consumedBits == 0 && bits <= Limit(s)
    ensures s.consumedWords < |s.buffer| && bits <= |s.Unread()|
    ensures Wrap32(ShiftRight(s.buffer[s.consumedWords], s.W - bits)) == Value(s.Unread()[..bits])
    ensures bits == s.W ==> Wrap32(s.buffer[s.consumedWords]) == Value(s.Unread()[..bits])
    ensures bits < s.W ==> s.(consumedBits := bits).Valid() && s.(consumedBits := bits).Unread() == s.Unread()[bits..]
  {
    hide ToBits, Value, Wrap32, BitsFrom, Pow2;
    StartOfWord(s, bits);
    ExtractHigh(s.W, s.buffer[s.consumedWords], bits);
    SmallField(s.Unread()[..bits]);
    if bits < s.W {
      AdvanceWithin(s, bits);
    } else {
      assert ShiftRight(s.buffer[s.consumedWords], 0) == s.buffer[s.consumedWords];
    }
  }

  lemma StartOfWord(s: Shape, bits: nat)
    requires s.Valid() && 0 < bits && s.consumedBits == 0 && bits <= Limit(s)
    ensures s.consumedWords < |s.buffer| && bits <= |s.Unread()| && bits <= s.W
    ensures s.Unread()[..bits] == ToBits(s.W, s.buffer[s.consumedWords])[..bits]
  {
    hide ToBits, Pow2;
    CursorInside(s);
  }

  /** A field that uses up the current word and takes m bits of the next. */
  lemma FieldAcross(s: Shape, m: nat)
    requires s.Valid() && s.consumedWords < s.words
    requires m < s.W && m <= Limit(s.(consumedWords := s.consumedWords + 1))
    requires s.W - s.consumedBits + m <= 32
    ensures var after := s.(consumedWords := s.consumedWords + 1, consumedBits := m);
            var left := s.W - s.consumedBits;
            var val := Wrap32(And(s.buffer[s.consumedWords], ShiftRight(AllOnes(s.W), s.consumedBits)));
            && after.Valid() && left + m <= |s.Unread()| && after.Unread() == s.Unread()[left + m..]
            && (m == 0 ==> val == Value(s.Unread()[..left]))
            && (m > 0 ==> s.consumedWords + 1 < |s.buffer|)
            && (m > 0 ==>
                  Or(ShiftLeft(32, val, m), Wrap32(ShiftRight(s.buffer[s.consumedWords + 1], s.W - m)))
                    == Value(s.Unread()[..left + m]))
  {
    hide BitsFrom, ToBits, Value, And, Or, ShiftRight, ShiftLeft, Wrap32, Pow2;
    AdvanceAcross(s, m);
    var left := s.W - s.consumedBits;
    var high := s.Unread()[..left];
    ExtractRest(s.W, s.buffer[s.consumedWords], s.consumedBits);
    SmallField(high);
    if m > 0 {
      var low := s.Unread()[left..left + m];
      ExtractHigh(s.W, s.buffer[s.consumedWords + 1], m);
      SmallField(low);
      assert s.Unread()[..left + m] == high + low;
      JoinFields(high, low);
    }
  }

  lemma JoinFields(high: seq<bool>, low: seq<bool>)
    requires |high| + |low| <= 32
    ensures Or(ShiftLeft(32, Value(high), |low|), Value(low)) == Value(high + low)
  {
    hide ToBits, Value, Or;
    BitsOfValue(high);
    BitsOfValue(low);
    DoubleBound(Value(high), |high|, |low|);
    Pow2Monotone(|high| + |low|, 32);
    TruncateSmall(32, Double(Value(high), |low|));
    OrDisjoint(Value(high), |low|, Value(low));
    ValueConcat(high, low);
  }

  // ----- scanning

  /** `after` is `before` without its first k bits, all zero, and the stop bit if one was found. */
  ghost predicate Scanned(before: seq<bool>, after: seq<bool>, k: nat, found: bool) {
    && k + (if found then 1 else 0) <= |before|
    && (forall i :: 0 <= i < k ==> !before[i])
    && (found ==> before[k])
    && after == before[k + (if found then 1 else 0)..]
  }

  predicate Forward(before: Shape, after: Shape) {
    && after == before.(consumedWords := after.consumedWords, consumedBits := after.consumedBits)
    && (after.consumedWords > before.consumedWords
        || (after.consumedWords == before.consumedWords && after.consumedBits >= before.consumedBits))
  }

  lemma WrapSmall(x: nat)
    requires x < 0x1_0000_0000
    ensures Wrap32(x) == x
  {
  }

  lemma WrapSum(x: nat, y: nat)
    ensures Wrap32(Wrap32(x) + y) == Wrap32(x + y)
  {
  }

  lemma ScannedNothing(all: seq<bool>)
    ensures Scanned(all, all, 0, false)
  {
  }

  lemma ScannedThen(all: seq<bool>, middle: seq<bool>, after: seq<bool>, k: nat, n: nat, found: bool)
    requires Scanned(all, middle, k, false) && Scanned(middle, after, n, found)
    ensures Scanned(all, after, k + n, found)
  {
  }

  lemma ScannedInStream(all: seq<bool>, before: seq<bool>, after: seq<bool>, pending: seq<bool>, k: nat, n: nat,
          found: bool)
    requires Scanned(all, before + pending, k, false) && Scanned(before, after, n, found)
    ensures Scanned(all, after + pending, k + n, found)
  {
    assert after + pending == (before + pending)[n + (if found then 1 else 0)..];
    assert Scanned(before + pending, after + pending, n, found);
    ScannedThen(all, before + pending, after + pending, k, n, found);
  }

  lemma ScannedToStopBit(all: seq<bool>, after: seq<bool>, k: nat)
    requires Scanned(all, after, k, true)
    ensures LeadingZeros(all) == k < |all| && after == all[k + 1..]
  {
    LeadingZerosUnique(all, k);
  }

  lemma ScannedAll(s: Shape)
    requires s.Valid()
    ensures s.consumedWords == s.words && s.consumedBits == 8 * s.bytes ==> s.Unread() == []
    ensures s.consumedWords == 0 && s.words == |s.buffer| ==> |s.Unread()| >= 32
  {
    UnreadLength(s);
  }

  lemma CursorOrdered(s: Shape)
    requires s.Valid()
    ensures s.consumedWords <= s.words
  {
  }

  lemma WordInside(s: Shape)
    requires s.Valid() && s.consumedWords < s.words
    ensures s.consumedWords < |s.buffer| && s.consumedBits < s.W && s.buffer[s.consumedWords] < Pow2(s.W)
  {
  }

  /** A word shifted up to the cursor shows the leading zeros of what is unread. */
  lemma ScanWord(s: Shape)
    requires s.Valid() && s.consumedWords < s.words
    ensures var b := ShiftLeft(s.W, s.buffer[s.consumedWords], s.consumedBits);
            var left := s.W - s.consumedBits;
            var i := CountZeroMsbs(s.W, b);
            var after := if b == 0
                || s.consumedBits + i + 1 >= s.W then s.(consumedWords := s.consumedWords + 1, consumedBits := 0)
                         else s.(consumedBits := s.consumedBits + i + 1);
            && after.Valid()
            && (b == 0 ==> Scanned(s.Unread(), after.Unread(), left, false))
            && (b != 0 ==> i < left && Scanned(s.Unread(), after.Unread(), i, true))
  {
    hide ToBits, ShiftLeft, CountZeroMsbs, BitsFrom, Pow2, Scanned;
    var b := ShiftLeft(s.W, s.buffer[s.consumedWords], s.consumedBits);
    var i := CountZeroMsbs(s.W, b);
    AdvanceAcross(s, 0);
    ShiftLeftBits(s.W, s.buffer[s.consumedWords], s.consumedBits);
    ScannedPrefix(s.W, b, s.Unread(), s.W - s.consumedBits);
    if b != 0 && s.consumedBits + i + 1 < s.W {
      AdvanceWithin(s, i + 1);
    }
  }

  /** Counting zeros in a register whose low z bits were shifted in. */
  lemma LeadingOf(W: nat, b: nat, s: seq<bool>, z: nat)
    requires b < Pow2(W) && ToBits(W, b) == s + Zeros(z)
    ensures b == 0 ==> forall j :: 0 <= j < |s| ==> !s[j]
    ensures b != 0 ==> var i := CountZeroMsbs(W, b); i < |s| && (forall j :: 0 <= j < i ==> !s[j]) && s[i]
  {
    hide ToBits, CountZeroMsbs, Pow2;
    CountZeroMsbsIsLeadingZeros(W, b);
    ZeroIffNoBits(W, b);
    var i := CountZeroMsbs(W, b);
    assert forall j :: 0 <= j < |s| ==> s[j] == ToBits(W, b)[j];
  }

  /** The same for an incomplete word, whose don't-care bits are masked off first. */
  lemma ScanPartialWord(s: Shape)
    requires s.Valid() && s.consumedWords == s.words && 8 * s.bytes > s.consumedBits
    ensures var end := 8 * s.bytes;
            var b := ShiftLeft(s.W, And(s.buffer[s.consumedWords], ShiftLeft(s.W, AllOnes(s.W), s.W - end)),
                s.consumedBits);
            var left := end - s.consumedBits;
            var i := CountZeroMsbs(s.W, b);
            var after := s.(consumedBits := if b == 0 then end else s.consumedBits + i + 1);
            && after.Valid()
            && (b == 0 ==> Scanned(s.Unread(), after.Unread(), left, false))
            && (b != 0 ==> i < left && Scanned(s.Unread(), after.Unread(), i, true))
  {
    hide ToBits, ShiftLeft, And, CountZeroMsbs, BitsFrom, Pow2, Scanned;
    var end := 8 * s.bytes;
    var word := s.buffer[s.consumedWords];
    var b := ShiftLeft(s.W, And(word, ShiftLeft(s.W, AllOnes(s.W), s.W - end)), s.consumedBits);
    var left := end - s.consumedBits;
    AdvanceWithin(s, left);
    MaskedWord(s.W, word, end, s.consumedBits);
    ScannedPrefix(s.W, b, s.Unread(), left);
    if b != 0 {
      AdvanceWithin(s, CountZeroMsbs(s.W, b) + 1);
    }
  }

  lemma MaskedWord(W: nat, word: nat, end: nat, c: nat)
    requires c <= end <= W
    ensures ToBits(W, ShiftLeft(W, And(word, ShiftLeft(W, AllOnes(W), W - end)), c))
        == ToBits(W, word)[c..end] + Zeros(W - (end - c))
  {
    hide ToBits, ShiftLeft, And;
    HighMaskBits(W, word, W - end);
    ShiftLeftBits(W, And(word, ShiftLeft(W, AllOnes(W), W - end)), c);
    MaskedBits(ToBits(W, word), end, c);
  }

  /** Counting zeros in a register that starts with the first n bits of s. */
  lemma ScannedPrefix(W: nat, b: nat, s: seq<bool>, n: nat)
    requires n <= |s| && n <= W && b < Pow2(W) && ToBits(W, b) == s[..n] + Zeros(W - n)
    ensures b == 0 ==> Scanned(s, s[n..], n, false)
    ensures var i := CountZeroMsbs(W, b); b != 0 ==> i < n && Scanned(s, s[i + 1..], i, true)
  {
    hide ToBits, CountZeroMsbs, Pow2;
    LeadingOf(W, b, s[..n], W - n);
    assert forall j :: 0 <= j < n ==> s[j] == s[..n][j];
  }

  lemma MaskedBits(word: seq<bool>, end: nat, c: nat)
    requires c <= end <= |word|
    ensures (word[..end] + Zeros(|word| - end))[c..] + Zeros(c) == word[c..end] + Zeros(|word| - (end - c))
  {
  }

  /** The two halves of a Rice code, put together. */
  lemma ComposeCode(s: seq<bool>, q: nat, low: seq<bool>, tail: seq<bool>)
    requires q == LeadingZeros(s) && q + 1 + |low| <= |s| && |low| <= 31
    requires low == s[q + 1..q + 1 + |low|] && tail == s[q + 1 + |low|..]
    ensures Decode(s, |low|) == Some(Decoded(Unfold(Or(ShiftLeft(32, Wrap32(q), |low|), Value(low))), tail))
  {
    hide *;
    DecodeAt(s, q, |low|, low, tail);
    ComposeField(q, low);
    CodedIs(q, low);
  }

  lemma ComposeField(q: nat, low: seq<bool>)
    requires |low| <= 31
    ensures Or(ShiftLeft(32, Wrap32(q), |low|), Value(low)) == Wrap32(Double(q, |low|) + Value(low))
  {
    hide *;
    BitsOfValue(low);
    Compose(q, |low|, Value(low));
  }

  // ----- the cursor in registers

  /** Where the block decoder goes on: in the registers, or at one of the three places where
      it enters the tail loop. */
  datatype Entry = Head | ProcessTail | IncompleteMsbs | IncompleteLsbs

  /** How many values the block decoder reads.  With a positive parameter it enters the tail
      loop before it looks at nvals when there is no complete word, so it reads at least one. */
  function ValuesRead(nvals: nat, parameter: nat, wholeWord: bool): nat {
    if nvals == 0 && parameter > 0 && !wholeWord then 1 else nvals
  }

  /** x xor a sign of 0 or -1 */
  function FlipIf(x: int, sign: bool): int { if sign then -x - 1 else x }

  /** The registers hold the cursor, or no complete word is left and they repeat it. */
  ghost predicate InRegisters(s: Shape, cwords: nat, ucbits: nat, b: nat, ahead: seq<bool>) {
    if cwords < s.words then
      && Loaded(s, cwords, ucbits, b, ahead)
      && (s.consumedWords < cwords || (s.consumedWords == cwords && s.W - ucbits >= s.consumedBits))
    else
      && s.Valid() && cwords == s.consumedWords == s.words
      && ucbits == s.W - s.consumedBits && ahead == s.Unread()
  }

  lemma InWords(s: Shape, cwords: nat, ucbits: nat, b: nat, ahead: seq<bool>)
    requires InRegisters(s, cwords, ucbits, b, ahead) && cwords < s.words
    ensures Loaded(s, cwords, ucbits, b, ahead)
    ensures s.consumedWords < cwords || (s.consumedWords == cwords && s.W - ucbits >= s.consumedBits)
  {
  }

  lemma StillInRegisters(s: Shape, cwords0: nat, ucbits0: nat, cwords: nat, ucbits: nat, b: nat, ahead: seq<bool>)
    requires s.consumedWords < cwords0 || (s.consumedWords == cwords0 && s.W - ucbits0 >= s.consumedBits)
    requires cwords0 < cwords || (cwords0 == cwords && ucbits <= ucbits0)
    requires Loaded(s, cwords, ucbits, b, ahead)
    ensures InRegisters(s, cwords, ucbits, b, ahead) && cwords < s.words
  {
  }

  lemma FlushRegisters(s: Shape, cwords: nat, ucbits: nat, b: nat, ahead: seq<bool>, t: Track, pending: seq<bool>)
    requires InRegisters(s, cwords, ucbits, b, ahead)
    ensures ucbits <= s.W && cwords >= s.consumedWords
    ensures var after := if ucbits == 0 && cwords < s.words then s.(consumedWords := cwords + 1, consumedBits := 0)
                         else s.(consumedWords := cwords, consumedBits := s.W - ucbits);
            && after.Valid() && after.Unread() == ahead
            && (t.Covers(s, pending) ==> t.Covers(after, pending))
  {
    hide ToBits, Crc, Pow2, BitsFrom;
    var after := if ucbits == 0 && cwords < s.words then s.(consumedWords := cwords + 1, consumedBits := 0)
                 else s.(consumedWords := cwords, consumedBits := s.W - ucbits);
    assert after.Valid();
    if ucbits == 0 && cwords < s.words {
      assert ahead[0..] == ahead;
      assert after.Block(cwords + 1)[0..] == after.Block(cwords + 1);
    }
    CursorMoved(s, after, t, pending);
  }

  lemma ResumesAtTail(code: seq<bool>, ucbits: nat, msbs: nat, parameter: nat, p: Progress)
    ensures Resumes(ProcessTail, code, code, 0, ucbits, msbs, parameter, p)
  {
  }

  lemma NoValues(all: seq<bool>, parameter: nat, vals: seq<int>)
    ensures DecodeMany(all, 0, parameter) == Some(Decoded(vals[..0], all))
  {
  }

  lemma NextValue(all: seq<bool>, n: nat, parameter: nat, orig: seq<int>, before: seq<int>, after: seq<int>,
          code: seq<bool>, x: nat, rest: seq<bool>)
    requires n < |before| == |orig| && before[n..] == orig[n..] && after == before[n := FlipIf(x / 2, x % 2 == 1)]
    requires DecodeMany(all, n, parameter) == Some(Decoded(before[..n], code))
    requires Decode(code, parameter) == Some(Decoded(Unfold(x), rest))
    ensures DecodeMany(all, n + 1, parameter) == Some(Decoded(after[..n + 1], rest))
    ensures after[n + 1..] == orig[n + 1..]
  {
    hide Decode;
    assert after[n + 1..] == before[n..][1..] == orig[n + 1..];
    assert after[..n + 1] == before[..n] + [Unfold(x)];
  }

  /** A code with parameter 0 is all zeros and a stop bit. */
  lemma UnaryCode(s: seq<bool>)
    requires LeadingZeros(s) < |s|
    ensures Decode(s, 0) == Some(Decoded(Unfold(Wrap32(LeadingZeros(s))), s[LeadingZeros(s) + 1..]))
  {
    hide Unfold, Wrap32, Bits.LeadingZeros, Double, Value, Decode, Coded;
    var q := LeadingZeros(s);
    assert s[q + 1..q + 1] == [];
    DecodeAt(s, q, 0, [], s[q + 1..]);
    CodedIs(q, []);
    NoLowBits(q);
  }

  lemma NoLowBits(q: nat)
    ensures Double(q, 0) == q && Value([]) == 0
  {
  }

  /** The block decoder does what nvals single decodes do exactly when it was asked for a
      value, or has parameter 0, or finds a complete word. Otherwise it wants a code it was not
      asked for. */
  lemma BlockAgreesIff(s: seq<bool>, nvals: nat, parameter: nat, wholeWord: bool)
    ensures DecodeMany(s, ValuesRead(nvals, parameter, wholeWord), parameter) == DecodeMany(s, nvals, parameter)
      <==> nvals > 0 || parameter == 0 || wholeWord
  {
    hide Decode;
    assert DecodeMany(s, 0, parameter) == Some(Decoded([], s));
  }

  /** What was read of a code before the complete words ran out: its zeros, the first low bits. */
  datatype Progress = Progress(zeros: nat, part: seq<bool>)

  /** `code` is the stream from the start of the code, `after` what is left of it. */
  ghost predicate Resumes(entry: Entry, code: seq<bool>, after: seq<bool>, x: nat, ucbits: nat, msbs: nat,
          parameter: nat, p: Progress) {
    match entry
    case Head => false
    case ProcessTail => x == 0 && after == code
    case IncompleteMsbs => Scanned(code, after, p.zeros, false) && x == Wrap32(p.zeros)
    case IncompleteLsbs =>
      && LeadingZeros(code) == p.zeros < |code| && code[p.zeros + 1..] == p.part + after
      && |p.part| == ucbits < parameter && x == Double(Value(p.part), parameter - ucbits)
      && msbs == Wrap32(p.zeros)
  }

  lemma SplitAt(low: seq<bool>, n: nat, pending: seq<bool>)
    requires n <= |low|
    ensures low + pending == low[..n] + (low[n..] + pending)
  {
  }

  lemma TakeAfterStop(s: seq<bool>, q: nat, low: seq<bool>, tail: seq<bool>)
    requires q < |s| && s[q + 1..] == low + tail
    ensures q + 1 + |low| <= |s| && low == s[q + 1..q + 1 + |low|] && tail == s[q + 1 + |low|..]
  {
    DropTwice(s, q + 1, |low|);
  }

  /** Counting goes on after a refill. */
  lemma CountedOn(code: seq<bool>, after: seq<bool>, zeros: nat)
    requires Scanned(code, after, zeros, false) && LeadingZeros(after) < |after|
    ensures LeadingZeros(code) == zeros + LeadingZeros(after) < |code|
    ensures code[zeros + LeadingZeros(after) + 1..] == after[LeadingZeros(after) + 1..]
  {
    LeadingZerosUnique(code, zeros + LeadingZeros(after));
  }

  lemma ResumeCounting(entry: Entry, code: seq<bool>, after: seq<bool>, now: seq<bool>, x: nat, msbs: nat, ucbits: nat,
          parameter: nat, p: Progress)
    returns (q: Progress)
    requires 0 < parameter && (entry == ProcessTail || entry == IncompleteMsbs)
    requires Resumes(entry, code, after, x, ucbits, msbs, parameter, p)
    requires LeadingZeros(after) < |after| && now == after[LeadingZeros(after) + 1..]
    ensures Resumes(IncompleteLsbs, code, now, 0, 0, Wrap32(Wrap32(LeadingZeros(after)) + x), parameter, q)
  {
    hide Double, Value, Bits.LeadingZeros, Scanned, Wrap32;
    var zeros := if entry == IncompleteMsbs then p.zeros else 0;
    ScannedNothing(code);
    WrapSmall(0);
    CountedOn(code, after, zeros);
    WrapSumBoth(LeadingZeros(after), zeros);
    q := Progress(zeros + LeadingZeros(after), []);
    NoPart(now, parameter);
  }

  lemma WrapSumBoth(x: nat, y: nat)
    ensures Wrap32(Wrap32(x) + Wrap32(y)) == Wrap32(y + x)
  {
  }

  lemma NoPart(after: seq<bool>, parameter: nat)
    ensures [] + after == after
    ensures Double(Value([]), parameter) == 0
  {
    OrDisjointZero(parameter);
  }

  /** Low bits read in two pieces. */
  lemma PartAndRest(part: seq<bool>, after: seq<bool>, n: nat)
    requires |part| < n < 32 && n - |part| <= |after|
    ensures Or(Double(Value(part), n - |part|), Value(after[..n - |part|])) == Value((part + after)[..n])
    ensures (part + after)[n..] == after[n - |part|..]
    ensures (part + after)[..n] + (part + after)[n..] == part + after
  {
    hide Value, Double, Or;
    var ahead := part + after;
    assert ahead[..|part|] == part && ahead[|part|..] == after;
    JoinSplitField(ahead, after, |part|, n);
  }

  function Times(W: nat, n: nat): nat { if W == 32 then 32 * n else 64 * n }

  /** The registers hold the cursor: word `cwords` has `ucbits` unconsumed bits, they stand
      at the top of b with zeros below, and `ahead` is everything unconsumed in the buffer. */
  ghost predicate Loaded(s: Shape, cwords: nat, ucbits: nat, b: nat, ahead: seq<bool>) {
    && s.Valid()
    && cwords < s.words && ucbits <= s.W && b < Pow2(s.W)
    && ucbits <= |ahead|
    && ahead[ucbits..] == s.Block(cwords + 1)
    && ahead == s.Block(cwords)[s.W - ucbits..]
    && ToBits(s.W, b) == ahead[..ucbits] + Zeros(s.W - ucbits)
  }

  lemma WidthOf(s: Shape)
    requires s.Valid()
    ensures IsWidth(s.W) && Fits(s.W, s.buffer, s.words, s.bytes)
  {
  }

  lemma LoadedBounds(s: Shape, cwords: nat, ucbits: nat, b: nat, ahead: seq<bool>)
    requires Loaded(s, cwords, ucbits, b, ahead)
    ensures IsWidth(s.W) && cwords < s.words <= |s.buffer| && ucbits <= s.W && ucbits <= |ahead|
    ensures Fits(s.W, s.buffer, s.words, s.bytes)
    ensures ahead[ucbits..] == s.Block(cwords + 1)
  {
  }

  /** b = buffer[cwords] << c */
  lemma LoadShifted(s: Shape, cwords: nat, c: nat)
    requires s.Valid() && cwords < s.words && c <= s.W
    ensures c <= |s.Block(cwords)|
    ensures Loaded(s, cwords, s.W - c, ShiftLeft(s.W, s.buffer[cwords], c), s.Block(cwords)[c..])
  {
    hide ToBits, ShiftLeft, Pow2;
    ShiftLeftBits(s.W, s.buffer[cwords], c);
    var block := s.Block(cwords);
    DropTwice(block, c, s.W - c);
    assert block == ToBits(s.W, s.buffer[cwords]) + s.Block(cwords + 1);
    assert block[c..s.W] == ToBits(s.W, s.buffer[cwords])[c..];
  }

  lemma LoadWord(s: Shape, cwords: nat)
    requires s.Valid() && cwords < s.words
    ensures Loaded(s, cwords, s.W, s.buffer[cwords], s.Block(cwords))
  {
    hide ToBits, Pow2;
    var block := s.Block(cwords);
    assert block == ToBits(s.W, s.buffer[cwords]) + s.Block(cwords + 1);
    assert block[..s.W] + Zeros(0) == ToBits(s.W, s.buffer[cwords]);
    assert block[0..] == block;
  }

  lemma LoadedZeros(s: Shape, cwords: nat, ucbits: nat, b: nat, ahead: seq<bool>)
    requires Loaded(s, cwords, ucbits, b, ahead)
    ensures var y := CountZeroMsbs(s.W, b);
            && (y == s.W ==> Scanned(ahead, s.Block(cwords + 1), ucbits, false))
            && (y != s.W ==> y < ucbits && Scanned(ahead, ahead[y + 1..], y, true))
  {
    hide ToBits, CountZeroMsbs, BitsFrom, Pow2;
    CountZeroMsbsIsLeadingZeros(s.W, b);
    ZeroIffNoBits(s.W, b);
    LeadingOf(s.W, b, ahead[..ucbits], s.W - ucbits);
    assert forall j :: 0 <= j < ucbits ==> ahead[j] == ahead[..ucbits][j];
  }

  /** b <<= n, ucbits -= n */
  lemma ShiftLoaded(s: Shape, cwords: nat, ucbits: nat, b: nat, ahead: seq<bool>, n: nat)
    requires Loaded(s, cwords, ucbits, b, ahead) && n <= ucbits
    ensures Loaded(s, cwords, ucbits - n, ShiftLeft(s.W, b, n), ahead[n..])
  {
    hide ToBits, ShiftLeft, BitsFrom, Pow2, Shape.Valid;
    LoadedWidth(s, cwords, ucbits, b, ahead);
    ShiftLeftBits(s.W, b, n);
    DropTwice(ahead, n, ucbits - n);
    DropTwice(s.Block(cwords), s.W - ucbits, n);
    assert (ahead[..ucbits] + Zeros(s.W - ucbits))[n..] + Zeros(n) == ahead[n..ucbits] + Zeros(s.W - (ucbits - n));
  }

  /** b <<= y; b <<= 1; where y counts the zeros of b */
  lemma PastStopBit(s: Shape, cwords: nat, ucbits: nat, b: nat, ahead: seq<bool>, front: seq<bool>, zeros: nat)
      returns (rest: seq<bool>)
    requires Loaded(s, cwords, ucbits, b, front) && CountZeroMsbs(s.W, b) != s.W
    requires Scanned(ahead, front, zeros, false)
    ensures var y := CountZeroMsbs(s.W, b);
            && y < ucbits <= s.W
            && Scanned(ahead, rest, zeros + y, true)
            && Loaded(s, cwords, ucbits - y - 1, ShiftLeft(s.W, ShiftLeft(s.W, b, y), 1), rest)
  {
    hide ToBits, ShiftLeft, CountZeroMsbs, Loaded, Scanned, Pow2;
    var y := CountZeroMsbs(s.W, b);
    LoadedBounds(s, cwords, ucbits, b, front);
    LoadedZeros(s, cwords, ucbits, b, front);
    rest := front[y + 1..];
    ScannedThen(ahead, front, rest, zeros, y, true);
    ShiftLoaded(s, cwords, ucbits, b, front, y);
    DropTwice(front, y, 1);
    ShiftLoaded(s, cwords, ucbits - y, ShiftLeft(s.W, b, y), front[y..], 1);
  }

  lemma LoadedWidth(s: Shape, cwords: nat, ucbits: nat, b: nat, ahead: seq<bool>)
    requires Loaded(s, cwords, ucbits, b, ahead)
    ensures IsWidth(s.W) && Fits(s.W, s.buffer, s.words, s.bytes) && s.W - ucbits + |ahead| == |s.Block(cwords)|
  {
    BlockLength(s.W, s.buffer, s.words, s.bytes, cwords);
  }

  /** b >> (W - n): the next n bits, or as many as there are with zeros after them */
  lemma TopOfLoaded(s: Shape, cwords: nat, ucbits: nat, b: nat, ahead: seq<bool>, n: nat)
    requires Loaded(s, cwords, ucbits, b, ahead) && 0 < n < 32
    ensures ucbits <= |ahead|
    ensures n <= ucbits ==> Wrap32(ShiftRight(b, s.W - n)) == Value(ahead[..n])
    ensures n > ucbits ==> Wrap32(ShiftRight(b, s.W - n)) == Double(Value(ahead[..ucbits]), n - ucbits)
  {
    hide ToBits, ShiftRight, Value, Double, BitsFrom, Pow2, Wrap32;
    ExtractHigh(s.W, b, n);
    SmallField(ToBits(s.W, b)[..n]);
    if n <= ucbits {
      assert ToBits(s.W, b)[..n] == ahead[..n];
    } else {
      assert ToBits(s.W, b)[..n] == ahead[..ucbits] + Zeros(n - ucbits);
      ValueConcat(ahead[..ucbits], Zeros(n - ucbits));
      ValueZeros(n - ucbits);
    }
  }

  /** A field whose first k bits end one word and whose others start the next. */
  lemma JoinSplitField(ahead: seq<bool>, rest: seq<bool>, k: nat, n: nat)
    requires k < n < 32 && k <= |ahead| && ahead[k..] == rest && n - k <= |rest|
    ensures n <= |ahead| && ahead[n..] == rest[n - k..]
    ensures Or(Double(Value(ahead[..k]), n - k), Value(rest[..n - k])) == Value(ahead[..n])
  {
    hide ToBits, Value, Double, Or, Pow2;
    BitsOfValue(rest[..n - k]);
    OrDisjoint(Value(ahead[..k]), n - k, Value(rest[..n - k]));
    ValueConcat(ahead[..k], rest[..n - k]);
    assert ahead[..n] == ahead[..k] + rest[..n - k];
    DropTwice(ahead, k, n - k);
  }

  /** ucbits - x - 1 in unsigned 32-bit arithmetic, modulo the word size */
  lemma ModuloWord(W: nat, ucbits: nat, moves: nat, y: nat)
    requires IsWidth(W) && ucbits <= W && y < W
    ensures y < ucbits ==> Wrap32(ucbits - Wrap32(y) - 1) % W == ucbits - y - 1
    ensures Wrap32(ucbits - Wrap32(ucbits + Times(W, moves) + y) - 1) % W == W - y - 1
  {
    hide Wrap32;
    WrapSmall(y);
    if y < ucbits {
      WrapSmall(ucbits - y - 1);
      Small(ucbits - y - 1, W);
    }
    WrapDifference(ucbits, ucbits + Times(W, moves) + y);
    Small(W - y - 1, W);
    if W == 32 {
      WrapModulo(-32 * moves - y - 1);
      AddMultiple32(31 - y, 0 - moves - 1);
    } else {
      WrapModulo(-64 * moves - y - 1);
      AddMultiple64(63 - y, 0 - moves - 1);
    }
  }

  lemma TimesSteps(W: nat, n: nat)
    requires IsWidth(W)
    ensures Times(W, 0) == 0 && Times(W, n + 1) == Times(W, n) + W
  {
  }

  lemma Small(x: nat, W: nat)
    requires IsWidth(W) && x < W
    ensures x % W == x
  {
  }

  lemma WrapDifference(a: nat, b: nat)
    ensures Wrap32(a - Wrap32(b) - 1) == Wrap32(a - b - 1)
  {
  }

  lemma AddMultiple32(x: int, k: int)
    ensures (x + 32 * k) % 32 == x % 32
  {
  }

  lemma AddMultiple64(x: int, k: int)
    ensures (x + 64 * k) % 64 == x % 64
  {
  }

  lemma WrapModulo(x: int)
    ensures Wrap32(x) % 32 == x % 32
    ensures Wrap32(x) % 64 == x % 64
  {
    var q := x / 0x1_0000_0000;
    AddMultiple32(Wrap32(x), 0x800_0000 * q);
    AddMultiple64(Wrap32(x), 0x400_0000 * q);
  }
}
