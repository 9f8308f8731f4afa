/** What a buffer of words holds, as bits.

    A buffer is `words` complete words followed by `bytes` bytes, left-justified, of an
    incomplete one.  Bits beyond those are don't-care. */
module WordBuffer {
  import opened Bits
  import opened Crc16

  predicate IsWidth(W: nat) { W == 32 || W == 64 }

  predicate Fits(W: nat, buffer: seq<nat>, words: nat, bytes: nat) {
    && words <= |buffer|
    && 8 * bytes < W
    && (bytes > 0 ==> words < |buffer|)
  }

  /** All bits from word i on. */
  function BitsFrom(W: nat, buffer: seq<nat>, words: nat, bytes: nat, i: nat): seq<bool>
    requires Fits(W, buffer, words, bytes) && i <= words
    decreases words - i
  {
    if i == words then (if bytes == 0 then [] else ToBits(W, buffer[words])[..8 * bytes])
    else ToBits(W, buffer[i]) + BitsFrom(W, buffer, words, bytes, i + 1)
  }

  /** The bits of words i up to j. */
  function WholeWords(W: nat, buffer: seq<nat>, i: nat, j: nat): seq<bool>
    requires i <= j <= |buffer|
    decreases j - i
  {
    if i == j then [] else ToBits(W, buffer[i]) + WholeWords(W, buffer, i + 1, j)
  }

  lemma {:induction false} BitsFromSplit(W: nat, buffer: seq<nat>, words: nat, bytes: nat, i: nat, j: nat)
    requires Fits(W, buffer, words, bytes) && i <= j <= words
    ensures BitsFrom(W, buffer, words, bytes, i)
         == WholeWords(W, buffer, i, j) + BitsFrom(W, buffer, words, bytes, j)
    decreases j - i
  {
    if i < j {
      BitsFromSplit(W, buffer, words, bytes, i + 1, j);
    }
  }

  lemma {:induction false} WholeWordsIsWordBits(W: nat, buffer: seq<nat>, i: nat, j: nat)
    requires i <= j <= |buffer|
    ensures WholeWords(W, buffer, i, j) == WordBits(W, buffer[i..j])
    decreases j - i
  {
    if i < j {
      WholeWordsIsWordBits(W, buffer, i + 1, j);
      assert buffer[i..j][1..] == buffer[i + 1..j];
    }
  }

  /** Moving the words from `start` on to the front moves the bits with them. */
  lemma {:induction false} Moved(W: nat, before: seq<nat>, after: seq<nat>, words: nat, bytes: nat, start: nat, i: nat)
    requires Fits(W, before, words, bytes) && start <= i <= words && |after| == |before|
    requires forall k :: start <= k < words + (if bytes > 0 then 1 else 0) ==> after[k - start] == before[k]
    ensures BitsFrom(W, after, words - start, bytes, i - start) == BitsFrom(W, before, words, bytes, i)
    decreases words - i
  {
    if i < words {
      Moved(W, before, after, words, bytes, start, i + 1);
    }
  }

  /** A word after storing byte d at byte offset k of its big-endian memory. */
  function PutByte(W: nat, x: nat, k: nat, d: byte): nat
    requires 8 * k + 8 <= W
  {
    Value(ToBits(W, x)[..8 * k] + ToBits(8, d) + ToBits(W, x)[8 * k + 8..])
  }

  lemma PutByteBits(W: nat, x: nat, k: nat, d: byte)
    requires 8 * k + 8 <= W
    ensures ToBits(W, PutByte(W, x, k, d)) == ToBits(W, x)[..8 * k] + ToBits(8, d) + ToBits(W, x)[8 * k + 8..]
    ensures PutByte(W, x, k, d) < Pow2(W)
  {
    BitsOfValue(ToBits(W, x)[..8 * k] + ToBits(8, d) + ToBits(W, x)[8 * k + 8..]);
  }

  /** Storing one more byte at the end of the data appends its bits. */
  lemma {:induction false} Appended(W: nat, buffer: seq<nat>, words: nat, bytes: nat, d: byte, i: nat)
    requires IsWidth(W) && Fits(W, buffer, words, bytes) && words < |buffer| && i <= words
    ensures var after := buffer[words := PutByte(W, buffer[words], bytes, d)];
            var full := 8 * (bytes + 1) == W;
            var words', bytes' := if full then words + 1 else words, if full then 0 else bytes + 1;
            BitsFrom(W, after, words', bytes', i) == BitsFrom(W, buffer, words, bytes, i) + ToBits(8, d)
    decreases words - i
  {
    hide ToBits, PutByte;
    if i == words {
      PutByteBits(W, buffer[words], bytes, d);
      var after := buffer[words := PutByte(W, buffer[words], bytes, d)];
      if 8 * (bytes + 1) == W {
        assert BitsFrom(W, after, words + 1, 0, i + 1) == [];
        assert ToBits(W, after[words]) == ToBits(W, buffer[words])[..8 * bytes] + ToBits(8, d);
      } else {
        assert ToBits(W, after[words])[..8 * (bytes + 1)] == ToBits(W, buffer[words])[..8 * bytes] + ToBits(8, d);
      }
    } else {
      Appended(W, buffer, words, bytes, d, i + 1);
    }
  }
}
