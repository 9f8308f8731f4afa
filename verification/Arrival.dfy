/** Which bits of a stream have arrived, and what cannot be decoded from those alone.

    A reader that fails has seen everything but what its client still holds. The lemmas say
    that no field, stop bit or code is complete in that part when the reader gives up. */
module Arrival {
  import opened Bits
  import opened ReaderState
  import opened RiceCode
  import opened Words
  import opened Wrappers

  /** A stream without its last n bits. */
  function Without(s: seq<bool>, n: nat): seq<bool> { if n <= |s| then s[..|s| - n] else [] }

  function Max(a: nat, b: nat): nat { if a < b then b else a }

  predicate NoStop(s: seq<bool>) {
    forall i :: 0 <= i < |s| ==> !s[i]
  }

  lemma Arrived(unread: seq<bool>, pending: seq<bool>)
    ensures Without(unread + pending, |pending|) == unread
  {
  }

  // ----- one code

  lemma OnlyZeros(all: seq<bool>, after: seq<bool>, k: nat)
    requires Scanned(all, after, k, false)
    ensures NoStop(Without(all, |after|))
  {
  }

  /** Zeros before a part without a stop bit. */
  lemma ZerosBefore(all: seq<bool>, after: seq<bool>, k: nat, n: nat)
    requires Scanned(all, after, k, false) && n <= |after| && NoStop(Without(after, n))
    ensures NoStop(Without(all, n))
  {
    var s := Without(all, n);
    forall i | 0 <= i < |s| ensures !s[i] {
      if i >= k {
        assert s[i] == Without(after, n)[i - k];
      }
    }
  }

  lemma NoStopNoCode(s: seq<bool>, parameter: nat)
    requires NoStop(s)
    ensures Decode(s, parameter).None?
  {
    LeadingZerosUnique(s, |s|);
    StopsShort(s, |s|, parameter);
  }

  lemma NoStopNoCodeIf(s: seq<bool>, parameter: nat)
    ensures Decode(s, parameter).Some? ==> !NoStop(s)
  {
    hide Decode, NoStop;
    if NoStop(s) {
      NoStopNoCode(s, parameter);
    }
  }

  /** A code that lacks some of its low bits. */
  lemma LowBitsMissing(code: seq<bool>, q: nat, part: seq<bool>, after: seq<bool>, parameter: nat, n: nat)
    requires q == LeadingZeros(code) < |code| && code[q + 1..] == part + after
    requires n <= |after| && |part| + |Without(after, n)| < parameter
    ensures Decode(Without(code, n), parameter).None?
  {
    var s := Without(code, n);
    assert |code| == q + 1 + |part| + |after|;
    LeadingZerosUnique(s, q);
    StopsShort(s, q, parameter);
  }

  lemma StopsShort(s: seq<bool>, q: nat, parameter: nat)
    requires q == LeadingZeros(s) && |s| < q + 1 + parameter
    ensures Decode(s, parameter).None?
  {
    hide Coded, Bits.LeadingZeros;
  }

  lemma ResumesShorter(entry: Entry, code: seq<bool>, after: seq<bool>, x: nat, ucbits: nat, msbs: nat,
          parameter: nat, p: Progress)
    requires Resumes(entry, code, after, x, ucbits, msbs, parameter, p)
    ensures |after| <= |code|
  {
    hide Double, Value, Bits.LeadingZeros, Wrap32;
    if entry == IncompleteLsbs {
      assert |code[p.zeros + 1..]| == |p.part| + |after|;
    }
  }

  /** A code whose stop bit has not arrived, from where its zeros were counted. */
  lemma StopBitMissing(entry: Entry, code: seq<bool>, after: seq<bool>, x: nat, ucbits: nat, msbs: nat,
          parameter: nat, p: Progress, n: nat)
    requires Resumes(entry, code, after, x, ucbits, msbs, parameter, p)
    requires entry == ProcessTail || entry == IncompleteMsbs
    requires n <= |after| && NoStop(Without(after, n))
    ensures Decode(Without(code, n), parameter).None?
  {
    hide Decode, Scanned, NoStop, Without, Wrap32;
    if entry == IncompleteMsbs {
      ZerosBefore(code, after, p.zeros, n);
    }
    NoStopNoCode(Without(code, n), parameter);
  }

  /** Codes that end before the last |t| bits do not depend on them. */
  lemma DecodeBefore(s: seq<bool>, t: seq<bool>, parameter: nat)
    requires Decode(s + t, parameter).Some? && |Decode(s + t, parameter).value.rest| >= |t|
    ensures Decode(s, parameter).Some? && Decode(s, parameter).value.value == Decode(s + t, parameter).value.value
    ensures Decode(s + t, parameter).value.rest == Decode(s, parameter).value.rest + t
  {
    hide Bits.LeadingZeros, Coded, DecodeAfter;
    var q := LeadingZeros(s + t);
    EndsBefore(s, t, q, parameter);
    ZerosInFront(s, t, q);
    DecodePrefix(s, t, parameter);
  }

  lemma EndsBefore(s: seq<bool>, t: seq<bool>, q: nat, parameter: nat)
    requires DecodeAfter(s + t, q, parameter).Some? && |DecodeAfter(s + t, q, parameter).value.rest| >= |t|
    ensures q + 1 + parameter <= |s| && DecodeAfter(s, q, parameter).Some?
  {
    hide Coded;
  }

  lemma ZerosInFront(s: seq<bool>, t: seq<bool>, q: nat)
    requires q == LeadingZeros(s + t) < |s|
    ensures LeadingZeros(s) == q
  {
    assert forall i :: 0 <= i <= q ==> (s + t)[i] == s[i];
    LeadingZerosUnique(s, q);
  }

  // ----- codes in a row

  lemma DecodeShrinks(s: seq<bool>, parameter: nat)
    requires Decode(s, parameter).Some?
    ensures |Decode(s, parameter).value.rest| <= |s|
  {
    hide Coded, Bits.LeadingZeros;
  }

  lemma {:induction false} DecodeManyBefore(s: seq<bool>, t: seq<bool>, n: nat, parameter: nat)
    requires DecodeMany(s + t, n, parameter).Some? && |DecodeMany(s + t, n, parameter).value.rest| >= |t|
    ensures DecodeMany(s, n, parameter).Some?
    ensures DecodeMany(s + t, n, parameter).value.rest == DecodeMany(s, n, parameter).value.rest + t
  {
    hide Decode;
    if n > 0 {
      DecodeShrinks(DecodeMany(s + t, n - 1, parameter).value.rest, parameter);
      DecodeManyBefore(s, t, n - 1, parameter);
      DecodeBefore(DecodeMany(s, n - 1, parameter).value.rest, t, parameter);
    }
  }

  lemma {:induction false} MoreThanNone(s: seq<bool>, k: nat, n: nat, parameter: nat)
    requires DecodeMany(s, k, parameter).None? && k <= n
    ensures DecodeMany(s, n, parameter).None?
    decreases n
  {
    hide Decode;
    if k < n {
      MoreThanNone(s, k, n - 1, parameter);
    }
  }

  /** When the code after the first `done` has not arrived, no longer list has. */
  lemma NotArrived(all: seq<bool>, done: nat, code: seq<bool>, parameter: nat, cut: nat, n: nat)
    requires DecodeMany(all, done, parameter).Some? && DecodeMany(all, done, parameter).value.rest == code
    requires cut <= |code| <= |all| && Decode(Without(code, cut), parameter).None? && done < n
    ensures DecodeMany(Without(all, cut), n, parameter).None?
  {
    hide Decode;
    var s, t := Without(all, cut), all[|all| - cut..];
    assert s + t == all;
    DecodeManyBefore(s, t, done, parameter);
    var rest := DecodeMany(s, done, parameter).value.rest;
    assert |rest + t| == |rest| + cut;
    assert Without(code, cut) == rest;
    MoreThanNone(s, done + 1, n, parameter);
  }

  lemma {:induction false} RestIsShorter(s: seq<bool>, n: nat, parameter: nat)
    requires DecodeMany(s, n, parameter).Some?
    ensures |DecodeMany(s, n, parameter).value.rest| <= |s|
  {
    hide Decode;
    if n > 0 {
      RestIsShorter(s, n - 1, parameter);
      DecodeShrinks(DecodeMany(s, n - 1, parameter).value.rest, parameter);
    }
  }
}
