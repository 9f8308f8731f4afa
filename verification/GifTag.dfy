/** The packets of the graphics interface, one path's stream of quadwords at a time.

    A packet is a tag and a body. The parser keeps the number of loops and of registers that
    are left; its meaning is that item k of the body goes to register descriptor k modulo the
    number of descriptors, and that the body is over after exactly its items. */
module GifTag {
  import opened Division
  import opened Hex

  /** A quadword: its low and its high 64 bits. */
  datatype Quad = Quad(lo: nat, hi: nat)

  datatype Tag = Tag(nloop: nat, endOfPacket: bool, outputPrim: bool, prim: nat, format: nat, regCount: nat, regs: nat,
                     regsLeft: nat, dataLeft: nat)

  /** What the parser hands on: a quadword for a descriptor, 64 bits for a descriptor, 64 bits
      of image data, or the primitive of the tag. */
  datatype Item =
    | Packed(descriptor: nat, quad: Quad)
    | Listed(descriptor: nat, value: nat)
    | Image(value: nat)
    | Prim(value: nat)

  /** A tag that has been read can be fed. */
  predicate Proper(t: Tag) {
    t.dataLeft > 0 ==> 0 < t.regsLeft <= t.regCount
  }

  function ReadTag(q: Quad): (t: Tag)
    ensures Proper(t) && 0 < t.regCount <= 16 && t.regsLeft == t.regCount && t.dataLeft == t.nloop
  {
    var nloop := q.lo % 0x8000;
    var count := q.lo / 0x1000_0000_0000_0000 % 16;
    var regCount := if count == 0 then 16 else count;
    Tag(nloop, q.lo / 0x8000 % 2 == 1, q.lo / 0x4000_0000_0000 % 2 == 1, q.lo / 0x8000_0000_0000 % 0x800,
        q.lo / 0x400_0000_0000_0000 % 4, regCount, q.hi, regCount, nloop)
  }

  /** A tag as the GIF's documents lay it out, from the lowest bit: NLOOP in 15 bits, EOP, 30
      unused bits, PRE, PRIM in 11 bits, FLG in 2 and NREG in 4; then the descriptors. */
  function TagQuad(nloop: nat, eop: bool, unused: nat, pre: bool, prim: nat, flg: nat, nreg: nat, regs: nat): Quad {
    Quad(nloop + 0x8000 * ((if eop then 1 else 0) + 2 * (unused + 0x4000_0000 * ((if pre then 1 else 0)
        + 2 * (prim + 0x800 * (flg + 4 * nreg))))), regs)
  }

  /** Every tag is read field by field, and NREG 0 stands for 16 descriptors. */
  lemma TagIsRead(nloop: nat, eop: bool, unused: nat, pre: bool, prim: nat, flg: nat, nreg: nat, regs: nat)
    requires nloop < 0x8000 && unused < 0x4000_0000 && prim < 0x800 && flg < 4 && nreg < 16
    ensures var count := if nreg == 0 then 16 else nreg;
      ReadTag(TagQuad(nloop, eop, unused, pre, prim, flg, nreg, regs))
        == Tag(nloop, eop, pre, prim, flg, count, regs, count, nloop)
  {
    var e, p := if eop then 1 else 0, if pre then 1 else 0;
    var g := flg + 4 * nreg;
    var f := prim + 0x800 * g;
    var d := p + 2 * f;
    var c := unused + 0x4000_0000 * d;
    var b := e + 2 * c;
    var lo := nloop + 0x8000 * b;
    hide ReadTag;
    LowField(nloop, b, 0x8000, lo);
    LowField(e, c, 2, b);
    LowField(unused, d, 0x4000_0000, c);
    LowField(p, f, 2, d);
    LowField(prim, g, 0x800, f);
    LowField(flg, nreg, 4, g);
    Divided(lo);
    FieldsRead(TagQuad(nloop, eop, unused, pre, prim, flg, nreg, regs), b, d, f, g, nreg);
  }

  /** Reading a tag hands on its primitive exactly when it has PRE, is PACKED and has data. */
  lemma TagHandsOn(t: Tag, nloop: nat, eop: bool, unused: nat, pre: bool, prim: nat, flg: nat, nreg: nat, regs: nat)
    requires Proper(t) && t.dataLeft == 0
    requires nloop < 0x8000 && unused < 0x4000_0000 && prim < 0x800 && flg < 4 && nreg < 16
    ensures Fed(t, TagQuad(nloop, eop, unused, pre, prim, flg, nreg, regs)).1
         == if pre && flg == 0 && nloop > 0 then [Prim(prim)] else []
  {
    hide ReadTag, TagQuad;
    TagIsRead(nloop, eop, unused, pre, prim, flg, nreg, regs);
  }

  lemma Divided(x: nat)
    ensures x / 0x8000 / 2 / 0x4000_0000 == x / 0x4000_0000_0000
    ensures x / 0x4000_0000_0000 / 2 == x / 0x8000_0000_0000
    ensures x / 0x8000_0000_0000 / 0x800 == x / 0x400_0000_0000_0000
    ensures x / 0x400_0000_0000_0000 / 4 == x / 0x1000_0000_0000_0000
  {
  }

  lemma FieldsRead(q: Quad, b: nat, d: nat, f: nat, g: nat, nreg: nat)
    requires q.lo / 0x8000 == b && q.lo / 0x4000_0000_0000 == d && q.lo / 0x8000_0000_0000 == f
    requires q.lo / 0x400_0000_0000_0000 == g && q.lo / 0x1000_0000_0000_0000 == nreg < 16
    ensures var count := if nreg == 0 then 16 else nreg;
      ReadTag(q) == Tag(q.lo % 0x8000, b % 2 == 1, d % 2 == 1, f % 0x800, g % 4, count, q.hi, count, q.lo % 0x8000)
  {
  }

  lemma LowField(low: nat, high: nat, n: nat, x: nat)
    requires low < n && x == low + n * high
    ensures x / n == high && x % n == low
  {
    Quotient(x, high, low, n);
  }

  /** The descriptor at hand: (regs >> ((regCount - regsLeft) * 4)) & 0xF */
  function Descriptor(t: Tag): nat
    requires t.regsLeft <= t.regCount
  {
    Digit(t.regs, t.regCount - t.regsLeft)
  }

  /** One item of a PACKED or REGLIST body is done. */
  function ItemDone(t: Tag): (r: Tag)
    requires t.dataLeft > 0 && 0 < t.regsLeft <= t.regCount
    ensures Proper(r)
  {
    if t.regsLeft > 1 then t.(regsLeft := t.regsLeft - 1) else t.(regsLeft := t.regCount, dataLeft := t.dataLeft - 1)
  }

  /** A quadword of a path, and what comes of it. */
  function Fed(t: Tag, q: Quad): (r: (Tag, seq<Item>))
    requires Proper(t)
    ensures Proper(r.0)
  {
    if t.dataLeft == 0 then
      var tag := ReadTag(q);
      (tag, if tag.dataLeft != 0 && tag.outputPrim && tag.format == 0 then [Prim(tag.prim)] else [])
    else if t.format == 0 then
      (ItemDone(t), [Packed(Descriptor(t), q)])
    else if t.format == 1 then
      var first := ItemDone(t);
      if first.dataLeft == 0 then (first, [Listed(Descriptor(t), q.lo)])
      else (ItemDone(first), [Listed(Descriptor(t), q.lo), Listed(Descriptor(first), q.hi)])
    else
      (t.(dataLeft := t.dataLeft - 1), [Image(q.lo), Image(q.hi)])
  }

  function FedAll(t: Tag, quads: seq<Quad>): (r: (Tag, seq<Item>))
    requires Proper(t)
    ensures Proper(r.0)
  {
    if quads == [] then (t, [])
    else
      var before := FedAll(t, quads[..|quads| - 1]);
      var last := Fed(before.0, quads[|quads| - 1]);
      (last.0, before.1 + last.1)
  }

  // ----- what a body means

  /** Items of a PACKED or REGLIST body. */
  function Total(t: Tag): nat {
    t.nloop * t.regCount
  }

  /** Quadwords in the body of a packet. */
  function BodyLength(t: Tag): nat {
    if t.format == 0 then Total(t)
    else if t.format == 1 then (Total(t) + 1) / 2
    else t.nloop
  }

  /** Items in the first n quadwords of the body. The last half of an odd register list is
      padding. */
  function ItemCount(t: Tag, n: nat): nat {
    if t.format == 0 then n
    else if t.format == 1 then (if 2 * n <= Total(t) then 2 * n else Total(t))
    else 2 * n
  }

  function Half(body: seq<Quad>, k: nat): nat
    requires k < 2 * |body|
  {
    if k % 2 == 0 then body[k / 2].lo else body[k / 2].hi
  }

  /** Item k of the body: what it carries, and the descriptor it is for. */
  function ItemAt(t: Tag, body: seq<Quad>, k: nat): Item
    requires t.regCount > 0 && k < ItemCount(t, |body|)
  {
    if t.format == 0 then Packed(Digit(t.regs, k % t.regCount), body[k])
    else if t.format == 1 then Listed(Digit(t.regs, k % t.regCount), Half(body, k))
    else Image(Half(body, k))
  }

  // ----- the parser inside a body

  /** The parser has done k items of the body of t. */
  predicate Reached(t: Tag, k: nat, now: Tag)
    requires t.regCount > 0
  {
    && k <= Total(t)
    && now == t.(regsLeft := t.regCount - k % t.regCount, dataLeft := t.nloop - k / t.regCount)
  }

  predicate Fresh(t: Tag) {
    t.regCount > 0 && t.regsLeft == t.regCount && t.dataLeft == t.nloop
  }

  lemma BodyBegins(t: Tag)
    requires Fresh(t)
    ensures Reached(t, 0, t)
  {
  }

  /** Items are left until the last. */
  lemma LoopsLeft(t: Tag, k: nat, now: Tag)
    requires t.regCount > 0 && Reached(t, k, now)
    ensures now.dataLeft == 0 <==> k == Total(t)
    ensures 0 < now.regsLeft <= now.regCount && now.regCount - now.regsLeft == k % t.regCount
  {
    var n := t.regCount;
    QuotientAtLeast(k, n, t.nloop);
    assert k == (k / n) * n + k % n;
    if k / n == t.nloop {
      assert k <= t.nloop * n;
    }
    if k == t.nloop * n {
      Quotient(k, t.nloop, 0, n);
    }
  }

  lemma NextItem(t: Tag, k: nat, now: Tag)
    requires t.regCount > 0 && Reached(t, k, now) && k < Total(t)
    ensures now.dataLeft > 0 && 0 < now.regsLeft <= now.regCount && now.regs == t.regs && now.format == t.format
    ensures Descriptor(now) == Digit(t.regs, k % t.regCount)
    ensures Reached(t, k + 1, ItemDone(now))
  {
    hide Digit;
    LoopsLeft(t, k, now);
    NextQuotient(k, t.regCount);
  }

  /** What feeding a part of a body does. */
  ghost predicate BodyFed(t: Tag, body: seq<Quad>)
    requires Fresh(t)
  {
    var r := FedAll(t, body);
    && |r.1| == ItemCount(t, |body|)
    && (forall k :: 0 <= k < |r.1| ==> r.1[k] == ItemAt(t, body, k))
    && (r.0.dataLeft == 0 <==> |body| == BodyLength(t))
    && if t.format < 2 then Reached(t, |r.1|, r.0)
       else r.0 == t.(dataLeft := r.0.dataLeft) && r.0.dataLeft + |body| == t.nloop
  }

  lemma FedMore(t: Tag, body: seq<Quad>, q: Quad)
    requires Proper(t)
    ensures FedAll(t, body + [q]) == (Fed(FedAll(t, body).0, q).0, FedAll(t, body).1 + Fed(FedAll(t, body).0, q).1)
  {
    hide Fed;
    assert (body + [q])[..|body + [q]| - 1] == body;
  }

  /** Items of the quadwords before are the items so far. */
  lemma ItemsStay(t: Tag, body: seq<Quad>, q: Quad, k: nat)
    requires t.regCount > 0 && k < ItemCount(t, |body|)
    ensures k < ItemCount(t, |body + [q]|) && ItemAt(t, body + [q], k) == ItemAt(t, body, k)
  {
    hide Digit;
    if t.format != 0 {
      assert k / 2 < |body|;
    }
  }

  /** The items so far and those of one more quadword. */
  lemma ItemsAppend(t: Tag, body: seq<Quad>, q: Quad, items: seq<Item>, more: seq<Item>)
    requires t.regCount > 0 && |items| == ItemCount(t, |body|) && |items| + |more| == ItemCount(t, |body + [q]|)
    requires forall k :: 0 <= k < |items| ==> items[k] == ItemAt(t, body, k)
    requires forall j :: 0 <= j < |more| ==> more[j] == ItemAt(t, body + [q], |items| + j)
    ensures forall k :: 0 <= k < |items + more| ==> (items + more)[k] == ItemAt(t, body + [q], k)
  {
    hide ItemAt, ItemCount;
    forall k | 0 <= k < |items + more| ensures (items + more)[k] == ItemAt(t, body + [q], k) {
      if k < |items| {
        ItemsStay(t, body, q, k);
      } else {
        assert (items + more)[k] == more[k - |items|];
      }
    }
  }

  lemma PackedNext(t: Tag, body: seq<Quad>, q: Quad)
    requires Fresh(t) && t.format == 0 && |body| < BodyLength(t) && BodyFed(t, body)
    ensures BodyFed(t, body + [q])
  {
    hide Digit, Fed, FedAll, Reached, ItemDone;
    var now, n := FedAll(t, body).0, |body|;
    NextItem(t, n, now);
    LoopsLeft(t, n + 1, ItemDone(now));
    FedMore(t, body, q);
    PackedStep(t, now, n, q);
    ItemsAppend(t, body, q, FedAll(t, body).1, Fed(now, q).1);
  }

  lemma PackedStep(t: Tag, now: Tag, n: nat, q: Quad)
    requires now.dataLeft > 0 && 0 < now.regsLeft <= now.regCount && now.format == 0
    requires t.regCount > 0 && Descriptor(now) == Digit(t.regs, n % t.regCount)
    ensures Fed(now, q) == (ItemDone(now), [Packed(Digit(t.regs, n % t.regCount), q)])
  {
    hide Digit, ItemDone;
  }

  lemma ImageNext(t: Tag, body: seq<Quad>, q: Quad)
    requires Fresh(t) && t.format >= 2 && |body| < BodyLength(t) && BodyFed(t, body)
    ensures BodyFed(t, body + [q])
  {
    hide Digit, FedAll;
    FedMore(t, body, q);
    ItemsAppend(t, body, q, FedAll(t, body).1, [Image(q.lo), Image(q.hi)]);
  }

  lemma ListedNext(t: Tag, body: seq<Quad>, q: Quad)
    requires Fresh(t) && t.format == 1 && |body| < BodyLength(t) && BodyFed(t, body)
    ensures BodyFed(t, body + [q])
  {
    hide Digit, Fed, FedAll, Reached, ItemDone, Total, ItemAt, ItemCount;
    var now := FedAll(t, body).0;
    ListedCounts(t, body);
    ListedFed(t, 2 * |body|, now, q);
    FedMore(t, body, q);
    ListedHere(t, body, q, Fed(now, q).1);
    ItemsAppend(t, body, q, FedAll(t, body).1, Fed(now, q).1);
    ListedCounts(t, body + [q]);
  }

  lemma ListedCounts(t: Tag, body: seq<Quad>)
    requires t.format == 1 && |body| <= BodyLength(t)
    ensures ItemCount(t, |body|) == if 2 * |body| <= Total(t) then 2 * |body| else Total(t)
    ensures |body| == BodyLength(t) <==> ItemCount(t, |body|) == Total(t)
    ensures |body| < BodyLength(t) ==> ItemCount(t, |body|) == 2 * |body| < Total(t)
  {
    hide Total;
  }

  /** A quadword of a register list: one item or two. */
  lemma ListedFed(t: Tag, n: nat, now: Tag, q: Quad)
    requires Fresh(t) && t.format == 1 && Reached(t, n, now) && n < Total(t)
    ensures Proper(now)
    ensures var r := Fed(now, q);
      && Reached(t, n + |r.1|, r.0) && (r.0.dataLeft == 0 <==> n + |r.1| == Total(t))
      && |r.1| == (if n + 1 < Total(t) then 2 else 1)
      && r.1[0] == Listed(Digit(t.regs, n % t.regCount), q.lo)
      && (|r.1| == 2 ==> r.1[1] == Listed(Digit(t.regs, (n + 1) % t.regCount), q.hi))
  {
    hide Digit, Fed, Reached, ItemDone, Total;
    NextItem(t, n, now);
    var first := ItemDone(now);
    LoopsLeft(t, n + 1, first);
    if n + 1 < Total(t) {
      NextItem(t, n + 1, first);
      LoopsLeft(t, n + 2, ItemDone(first));
    }
    ListedStep(t, now, n, q);
  }

  /** The one or two items of a quadword of a register list. */
  lemma ListedHere(t: Tag, body: seq<Quad>, q: Quad, more: seq<Item>)
    requires t.regCount > 0 && t.format == 1 && 2 * |body| < Total(t)
    requires |more| == if 2 * |body| + 1 < Total(t) then 2 else 1
    requires more[0] == Listed(Digit(t.regs, 2 * |body| % t.regCount), q.lo)
    requires |more| == 2 ==> more[1] == Listed(Digit(t.regs, (2 * |body| + 1) % t.regCount), q.hi)
    ensures ItemCount(t, |body|) + |more| == ItemCount(t, |body + [q]|)
    ensures forall j :: 0 <= j < |more| ==> more[j] == ItemAt(t, body + [q], ItemCount(t, |body|) + j)
  {
    hide Digit, Total;
    var n := |body|;
    assert 2 * n / 2 == n && (2 * n + 1) / 2 == n && (2 * n + 1) % 2 == 1;
  }

  lemma ListedStep(t: Tag, now: Tag, n: nat, q: Quad)
    requires now.dataLeft > 0 && 0 < now.regsLeft <= now.regCount && now.format == 1
    requires t.regCount > 0 && Descriptor(now) == Digit(t.regs, n % t.regCount)
    requires ItemDone(now).dataLeft > 0 ==>
      0 < ItemDone(now).regsLeft <= ItemDone(now).regCount
          && Descriptor(ItemDone(now)) == Digit(t.regs, (n + 1) % t.regCount)
    ensures Fed(now, q) ==
      if ItemDone(now).dataLeft == 0 then (ItemDone(now), [Listed(Digit(t.regs, n % t.regCount), q.lo)])
      else (ItemDone(ItemDone(now)),
          [Listed(Digit(t.regs, n % t.regCount), q.lo), Listed(Digit(t.regs, (n + 1) % t.regCount), q.hi)])
  {
    hide Digit, ItemDone;
  }

  /** A packet's body, quadword by quadword: item k goes to descriptor k modulo the number of
      descriptors, and the parser is ready for the next tag after exactly NLOOP * NREG
      quadwords (PACKED), half as many rounded up (REGLIST), or NLOOP (IMAGE). */
  lemma {:induction false} BodyItems(t: Tag, body: seq<Quad>)
    requires Fresh(t) && |body| <= BodyLength(t)
    ensures BodyFed(t, body)
    decreases |body|
  {
    hide Digit, Fed, FedAll, BodyLength, BodyFed;
    if body == [] {
      NoBody(t);
    } else {
      var shorter := body[..|body| - 1];
      BodyItems(t, shorter);
      assert body == shorter + [body[|body| - 1]];
      if t.format == 0 {
        PackedNext(t, shorter, body[|body| - 1]);
      } else if t.format == 1 {
        ListedNext(t, shorter, body[|body| - 1]);
      } else {
        ImageNext(t, shorter, body[|body| - 1]);
      }
    }
  }

  lemma NoBody(t: Tag)
    requires Fresh(t)
    ensures BodyFed(t, [])
  {
    BodyBegins(t);
    LoopsLeft(t, 0, t);
  }

  // ----- packets in a stream

  lemma {:induction false} FedConcat(t: Tag, a: seq<Quad>, b: seq<Quad>)
    requires Proper(t)
    ensures FedAll(t, a + b) == (FedAll(FedAll(t, a).0, b).0, FedAll(t, a).1 + FedAll(FedAll(t, a).0, b).1)
    decreases |b|
  {
    hide Fed, FedAll;
    if b == [] {
      assert a + b == a;
      FedNone(FedAll(t, a).0);
      assert FedAll(t, a).1 + [] == FedAll(t, a).1;
    } else {
      var shorter := b[..|b| - 1];
      FedConcat(t, a, shorter);
      assert a + b == (a + shorter) + [b[|b| - 1]];
      FedMore(t, a + shorter, b[|b| - 1]);
      assert b == shorter + [b[|b| - 1]];
      FedMore(FedAll(t, a).0, shorter, b[|b| - 1]);
      var x, y := FedAll(t, a), FedAll(FedAll(t, a).0, shorter);
      var z := Fed(y.0, b[|b| - 1]);
      assert (x.1 + y.1) + z.1 == x.1 + (y.1 + z.1);
    }
  }

  lemma FedOne(t: Tag, q: Quad)
    requires Proper(t)
    ensures FedAll(t, [q]) == Fed(t, q)
  {
    hide Fed;
    assert [q] == [] + [q];
    FedMore(t, [], q);
    FedNone(t);
    assert [] + Fed(t, q).1 == Fed(t, q).1;
  }

  lemma FedNone(t: Tag)
    requires Proper(t)
    ensures FedAll(t, []) == (t, [])
  {
  }

  lemma TagRead(t: Tag, q: Quad)
    requires Proper(t)
    ensures t.dataLeft == 0 ==> Fed(t, q).0 == ReadTag(q)
  {
  }

  /** A packet after others in the stream of a path: its items follow theirs, item k for
      descriptor k modulo the number of descriptors, and the path is ready for the next tag
      after exactly the quadwords of the body. */
  lemma PacketItems(t: Tag, pre: seq<Quad>, q: Quad, body: seq<Quad>)
    requires Proper(t) && FedAll(t, pre).0.dataLeft == 0 && |body| <= BodyLength(ReadTag(q))
    ensures var tag, r := ReadTag(q), FedAll(t, pre + [q] + body); var before := |r.1| - ItemCount(tag, |body|);
      && before >= 0 && r.1[..before] == FedAll(t, pre).1 + Fed(FedAll(t, pre).0, q).1
      && (forall k :: 0 <= k < ItemCount(tag, |body|) ==> r.1[before + k] == ItemAt(tag, body, k))
      && (r.0.dataLeft == 0 <==> |body| == BodyLength(tag))
  {
    hide FedAll, Fed, BodyLength, ItemCount, ItemAt, ReadTag;
    var tag, before := ReadTag(q), FedAll(t, pre);
    FedConcat(t, pre, [q]);
    FedOne(before.0, q);
    TagRead(before.0, q);
    FedConcat(t, pre + [q], body);
    BodyItems(tag, body);
  }
}
