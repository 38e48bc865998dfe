/** Descriptors that name their active decode targets: the writer turns them down, the reader takes them. */
module DdActive {
  import opened Bytes
  import opened Bits
  import opened DdCodec
  import opened DdRoundTrip
  import opened DdAccepted

  function Targets(e: Ext): nat {
    if e.structure.None? then 0 else e.structure.value.dtCnt
  }

  /** Extended fields with a mask of active targets, one bit for each target. */
  predicate ReadableActive(e: Ext) {
    e.active && (e.structure.Some? ==> Readable(e.structure.value)) && e.bitmask < Pow(2, Targets(e))
  }

  /** The fields as bits: flags, structure, mask. */
  function ActiveBits(e: Ext): bits
    requires ReadableActive(e)
  {
    ExtBits(e) + Enc(Targets(e), e.bitmask)
  }

  /** The five flags and the structure are read as they were written, whatever follows. */
  lemma FlagsBack(e: Ext, rest: bits)
    requires e.structure.Some? ==> Readable(e.structure.value)
    ensures var b := ExtBits(e) + rest;
            var b1 := Get(b, 1).1;
            var b2 := Get(b1, 1).1;
            var b3 := Get(b2, 1).1;
            var b4 := Get(b3, 1).1;
            && |b| >= 5
            && Get(b, 1).0 == Bit(e.structure.Some?) && Get(b1, 1).0 == Bit(e.active)
            && Get(b2, 1).0 == Bit(e.customDtis) && Get(b3, 1).0 == Bit(e.customFdiffs)
            && Get(b4, 1) == (Bit(e.customChains), StructureBits(e.structure) + rest)
  {
    hide Get, EncStructure, Readable, StructureBits;
    var b5 := StructureBits(e.structure) + rest;
    var b4 := [e.customChains] + b5;
    var b3 := [e.customFdiffs] + b4;
    var b2 := [e.customDtis] + b3;
    var b1 := [e.active] + b2;
    ConcatAssoc([e.structure.Some?, e.active, e.customDtis, e.customFdiffs, e.customChains],
                StructureBits(e.structure), rest);
    FlagsSplit(e.structure.Some?, e.active, e.customDtis, e.customFdiffs, e.customChains, b5);
    OneBit(e.structure.Some?, b1);
    OneBit(e.active, b2);
    OneBit(e.customDtis, b3);
    OneBit(e.customFdiffs, b4);
    OneBit(e.customChains, b5);
  }

  /** The mask that follows the structure comes back, with all other fields. */
  lemma ActiveBack(e: Ext, rest: bits)
    requires ReadableActive(e)
    ensures DecExt(ActiveBits(e) + rest) == Got(e, rest)
  {
    hide Get, DecStructure, EncStructure, Readable, StructureBits, Pow, ExtBits, Enc;
    var mask := Enc(Targets(e), e.bitmask);
    ConcatAssoc(ExtBits(e), mask, rest);
    FlagsBack(e, mask + rest);
    StructureBitsBack(e.structure, mask + rest);
    GetEnc(Targets(e), e.bitmask, rest);
  }

  /** All the bits of such a descriptor. */
  function AllActiveBits(d: Dd): bits
    requires d.ext.Some? && ReadableActive(d.ext.value)
  {
    [d.start, d.end] + Enc(6, d.templateId) + Enc(16, d.frameNumber) + ActiveBits(d.ext.value)
  }

  /** A whole descriptor with active targets reads back from its bits and any padding. */
  lemma ActiveReadsBack(d: Dd, pad: bits, sz: nat)
    requires d.templateId < Pow(2, 6) && d.frameNumber < Pow(2, 16) && d.ext.Some? && ReadableActive(d.ext.value)
    requires |AllActiveBits(d)| + |pad| == 8 * sz && |pad| < 8
    ensures Decode(AllActiveBits(d) + pad, sz) == Got(d, pad)
  {
    hide Get, Enc, DecExt, ActiveBits, ReadableActive, Pow;
    var x := ActiveBits(d.ext.value);
    var b3 := x + pad;
    var b2 := Enc(16, d.frameNumber) + b3;
    var b1 := Enc(6, d.templateId) + b2;
    var b0 := [d.end] + b1;
    HeadSplit(d.start, d.end, Enc(6, d.templateId), Enc(16, d.frameNumber), x, pad);
    assert |AllActiveBits(d)| == 24 + |x| && |x| >= 5 by { ActiveLong(d); }
    OneBit(d.start, b0);
    OneBit(d.end, b1);
    GetEnc(6, d.templateId, b2);
    GetEnc(16, d.frameNumber, b3);
    ActiveBack(d.ext.value, pad);
  }

  lemma ActiveLong(d: Dd)
    requires d.ext.Some? && ReadableActive(d.ext.value)
    ensures |AllActiveBits(d)| == 24 + |ActiveBits(d.ext.value)| && |ActiveBits(d.ext.value)| >= 5
  {
    hide Pow, Readable, StructureBits;
  }

  /** Extended fields with a mask, read from any bits at all, are ones that their bits can express. */
  lemma ActiveAccepted(b: bits)
    ensures var r := DecExt(b); r.Got? && r.value.active ==> ReadableActive(r.value)
  {
    hide Get, DecStructure, Pow, Readable;
    if |b| >= 5 {
      var r0 := Get(b, 1).1;
      var r1 := Get(r0, 1).1;
      var r2 := Get(r1, 1).1;
      var r3 := Get(r2, 1).1;
      var r4 := Get(r3, 1).1;
      StructureAccepted(r4);
      if Get(b, 1).0 == 0 {
        GetBelow(r4, 0);
      } else if DecStructure(r4).Got? {
        GetBelow(DecStructure(r4).rest, DecStructure(r4).value.dtCnt);
      }
    }
  }
}
