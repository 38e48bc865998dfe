/** Decoding the bits of a well-formed Dependency Descriptor restores it. */
module DdRoundTrip {
  import opened Bytes
  import opened Bits
  import opened DdCodec

  predicate AllBelow(vs: seq<nat>, n: nat) {
    forall i :: 0 <= i < |vs| ==> vs[i] < n
  }

  predicate RowsBelow(rows: seq<seq<nat>>, n: nat) {
    forall i :: 0 <= i < |rows| ==> AllBelow(rows[i], n)
  }

  predicate RowsOf(rows: seq<seq<nat>>, cols: nat) {
    forall i :: 0 <= i < |rows| ==> |rows[i]| == cols
  }

  /** Frame differences that fit their four bits. */
  predicate FdiffsOk(fs: seq<nat>) {
    forall i :: 0 <= i < |fs| ==> 1 <= fs[i] <= 16
  }

  predicate SizesOk(rs: seq<(nat, nat)>) {
    forall i :: 0 <= i < |rs| ==> rs[i].0 < Pow(2, 16) && rs[i].1 < Pow(2, 16)
  }

  // ---------------------------------------------------------------- sections

  lemma {:induction false} ValsBack(w: nat, vs: seq<nat>, rest: bits)
    requires AllBelow(vs, Pow(2, w))
    ensures DecVals(EncVals(w, vs) + rest, w, |vs|) == Got(vs, rest)
    ensures DecRaw(EncVals(w, vs) + rest, w, |vs|) == (vs, rest)
  {
    hide Get, Pow;
    if vs == [] {
      assert [] + rest == rest;
    } else {
      var tail := EncVals(w, vs[1..]) + rest;
      assert EncVals(w, vs) + rest == Enc(w, vs[0]) + tail;
      GetEnc(w, vs[0], tail);
      ValsBack(w, vs[1..], rest);
      assert vs == [vs[0]] + vs[1..];
    }
  }

  lemma {:induction false} RowsBack(w: nat, rows: seq<seq<nat>>, cols: nat, rest: bits)
    requires RowsBelow(rows, Pow(2, w)) && RowsOf(rows, cols)
    ensures DecRows(EncRows(w, rows) + rest, w, cols, |rows|) == Got(rows, rest)
    ensures DecRawRows(EncRows(w, rows) + rest, w, cols, |rows|) == (rows, rest)
  {
    hide DecVals, DecRaw, EncVals, Pow;
    if rows == [] {
      assert [] + rest == rest;
    } else {
      var tail := EncRows(w, rows[1..]) + rest;
      ConcatAssoc(EncVals(w, rows[0]), EncRows(w, rows[1..]), rest);
      assert |rows[0]| == cols && AllBelow(rows[0], Pow(2, w));
      hide AllBelow;
      ValsBack(w, rows[0], tail);
      RowsBack(w, rows[1..], cols, rest);
      assert rows == [rows[0]] + rows[1..];
    }
  }

  /** The bits of a row after its first follow bit. */
  function Tail(fs: seq<nat>): bits
    requires FdiffsOk(fs)
  {
    if fs == [] then [] else Enc(4, Minus1(fs[0])) + EncFdiffRow(fs[1..])
  }

  lemma RowIsTail(fs: seq<nat>)
    requires FdiffsOk(fs)
    ensures EncFdiffRow(fs) == [fs != []] + Tail(fs)
  {
    if fs != [] { ConcatAssoc([true], Enc(4, Minus1(fs[0])), EncFdiffRow(fs[1..])); }
  }

  lemma {:induction false} FdiffTailBack(fs: seq<nat>, rest: bits)
    requires FdiffsOk(fs)
    ensures DecFdiffRow(Tail(fs) + rest, fs != []) == Got(fs, rest)
  {
    hide Get, Enc, EncFdiffRow, Pow;
    if fs == [] {
      assert Tail(fs) + rest == rest;
    } else {
      var gs := fs[1..];
      var next := Tail(gs) + rest;
      var mid := [gs != []] + next;
      RowIsTail(gs);
      assert Tail(fs) + rest == Enc(4, Minus1(fs[0])) + mid;
      FourBits();
      GetEnc(4, Minus1(fs[0]), mid);
      OneBit(gs != [], next);
      FdiffTailBack(gs, rest);
      assert fs == [fs[0]] + gs;
    }
  }

  lemma FourBits()
    ensures Pow(2, 4) == 16 && Pow(2, 2) == 4 && Pow(2, 5) == 32 && Pow(2, 6) == 64
  {
    assert Pow(2, 2) == 2 * (2 * Pow(2, 0));
    assert Pow(2, 4) == 2 * (2 * Pow(2, 2));
    assert Pow(2, 6) == 2 * (2 * Pow(2, 4));
  }

  predicate AllFdiffsOk(rows: seq<seq<nat>>) {
    forall i :: 0 <= i < |rows| ==> FdiffsOk(rows[i])
  }

  lemma {:induction false} FdiffsBack(rows: seq<seq<nat>>, rest: bits)
    requires AllFdiffsOk(rows)
    ensures DecFdiffs(EncFdiffs(rows) + rest, |rows|) == Got(rows, rest)
  {
    hide Get, DecFdiffRow, EncFdiffRow, Tail, FdiffsOk;
    if rows == [] {
      assert [] + rest == rest;
    } else {
      var row := rows[0];
      assert FdiffsOk(row);
      var next := EncFdiffs(rows[1..]) + rest;
      RowIsTail(row);
      ConcatAssoc(EncFdiffRow(row), EncFdiffs(rows[1..]), rest);
      ConcatAssoc([row != []], Tail(row), next);
      OneBit(row != [], Tail(row) + next);
      FdiffTailBack(row, next);
      FdiffsBack(rows[1..], rest);
      assert rows == [row] + rows[1..];
    }
  }

  lemma {:induction false} NsValsBack(n: nat, vs: seq<nat>, rest: bits)
    requires n >= 1 && AllBelow(vs, n)
    ensures DecNsVals(EncNsVals(n, vs) + rest, n, |vs|) == (vs, rest)
  {
    hide GetNs, EncNs;
    if vs == [] {
      assert [] + rest == rest;
    } else {
      var tail := EncNsVals(n, vs[1..]) + rest;
      assert EncNsVals(n, vs) + rest == EncNs(n, vs[0]) + tail;
      NsRoundTrip(n, vs[0], tail);
      NsValsBack(n, vs[1..], rest);
      assert vs == [vs[0]] + vs[1..];
    }
  }

  lemma {:induction false} SizesBack(rs: seq<(nat, nat)>, rest: bits)
    requires SizesOk(rs)
    ensures DecSizes(EncSizes(rs) + rest, |rs|) == Got(rs, rest)
  {
    hide Get, Pow;
    if rs == [] {
      assert [] + rest == rest;
    } else {
      var tail := EncSizes(rs[1..]) + rest;
      var h := Enc(16, rs[0].1) + tail;
      assert EncSizes(rs) + rest == Enc(16, rs[0].0) + h;
      GetEnc(16, rs[0].0, h);
      GetEnc(16, rs[0].1, tail);
      SizesBack(rs[1..], rest);
      assert rs == [(rs[0].0, rs[0].1)] + rs[1..];
    }
  }

  lemma ResolutionsBack(r: Option<seq<(nat, nat)>>, n: nat, rest: bits)
    requires r.Some? ==> |r.value| == n && SizesOk(r.value)
    ensures DecResolutions(EncResolutions(r) + rest, n) == Got(r, rest)
  {
    hide Get, DecSizes, EncSizes, Pow;
    if r.None? {
      OneBit(false, rest);
    } else {
      var tail := EncSizes(r.value) + rest;
      assert EncResolutions(r) + rest == [true] + tail;
      OneBit(true, tail);
      SizesBack(r.value, rest);
    }
  }

  predicate ChainsOk(s: Structure) {
    && s.chainCnt <= s.dtCnt
    && (if s.chainCnt == 0 then s.protectedBy == [] && s.chainFdiffs == []
        else AllBelow(s.protectedBy, s.chainCnt) && RowsBelow(s.chainFdiffs, Pow(2, 4)))
  }

  lemma ChainsBack(s: Structure, rest: bits)
    requires Shaped(s) && ChainsOk(s)
    ensures DecChains(EncChains(s) + rest, s.dtCnt, |s.spatial|)
         == Chains(s.chainCnt, s.protectedBy, s.chainFdiffs, rest)
  {
    hide GetNs, EncNs, DecNsVals, EncNsVals, DecRawRows, EncRows, Pow;
    if s.chainCnt == 0 {
      assert EncChains(s) + rest == EncNs(s.dtCnt + 1, 0) + rest;
      NsRoundTrip(s.dtCnt + 1, 0, rest);
    } else {
      var t2 := EncRows(4, s.chainFdiffs) + rest;
      var t1 := EncNsVals(s.chainCnt, s.protectedBy) + t2;
      assert EncChains(s) + rest == EncNs(s.dtCnt + 1, s.chainCnt) + t1;
      NsRoundTrip(s.dtCnt + 1, s.chainCnt, t1);
      NsValsBack(s.chainCnt, s.protectedBy, t2);
      RowsBack(4, s.chainFdiffs, s.chainCnt, rest);
    }
  }

  /** The reader's layer walk follows the writer's steps. */
  lemma {:induction false} LayersBack(s: Structure, i: nat, rest: bits)
    requires |s.spatial| == |s.temporal| && 1 <= i <= |s.spatial| <= MAX_TEMPLATES && EncLayers(s, i).Some?
    ensures DecLayers(EncLayers(s, i).value + rest, s.spatial[..i - 1], s.temporal[..i - 1],
                      s.spatial[i - 1], s.temporal[i - 1])
         == Got((s.spatial, s.temporal), rest)
    decreases |s.spatial| - i
  {
    FourBits();
    hide Get, Enc, Pow;
    assert s.spatial[..i] == s.spatial[..i - 1] + [s.spatial[i - 1]];
    assert s.temporal[..i] == s.temporal[..i - 1] + [s.temporal[i - 1]];
    if i == |s.spatial| {
      GetEnc(2, 3, rest);
      assert s.spatial[..i] == s.spatial && s.temporal[..i] == s.temporal;
    } else {
      var idc := NextLayer(s, i - 1, i);
      var tail := EncLayers(s, i + 1).value + rest;
      assert EncLayers(s, i).value + rest == Enc(2, idc) + tail;
      GetEnc(2, idc, tail);
      LayersBack(s, i + 1, rest);
    }
  }

  // ---------------------------------------------------------------- whole descriptor

  /** Every field fits its width, templates are one to eight and in layer order from (0, 0), and
      there is one resolution per spatial layer: what the bits of a descriptor can express. */
  predicate Readable(s: Structure) {
    && Shaped(s) && ChainsOk(s)
    && s.idOffset < Pow(2, 6) && 1 <= s.dtCnt <= Pow(2, 5)
    && 1 <= |s.spatial| <= MAX_TEMPLATES && s.spatial[0] == 0 && s.temporal[0] == 0 && EncLayers(s, 1).Some?
    && RowsBelow(s.dtis, Pow(2, 2)) && AllFdiffsOk(s.fdiffs)
    && (s.resolutions.Some? ==>
          |s.resolutions.value| == s.spatial[|s.spatial| - 1] + 1 && SizesOk(s.resolutions.value))
  }

  lemma Regroup(a: bits, b: bits, c: bits, d: bits, e: bits, f: bits, g: bits, rest: bits)
    ensures a + b + c + d + e + f + g + rest == a + (b + (c + (d + (e + (f + (g + rest))))))
  {
    ConcatAssoc(a + b + c + d + e + f, g, rest);
    ConcatAssoc(a + b + c + d + e, f, g + rest);
    ConcatAssoc(a + b + c + d, e, f + (g + rest));
    ConcatAssoc(a + b + c, d, e + (f + (g + rest)));
    ConcatAssoc(a + b, c, d + (e + (f + (g + rest))));
    ConcatAssoc(a, b, c + (d + (e + (f + (g + rest)))));
  }

  lemma EncStructureParts(s: Structure)
    requires Shaped(s) && EncLayers(s, 1).Some?
    ensures EncStructure(s)
         == Some(Enc(6, s.idOffset) + Enc(5, Minus1(s.dtCnt)) + EncLayers(s, 1).value + EncRows(2, s.dtis)
                 + EncFdiffs(s.fdiffs) + EncChains(s) + EncResolutions(s.resolutions))
  {
  }

  lemma StructureBack(s: Structure, rest: bits)
    requires Readable(s)
    ensures EncStructure(s).Some? && DecStructure(EncStructure(s).value + rest) == Got(s, rest)
  {
    hide Get, Enc, DecLayers, EncLayers, DecRows, EncRows, DecFdiffs, EncFdiffs, DecChains, EncChains;
    hide DecResolutions, EncResolutions, EncStructure, Pow, RowsBelow, RowsOf, AllFdiffsOk, ChainsOk, SizesOk;
    var a, b, c, d := Enc(6, s.idOffset), Enc(5, Minus1(s.dtCnt)), EncLayers(s, 1).value, EncRows(2, s.dtis);
    var e, f, g := EncFdiffs(s.fdiffs), EncChains(s), EncResolutions(s.resolutions);
    EncStructureParts(s);
    Regroup(a, b, c, d, e, f, g, rest);
    GetEnc(6, s.idOffset, b + (c + (d + (e + (f + (g + rest))))));
    GetEnc(5, Minus1(s.dtCnt), c + (d + (e + (f + (g + rest)))));
    assert s.spatial[..0] == [] && s.temporal[..0] == [];
    LayersBack(s, 1, d + (e + (f + (g + rest))));
    assert RowsOf(s.dtis, s.dtCnt) by { DtisShape(s); }
    RowsBack(2, s.dtis, s.dtCnt, e + (f + (g + rest)));
    FdiffsBack(s.fdiffs, f + (g + rest));
    ChainsBack(s, g + rest);
    ResolutionsBack(s.resolutions, s.spatial[|s.spatial| - 1] + 1, rest);
    StructureLong(a, b, c + (d + (e + (f + (g + rest)))));
  }

  lemma StructureLong(a: bits, b: bits, rest: bits)
    ensures |a + (b + rest)| == |a| + |b| + |rest|
  {
  }

  lemma DtisShape(s: Structure)
    requires Shaped(s)
    ensures RowsOf(s.dtis, s.dtCnt)
  {
  }

  predicate ReadableDd(d: Dd) {
    && d.templateId < Pow(2, 6) && d.frameNumber < Pow(2, 16)
    && (d.ext.Some? ==>
          var e := d.ext.value;
          && !e.active
          && (e.structure.Some? ==> Readable(e.structure.value))
          && e.bitmask == if e.structure.Some? then Pow(2, e.structure.value.dtCnt) - 1 else 0)
  }

  /** The extended fields of a descriptor as bits. */
  function ExtBits(e: Ext): bits
    requires e.structure.Some? ==> Readable(e.structure.value)
  {
    [e.structure.Some?, e.active, e.customDtis, e.customFdiffs, e.customChains] + StructureBits(e.structure)
  }

  function StructureBits(o: Option<Structure>): bits
    requires o.Some? ==> Readable(o.value)
  {
    if o.None? then [] else StructureBack(o.value, []); EncStructure(o.value).value
  }

  lemma FlagsSplit(a: bool, b: bool, c: bool, d: bool, e: bool, rest: bits)
    ensures [a, b, c, d, e] + rest == [a] + ([b] + ([c] + ([d] + ([e] + rest))))
  {
  }

  lemma ExtBack(e: Ext, rest: bits)
    requires !e.active && (e.structure.Some? ==> Readable(e.structure.value))
    requires e.bitmask == if e.structure.Some? then Pow(2, e.structure.value.dtCnt) - 1 else 0
    ensures DecExt(ExtBits(e) + rest) == Got(e, rest)
  {
    hide Get, DecStructure, EncStructure, Readable, StructureBits, Pow;
    var b5 := StructureBits(e.structure) + rest;
    var b4 := [e.customChains] + b5;
    var b3 := [e.customFdiffs] + b4;
    var b2 := [e.customDtis] + b3;
    var b1 := [e.active] + b2;
    ConcatAssoc([e.structure.Some?, e.active, e.customDtis, e.customFdiffs, e.customChains],
                StructureBits(e.structure), rest);
    FlagsSplit(e.structure.Some?, e.active, e.customDtis, e.customFdiffs, e.customChains, b5);
    OneBit(e.structure.Some?, b1);
    OneBit(e.active, b2);
    OneBit(e.customDtis, b3);
    OneBit(e.customFdiffs, b4);
    OneBit(e.customChains, b5);
    StructureBitsBack(e.structure, rest);
  }

  lemma StructureBitsBack(o: Option<Structure>, rest: bits)
    requires o.Some? ==> Readable(o.value)
    ensures o.None? ==> StructureBits(o) + rest == rest
    ensures o.Some? ==> DecStructure(StructureBits(o) + rest) == Got(o.value, rest)
  {
    hide DecStructure, EncStructure, Readable;
    if o.Some? { StructureBack(o.value, rest); } else { assert [] + rest == rest; }
  }

  /** All the bits of a descriptor. */
  function AllBits(d: Dd): bits
    requires ReadableDd(d)
  {
    [d.start, d.end] + Enc(6, d.templateId) + Enc(16, d.frameNumber) + if d.ext.None? then [] else ExtBits(d.ext.value)
  }

  lemma EncodeAllBits(d: Dd)
    requires ReadableDd(d)
    ensures ShapedDd(d) && Encode(d) == Some(AllBits(d))
  {
    hide Enc, EncStructure, Pow;
    var head := [d.start, d.end] + Enc(6, d.templateId) + Enc(16, d.frameNumber);
    if d.ext.None? {
      assert head + [] == head;
    } else {
      var e := d.ext.value;
      var flags := [e.structure.Some?, e.active, e.customDtis, e.customFdiffs, e.customChains];
      if e.structure.Some? { StructureBack(e.structure.value, []); }
      ConcatAssoc(head, flags, StructureBits(e.structure));
    }
  }

  function ExtBitsOf(d: Dd): bits
    requires ReadableDd(d)
  {
    if d.ext.None? then [] else ExtBits(d.ext.value)
  }

  lemma {:induction false} HeadBits(d: Dd, pad: bits)
    requires ReadableDd(d)
    ensures AllBits(d) + pad ==
              [d.start] + ([d.end] + (Enc(6, d.templateId) + (Enc(16, d.frameNumber) + (ExtBitsOf(d) + pad))))
    ensures |AllBits(d)| == 24 + |ExtBitsOf(d)|
    ensures d.ext.Some? ==> |ExtBitsOf(d)| >= 5
  {
    hide Enc, ExtBits, Readable, Pow;
    HeadSplit(d.start, d.end, Enc(6, d.templateId), Enc(16, d.frameNumber), ExtBitsOf(d), pad);
    if d.ext.Some? { ExtLong(d.ext.value); }
  }

  lemma {:induction false} BitsBack(d: Dd, pad: bits, sz: nat)
    requires ReadableDd(d) && |AllBits(d)| + |pad| == 8 * sz && |pad| < 8
    ensures ShapedDd(d) && Encode(d) == Some(AllBits(d))
    ensures Decode(AllBits(d) + pad, sz) == Got(d, pad)
  {
    hide Get, Enc, DecExt, Encode, ExtBits, Readable, Pow, AllBits, ShapedDd;
    EncodeAllBits(d);
    HeadBits(d, pad);
    var b3 := ExtBitsOf(d) + pad;
    var b2 := Enc(16, d.frameNumber) + b3;
    var b1 := Enc(6, d.templateId) + b2;
    var b0 := [d.end] + b1;
    OneBit(d.start, b0);
    OneBit(d.end, b1);
    GetEnc(6, d.templateId, b2);
    GetEnc(16, d.frameNumber, b3);
    if d.ext.Some? {
      ExtBack(d.ext.value, pad);
    } else {
      assert b3 == pad;
    }
  }

  lemma HeadSplit(a: bool, b: bool, c: bits, d: bits, x: bits, pad: bits)
    ensures [a, b] + c + d + x + pad == [a] + ([b] + (c + (d + (x + pad))))
  {
    ConcatAssoc([a, b] + c + d, x, pad);
    ConcatAssoc([a, b] + c, d, x + pad);
    ConcatAssoc([a, b], c, d + (x + pad));
    assert [a, b] == [a] + [b];
    ConcatAssoc([a], [b], c + (d + (x + pad)));
  }

  lemma ExtLong(e: Ext)
    requires e.structure.Some? ==> Readable(e.structure.value)
    ensures |ExtBits(e)| >= 5
  {
    hide StructureBits, Readable;
  }

  /** A descriptor that its bits can express and the tables can hold. */
  predicate WellFormedDd(d: Dd) {
    ReadableDd(d) && InTablesDd(d)
  }

  /** For every well-formed descriptor the writer succeeds, and reading its bits, packed into whole
      bytes with any padding, restores every field. */
  lemma RoundTrip(d: Dd, pad: bits, sz: nat)
    requires WellFormedDd(d) && |AllBits(d)| + |pad| == 8 * sz && |pad| < 8
    ensures ShapedDd(d) && Encode(d) == Some(AllBits(d))
    ensures Decode(AllBits(d) + pad, sz) == Got(d, pad)
  {
    hide ReadableDd, InTablesDd, AllBits, Encode, Decode;
    BitsBack(d, pad, sz);
  }
}
