/** Bytes on which the descriptor reader leaves its tables: accepted ones, and refused ones. */
module DdTables {
  import opened Bytes
  import opened Bits
  import opened BitIo
  import opened DdCodec
  import opened DdRoundTrip
  import opened DdStays

  /** One template, with one decode target more than the tables hold. */
  function Wide(): Structure {
    Structure(0, 17, [0], [0], [seq(17, _ => 0)], [[]], 0, [], [], None)
  }

  function WideDd(): Dd {
    PowTwo(17);
    Dd(false, false, 0, 0, Some(Ext(Some(Wide()), false, false, false, false, Pow(2, 17) - 1)))
  }

  const WIDE: seq<bv8> := [0, 0, 0, 0x80, 0x10, 0xc0, 0, 0, 0, 0, 0]

  function Off(n: nat): bits {
    seq(n, _ => false)
  }

  /** Bits that are set at these places only. */
  predicate SetAt(b: bits, at: set<nat>) {
    forall i: nat :: i < |b| ==> (b[i] <==> i in at)
  }

  lemma {:induction false} EncOff(w: nat)
    ensures Enc(w, 0) == Off(w)
  {
    if w > 0 { EncOff(w - 1); }
  }

  lemma {:induction false} EncValsOff(vs: seq<nat>)
    requires forall i :: 0 <= i < |vs| ==> vs[i] == 0
    ensures EncVals(2, vs) == Off(2 * |vs|)
  {
    if vs != [] {
      EncOff(2);
      EncValsOff(vs[1..]);
    }
  }

  lemma SmallEncs()
    ensures Enc(5, 16) == [true] + Off(4) && Enc(2, 3) == [true, true]
    ensures EncNs(18, 0) == Off(4)
  {
    hide Enc, BitLen, Pow;
    EncStep(5, 16);
    EncStep(4, 8);
    EncStep(3, 4);
    EncStep(2, 2);
    EncStep(1, 1);
    EncStep(2, 3);
    EncStep(0, 0);
    BitLenStep(18);
    BitLenStep(9);
    BitLenStep(4);
    BitLenStep(2);
    BitLenStep(1);
    FourBits();
    EncOff(4);
  }

  lemma {:induction false} EncStep(w: nat, v: nat)
    ensures Enc(w, v) == if w == 0 then [] else Enc(w - 1, v / 2) + [v % 2 == 1]
  {
  }

  lemma {:induction false} WideRowsOff()
    ensures EncRows(2, Wide().dtis) == Off(34)
  {
    var rows := Wide().dtis;
    assert rows[1..] == [];
    assert EncRows(2, rows) == EncVals(2, rows[0]) + [];
    hide EncRows, EncVals;
    EncValsOff(rows[0]);
  }

  lemma WideParts()
    ensures Shaped(Wide()) && EncStructure(Wide())
         == Some(Off(6) + ([true] + Off(4)) + [true, true] + Off(34) + [false] + Off(4) + [false])
  {
    var s := Wide();
    assert EncLayers(s, 1) == Some(Enc(2, 3));
    SmallEncs();
    EncOff(6);
    WideRowsOff();
    assert s.fdiffs[1..] == [];
    assert EncFdiffs(s.fdiffs) == [false] + [] == [false];
    assert EncChains(s) == Off(4) + [] == Off(4);
  }

  lemma WideReadable()
    ensures ReadableDd(WideDd()) && !InTablesDd(WideDd())
  {
    var s := Wide();
    FourBits();
    assert EncLayers(s, 1).Some?;
    assert RowsBelow(s.dtis, Pow(2, 2)) && AllFdiffsOk(s.fdiffs);
    PowTwo(6);
    PowTwo(16);
    assert Readable(s);
  }

  lemma WideBits()
    ensures ReadableDd(WideDd()) && |AllBits(WideDd())| == 82 && SetAt(AllBits(WideDd()), {24, 35, 40, 41})
  {
    hide Pow, Readable, EncStructure;
    WideReadable();
    WideParts();
    EncOff(6);
    EncOff(16);
    var a, b := AllBits(WideDd()), EncStructure(Wide()).value;
    assert a == [false, false] + Off(6) + Off(16) + ([true, false, false, false, false] + b);
  }

  lemma WideBytes()
    ensures SetAt(BitsOf(WIDE), {24, 35, 40, 41})
  {
    forall i: nat | i < 88 ensures BitsOf(WIDE)[i] <==> i in {24, 35, 40, 41} {
      assert BitsOf(WIDE)[i] == BitAt(WIDE[i / 8], i % 8);
      ByteBits(WIDE[i / 8], i % 8);
    }
  }

  lemma ByteBits(b: bv8, k: nat)
    requires k < 8 && b in {0, 0x80, 0x10, 0xc0, 0x08}
    ensures BitAt(b, k) <==>
              (b == 0x80 && k == 0) || (b == 0x10 && k == 3) || (b == 0xc0 && k <= 1) || (b == 0x08 && k == 4)
  {
  }

  /** The reader accepts these eleven bytes, and the structure in them has 17 decode targets. */
  lemma AcceptedOutsideTables()
    ensures var r := Decode(BitsOf(WIDE), |WIDE|); r.Got? && r.value == WideDd() && !InTablesDd(r.value)
    ensures !Stays(BitsOf(WIDE), |WIDE|)
  {
    hide Decode, AllBits, ReadableDd;
    WideReadable();
    WideBits();
    WideBytes();
    var a, b := AllBits(WideDd()), BitsOf(WIDE);
    assert b == a + b[82..];
    BitsBack(WideDd(), b[82..], |WIDE|);
    hide Stays;
    DecodeStaysIfHeld(b, |WIDE|);
  }

  // ---------------------------------------------------------------- refused bytes

  /** As far as the indications these are the bytes above; then the bits end inside a frame difference. */
  const CUT: seq<bv8> := [0, 0, 0, 0x80, 0x10, 0xc0, 0, 0, 0, 0x08]

  function CutTail(): bits {
    [true] + Off(3)
  }

  function CutStructure(): bits {
    Enc(6, 0) + (Enc(5, 16) + (Enc(2, 3) + (EncRows(2, Wide().dtis) + CutTail())))
  }

  function CutExt(): bits {
    [true] + ([false] + ([false] + ([false] + ([false] + CutStructure()))))
  }

  lemma {:induction false} CutRefused()
    ensures DecStructure(CutStructure()) == Bad(EBADMSG) && !StructureStays(CutStructure())
  {
    hide Get, Enc, EncRows, DecRows, DecLayers, DecChains, DecResolutions, DecFdiffs, Pow;
    FourBits();
    var t := CutTail();
    var r4 := EncRows(2, Wide().dtis) + t;
    var r3 := Enc(2, 3) + r4;
    GetEnc(6, 0, Enc(5, 16) + r3);
    GetEnc(5, 16, r3);
    WideLayers(r4);
    WideRows(t);
    CutRow();
  }

  lemma {:induction false} WideLayers(rest: bits)
    ensures DecLayers(Enc(2, 3) + rest, [], [], 0, 0) == Got(([0], [0]), rest)
  {
    var s := Wide();
    assert EncLayers(s, 1) == Some(Enc(2, 3));
    assert s.spatial[..0] == [] && s.temporal[..0] == [];
    hide DecLayers, EncLayers, Enc;
    LayersBack(s, 1, rest);
  }

  lemma {:induction false} WideRows(rest: bits)
    ensures var b := EncRows(2, Wide().dtis);
            |b| == 34 && DecRows(b + rest, 2, 17, 1) == Got(Wide().dtis, rest)
  {
    var s := Wide();
    FourBits();
    WideRowsOff();
    assert RowsBelow(s.dtis, Pow(2, 2)) && RowsOf(s.dtis, 17);
    hide EncRows, DecRows, Pow;
    RowsBack(2, s.dtis, 17, rest);
  }

  lemma {:induction false} CutRow()
    ensures DecFdiffs(CutTail(), 1) == Bad(EBADMSG)
  {
    hide Get;
    OneBit(true, Off(3));
  }

  lemma {:induction false} CutExtRefused()
    ensures DecExt(CutExt()).Bad? && !ExtStays(CutExt())
  {
    hide Get, DecStructure, StructureStays, CutStructure, Pow;
    CutRefused();
    var b5 := CutStructure();
    var b4 := [false] + b5;
    var b3 := [false] + b4;
    var b2 := [false] + b3;
    var b1 := [false] + b2;
    OneBit(true, b1);
    OneBit(false, b2);
    OneBit(false, b3);
    OneBit(false, b4);
    OneBit(false, b5);
  }

  lemma {:induction false} CutStructureBits()
    ensures |CutStructure()| == 51 && SetAt(CutStructure(), {6, 11, 12, 47})
  {
    hide Enc, EncRows, EncNs, Wide;
    SmallEncs();
    EncOff(6);
    WideRowsOff();
  }

  lemma {:induction false} CutExtBits()
    ensures |CutExt()| == 56 && SetAt(CutExt(), {0, 11, 16, 17, 52})
  {
    hide CutStructure;
    CutStructureBits();
  }

  lemma SameBits(a: bits, b: bits, at: set<nat>)
    requires |a| == |b| && SetAt(a, at) && SetAt(b, at)
    ensures a == b
  {
  }

  lemma {:induction false} CutBits()
    ensures BitsOf(CUT) == [false] + ([false] + (Enc(6, 0) + (Enc(16, 0) + CutExt())))
  {
    hide Enc, CutExt, BitsOf;
    EncOff(6);
    EncOff(16);
    CutExtBits();
    CutBytes();
    var b := [false] + ([false] + (Enc(6, 0) + (Enc(16, 0) + CutExt())));
    SameBits(BitsOf(CUT), b, {24, 35, 40, 41, 76});
  }

  lemma CutBytes()
    ensures |BitsOf(CUT)| == 80 && SetAt(BitsOf(CUT), {24, 35, 40, 41, 76})
  {
    forall i: nat | i < 80 ensures BitsOf(CUT)[i] <==> i in {24, 35, 40, 41, 76} {
      assert BitsOf(CUT)[i] == BitAt(CUT[i / 8], i % 8);
      ByteBits(CUT[i / 8], i % 8);
    }
  }

  /** The reader refuses these ten bytes, after it has stored a 17th indication outside its row. */
  lemma {:induction false} RefusedOutsideTables()
    ensures Decode(BitsOf(CUT), |CUT|).Bad? && !Stays(BitsOf(CUT), |CUT|)
  {
    hide Get, Enc, DecExt, ExtStays, CutExt, BitsOf, Pow;
    CutBits();
    CutExtRefused();
    var x := CutExt();
    var b2 := Enc(16, 0) + x;
    var b1 := Enc(6, 0) + b2;
    assert Pow(2, 6) > 0 && Pow(2, 16) > 0 by { PowTwo(6); PowTwo(16); }
    OneBit(false, [false] + b1);
    OneBit(false, b1);
    GetEnc(6, 0, b2);
    GetEnc(16, 0, x);
  }
}
