/** What the descriptor reader accepts, from any bits at all. */
module DdAccepted {
  import opened Bytes
  import opened Bits
  import Bitwise
  import opened DdCodec
  import opened DdRoundTrip

  lemma {:induction false} ValueBelow(b: bits)
    ensures Value(b) < Pow(2, |b|)
  {
    if b != [] { ValueBelow(b[..|b| - 1]); }
  }

  lemma GetBelow(b: bits, w: nat)
    ensures Get(b, w).0 < Pow(2, w)
  {
    if |b| < w { PowTwo(w); } else { ValueBelow(b[..w]); }
  }

  /** ns(n) never reads n or more, whatever the bits. */
  lemma GetNsBelow(b: bits, n: nat)
    requires n >= 1
    ensures GetNs(b, n).0 < n
  {
    hide Get, Pow, BitLen, Short;
    ShortIs(n);
    var w := BitLen(n);
    var g := Get(b, w - 1);
    GetBelow(b, w - 1);
    GetBelow(g.1, 1);
    PowStep(1);
    Bitwise.PowZero();
  }

  lemma {:induction false} ValsAccepted(b: bits, w: nat, n: nat)
    ensures var r := DecVals(b, w, n); r.Got? ==> |r.value| == n && AllBelow(r.value, Pow(2, w))
    ensures var r := DecRaw(b, w, n); |r.0| == n && AllBelow(r.0, Pow(2, w))
    decreases n
  {
    GetBelow(b, w);
    if n > 0 { ValsAccepted(Get(b, w).1, w, n - 1); }
    hide Get, Pow;
  }

  lemma {:induction false} RowsAccepted(b: bits, w: nat, cols: nat, n: nat)
    ensures var r := DecRows(b, w, cols, n);
            r.Got? ==> |r.value| == n && RowsOf(r.value, cols) && RowsBelow(r.value, Pow(2, w))
    decreases n
  {
    hide DecVals, Pow;
    ValsAccepted(b, w, cols);
    if n > 0 && DecVals(b, w, cols).Got? { RowsAccepted(DecVals(b, w, cols).rest, w, cols, n - 1); }
  }

  lemma {:induction false} RawRowsAccepted(b: bits, w: nat, cols: nat, n: nat)
    ensures var r := DecRawRows(b, w, cols, n);
            |r.0| == n && RowsOf(r.0, cols) && RowsBelow(r.0, Pow(2, w))
    decreases n
  {
    hide DecRaw, Pow;
    ValsAccepted(b, w, cols);
    if n > 0 { RawRowsAccepted(DecRaw(b, w, cols).1, w, cols, n - 1); }
  }

  lemma {:induction false} FdiffRowAccepted(b: bits, more: bool)
    ensures var r := DecFdiffRow(b, more); r.Got? ==> FdiffsOk(r.value)
    decreases |b|
  {
    GetBelow(b, 4);
    assert Pow(2, 4) == 16;
    if more && |b| >= 5 {
      var r1 := Get(b, 4).1;
      FdiffRowAccepted(Get(r1, 1).1, Get(r1, 1).0 == 1);
    }
    hide Get, Pow;
  }

  lemma {:induction false} FdiffsAccepted(b: bits, n: nat)
    ensures var r := DecFdiffs(b, n); r.Got? ==> |r.value| == n && AllFdiffsOk(r.value)
    decreases n
  {
    hide DecFdiffRow, FdiffsOk;
    if n > 0 && |b| >= 1 {
      var (m, r1) := Get(b, 1);
      FdiffRowAccepted(r1, m == 1);
      if DecFdiffRow(r1, m == 1).Got? { FdiffsAccepted(DecFdiffRow(r1, m == 1).rest, n - 1); }
    }
  }

  lemma {:induction false} NsValsAccepted(b: bits, n: nat, k: nat)
    requires n >= 1
    ensures var r := DecNsVals(b, n, k); |r.0| == k && AllBelow(r.0, n)
    decreases k
  {
    hide GetNs;
    GetNsBelow(b, n);
    if k > 0 { NsValsAccepted(GetNs(b, n).1, n, k - 1); }
  }

  lemma {:induction false} SizesAccepted(b: bits, n: nat)
    ensures var r := DecSizes(b, n); r.Got? ==> |r.value| == n && SizesOk(r.value)
    decreases n
  {
    if n > 0 && |b| >= 32 {
      var r1 := Get(b, 16).1;
      GetBelow(b, 16);
      GetBelow(r1, 16);
      SizesAccepted(Get(r1, 16).1, n - 1);
    }
    hide Get, Pow;
  }

  predicate Follows(sp: seq<nat>, tp: seq<nat>, i: nat)
    requires 1 <= i < |sp| == |tp|
  {
    || (sp[i] == sp[i - 1] && tp[i] == tp[i - 1])
    || (sp[i] == sp[i - 1] && tp[i] == tp[i - 1] + 1)
    || (sp[i] == sp[i - 1] + 1 && tp[i] == 0)
  }

  /** Layers that extend (sp, tp), continue at (s, t) and step legally from there. */
  predicate Chain(all: (seq<nat>, seq<nat>), sp: seq<nat>, tp: seq<nat>, s: nat, t: nat) {
    && |sp| == |tp| < |all.0| == |all.1| <= MAX_TEMPLATES
    && sp + [s] <= all.0 && tp + [t] <= all.1
    && forall i :: |sp| < i < |all.0| ==> Follows(all.0, all.1, i)
  }

  lemma {:induction false} LayersAccepted(b: bits, sp: seq<nat>, tp: seq<nat>, s: nat, t: nat)
    requires |sp| == |tp|
    ensures var r := DecLayers(b, sp, tp, s, t); r.Got? ==> Chain(r.value, sp, tp, s, t)
    decreases |b|
  {
    if |sp| < MAX_TEMPLATES && |b| >= 2 {
      var (idc, rest) := Get(b, 2);
      var sp', tp' := sp + [s], tp + [t];
      if idc != 3 {
        var s', t' := if idc == 2 then s + 1 else s, if idc == 1 then t + 1 else if idc == 2 then 0 else t;
        LayersAccepted(rest, sp', tp', s', t');
        var r := DecLayers(b, sp, tp, s, t);
        if r.Got? {
          assert r == DecLayers(rest, sp', tp', s', t');
          ChainStep(r.value, sp, tp, s, t, s', t');
        }
      }
    }
  }

  lemma ChainStep(all: (seq<nat>, seq<nat>), sp: seq<nat>, tp: seq<nat>, s: nat, t: nat, s': nat, t': nat)
    requires Chain(all, sp + [s], tp + [t], s', t') && |sp| == |tp|
    requires (s' == s && (t' == t || t' == t + 1)) || (s' == s + 1 && t' == 0)
    ensures Chain(all, sp, tp, s, t)
  {
    var (a, c) := all;
    assert a[|sp|] == s && c[|sp|] == t && a[|sp| + 1] == s' && c[|sp| + 1] == t';
    forall i | |sp| < i < |a| ensures Follows(a, c, i) {
      if i > |sp| + 1 { assert Follows(a, c, i); }
    }
  }

  lemma {:induction false} StepsEncode(s: Structure, i: nat)
    requires 1 <= i && |s.spatial| == |s.temporal|
    requires forall j :: i <= j < |s.spatial| ==> Follows(s.spatial, s.temporal, j)
    ensures EncLayers(s, i).Some?
    decreases |s.spatial| - i
  {
    if i < |s.spatial| {
      assert Follows(s.spatial, s.temporal, i);
      StepsEncode(s, i + 1);
    }
  }

  lemma ChainsAccepted(b: bits, dtCnt: nat, templates: nat)
    ensures var c := DecChains(b, dtCnt, templates);
            && c.cnt <= dtCnt
            && (if c.cnt == 0 then c.protectedBy == [] && c.fdiffs == []
                else
                  && |c.protectedBy| == dtCnt && AllBelow(c.protectedBy, c.cnt)
                  && |c.fdiffs| == templates && RowsOf(c.fdiffs, c.cnt) && RowsBelow(c.fdiffs, Pow(2, 4)))
  {
    hide GetNs, DecNsVals, DecRawRows, AllBelow, RowsOf, RowsBelow, Pow;
    GetNsBelow(b, dtCnt + 1);
    var (cnt, r1) := GetNs(b, dtCnt + 1);
    if cnt > 0 {
      NsValsAccepted(r1, cnt, dtCnt);
      RawRowsAccepted(DecNsVals(r1, cnt, dtCnt).1, 4, cnt, templates);
    }
  }

  lemma ResolutionsAccepted(b: bits, n: nat)
    ensures var r := DecResolutions(b, n);
            r.Got? && r.value.Some? ==> |r.value.value| == n && SizesOk(r.value.value)
  {
    hide DecSizes, SizesOk;
    if |b| >= 1 { SizesAccepted(Get(b, 1).1, n); }
  }

  /** A dependency structure read from any bits is one its writer accepts and reads back. */
  lemma StructureAccepted(b: bits)
    ensures var r := DecStructure(b); r.Got? ==> Readable(r.value)
  {
    hide Get, DecLayers, DecRows, DecFdiffs, DecChains, DecResolutions, Pow;
    hide AllBelow, RowsOf, RowsBelow, AllFdiffsOk, SizesOk, Readable, Chain;
    var r := DecStructure(b);
    if r.Got? {
      var s := r.value;
      var (off, r1) := Get(b, 6);
      var (dt1, r2) := Get(r1, 5);
      GetBelow(b, 6);
      GetBelow(r1, 5);
      var layers := DecLayers(r2, [], [], 0, 0);
      LayersAccepted(r2, [], [], 0, 0);
      assert layers.value == (s.spatial, s.temporal);
      ChainSome(layers.value);
      var dtis := DecRows(layers.rest, 2, dt1 + 1, |s.spatial|);
      RowsAccepted(layers.rest, 2, dt1 + 1, |s.spatial|);
      var fdiffs := DecFdiffs(dtis.rest, |s.spatial|);
      FdiffsAccepted(dtis.rest, |s.spatial|);
      ChainsAccepted(fdiffs.rest, dt1 + 1, |s.spatial|);
      ResolutionsAccepted(DecChains(fdiffs.rest, dt1 + 1, |s.spatial|).rest, s.spatial[|s.spatial| - 1] + 1);
      assert Chain((s.spatial, s.temporal), [], [], 0, 0);
      Assemble(s);
    }
  }

  lemma ChainSome(all: (seq<nat>, seq<nat>))
    requires Chain(all, [], [], 0, 0)
    ensures all.0 != []
  {
  }

  lemma Assemble(s: Structure)
    requires 1 <= s.dtCnt <= Pow(2, 5) && s.idOffset < Pow(2, 6)
    requires Chain((s.spatial, s.temporal), [], [], 0, 0)
    requires |s.dtis| == |s.fdiffs| == |s.spatial|
    requires RowsOf(s.dtis, s.dtCnt) && RowsBelow(s.dtis, Pow(2, 2)) && AllFdiffsOk(s.fdiffs)
    requires s.chainCnt <= s.dtCnt
    requires if s.chainCnt == 0 then s.protectedBy == [] && s.chainFdiffs == []
             else
               && |s.protectedBy| == s.dtCnt && AllBelow(s.protectedBy, s.chainCnt)
               && |s.chainFdiffs| == |s.spatial| && RowsOf(s.chainFdiffs, s.chainCnt)
               && RowsBelow(s.chainFdiffs, Pow(2, 4))
    requires s.resolutions.Some? ==>
               |s.resolutions.value| == s.spatial[|s.spatial| - 1] + 1 && SizesOk(s.resolutions.value)
    ensures Readable(s)
  {
    hide Pow, EncLayers, AllBelow, RowsBelow, SizesOk;
    StepsEncode(s, 1);
    assert ([] + [0])[0] == 0;
  }

  // ---------------------------------------------------------------- bits that are missing

  function Product(a: nat, b: nat): nat {
    a * b
  }

  lemma NextProduct(n: nat, w: nat)
    requires n > 0
    ensures Product(n, w) == Product(n - 1, w) + w
  {
  }

  /** Values of w bits are read if and only if all their bits are there. */
  lemma {:induction false} ValsExactly(b: bits, w: nat, n: nat)
    ensures DecVals(b, w, n).Got? <==> |b| >= Product(n, w)
    ensures DecVals(b, w, n).Got? ==> |DecVals(b, w, n).rest| == |b| - Product(n, w)
    ensures DecVals(b, w, n).Bad? ==> DecVals(b, w, n).err == EBADMSG
    decreases n
  {
    if n > 0 {
      NextProduct(n, w);
      hide Product;
      if |b| >= w { ValsExactly(Get(b, w).1, w, n - 1); }
    }
  }

  /** So are the rows of a table. */
  lemma {:induction false} RowsExactly(b: bits, w: nat, cols: nat, n: nat)
    ensures DecRows(b, w, cols, n).Got? <==> |b| >= Product(n, Product(cols, w))
    ensures DecRows(b, w, cols, n).Bad? ==> DecRows(b, w, cols, n).err == EBADMSG
    decreases n
  {
    if n > 0 {
      ValsExactly(b, w, cols);
      NextProduct(n, Product(cols, w));
      hide Product, DecVals;
      var row := DecVals(b, w, cols);
      if row.Got? { RowsExactly(row.rest, w, cols, n - 1); }
    }
  }

  /** And picture sizes. */
  lemma {:induction false} SizesExactly(b: bits, n: nat)
    ensures DecSizes(b, n).Got? <==> |b| >= Product(n, 32)
    ensures DecSizes(b, n).Bad? ==> DecSizes(b, n).err == EBADMSG
    decreases n
  {
    if n > 0 {
      NextProduct(n, 32);
      hide Product;
      if |b| >= 32 { SizesExactly(Get(Get(b, 16).1, 16).1, n - 1); }
    }
  }

  /** A descriptor read from any bits, without explicit active targets, is one that its bits can
      express; only the sizes of the tables stand between it and being well formed. */
  lemma Accepted(b: bits, sz: nat)
    ensures var r := Decode(b, sz);
            r.Got? && (r.value.ext.Some? ==> !r.value.ext.value.active) ==> ReadableDd(r.value)
  {
    if |b| >= 24 {
      var r1 := Get(Get(b, 1).1, 1).1;
      GetBelow(r1, 6);
      GetBelow(Get(r1, 6).1, 16);
      var r3 := Get(Get(r1, 6).1, 16).1;
      ExtAccepted(r3);
      hide Get, DecExt, Pow, Readable;
    }
  }

  lemma ExtAccepted(b: bits)
    ensures var r := DecExt(b);
            r.Got? && !r.value.active ==>
              && (r.value.structure.Some? ==> Readable(r.value.structure.value))
              && r.value.bitmask == if r.value.structure.Some? then Pow(2, r.value.structure.value.dtCnt) - 1 else 0
  {
    hide Get, DecStructure, Pow, Readable;
    if |b| >= 5 {
      var r0 := Get(b, 1).1;
      var r1 := Get(r0, 1).1;
      var r2 := Get(r1, 1).1;
      var r3 := Get(r2, 1).1;
      StructureAccepted(Get(r3, 1).1);
    }
  }

  /** Of the descriptors that the tables can hold, exactly the well-formed ones survive being
      written and read. */
  lemma RoundTripExactly(d: Dd, pad: bits, sz: nat)
    requires InTablesDd(d) && ShapedDd(d)
    requires Encode(d).Some? && |Encode(d).value| + |pad| == 8 * sz && |pad| < 8
    ensures Decode(Encode(d).value + pad, sz) == Got(d, pad) <==> WellFormedDd(d)
  {
    hide Decode, Readable, EncStructure, Enc, InTablesDd;
    Accepted(Encode(d).value + pad, sz);
    if WellFormedDd(d) {
      EncodeAllBits(d);
      RoundTrip(d, pad, sz);
    }
  }
}
