/** On which bits the descriptor reader stores every value within its table, whether it accepts them
    or not. */
module DdStays {
  import opened Bytes
  import opened Bits
  import opened DdCodec
  import DdAccepted

  /** Rows of `cols` two-bit values: all are as long, and the first is the one to leave its table. */
  predicate DtisStay(b: bits, cols: nat, n: nat) {
    n == 0 || cols <= MAX_DECODE_TARGETS || |b| < 2 * (MAX_DECODE_TARGETS + 1)
  }

  /** How many frame differences are stored for a template, after its first follow bit `more`. */
  function FdiffsStored(b: bits, more: bool): nat
    decreases |b|
  {
    if !more || |b| < 5 then 0
    else
      var (f, r1) := Get(b, 4);
      var (m, r2) := Get(r1, 1);
      1 + FdiffsStored(r2, m == 1)
  }

  predicate FdiffsStay(b: bits, n: nat)
    decreases n
  {
    n == 0 || |b| < 1 ||
    (var (m, r1) := Get(b, 1);
     && FdiffsStored(r1, m == 1) <= MAX_FDIFFS
     && var row := DecFdiffRow(r1, m == 1);
     row.Got? ==> FdiffsStay(row.rest, n - 1))
  }

  predicate ChainsStay(b: bits, dtCnt: nat) {
    GetNs(b, dtCnt + 1).0 == 0 || dtCnt <= MAX_DECODE_TARGETS
  }

  predicate SizesStay(b: bits, n: nat) {
    n <= MAX_SPATIAL_IDS || |b| < 32 * (MAX_SPATIAL_IDS + 1)
  }

  predicate ResolutionsStay(b: bits, n: nat) {
    |b| >= 1 && Get(b, 1).0 != 0 ==> SizesStay(Get(b, 1).1, n)
  }

  /** The sections after the indications. */
  predicate RestStays(b: bits, dtCnt: nat, sp: seq<nat>) {
    && FdiffsStay(b, |sp|)
    && var fdiffs := DecFdiffs(b, |sp|);
    fdiffs.Got? ==>
      && ChainsStay(fdiffs.rest, dtCnt)
      && ResolutionsStay(DecChains(fdiffs.rest, dtCnt, |sp|).rest, if sp == [] then 1 else sp[|sp| - 1] + 1)
  }

  predicate StructureStays(b: bits) {
    |b| < 11 ||
    (var (dt1, r2) := Get(Get(b, 6).1, 5);
     var layers := DecLayers(r2, [], [], 0, 0);
     layers.Got? ==>
       && DtisStay(layers.rest, dt1 + 1, |layers.value.0|)
       && var dtis := DecRows(layers.rest, 2, dt1 + 1, |layers.value.0|);
       dtis.Got? ==> RestStays(dtis.rest, dt1 + 1, layers.value.0))
  }

  predicate ExtStays(b: bits) {
    |b| >= 5 && Get(b, 1).0 != 0 ==>
      StructureStays(Get(Get(Get(Get(Get(b, 1).1, 1).1, 1).1, 1).1, 1).1)
  }

  predicate Stays(b: bits, sz: nat) {
    |b| >= 24 && sz > 3 ==> ExtStays(Get(Get(Get(Get(b, 1).1, 1).1, 6).1, 16).1)
  }

  // ---------------------------------------------------------------- on bits that are accepted

  lemma {:induction false} ValsLong(b: bits, w: nat, n: nat)
    requires DecVals(b, w, n).Got?
    ensures |b| >= w * n
    decreases n
  {
    hide Get;
    if n > 0 {
      ValsLong(Get(b, w).1, w, n - 1);
      assert w * n == w * (n - 1) + w;
    }
  }

  lemma {:induction false} DtisHold(b: bits, cols: nat, n: nat)
    requires DecRows(b, 2, cols, n).Got?
    ensures DtisStay(b, cols, n) <==> n == 0 || cols <= MAX_DECODE_TARGETS
  {
    hide DecVals;
    if n > 0 { ValsLong(b, 2, cols); }
  }

  lemma {:induction false} FdiffRowHolds(b: bits, more: bool)
    ensures var r := DecFdiffRow(b, more); r.Got? ==> FdiffsStored(b, more) == |r.value|
    decreases |b|
  {
    if more && |b| >= 5 {
      var r1 := Get(b, 4).1;
      FdiffRowHolds(Get(r1, 1).1, Get(r1, 1).0 == 1);
    }
    hide Get;
  }

  lemma {:induction false} FdiffsHold(b: bits, n: nat)
    ensures var r := DecFdiffs(b, n);
            r.Got? ==> (FdiffsStay(b, n) <==> forall i :: 0 <= i < |r.value| ==> |r.value[i]| <= MAX_FDIFFS)
    decreases n
  {
    hide Get, DecFdiffRow, FdiffsStored;
    if n > 0 && |b| >= 1 {
      var (m, r1) := Get(b, 1);
      FdiffRowHolds(r1, m == 1);
      var row := DecFdiffRow(r1, m == 1);
      if row.Got? {
        FdiffsHold(row.rest, n - 1);
        var more := DecFdiffs(row.rest, n - 1);
        if more.Got? { OneRowMore(row.value, more.value); }
      }
    }
  }

  lemma OneRowMore(row: seq<nat>, rows: seq<seq<nat>>)
    ensures (forall i :: 0 <= i < |[row] + rows| ==> |([row] + rows)[i]| <= MAX_FDIFFS) <==>
            |row| <= MAX_FDIFFS && forall i :: 0 <= i < |rows| ==> |rows[i]| <= MAX_FDIFFS
  {
    var all := [row] + rows;
    assert all[0] == row && forall i :: 0 <= i < |rows| ==> rows[i] == all[i + 1];
  }

  lemma {:induction false} SizesLong(b: bits, n: nat)
    ensures var r := DecSizes(b, n); r.Got? ==> |b| >= 32 * n && |r.value| == n
    decreases n
  {
    hide Get;
    if n > 0 && |b| >= 32 { SizesLong(Get(Get(b, 16).1, 16).1, n - 1); }
  }

  lemma {:induction false} ResolutionsHold(b: bits, n: nat)
    ensures var r := DecResolutions(b, n);
            r.Got? ==> (ResolutionsStay(b, n) <==> r.value.Some? ==> |r.value.value| <= MAX_SPATIAL_IDS)
  {
    hide Get, DecSizes;
    if |b| >= 1 { SizesLong(Get(b, 1).1, n); }
  }

  /** On bits that are accepted the reader stays within its tables exactly if they can hold what it
      read. */
  lemma {:induction false} StaysIfHeld(b: bits)
    ensures var r := DecStructure(b); r.Got? ==> (StructureStays(b) <==> InTables(r.value))
  {
    hide Get, GetNs, DecLayers, DecRows, DecFdiffs, DecChains, DecResolutions;
    hide FdiffsStay, ResolutionsStay, DtisStay;
    var r := DecStructure(b);
    if r.Got? {
      var s := r.value;
      var (dt1, r2) := Get(Get(b, 6).1, 5);
      var layers := DecLayers(r2, [], [], 0, 0);
      DdAccepted.LayersAccepted(r2, [], [], 0, 0);
      assert s.spatial != [] by { DdAccepted.ChainSome(layers.value); }
      DtisHold(layers.rest, dt1 + 1, |s.spatial|);
      var dtis := DecRows(layers.rest, 2, dt1 + 1, |s.spatial|);
      FdiffsHold(dtis.rest, |s.spatial|);
      var fdiffs := DecFdiffs(dtis.rest, |s.spatial|);
      ResolutionsHold(DecChains(fdiffs.rest, dt1 + 1, |s.spatial|).rest, s.spatial[|s.spatial| - 1] + 1);
    }
  }

  lemma {:induction false} DecodeStaysIfHeld(b: bits, sz: nat)
    ensures var r := Decode(b, sz); r.Got? ==> (Stays(b, sz) <==> InTablesDd(r.value))
  {
    hide Get, DecStructure, StructureStays, InTables, Pow;
    if |b| >= 24 && sz > 3 {
      var x := Get(Get(Get(Get(b, 1).1, 1).1, 6).1, 16).1;
      if |x| >= 5 { StaysIfHeld(Get(Get(Get(Get(Get(x, 1).1, 1).1, 1).1, 1).1, 1).1); }
    }
  }
}
