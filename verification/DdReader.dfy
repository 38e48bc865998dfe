/** The descriptor reader, section by section from a bit buffer. `inside` says that every value was
    stored within its table of the descriptor, also when the reader gives up later. */
module DdReader {
  import opened Bytes
  import opened Bits
  import opened BitIo
  import opened DdCodec
  import DdRoundTrip
  import DdAccepted
  import opened DdStays

  /** A reading method's outcome is that of the specification. */
  ghost predicate Is<T>(spec: Read<T>, err: Errno, v: T, left: bits) {
    match spec
    case Bad(e) => err == e != OK
    case Got(x, rest) => err == OK && v == x && left == rest
  }

  /** After the items `part`, the outcome of `whole` is that of reading on with `more`. */
  ghost predicate Resumes<T>(whole: Read<seq<T>>, part: seq<T>, more: Read<seq<T>>) {
    match more
    case Bad(e) => whole == Bad(e)
    case Got(vs, rest) => whole == Got(part + vs, rest)
  }

  lemma ResumesStart<T>(whole: Read<seq<T>>)
    ensures Resumes(whole, [], whole)
  {
    if whole.Got? { assert [] + whole.value == whole.value; }
  }

  lemma ResumesStep<T>(whole: Read<seq<T>>, part: seq<T>, v: T, more: Read<seq<T>>)
    requires Resumes(whole, part, if more.Bad? then more else Got([v] + more.value, more.rest))
    ensures Resumes(whole, part + [v], more)
  {
    if more.Got? { ConcatAssoc(part, [v], more.value); }
  }

  method TemplateLayers(gb: GetBit) returns (err: Errno, sp: seq<nat>, tp: seq<nat>)
    requires gb.Valid()
    modifies gb
    ensures gb.Valid() && Is(DecLayers(old(gb.Left()), [], [], 0, 0), err, (sp, tp), gb.Left())
    ensures err == OK ==> sp != [] && |sp| == |tp|
  {
    hide Get, BitsOf, GetBit.Left;
    ghost var whole := DecLayers(gb.Left(), [], [], 0, 0);
    sp, tp := [], [];
    var spatialId, temporalId := 0, 0;
    while true
      invariant gb.Valid() && |sp| == |tp| && whole == DecLayers(gb.Left(), sp, tp, spatialId, temporalId)
      decreases gb.GetLeft()
    {
      if |sp| >= MAX_TEMPLATES {
        err := EOVERFLOW;
        return;
      }
      if gb.GetLeft() < 2 {
        err := EBADMSG;
        return;
      }
      sp, tp := sp + [spatialId], tp + [temporalId];
      var idc := gb.Read(2);
      if idc == 1 {
        temporalId := temporalId + 1;
      } else if idc == 2 {
        temporalId, spatialId := 0, spatialId + 1;
      } else if idc == 3 {
        break;
      }
    }
    err := OK;
  }

  /** The indications of one template. */
  method GetDtis(gb: GetBit, n: nat) returns (err: Errno, vs: seq<nat>, inside: bool)
    requires gb.Valid()
    modifies gb
    ensures gb.Valid() && Is(DecVals(old(gb.Left()), 2, n), err, vs, gb.Left())
    ensures inside == DtisStay(old(gb.Left()), n, 1)
    ensures err == OK ==> |old(gb.Left())| >= 2 * n
  {
    hide Get, BitsOf, GetBit.Left;
    ghost var whole, size := DecVals(gb.Left(), 2, n), |gb.Left()|;
    vs, inside := [], true;
    ResumesStart(whole);
    for i := 0 to n
      invariant gb.Valid() && Resumes(whole, vs, DecVals(gb.Left(), 2, n - i))
      invariant |gb.Left()| == size - 2 * i && inside == (i <= MAX_DECODE_TARGETS)
    {
      if gb.GetLeft() < 2 {
        err := EBADMSG;
        return;
      }
      var v := gb.Read(2);
      ResumesStep(whole, vs, v, DecVals(gb.Left(), 2, n - i - 1));
      inside := inside && i < MAX_DECODE_TARGETS;
      vs := vs + [v];
    }
    assert vs + [] == vs;
    err := OK;
  }

  method TemplateDtis(gb: GetBit, cols: nat, n: nat) returns (err: Errno, rows: seq<seq<nat>>, inside: bool)
    requires gb.Valid()
    modifies gb
    ensures gb.Valid() && Is(DecRows(old(gb.Left()), 2, cols, n), err, rows, gb.Left())
    ensures inside == DtisStay(old(gb.Left()), cols, n)
  {
    hide DecVals, BitsOf, GetBit.Left;
    ghost var whole, b := DecRows(gb.Left(), 2, cols, n), gb.Left();
    rows, inside := [], true;
    ResumesStart(whole);
    for i := 0 to n
      invariant gb.Valid() && Resumes(whole, rows, DecRows(gb.Left(), 2, cols, n - i))
      invariant if i == 0 then inside && gb.Left() == b else inside == DtisStay(b, cols, 1) && |b| >= 2 * cols
    {
      var row, rowInside;
      err, row, rowInside := GetDtis(gb, cols);
      inside := inside && rowInside;
      if err != OK {
        return;
      }
      ResumesStep(whole, rows, row, DecRows(gb.Left(), 2, cols, n - i - 1));
      rows := rows + [row];
    }
    assert rows + [] == rows;
    err := OK;
  }

  method GetFdiffRow(gb: GetBit, first: bool) returns (err: Errno, fs: seq<nat>, inside: bool)
    requires gb.Valid()
    modifies gb
    ensures gb.Valid() && Is(DecFdiffRow(old(gb.Left()), first), err, fs, gb.Left())
    ensures inside == (FdiffsStored(old(gb.Left()), first) <= MAX_FDIFFS)
  {
    hide Get, BitsOf, GetBit.Left;
    ghost var whole, stored := DecFdiffRow(gb.Left(), first), FdiffsStored(gb.Left(), first);
    fs, inside := [], true;
    var more := first;
    ResumesStart(whole);
    while more
      invariant gb.Valid() && Resumes(whole, fs, DecFdiffRow(gb.Left(), more))
      invariant |fs| + FdiffsStored(gb.Left(), more) == stored && inside == (|fs| <= MAX_FDIFFS)
      decreases gb.GetLeft()
    {
      if gb.GetLeft() < 5 {
        err := EBADMSG;
        return;
      }
      var f := gb.Read(4);
      var m := gb.Read(1);
      more := m == 1;
      ResumesStep(whole, fs, f + 1, DecFdiffRow(gb.Left(), more));
      inside := inside && |fs| < MAX_FDIFFS;
      fs := fs + [f + 1];
    }
    assert fs + [] == fs;
    err := OK;
  }

  method TemplateFdiffs(gb: GetBit, n: nat) returns (err: Errno, rows: seq<seq<nat>>, inside: bool)
    requires gb.Valid()
    modifies gb
    ensures gb.Valid() && Is(DecFdiffs(old(gb.Left()), n), err, rows, gb.Left())
    ensures inside == FdiffsStay(old(gb.Left()), n)
  {
    hide DecFdiffRow, Get, FdiffsStored, BitsOf, GetBit.Left;
    ghost var whole, stays := DecFdiffs(gb.Left(), n), FdiffsStay(gb.Left(), n);
    rows, inside := [], true;
    ResumesStart(whole);
    for i := 0 to n
      invariant gb.Valid() && Resumes(whole, rows, DecFdiffs(gb.Left(), n - i))
      invariant stays == (inside && FdiffsStay(gb.Left(), n - i))
    {
      if gb.GetLeft() < 1 {
        err := EBADMSG;
        return;
      }
      var m := gb.Read(1);
      var row, rowInside;
      err, row, rowInside := GetFdiffRow(gb, m == 1);
      inside := inside && rowInside;
      if err != OK {
        return;
      }
      ResumesStep(whole, rows, row, DecFdiffs(gb.Left(), n - i - 1));
      rows := rows + [row];
    }
    assert rows + [] == rows;
    err := OK;
  }

  method GetNsVals(gb: GetBit, n: nat, k: nat) returns (vs: seq<nat>, inside: bool)
    requires gb.Valid() && n >= 1
    modifies gb
    ensures gb.Valid() && (vs, gb.Left()) == DecNsVals(old(gb.Left()), n, k)
    ensures inside == (k <= MAX_DECODE_TARGETS)
  {
    hide GetNs, BitsOf, GetBit.Left;
    ghost var whole := DecNsVals(gb.Left(), n, k);
    vs, inside := [], true;
    assert [] + whole.0 == whole.0;
    for i := 0 to k
      invariant gb.Valid() && inside == (i <= MAX_DECODE_TARGETS)
      invariant var (xs, rest) := DecNsVals(gb.Left(), n, k - i); whole == (vs + xs, rest)
    {
      var v := gb.ReadNs(n);
      ConcatAssoc(vs, [v], DecNsVals(gb.Left(), n, k - i - 1).0);
      inside := inside && i < MAX_DECODE_TARGETS;
      vs := vs + [v];
    }
    assert vs + [] == vs;
  }

  /** Reads that stop at the end of the buffer leave the zeros the descriptor was cleared to, which is
      what reading on past the end gives. */
  method GetRaw(gb: GetBit, w: nat, n: nat) returns (vs: seq<nat>, inside: bool)
    requires gb.Valid()
    modifies gb
    ensures gb.Valid() && (vs, gb.Left()) == DecRaw(old(gb.Left()), w, n)
    ensures n <= MAX_CHAINS ==> inside
  {
    hide Get, BitsOf, GetBit.Left;
    ghost var whole := DecRaw(gb.Left(), w, n);
    vs, inside := [], true;
    assert [] + whole.0 == whole.0;
    for i := 0 to n
      invariant gb.Valid() && (n <= MAX_CHAINS ==> inside)
      invariant var (xs, rest) := DecRaw(gb.Left(), w, n - i); whole == (vs + xs, rest)
    {
      inside := inside && (gb.GetLeft() < w || i < MAX_CHAINS);
      var v := gb.Read(w);
      ConcatAssoc(vs, [v], DecRaw(gb.Left(), w, n - i - 1).0);
      vs := vs + [v];
    }
    assert vs + [] == vs;
  }

  method TemplateChains(gb: GetBit, dtCnt: nat, templates: nat)
    returns (cnt: nat, prot: seq<nat>, rows: seq<seq<nat>>, inside: bool)
    requires gb.Valid()
    modifies gb
    ensures gb.Valid() && Chains(cnt, prot, rows, gb.Left()) == DecChains(old(gb.Left()), dtCnt, templates)
    ensures dtCnt <= MAX_CHAINS ==> inside == ChainsStay(old(gb.Left()), dtCnt)
  {
    hide GetNs, DecNsVals, DecRaw, BitsOf, GetBit.Left;
    prot, rows, inside := [], [], true;
    DdAccepted.GetNsBelow(gb.Left(), dtCnt + 1);
    cnt := gb.ReadNs(dtCnt + 1);
    if cnt == 0 {
      return;
    }
    prot, inside := GetNsVals(gb, cnt, dtCnt);
    ghost var whole := DecRawRows(gb.Left(), 4, cnt, templates);
    assert [] + whole.0 == whole.0;
    for i := 0 to templates
      invariant gb.Valid() && (dtCnt <= MAX_CHAINS ==> inside == (dtCnt <= MAX_DECODE_TARGETS))
      invariant var (xs, rest) := DecRawRows(gb.Left(), 4, cnt, templates - i); whole == (rows + xs, rest)
    {
      var row, rowInside := GetRaw(gb, 4, cnt);
      inside := inside && rowInside;
      ConcatAssoc(rows, [row], DecRawRows(gb.Left(), 4, cnt, templates - i - 1).0);
      rows := rows + [row];
    }
    assert rows + [] == rows;
  }

  method RenderResolutions(gb: GetBit, n: nat) returns (err: Errno, rs: seq<(nat, nat)>, inside: bool)
    requires gb.Valid()
    modifies gb
    ensures gb.Valid() && Is(DecSizes(old(gb.Left()), n), err, rs, gb.Left())
    ensures inside == SizesStay(old(gb.Left()), n)
  {
    hide Get, BitsOf, GetBit.Left;
    ghost var whole, size := DecSizes(gb.Left(), n), |gb.Left()|;
    rs, inside := [], true;
    ResumesStart(whole);
    for i := 0 to n
      invariant gb.Valid() && Resumes(whole, rs, DecSizes(gb.Left(), n - i))
      invariant |gb.Left()| == size - 32 * i && inside == (i <= MAX_SPATIAL_IDS)
    {
      if gb.GetLeft() < 32 {
        err := EBADMSG;
        return;
      }
      var w := gb.Read(16);
      var h := gb.Read(16);
      ResumesStep(whole, rs, (w, h), DecSizes(gb.Left(), n - i - 1));
      inside := inside && i < MAX_SPATIAL_IDS;
      rs := rs + [(w, h)];
    }
    assert rs + [] == rs;
    err := OK;
  }

  /** The sections after the indications. */
  method OtherSections(gb: GetBit, dtCnt: nat, sp: seq<nat>) returns (
      err: Errno, fdiffs: seq<seq<nat>>, c: Chains, rs: Option<seq<(nat, nat)>>, inside: bool)
    requires gb.Valid() && dtCnt <= MAX_CHAINS && sp != []
    modifies gb
    ensures gb.Valid() && inside == RestStays(old(gb.Left()), dtCnt, sp)
    ensures match DecFdiffs(old(gb.Left()), |sp|)
            case Bad(e) => err == e != OK
            case Got(f, r) =>
              var d := DecChains(r, dtCnt, |sp|);
              && Is(DecResolutions(d.rest, sp[|sp| - 1] + 1), err, rs, gb.Left())
              && (err == OK ==> fdiffs == f && c == d.(rest := []))
  {
    hide Get, GetNs, DecFdiffs, DecChains, DecSizes, FdiffsStay, ChainsStay, SizesStay, BitsOf, GetBit.Left;
    c, rs := Chains(0, [], [], []), None;
    err, fdiffs, inside := TemplateFdiffs(gb, |sp|);
    if err != OK {
      return;
    }
    var cnt, prot, rows, chainsInside := TemplateChains(gb, dtCnt, |sp|);
    c := Chains(cnt, prot, rows, []);
    inside := inside && chainsInside;
    if gb.GetLeft() < 1 {
      err := EBADMSG;
      return;
    }
    var present := gb.Read(1);
    if present != 0 {
      var sizes, sizesInside;
      err, sizes, sizesInside := RenderResolutions(gb, sp[|sp| - 1] + 1);
      rs := Some(sizes);
      inside := inside && sizesInside;
    }
  }

  /** The reader stays within its tables exactly on these bits. */
  method DependencyStructure(gb: GetBit) returns (err: Errno, s: Structure, inside: bool)
    requires gb.Valid()
    modifies gb
    ensures gb.Valid() && Is(DecStructure(old(gb.Left())), err, s, gb.Left())
    ensures inside == StructureStays(old(gb.Left()))
  {
    hide Get, DecLayers, DecRows, DecFdiffs, DecChains, DecResolutions, DtisStay, RestStays, BitsOf, GetBit.Left;
    s, inside := Structure(0, 0, [], [], [], [], 0, [], [], None), true;
    if gb.GetLeft() < 11 {
      err := EBADMSG;
      return;
    }
    var off := gb.Read(6);
    TargetsBelow(gb.Left());
    var dt1 := gb.Read(5);
    var sp, tp, dtis, fdiffs;
    err, sp, tp := TemplateLayers(gb);
    if err != OK {
      return;
    }
    err, dtis, inside := TemplateDtis(gb, dt1 + 1, |sp|);
    if err != OK {
      return;
    }
    var c, rs, restInside;
    err, fdiffs, c, rs, restInside := OtherSections(gb, dt1 + 1, sp);
    inside := inside && restInside;
    s := Structure(off, dt1 + 1, sp, tp, dtis, fdiffs, c.cnt, c.protectedBy, c.fdiffs, rs);
  }

  lemma TargetsBelow(b: bits)
    ensures Get(b, 5).0 < MAX_CHAINS
  {
    DdAccepted.GetBelow(b, 5);
    DdRoundTrip.FourBits();
  }

  method ExtendedFields(gb: GetBit) returns (err: Errno, e: Ext, inside: bool)
    requires gb.Valid()
    modifies gb
    ensures gb.Valid() && Is(DecExt(old(gb.Left())), err, e, gb.Left())
    ensures inside == ExtStays(old(gb.Left()))
  {
    hide Get, DecStructure, StructureStays, Pow, BitsOf, GetBit.Left;
    e, inside := Ext(None, false, false, false, false, 0), true;
    if gb.GetLeft() < 5 {
      err := EBADMSG;
      return;
    }
    var f0 := gb.Read(1);
    var f1 := gb.Read(1);
    var f2 := gb.Read(1);
    var f3 := gb.Read(1);
    var f4 := gb.Read(1);
    err := OK;
    var mask, st, dtCnt := 0, None, 0;
    if f0 != 0 {
      var s;
      err, s, inside := DependencyStructure(gb);
      if err != OK {
        return;
      }
      PowTwo(s.dtCnt);
      mask, st, dtCnt := Pow(2, s.dtCnt) - 1, Some(s), s.dtCnt;
    }
    if f1 == 1 {
      mask := gb.Read(dtCnt);
    }
    e := Ext(st, f1 == 1, f2 == 1, f3 == 1, f4 == 1, mask);
  }

  method Decode(buf: seq<bv8>) returns (err: Errno, d: Dd, inside: bool)
    ensures var r := DdCodec.Decode(BitsOf(buf), |buf|);
            if r.Bad? then err == r.err != OK else err == OK && d == r.value
    ensures inside == Stays(BitsOf(buf), |buf|)
    ensures err == OK ==> (inside <==> InTablesDd(d))
  {
    hide Get, DecExt, ExtStays, InTablesDd, BitsOf, GetBit.Left;
    DecodeStaysIfHeld(BitsOf(buf), |buf|);
    var gb := new GetBit(buf);
    d, inside := Dd(false, false, 0, 0, None), true;
    if gb.GetLeft() < 24 {
      err := EBADMSG;
      return;
    }
    var f0 := gb.Read(1);
    var f1 := gb.Read(1);
    var id := gb.Read(6);
    var fn := gb.Read(16);
    err := OK;
    var ext := None;
    if |buf| > 3 {
      var x;
      err, x, inside := ExtendedFields(gb);
      ext := Some(x);
    }
    d := Dd(f0 == 1, f1 == 1, id, fn, ext);
  }

  /** Bytes that hold the bits of a well-formed descriptor and less than a byte of padding, which is
      what the writer leaves, are read back as that descriptor. */
  lemma BytesReadBack(d: Dd, out: seq<bv8>)
    requires DdRoundTrip.WellFormedDd(d)
    requires DdRoundTrip.AllBits(d) <= BitsOf(out) && |BitsOf(out)| < |DdRoundTrip.AllBits(d)| + 8
    ensures ShapedDd(d) && DdCodec.Encode(d) == Some(DdRoundTrip.AllBits(d))
    ensures var r := DdCodec.Decode(BitsOf(out), |out|); r.Got? && r.value == d
  {
    hide DdCodec.Encode, DdCodec.Decode, DdRoundTrip.ReadableDd, DdRoundTrip.AllBits;
    var b := DdRoundTrip.AllBits(d);
    var pad := BitsOf(out)[|b|..];
    assert b + pad == BitsOf(out);
    DdRoundTrip.RoundTrip(d, pad, |out|);
  }
}
