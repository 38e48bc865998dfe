/** The descriptor writer: section by section into a bit buffer. */
module DdWriter {
  import opened Bytes
  import opened Bits
  import opened BitIo
  import opened DdCodec

  /** What the byte-sized fields of a descriptor can hold. */
  predicate ByteFields(s: Structure) {
    s.dtCnt <= 255 && s.chainCnt <= 255
  }

  /** `part` is the beginning of `whole`, and `left` the bits still to come. */
  ghost predicate Awaits(whole: Option<bits>, part: bits, left: Option<bits>) {
    if left.None? then whole.None? else whole == Some(part + left.value)
  }

  lemma AwaitsStep(whole: Option<bits>, part: bits, b: bits, left: Option<bits>)
    requires Awaits(whole, part, if left.None? then None else Some(b + left.value))
    ensures Awaits(whole, part + b, left)
  {
    if left.Some? { ConcatAssoc(part, b, left.value); }
  }

  method TemplateLayers(pb: PutBit, s: Structure) returns (err: Errno)
    requires pb.Valid() && |s.spatial| == |s.temporal|
    modifies pb
    ensures pb.Valid()
    ensures var b := EncLayers(s, 1);
            if b.None? then err == EBADMSG else err == OK && pb.Written() == old(pb.Written()) + b.value
  {
    hide Enc;
    ghost var was, part := pb.Written(), [];
    var i := 1;
    assert EncLayers(s, 1).Some? ==> [] + EncLayers(s, 1).value == EncLayers(s, 1).value;
    assert was + [] == was;
    while i < |s.spatial|
      invariant 1 <= i && pb.Valid() && pb.Written() == was + part
      invariant Awaits(EncLayers(s, 1), part, EncLayers(s, i))
    {
      var idc := NextLayer(s, i - 1, i);
      if idc == 3 {
        return EBADMSG;
      }
      var _ := pb.Write(2, idc);
      AwaitsStep(EncLayers(s, 1), part, Enc(2, idc), EncLayers(s, i + 1));
      ConcatAssoc(was, part, Enc(2, idc));
      part := part + Enc(2, idc);
      i := i + 1;
    }
    err := pb.Write(2, 3);
    ConcatAssoc(was, part, Enc(2, 3));
  }

  method PutVals(pb: PutBit, w: nat, vs: seq<nat>)
    requires pb.Valid() && w <= 32
    modifies pb
    ensures pb.Valid() && pb.Written() == old(pb.Written()) + EncVals(w, vs)
  {
    hide Enc;
    ghost var all := pb.Written() + EncVals(w, vs);
    assert vs[0..] == vs;
    for i := 0 to |vs|
      invariant pb.Valid() && pb.Written() + EncVals(w, vs[i..]) == all
    {
      ConcatAssoc(pb.Written(), Enc(w, vs[i]), EncVals(w, vs[i + 1..]));
      assert vs[i..][1..] == vs[i + 1..];
      var _ := pb.Write(w, vs[i]);
    }
    assert pb.Written() + [] == pb.Written();
  }

  method PutRows(pb: PutBit, w: nat, rows: seq<seq<nat>>)
    requires pb.Valid() && w <= 32
    modifies pb
    ensures pb.Valid() && pb.Written() == old(pb.Written()) + EncRows(w, rows)
  {
    hide EncVals;
    ghost var all := pb.Written() + EncRows(w, rows);
    assert rows[0..] == rows;
    for i := 0 to |rows|
      invariant pb.Valid() && pb.Written() + EncRows(w, rows[i..]) == all
    {
      ConcatAssoc(pb.Written(), EncVals(w, rows[i]), EncRows(w, rows[i + 1..]));
      assert rows[i..][1..] == rows[i + 1..];
      PutVals(pb, w, rows[i]);
    }
    assert pb.Written() + [] == pb.Written();
  }

  method PutFdiffRow(pb: PutBit, fs: seq<nat>)
    requires pb.Valid()
    modifies pb
    ensures pb.Valid() && pb.Written() == old(pb.Written()) + EncFdiffRow(fs)
  {
    hide Enc;
    ghost var all := pb.Written() + EncFdiffRow(fs);
    assert fs[0..] == fs;
    for i := 0 to |fs|
      invariant pb.Valid() && pb.Written() + EncFdiffRow(fs[i..]) == all
    {
      ghost var a := pb.Written();
      ConcatAssoc(a, [true] + Enc(4, Minus1(fs[i])), EncFdiffRow(fs[i + 1..]));
      ConcatAssoc(a, [true], Enc(4, Minus1(fs[i])));
      assert fs[i..][1..] == fs[i + 1..];
      pb.One(true);
      var _ := pb.Write(4, Minus1(fs[i]));
    }
    pb.One(false);
  }

  method TemplateFdiffs(pb: PutBit, rows: seq<seq<nat>>)
    requires pb.Valid()
    modifies pb
    ensures pb.Valid() && pb.Written() == old(pb.Written()) + EncFdiffs(rows)
  {
    hide EncFdiffRow;
    ghost var all := pb.Written() + EncFdiffs(rows);
    assert rows[0..] == rows;
    for i := 0 to |rows|
      invariant pb.Valid() && pb.Written() + EncFdiffs(rows[i..]) == all
    {
      ConcatAssoc(pb.Written(), EncFdiffRow(rows[i]), EncFdiffs(rows[i + 1..]));
      assert rows[i..][1..] == rows[i + 1..];
      PutFdiffRow(pb, rows[i]);
    }
    assert pb.Written() + [] == pb.Written();
  }

  method PutNsVals(pb: PutBit, n: nat, vs: seq<nat>)
    requires pb.Valid() && 1 <= n <= 255
    modifies pb
    ensures pb.Valid() && pb.Written() == old(pb.Written()) + EncNsVals(n, vs)
  {
    hide EncNs;
    ghost var all := pb.Written() + EncNsVals(n, vs);
    assert vs[0..] == vs;
    for i := 0 to |vs|
      invariant pb.Valid() && pb.Written() + EncNsVals(n, vs[i..]) == all
    {
      ConcatAssoc(pb.Written(), EncNs(n, vs[i]), EncNsVals(n, vs[i + 1..]));
      assert vs[i..][1..] == vs[i + 1..];
      var _ := pb.WriteNs(n, vs[i]);
    }
    assert pb.Written() + [] == pb.Written();
  }

  method TemplateChains(pb: PutBit, s: Structure)
    requires pb.Valid() && Shaped(s) && ByteFields(s)
    modifies pb
    ensures pb.Valid() && pb.Written() == old(pb.Written()) + EncChains(s)
  {
    hide EncNs, EncNsVals, EncRows;
    ghost var was, head := pb.Written(), EncNs(s.dtCnt + 1, s.chainCnt);
    var _ := pb.WriteNs(s.dtCnt + 1, s.chainCnt);
    if s.chainCnt == 0 {
      assert head + [] == head;
      return;
    }
    PutNsVals(pb, s.chainCnt, s.protectedBy);
    PutRows(pb, 4, s.chainFdiffs);
    ghost var a, b := EncNsVals(s.chainCnt, s.protectedBy), EncRows(4, s.chainFdiffs);
    ConcatAssoc(was + head, a, b);
    ConcatAssoc(was, head, a + b);
  }

  method RenderResolutions(pb: PutBit, rs: seq<(nat, nat)>)
    requires pb.Valid()
    modifies pb
    ensures pb.Valid() && pb.Written() == old(pb.Written()) + EncSizes(rs)
  {
    hide Enc;
    ghost var all := pb.Written() + EncSizes(rs);
    assert rs[0..] == rs;
    for i := 0 to |rs|
      invariant pb.Valid() && pb.Written() + EncSizes(rs[i..]) == all
    {
      ghost var a := pb.Written();
      ConcatAssoc(a, Enc(16, rs[i].0) + Enc(16, rs[i].1), EncSizes(rs[i + 1..]));
      ConcatAssoc(a, Enc(16, rs[i].0), Enc(16, rs[i].1));
      assert rs[i..][1..] == rs[i + 1..];
      var _ := pb.Write(16, rs[i].0);
      var _ := pb.Write(16, rs[i].1);
    }
    assert pb.Written() + [] == pb.Written();
  }

  method Resolutions(pb: PutBit, rs: Option<seq<(nat, nat)>>)
    requires pb.Valid()
    modifies pb
    ensures pb.Valid() && pb.Written() == old(pb.Written()) + EncResolutions(rs)
  {
    hide EncSizes, PutBit.Written, PutBit.Valid;
    ghost var before := pb.Written();
    pb.One(rs.Some?);
    if rs.Some? {
      RenderResolutions(pb, rs.value);
      ConcatAssoc(before, [true], EncSizes(rs.value));
    }
  }

  method DependencyStructure(pb: PutBit, s: Structure) returns (err: Errno)
    requires pb.Valid() && Shaped(s) && ByteFields(s)
    modifies pb
    ensures pb.Valid()
    ensures var b := EncStructure(s);
            if b.None? then err == EBADMSG else err == OK && pb.Written() == old(pb.Written()) + b.value
  {
    hide Enc, EncLayers, EncRows, EncFdiffs, EncChains, EncResolutions, PutBit.Written, PutBit.Valid;
    ghost var was := pb.Written();
    var _ := pb.Write(6, s.idOffset);
    var _ := pb.Write(5, Minus1(s.dtCnt));
    err := TemplateLayers(pb, s);
    if err != OK {
      return;
    }
    PutRows(pb, 2, s.dtis);
    TemplateFdiffs(pb, s.fdiffs);
    TemplateChains(pb, s);
    Resolutions(pb, s.resolutions);
    Joined(was, Enc(6, s.idOffset), Enc(5, Minus1(s.dtCnt)), EncLayers(s, 1).value,
           EncRows(2, s.dtis), EncFdiffs(s.fdiffs), EncChains(s), EncResolutions(s.resolutions));
  }

  lemma Joined(w: bits, a: bits, b: bits, c: bits, d: bits, e: bits, f: bits, g: bits)
    ensures w + a + b + c + d + e + f + g == w + (a + b + c + d + e + f + g)
  {
    ConcatAssoc(w, a, b);
    ConcatAssoc(w, a + b, c);
    ConcatAssoc(w, a + b + c, d);
    ConcatAssoc(w, a + b + c + d, e);
    ConcatAssoc(w, a + b + c + d + e, f);
    ConcatAssoc(w, a + b + c + d + e + f, g);
  }

  method ExtendedFields(pb: PutBit, e: Ext) returns (err: Errno)
    requires pb.Valid() && (e.structure.Some? ==> Shaped(e.structure.value) && ByteFields(e.structure.value))
    modifies pb
    ensures pb.Valid()
    ensures var b := if e.structure.None? then Some([]) else EncStructure(e.structure.value);
            var flags := [e.structure.Some?, e.active, e.customDtis, e.customFdiffs, e.customChains];
            if b.None? then err == EBADMSG
            else if e.active then err == ENOTSUP
            else err == OK && pb.Written() == old(pb.Written()) + flags + b.value
  {
    hide EncStructure, Shaped, PutBit.Written, PutBit.Valid;
    ghost var was := pb.Written();
    pb.One(e.structure.Some?);
    pb.One(e.active);
    pb.One(e.customDtis);
    pb.One(e.customFdiffs);
    pb.One(e.customChains);
    assert pb.Written() == was + [e.structure.Some?, e.active, e.customDtis, e.customFdiffs, e.customChains];
    if e.structure.Some? {
      err := DependencyStructure(pb, e.structure.value);
      if err != OK {
        return;
      }
    } else {
      assert pb.Written() + [] == pb.Written();
    }
    err := if e.active then ENOTSUP else OK;
  }

  /** Writes a descriptor into a fresh buffer: the bytes hold its bits, then less than a byte of padding. */
  method Encode(size: nat, d: Dd) returns (err: Errno, out: seq<bv8>)
    requires size >= 1 && ShapedDd(d)
    requires d.ext.Some? && d.ext.value.structure.Some? ==> ByteFields(d.ext.value.structure.value)
    ensures err ==
              if DdCodec.Encode(d).Some? then OK
              else if d.ext.value.structure.Some? && EncStructure(d.ext.value.structure.value).None? then EBADMSG
              else ENOTSUP
    ensures err == OK ==>
              && DdCodec.Encode(d).value <= BitsOf(out)
              && |BitsOf(out)| < |DdCodec.Encode(d).value| + 8
  {
    var pb := new PutBit(size);
    pb.One(d.start);
    pb.One(d.end);
    assert pb.Written() == [d.start, d.end];
    var _ := pb.Write(6, d.templateId);
    var _ := pb.Write(16, d.frameNumber);
    err := OK;
    hide Enc, EncStructure, Shaped;
    if d.ext.Some? {
      err := ExtendedFields(pb, d.ext.value);
    }
    out := pb.Output();
    pb.OutputBits();
  }
}
