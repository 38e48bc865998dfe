/** The Dependency Descriptor header extension (Appendix A of the AV1 RTP payload specification):
    its bits, and the reader of those bits. */
module DdCodec {
  import opened Bytes
  import opened Bits

  const MAX_TEMPLATES := 8
  const MAX_SPATIAL_IDS := 4
  const MAX_FDIFFS := 16
  const MAX_DECODE_TARGETS := 16
  const MAX_CHAINS := 32

  /** The dependency structure: one template per entry of the sequences. */
  datatype Structure = Structure(
    idOffset: nat, dtCnt: nat,
    spatial: seq<nat>, temporal: seq<nat>,
    dtis: seq<seq<nat>>, fdiffs: seq<seq<nat>>,
    chainCnt: nat, protectedBy: seq<nat>, chainFdiffs: seq<seq<nat>>,
    resolutions: Option<seq<(nat, nat)>>)

  datatype Ext = Ext(structure: Option<Structure>, active: bool,
                     customDtis: bool, customFdiffs: bool, customChains: bool, bitmask: nat)

  datatype Dd = Dd(start: bool, end: bool, templateId: nat, frameNumber: nat, ext: Option<Ext>)

  /** A structure that the tables of `struct dd` can hold. Templates and chains always fit theirs. */
  predicate InTables(s: Structure) {
    && s.dtCnt <= MAX_DECODE_TARGETS
    && (forall i :: 0 <= i < |s.fdiffs| ==> |s.fdiffs[i]| <= MAX_FDIFFS)
    && (s.resolutions.Some? ==> |s.resolutions.value| <= MAX_SPATIAL_IDS)
  }

  predicate InTablesDd(d: Dd) {
    d.ext.Some? && d.ext.value.structure.Some? ==> InTables(d.ext.value.structure.value)
  }

  // ---------------------------------------------------------------- writing

  /** How template `next` follows `prev`: 0 same layer, 1 next temporal, 2 next spatial, 3 not at all. */
  function NextLayer(s: Structure, prev: nat, next: nat): (idc: nat)
    requires prev < |s.spatial| == |s.temporal| && next < |s.spatial|
    ensures idc <= 3
  {
    if s.spatial[next] == s.spatial[prev] && s.temporal[next] == s.temporal[prev] then 0
    else if s.spatial[next] == s.spatial[prev] && s.temporal[next] == s.temporal[prev] + 1 then 1
    else if s.spatial[next] == s.spatial[prev] + 1 && s.temporal[next] == 0 then 2
    else 3
  }

  /** The layer steps from template i on; None when one does not follow its predecessor. */
  function EncLayers(s: Structure, i: nat): Option<bits>
    requires 1 <= i && |s.spatial| == |s.temporal|
    decreases |s.spatial| - i
  {
    if i >= |s.spatial| then Some(Enc(2, 3))
    else if NextLayer(s, i - 1, i) == 3 then None
    else match EncLayers(s, i + 1)
      case None => None
      case Some(b) => Some(Enc(2, NextLayer(s, i - 1, i)) + b)
  }

  function EncVals(w: nat, vs: seq<nat>): bits {
    if vs == [] then [] else Enc(w, vs[0]) + EncVals(w, vs[1..])
  }

  function EncRows(w: nat, rows: seq<seq<nat>>): bits {
    if rows == [] then [] else EncVals(w, rows[0]) + EncRows(w, rows[1..])
  }

  /** One less, in a byte. */
  function Minus1(v: nat): nat {
    if v == 0 then 255 else v - 1
  }

  /** Frame differences of one template, each announced by a set bit; a clear bit ends them. */
  function EncFdiffRow(fs: seq<nat>): bits {
    if fs == [] then [false] else [true] + Enc(4, Minus1(fs[0])) + EncFdiffRow(fs[1..])
  }

  function EncFdiffs(rows: seq<seq<nat>>): bits {
    if rows == [] then [] else EncFdiffRow(rows[0]) + EncFdiffs(rows[1..])
  }

  function EncNsVals(n: nat, vs: seq<nat>): bits
    requires n >= 1
  {
    if vs == [] then [] else EncNs(n, vs[0]) + EncNsVals(n, vs[1..])
  }

  function EncChains(s: Structure): bits {
    EncNs(s.dtCnt + 1, s.chainCnt)
    + if s.chainCnt == 0 then [] else EncNsVals(s.chainCnt, s.protectedBy) + EncRows(4, s.chainFdiffs)
  }

  function EncSizes(rs: seq<(nat, nat)>): bits {
    if rs == [] then [] else Enc(16, rs[0].0) + Enc(16, rs[0].1) + EncSizes(rs[1..])
  }

  function EncResolutions(r: Option<seq<(nat, nat)>>): bits {
    if r.None? then [false] else [true] + EncSizes(r.value)
  }

  /** Fields a descriptor must have for its writer to go through its arrays. */
  predicate Shaped(s: Structure) {
    && |s.spatial| == |s.temporal| == |s.dtis| == |s.fdiffs|
    && (forall i :: 0 <= i < |s.dtis| ==> |s.dtis[i]| == s.dtCnt)
    && (s.chainCnt > 0 ==>
          && |s.protectedBy| == s.dtCnt && |s.chainFdiffs| == |s.spatial|
          && forall i :: 0 <= i < |s.chainFdiffs| ==> |s.chainFdiffs[i]| == s.chainCnt)
  }

  function EncStructure(s: Structure): Option<bits>
    requires Shaped(s)
  {
    match EncLayers(s, 1)
    case None => None
    case Some(layers) =>
      Some(Enc(6, s.idOffset) + Enc(5, Minus1(s.dtCnt)) + layers + EncRows(2, s.dtis) + EncFdiffs(s.fdiffs)
           + EncChains(s) + EncResolutions(s.resolutions))
  }

  predicate ShapedDd(d: Dd) {
    d.ext.Some? && d.ext.value.structure.Some? ==> Shaped(d.ext.value.structure.value)
  }

  /** The bits of a descriptor; None where the writer gives up. */
  function Encode(d: Dd): Option<bits>
    requires ShapedDd(d)
  {
    var head := [d.start, d.end] + Enc(6, d.templateId) + Enc(16, d.frameNumber);
    if d.ext.None? then Some(head)
    else
      var e := d.ext.value;
      var flags := [e.structure.Some?, e.active, e.customDtis, e.customFdiffs, e.customChains];
      var body := if e.structure.None? then Some([]) else EncStructure(e.structure.value);
      if body.None? || e.active then None else Some(head + flags + body.value)
  }

  // ---------------------------------------------------------------- reading

  datatype Read<T> = Bad(err: Errno) | Got(value: T, rest: bits)

  /** Templates' layers: the ids so far and the current ones. */
  function DecLayers(b: bits, sp: seq<nat>, tp: seq<nat>, s: nat, t: nat): Read<(seq<nat>, seq<nat>)>
    requires |sp| == |tp|
    decreases |b|
  {
    if |sp| >= MAX_TEMPLATES then Bad(EOVERFLOW)
    else if |b| < 2 then Bad(EBADMSG)
    else
      var sp', tp' := sp + [s], tp + [t];
      var (idc, rest) := Get(b, 2);
      if idc == 3 then Got((sp', tp'), rest)
      else if idc == 1 then DecLayers(rest, sp', tp', s, t + 1)
      else if idc == 2 then DecLayers(rest, sp', tp', s + 1, 0)
      else DecLayers(rest, sp', tp', s, t)
  }

  function DecVals(b: bits, w: nat, n: nat): Read<seq<nat>> {
    if n == 0 then Got([], b)
    else if |b| < w then Bad(EBADMSG)
    else
      var (v, rest) := Get(b, w);
      match DecVals(rest, w, n - 1)
      case Bad(e) => Bad(e)
      case Got(vs, r) => Got([v] + vs, r)
  }

  function DecRows(b: bits, w: nat, cols: nat, n: nat): Read<seq<seq<nat>>>
    decreases n
  {
    if n == 0 then Got([], b)
    else match DecVals(b, w, cols)
      case Bad(e) => Bad(e)
      case Got(row, rest) =>
        match DecRows(rest, w, cols, n - 1)
        case Bad(e) => Bad(e)
        case Got(rows, r) => Got([row] + rows, r)
  }

  /** The frame differences of one template, after its first follow bit `more`. */
  function DecFdiffRow(b: bits, more: bool): Read<seq<nat>>
    decreases |b|
  {
    if !more then Got([], b)
    else if |b| < 5 then Bad(EBADMSG)
    else
      var (f, r1) := Get(b, 4);
      var (m, r2) := Get(r1, 1);
      match DecFdiffRow(r2, m == 1)
      case Bad(e) => Bad(e)
      case Got(fs, r) => Got([f + 1] + fs, r)
  }

  function DecFdiffs(b: bits, n: nat): Read<seq<seq<nat>>>
    decreases n
  {
    if n == 0 then Got([], b)
    else if |b| < 1 then Bad(EBADMSG)
    else
      var (m, r1) := Get(b, 1);
      match DecFdiffRow(r1, m == 1)
      case Bad(e) => Bad(e)
      case Got(row, r2) =>
        match DecFdiffs(r2, n - 1)
        case Bad(e) => Bad(e)
        case Got(rows, r) => Got([row] + rows, r)
  }

  function DecNsVals(b: bits, n: nat, k: nat): (seq<nat>, bits)
    requires n >= 1
  {
    if k == 0 then ([], b)
    else
      var (v, r1) := GetNs(b, n);
      var (vs, r) := DecNsVals(r1, n, k - 1);
      ([v] + vs, r)
  }

  /** Reads that are not checked against the end: missing values read as 0. */
  function DecRaw(b: bits, w: nat, n: nat): (seq<nat>, bits) {
    if n == 0 then ([], b)
    else
      var (v, r1) := Get(b, w);
      var (vs, r) := DecRaw(r1, w, n - 1);
      ([v] + vs, r)
  }

  function DecRawRows(b: bits, w: nat, cols: nat, n: nat): (seq<seq<nat>>, bits)
    decreases n
  {
    if n == 0 then ([], b)
    else
      var (row, r1) := DecRaw(b, w, cols);
      var (rows, r) := DecRawRows(r1, w, cols, n - 1);
      ([row] + rows, r)
  }

  datatype Chains = Chains(cnt: nat, protectedBy: seq<nat>, fdiffs: seq<seq<nat>>, rest: bits)

  function DecChains(b: bits, dtCnt: nat, templates: nat): Chains {
    var (cnt, r1) := GetNs(b, dtCnt + 1);
    if cnt == 0 then Chains(0, [], [], r1)
    else
      var (prot, r2) := DecNsVals(r1, cnt, dtCnt);
      var (rows, r3) := DecRawRows(r2, 4, cnt, templates);
      Chains(cnt, prot, rows, r3)
  }

  function DecSizes(b: bits, n: nat): Read<seq<(nat, nat)>> {
    if n == 0 then Got([], b)
    else if |b| < 32 then Bad(EBADMSG)
    else
      var (w, r1) := Get(b, 16);
      var (h, r2) := Get(r1, 16);
      match DecSizes(r2, n - 1)
      case Bad(e) => Bad(e)
      case Got(rs, r) => Got([(w, h)] + rs, r)
  }

  function DecResolutions(b: bits, n: nat): Read<Option<seq<(nat, nat)>>> {
    if |b| < 1 then Bad(EBADMSG)
    else
      var (f, r1) := Get(b, 1);
      if f == 0 then Got(None, r1)
      else match DecSizes(r1, n)
        case Bad(e) => Bad(e)
        case Got(rs, r) => Got(Some(rs), r)
  }

  function DecStructure(b: bits): Read<Structure> {
    if |b| < 11 then Bad(EBADMSG)
    else
      var (off, r1) := Get(b, 6);
      var (dt1, r2) := Get(r1, 5);
      match DecLayers(r2, [], [], 0, 0)
      case Bad(e) => Bad(e)
      case Got(layers, r3) =>
        var (sp, tp) := layers;
        match DecRows(r3, 2, dt1 + 1, |sp|)
        case Bad(e) => Bad(e)
        case Got(dtis, r4) =>
          match DecFdiffs(r4, |sp|)
          case Bad(e) => Bad(e)
          case Got(fdiffs, r5) =>
            var c := DecChains(r5, dt1 + 1, |sp|);
            match DecResolutions(c.rest, if sp == [] then 1 else sp[|sp| - 1] + 1)
            case Bad(e) => Bad(e)
            case Got(res, r6) =>
              Got(Structure(off, dt1 + 1, sp, tp, dtis, fdiffs, c.cnt, c.protectedBy, c.fdiffs, res), r6)
  }

  function DecExt(b: bits): Read<Ext> {
    if |b| < 5 then Bad(EBADMSG)
    else
      var (f0, r0) := Get(b, 1);
      var (f1, r1) := Get(r0, 1);
      var (f2, r2) := Get(r1, 1);
      var (f3, r3) := Get(r2, 1);
      var (f4, r4) := Get(r3, 1);
      var st: Read<Option<Structure>> :=
        if f0 == 0 then Got(None, r4)
        else match DecStructure(r4) case Bad(e) => Bad(e) case Got(s, r) => Got(Some(s), r);
      match st
      case Bad(e) => Bad(e)
      case Got(s, r5) =>
        var dtCnt := if s.None? then 0 else s.value.dtCnt;
        PowTwo(dtCnt);
        var (mask, r6) := if f1 == 1 then Get(r5, dtCnt) else (if s.None? then 0 else Pow(2, dtCnt) - 1, r5);
        Got(Ext(s, f1 == 1, f2 == 1, f3 == 1, f4 == 1, mask), r6)
  }

  /** Reads a descriptor of `sz` bytes; more than three bytes mean an extended descriptor. */
  function Decode(b: bits, sz: nat): Read<Dd> {
    if |b| < 24 then Bad(EBADMSG)
    else
      var (f0, r0) := Get(b, 1);
      var (f1, r1) := Get(r0, 1);
      var (id, r2) := Get(r1, 6);
      var (fn, r3) := Get(r2, 16);
      if sz > 3 then
        match DecExt(r3)
        case Bad(e) => Bad(e)
        case Got(x, r) => Got(Dd(f0 == 1, f1 == 1, id, fn, Some(x)), r)
      else Got(Dd(f0 == 1, f1 == 1, id, fn, None), r3)
  }
}
