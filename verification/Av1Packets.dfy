/** The packets of a whole AV1 packetizer run, and the receiver that takes them apart
    (section 4.4 of the AV1 RTP payload specification). */
module Av1Packets {
  import opened Bytes
  import opened Av1Obu
  import opened Av1Fragment
  import Leb128

  // ---------------------------------------------------------------- sender

  datatype Element = Element(prefixed: bool, data: seq<byte>)

  function Wire(e: Element): seq<byte> {
    (if e.prefixed then Leb128.Encode(|e.data|) else []) + e.data
  }

  function WireAll(es: seq<Element>): seq<byte> {
    if es == [] then [] else Wire(es[0]) + WireAll(es[1..])
  }

  function Datas(es: seq<Element>): (ds: seq<seq<byte>>)
    ensures |ds| == |es|
    ensures forall i :: 0 <= i < |es| ==> ds[i] == es[i].data
  {
    seq(|es|, i requires 0 <= i < |es| => es[i].data)
  }

  /** Outcome of filling one packet: its elements, what is left to send, whether the last
      element leaves its OBU open, and the prefix flag the loop ended with. */
  datatype Fill = Failed(err: Errno) | Filled(es: seq<Element>, rest: Feed, open: bool, prefix: bool)

  function Prepend(e: Element, f: Fill): Fill {
    match f
    case Failed(_) => f
    case Filled(es, rest, open, prefix) => Filled([e] + es, rest, open, prefix)
  }

  /** The feed once `len` bytes of its first unit are written. */
  function After(f: Feed, len: nat): (g: Feed)
    requires Wf(f) && f.Unit? && len <= |f.data|
    ensures Wf(g)
    ensures len >= 1 ==> Pending(g) < Pending(f)
  {
    if len < |f.data| then f.(data := f.data[len..]) else f.next
  }

  predicate Continues(f: Feed, r: (bool, nat))
    requires Wf(f) && f.Unit? && r.1 <= |f.data|
  {
    r.1 > 0 && r.0 && After(f, r.1).Unit?
  }

  /** One turn of the loop that fills a packet, given its element and what later turns add. */
  function FillStep(f: Feed, open: bool, r: (bool, nat), more: Fill): Fill
    requires Wf(f) && f.Unit? && r.1 <= |f.data|
  {
    if r.1 == 0 then Filled([], f, open, false)
    else
      var e, next := Element(r.0, f.data[..r.1]), After(f, r.1);
      if next.Broken? then Failed(next.err)
      else if Continues(f, r) then Prepend(e, more)
      else Filled([e], next, r.1 < |f.data|, r.0)
  }

  /** The loop, with `count` elements written and `open` their Y bit so far. */
  function FillFrom(f: Feed, room: nat, count: nat, open: bool): Fill
    requires Wf(f) && f.Unit?
    decreases room
  {
    var r := FragmentLen(room, |f.data|, f.last, count + 1);
    FragmentFits(room, |f.data|, f.last, count + 1);
    FillStep(f, open, r,
      if Continues(f, r) then FillFrom(After(f, r.1), room - Taken(r), count + 1, r.1 < |f.data|)
      else Failed(OK))
  }

  /** The W field: 0 says that every element is prefixed. */
  function Width(f: Fill): nat
    requires f.Filled?
  {
    if |f.es| > MAX_OBUS || f.prefix then 0 else |f.es|
  }

  datatype Packet = Packet(marker: bool, hdr: byte, payload: seq<byte>)

  function AggrHdr(z: bool, y: bool, w: nat, n: bool): byte
    requires w <= 3
  {
    Bit(z) * 128 + Bit(y) * 64 + w * 16 + Bit(n) * 8
  }

  datatype Run = Run(packets: seq<Packet>, err: Errno)

  function Pending(f: Feed): nat {
    if f.Unit? then |f.data| + Pending(f.next) else 0
  }

  /** Every packet of a run. `z` carries the previous packet's Y bit and `n` the new-sequence flag. */
  function Packets(f: Feed, room: nat, marker: bool, z: bool, n: bool): Run
    requires Wf(f) && room >= 1
    decreases Pending(f)
  {
    match f
    case End => Run([], OK)
    case Broken(e) => Run([], e)
    case Unit(_, _, _) =>
      var p := FillFrom(f, room, 0, z);
      FillLeavesLess(f, room, z);
      match p
      case Failed(e) => Run([], e)
      case Filled(es, rest, open, _) =>
        var tail := Packets(rest, room, marker, open, false);
        Run([Packet(marker && rest.End?, AggrHdr(z, open, Width(p), n), WireAll(es))] + tail.packets, tail.err)
  }

  // ---------------------------------------------------------------- one packet

  /** Free bytes that the look-ahead guarantees once `count` elements are in the packet. */
  predicate Ready(room: nat, count: nat) {
    (count <= 2 ==> room >= 1) && (count == 3 ==> room >= 2)
  }

  predicate AllPrefixed(es: seq<Element>) {
    forall i :: 0 <= i < |es| ==> es[i].prefixed
  }

  /** Shape of a filled packet: it is within its room, no element is empty, only the last element
      may lack a prefix, and it does so exactly when the packet has at most three elements and
      the loop ended on an unprefixed one. */
  predicate Shaped(p: Fill, room: nat, count: nat) {
    p.Filled? ==>
      && Wf(p.rest) && !p.rest.Broken? && (p.open ==> p.rest.Unit?)
      && |WireAll(p.es)| <= room
      && (forall i :: 0 <= i < |p.es| ==> p.es[i].data != [])
      && (if p.prefix || count + |p.es| > 3 then AllPrefixed(p.es) else LastBare(p.es))
  }

  predicate Leaves(p: Fill, pending: nat) {
    p.Filled? ==> Pending(p.rest) <= pending
  }

  predicate LastBare(es: seq<Element>) {
    es != [] && AllPrefixed(es[..|es| - 1]) && !es[|es| - 1].prefixed
  }

  lemma ShapedPrepend(e: Element, q: Fill, room: nat, count: nat)
    requires e.prefixed && e.data != [] && |Wire(e)| <= room
    requires Shaped(q, room - |Wire(e)|, count + 1)
    ensures Shaped(Prepend(e, q), room, count)
  {
    if q.Filled? {
      var es := [e] + q.es;
      assert es[1..] == q.es;
      if q.es != [] {
        assert es[..|es| - 1] == [e] + q.es[..|q.es| - 1];
      }
    }
  }

  lemma ShapedStep(f: Feed, room: nat, count: nat, open: bool, r: (bool, nat), more: Fill)
    requires Wf(f) && f.Unit? && Ready(room, count) && Fits(r, room, |f.data|, count + 1)
    requires Continues(f, r) ==> Shaped(more, room - Taken(r), count + 1) && Leaves(more, Pending(After(f, r.1)))
    ensures var p := FillStep(f, open, r, more);
            && Shaped(p, room, count)
            && Leaves(p, Pending(f) - if r.1 > 0 then 1 else 0)
  {
    var e := Element(r.0, f.data[..r.1]);
    assert |Wire(e)| == Taken(r);
    if Continues(f, r) {
      ShapedPrepend(e, more, room, count);
    } else {
      assert WireAll([e]) == Wire(e) + WireAll([]);
    }
  }

  lemma {:induction false} FillShape(f: Feed, room: nat, count: nat, open: bool)
    requires Wf(f) && f.Unit? && Ready(room, count)
    ensures var p := FillFrom(f, room, count, open);
            && Shaped(p, room, count)
            && Leaves(p, Pending(f) - if count == 0 then 1 else 0)
    decreases room
  {
    hide FragmentLen, Shaped, Leaves, FillFrom, FillStep, Pending;
    var r := FragmentLen(room, |f.data|, f.last, count + 1);
    FragmentFits(room, |f.data|, f.last, count + 1);
    FillUnfold(f, room, count, open);
    var more := Failed(OK);
    if Continues(f, r) {
      var next, o := After(f, r.1), r.1 < |f.data|;
      more := FillFrom(next, room - Taken(r), count + 1, o);
      FillShape(next, room - Taken(r), count + 1, o);
    }
    ShapedStep(f, room, count, open, r, more);
    PendingPositive(f);
    if count > 0 && r.1 > 0 { LeavesMore(FillFrom(f, room, count, open), Pending(f)); }
  }

  lemma {:induction false} FillLeavesLess(f: Feed, room: nat, z: bool)
    requires Wf(f) && f.Unit? && room >= 1
    ensures var p := FillFrom(f, room, 0, z);
            p.Filled? ==> Wf(p.rest) && Pending(p.rest) < Pending(f) && Width(p) <= 3
  {
    hide FillFrom, Pending;
    FillShape(f, room, 0, z);
  }

  lemma FillUnfold(f: Feed, room: nat, count: nat, open: bool)
    requires Wf(f) && f.Unit?
    ensures var r := FragmentLen(room, |f.data|, f.last, count + 1);
            && Fits(r, room, |f.data|, count + 1) && r.1 <= |f.data| && Taken(r) <= room
            && (Continues(f, r) ==>
                  room - Taken(r) < room && (Ready(room, count) ==> Ready(room - Taken(r), count + 1)))
            && FillFrom(f, room, count, open) ==
                 FillStep(f, open, r,
                   if Continues(f, r) then FillFrom(After(f, r.1), room - Taken(r), count + 1, r.1 < |f.data|)
                   else Failed(OK))
  {
    hide FragmentLen, FillStep, Pending;
    FragmentFits(room, |f.data|, f.last, count + 1);
  }

  lemma PendingPositive(f: Feed)
    requires Wf(f) && f.Unit?
    ensures Pending(f) >= 1
  {
  }

  lemma LeavesMore(p: Fill, pending: nat)
    requires pending >= 1 && Leaves(p, pending - 1)
    ensures Leaves(p, pending)
  {
  }

  // ---------------------------------------------------------------- receiver

  /** Elements of a payload in which each one carries its length. */
  function ParsePrefixed(s: seq<byte>, groups: nat): Option<seq<seq<byte>>>
    requires groups >= 1
    decreases |s|
  {
    if s == [] then Some([])
    else match Leb128.Decode(s, groups)
      case Short => None
      case Value(v, n) =>
        if n == 0 || v > |s| - n then None
        else match ParsePrefixed(s[n + v..], groups)
          case None => None
          case Some(es) => Some([s[n..n + v]] + es)
  }

  /** Elements of a payload by its W field; with W > 0 the W-th element is the rest. */
  function Parse(w: nat, s: seq<byte>, groups: nat): Option<seq<seq<byte>>>
    requires groups >= 1
  {
    if w == 0 then ParsePrefixed(s, groups)
    else if w == 1 then Some([s])
    else match Leb128.Decode(s, groups)
      case Short => None
      case Value(v, n) =>
        if v > |s| - n then None
        else match Parse(w - 1, s[n + v..], groups)
          case None => None
          case Some(es) => Some([s[n..n + v]] + es)
  }

  datatype Aggr = Aggr(z: bool, y: bool, w: nat, n: bool)

  function AggrDecode(v: byte): Aggr {
    Aggr(v / 128 % 2 == 1, v / 64 % 2 == 1, v / 16 % 4, v / 8 % 2 == 1)
  }

  lemma AggrRoundTrip(z: bool, y: bool, w: nat, n: bool)
    requires w <= 3
    ensures AggrDecode(AggrHdr(z, y, w, n)) == Aggr(z, y, w, n)
  {
  }

  /** The reader finds a prefixed element at the front of a payload, whatever follows it. */
  lemma PrefixReads(data: seq<byte>, tail: seq<byte>, groups: nat)
    requires groups >= 1 && |data| < Pow(128, groups)
    ensures var s, n := Wire(Element(true, data)) + tail, PrefixLen(|data|);
            && Leb128.Decode(s, groups) == Leb128.Value(|data|, n) && n >= 1 && n + |data| <= |s|
            && s[n..n + |data|] == data && s[n + |data|..] == tail
  {
    Leb128.RoundTrip(|data|, data + tail, groups);
    assert Wire(Element(true, data)) + tail == Leb128.Encode(|data|) + (data + tail);
  }

  lemma {:induction false} PrefixedParses(es: seq<Element>, groups: nat)
    requires groups >= 1 && AllPrefixed(es)
    requires forall i :: 0 <= i < |es| ==> |es[i].data| < Pow(128, groups)
    ensures ParsePrefixed(WireAll(es), groups) == Some(Datas(es))
  {
    if es != [] {
      PrefixedParses(es[1..], groups);
      PrefixReads(es[0].data, WireAll(es[1..]), groups);
      assert es[0] == Element(true, es[0].data);
      assert Datas(es) == [es[0].data] + Datas(es[1..]);
    }
  }

  lemma {:induction false} CountedTurn(w: nat, d: seq<byte>, tail: seq<byte>, groups: nat, es: seq<seq<byte>>)
    requires w >= 2 && groups >= 1 && |d| < Pow(128, groups) && Parse(w - 1, tail, groups) == Some(es)
    ensures Parse(w, Wire(Element(true, d)) + tail, groups) == Some([d] + es)
  {
    hide Leb128.Decode, Wire, Pow, PrefixLen;
    PrefixReads(d, tail, groups);
  }

  lemma {:induction false} CountedOne(e: Element, groups: nat)
    requires groups >= 1 && !e.prefixed
    ensures Parse(1, WireAll([e]), groups) == Some([e.data])
  {
    assert WireAll([e]) == e.data;
  }

  lemma LastBareTail(es: seq<Element>)
    requires LastBare(es)
    ensures |es| == 1 ==> !es[0].prefixed && es == [es[0]]
    ensures |es| > 1 ==> LastBare(es[1..]) && es[0] == Element(true, es[0].data)
  {
    if |es| > 1 {
      assert es[0] == es[..|es| - 1][0];
      assert es[1..][..|es| - 2] == es[..|es| - 1][1..];
    }
  }

  lemma {:induction false} CountedParses(es: seq<Element>, groups: nat)
    requires groups >= 1 && LastBare(es)
    requires forall i :: 0 <= i < |es| ==> |es[i].data| < Pow(128, groups)
    ensures Parse(|es|, WireAll(es), groups) == Some(Datas(es))
  {
    hide Pow, Parse, Wire, LastBare;
    LastBareTail(es);
    assert es != [] by { SomeBare(es); }
    if |es| == 1 {
      CountedOne(es[0], groups);
      assert Datas(es) == [es[0].data];
    } else {
      var tail := es[1..];
      CountedParses(tail, groups);
      CountedTurn(|es|, es[0].data, WireAll(tail), groups, Datas(tail));
      assert Datas(es) == [es[0].data] + Datas(tail);
    }
  }

  lemma SomeBare(es: seq<Element>)
    requires LastBare(es)
    ensures es != []
  {
  }

  lemma {:induction false} ElementWithinWire(es: seq<Element>, i: nat)
    requires i < |es|
    ensures |es[i].data| <= |WireAll(es)|
  {
    if i > 0 { ElementWithinWire(es[1..], i - 1); }
  }

  /** A filled packet parses back, by its own W field, into exactly its elements. */
  lemma PacketParses(f: Feed, room: nat, open: bool, groups: nat)
    requires Wf(f) && f.Unit? && 1 <= room < Pow(128, groups) && groups >= 1
    ensures var p := FillFrom(f, room, 0, open);
            p.Filled? ==> Width(p) <= 3 && Parse(Width(p), WireAll(p.es), groups) == Some(Datas(p.es))
  {
    var p := FillFrom(f, room, 0, open);
    FillShape(f, room, 0, open);
    if p.Filled? {
      forall i | 0 <= i < |p.es| ensures |p.es[i].data| < Pow(128, groups) {
        ElementWithinWire(p.es, i);
      }
      if p.prefix || |p.es| > 3 {
        PrefixedParses(p.es, groups);
      } else {
        CountedParses(p.es, groups);
      }
    }
  }
}
