/** The AV1 packetizer as the program runs it: positions and counters updated in place, proved
    against the packet run of Av1Packets. */
module Av1Packetizer {
  import opened Bytes
  import opened Av1Obu
  import opened Av1Fragment
  import opened Av1Packets
  import Leb128

  function PrependAll(es: seq<Element>, f: Fill): Fill {
    match f
    case Failed(_) => f
    case Filled(more, rest, open, prefix) => Filled(es + more, rest, open, prefix)
  }

  lemma PrependAllStep(es: seq<Element>, e: Element, f: Fill)
    ensures PrependAll(es, Prepend(e, f)) == PrependAll(es + [e], f)
  {
    if f.Filled? { assert es + ([e] + f.es) == es + [e] + f.es; }
  }

  lemma PrependNothing(f: Fill)
    ensures PrependAll([], f) == f
  {
    if f.Filled? { assert [] + f.es == f.es; }
  }

  lemma {:induction false} WireAllAppend(es: seq<Element>, e: Element)
    ensures WireAll(es + [e]) == WireAll(es) + Wire(e)
  {
    if es == [] {
      assert es + [e] == [e];
      assert WireAll([e]) == Wire(e) + WireAll([]);
    } else {
      calc {
        WireAll(es + [e]);
        { assert (es + [e])[0] == es[0] && (es + [e])[1..] == es[1..] + [e]; }
        Wire(es[0]) + WireAll(es[1..] + [e]);
        { WireAllAppend(es[1..], e); }
        Wire(es[0]) + (WireAll(es[1..]) + Wire(e));
        WireAll(es) + Wire(e);
      }
    }
  }

  /** One turn of the filling loop, case by case. */
  lemma FillTurn(f: Feed, room: nat, count: nat, open: bool)
    requires Wf(f) && f.Unit?
    ensures var r := FragmentLen(room, |f.data|, f.last, count + 1);
            && r.1 <= |f.data| && Taken(r) <= room
            && var p := FillFrom(f, room, count, open);
            if r.1 == 0 then p == Filled([], f, open, false) && !r.0
            else
              var e, next, o := Element(r.0, f.data[..r.1]), After(f, r.1), r.1 < |f.data|;
              if next.Broken? then p == Failed(next.err)
              else if r.0 && next.Unit? then p == Prepend(e, FillFrom(next, room - Taken(r), count + 1, o))
              else p == Filled([e], next, o, r.0)
  {
    hide FragmentLen;
    FragmentFits(room, |f.data|, f.last, count + 1);
  }

  /** The element that a turn of the filling loop adds. */
  lemma {:induction false} AddElement(total: Fill, es: seq<Element>, f: Feed, room: nat, count: nat, open: bool)
    requires Wf(f) && f.Unit? && total == PrependAll(es, FillFrom(f, room, count, open))
    ensures var r := FragmentLen(room, |f.data|, f.last, count + 1);
            && r.1 <= |f.data| && Taken(r) <= room
            && if r.1 == 0 then total == Filled(es, f, open, false) && !r.0
            else
              var e, next, o := Element(r.0, f.data[..r.1]), After(f, r.1), r.1 < |f.data|;
              if next.Broken? then total == Failed(next.err)
              else if r.0 && next.Unit? then
                total == PrependAll(es + [e], FillFrom(next, room - Taken(r), count + 1, o))
              else total == Filled(es + [e], next, o, r.0)
  {
    hide FragmentLen, FillFrom;
    FillTurn(f, room, count, open);
    var r := FragmentLen(room, |f.data|, f.last, count + 1);
    if r.1 == 0 {
      assert es + [] == es;
    } else {
      var e, next, o := Element(r.0, f.data[..r.1]), After(f, r.1), r.1 < |f.data|;
      if next.Unit? { PrependAllStep(es, e, FillFrom(next, room - Taken(r), count + 1, o)); }
    }
  }

  lemma WireNothing()
    ensures WireAll([]) == []
  {
  }

  lemma WireTaken(r: (bool, nat), e: Element)
    requires e.prefixed == r.0 && |e.data| == r.1
    ensures |Wire(e)| == Taken(r) >= r.1
  {
  }

  lemma {:induction false} WireSplit(prefix: bool, d: seq<byte>, pkt: seq<byte>)
    ensures pkt + Wire(Element(prefix, d)) == (if prefix then pkt + Leb128.Encode(|d|) else pkt) + d
  {
  }

  class Context {
    const buf: seq<byte>     // the application's input
    const maxlen: nat        // room for OBU elements in one packet
    var pos: nat             // always just after the current OBU
    var typ: nat             // header of the current OBU
    var size: nat
    var obu: seq<byte>       // its payload bytes that are not written yet
    var remaining: nat       // bytes still to write, counting an unwritten header byte
    var pkt: seq<byte>       // the packet being built

    constructor (buf: seq<byte>, maxlen: nat)
      ensures this.buf == buf && this.maxlen == maxlen && pos == 0 && pkt == [] && remaining == 0 && Valid()
    {
      this.buf, this.maxlen := buf, maxlen;
      pos, typ, size, obu, remaining, pkt := 0, 0, 0, [], 0, [];
    }

    ghost predicate Valid()
      reads this
    {
      && pos <= |buf| && typ < 16 && |obu| <= size
      && remaining == |obu| + Bit(remaining == size + 1)
    }

    /** Bytes of the current OBU that are still to be written. */
    ghost function Data(): (d: seq<byte>)
      requires Valid()
      ensures |d| == remaining
      reads this
    {
      if remaining == size + 1 then [typ * 8] + obu else obu
    }

    /** Everything still to be sent. */
    ghost function Current(): (f: Feed)
      requires Valid()
      ensures Wf(f) && (f.Unit? ==> |f.data| == remaining)
      reads this
    {
      if remaining == 0 then End else Unit(Data(), pos == |buf|, FeedOf(buf[pos..]))
    }

    method UpdateCurrObu() returns (err: Errno)
      requires Valid()
      modifies this
      ensures Valid() && pkt == old(pkt)
      ensures FeedOf(buf[old(pos)..]) == if err == OK then Current() else Broken(err)
    {
      hide FeedOf, DecodeHeader, AllowedRtp;
      err := OK;
      while true
        invariant Valid() && pkt == old(pkt) && err == OK
        invariant FeedOf(buf[pos..]) == FeedOf(buf[old(pos)..])
        decreases |buf| - pos
      {
        var left := |buf| - pos;
        FeedStop(buf, pos);
        if left < 2 {
          pos := pos + left;
          obu, remaining := [], 0;
          return;
        }
        var d := DecodeAt(buf, pos);
        if d.Bad? {
          return d.err;
        }
        FeedTurn(buf, pos, d);
        typ, size := d.typ, d.size;
        obu := buf[pos + d.hdrLen..pos + d.hdrLen + size];
        remaining := 1 + size;
        pos := pos + d.hdrLen + size;
        if AllowedRtp(typ) {
          return;
        }
      }
    }

    /** Writes `len` bytes of the current OBU, its header byte first. */
    method CopyFragment(prefix: bool, len: nat)
      requires Valid() && 1 <= len <= remaining
      modifies this
      ensures Valid() && pos == old(pos)
      ensures pkt == old(pkt) + Wire(Element(prefix, old(Data())[..len]))
      ensures remaining == old(remaining) - len && Data() == old(Data())[len..]
    {
      hide Wire;
      ghost var data := Data();
      WireSplit(prefix, data[..len], pkt);
      if prefix {
        pkt := Leb128.Write(pkt, len);
      }
      var n := len;
      if remaining == size + 1 {
        n := n - 1;
        assert data[..len] == [typ * 8] + obu[..n] && data[len..] == obu[n..];
        ConcatAssoc(pkt, [typ * 8], obu[..n]);
        pkt := pkt + [typ * 8];
        remaining := remaining - 1;
      }
      pkt := pkt + obu[..n];
      obu := obu[n..];
      remaining := remaining - n;
    }

    method Rewind()
      requires Valid()
      modifies this
      ensures Valid() && pkt == [] && remaining == old(remaining) && Current() == old(Current())
    {
      pkt := [];
    }

    /** Fills one packet from the current OBU on; `w` and `y` are its header fields. */
    method CopyObusToPacket(y0: bool) returns (err: Errno, w: nat, y: bool)
      requires Valid() && pkt == [] && remaining > 0 && maxlen >= 1
      modifies this
      ensures Valid()
      ensures var p := FillFrom(old(Current()), maxlen, 0, y0);
              if err != OK then p == Failed(err)
              else p.Filled? && p.rest == Current() && p.open == y && w == Width(p) && pkt == WireAll(p.es)
    {
      hide FragmentLen, FillFrom, FeedOf, Wire, WireAll, PrependAll, Taken;
      var count, prefix := 0, true;
      err, w, y := OK, 0, y0;
      ghost var total := FillFrom(Current(), maxlen, 0, y0);
      ghost var es: seq<Element> := [];
      PrependNothing(total);
      assert WireAll([]) == [] by { WireNothing(); }
      while remaining > 0 && prefix
        invariant Valid() && err == OK && |es| == count && pkt == WireAll(es) && |pkt| <= maxlen
        invariant if remaining > 0 && prefix
                  then total == PrependAll(es, FillFrom(Current(), maxlen - |pkt|, count, y))
                  else total == Filled(es, Current(), y, prefix)
        decreases maxlen - |pkt|
      {
        ghost var f := Current();
        var room := maxlen - |pkt|;
        var r := FragmentLen(room, remaining, pos == |buf|, count + 1);
        AddElement(total, es, f, room, count, y);
        prefix := r.0;
        if r.1 == 0 {
          break;
        }
        ghost var e := Element(r.0, f.data[..r.1]);
        WireTaken(r, e);
        CopyFragment(prefix, r.1);
        count := count + 1;
        WireAllAppend(es, e);
        if remaining == 0 {
          y := false;
          err := UpdateCurrObu();
          if err != OK {
            return;
          }
        } else {
          y := true;
        }
        assert Current() == After(f, r.1);
        es := es + [e];
      }
      w := if count > MAX_OBUS || prefix then 0 else count;
    }
  }

  /** One turn of the search for the next unit. */
  lemma FeedTurn(buf: seq<byte>, pos: nat, d: Decoded)
    requires pos + 2 <= |buf| && d.Good? && d == DecodeHeader(buf[pos..])
    ensures var start, end := pos + d.hdrLen, pos + d.hdrLen + d.size;
            FeedOf(buf[pos..]) ==
              if AllowedRtp(d.typ) then Unit([d.typ * 8] + buf[start..end], end == |buf|, FeedOf(buf[end..]))
              else FeedOf(buf[end..])
  {
    var s := buf[pos..];
    Shifted(buf, pos, d.hdrLen, d.hdrLen + d.size);
    assert [d.typ * 8] + s[d.hdrLen..d.hdrLen + d.size] == [d.typ * 8] + buf[pos + d.hdrLen..pos + d.hdrLen + d.size];
    hide DecodeHeader;
  }

  lemma Shifted(buf: seq<byte>, pos: nat, i: nat, j: nat)
    requires i <= j && pos + j <= |buf|
    ensures buf[pos..][i..j] == buf[pos + i..pos + j] && buf[pos..][j..] == buf[pos + j..]
  {
  }

  lemma FeedStop(buf: seq<byte>, pos: nat)
    requires pos <= |buf|
    ensures pos + 2 > |buf| ==> FeedOf(buf[pos..]) == End
    ensures pos + 2 <= |buf| && DecodeHeader(buf[pos..]).Bad? ==>
              FeedOf(buf[pos..]) == Broken(DecodeHeader(buf[pos..]).err)
  {
  }

  lemma PacketsStop(room: nat, marker: bool, z: bool, n: bool, err: Errno)
    requires room >= 1
    ensures Packets(End, room, marker, z, n) == Run([], OK)
    ensures err != OK ==> Packets(Broken(err), room, marker, z, n) == Run([], err)
  {
  }

  lemma PacketsTurn(f: Feed, room: nat, marker: bool, z: bool, n: bool)
    requires Wf(f) && f.Unit? && room >= 1
    ensures var p := FillFrom(f, room, 0, z);
            var run := Packets(f, room, marker, z, n);
            if p.Failed? then run == Run([], p.err)
            else
              && Wf(p.rest) && Pending(p.rest) < Pending(f) && Width(p) <= 3
              && var tail := Packets(p.rest, room, marker, p.open, false);
              run == Run([Packet(marker && p.rest.End?, AggrHdr(z, p.open, Width(p), n), WireAll(p.es))] + tail.packets,
                         tail.err)
  {
    hide FillFrom;
    FillShape(f, room, 0, z);
  }

  /** A packet that the handler refuses, and its error. */
  datatype Refusal = Refusal(at: nat, err: Errno)

  /** A run that ends with the packet that the handler refuses. */
  function Cut(run: Run, no: Option<Refusal>): Run {
    if no.Some? && no.value.at < |run.packets| then Run(run.packets[..no.value.at + 1], no.value.err) else run
  }

  predicate Outcome(buf: seq<byte>, maxlen: nat, marker: bool, newp: bool, no: Option<Refusal>,
                    err: Errno, packets: seq<Packet>, newp': bool)
  {
    if buf == [] || maxlen < 2 then
      err == EINVAL && packets == [] && newp' == newp
    else
      && Run(packets, err) == Cut(Packets(FeedOf(buf), maxlen - 1, marker, false, newp), no)
      && newp' == (newp && packets == [])
  }

  /** Packetizes an AV1 bitstream; the packets handed out and the outcome are those of the run, up to
      the packet that the handler refuses. */
  method Packetize(newp: bool, marker: bool, buf: seq<byte>, maxlen: nat, no: Option<Refusal>)
    returns (err: Errno, packets: seq<Packet>, newp': bool)
    requires no.Some? ==> no.value.err != OK
    ensures Outcome(buf, maxlen, marker, newp, no, err, packets, newp')
  {
    hide FillFrom, FeedOf, AggrHdr, Packets, Pending, Width, WireAll;
    packets, newp' := [], newp;
    if buf == [] || maxlen < 2 {
      return EINVAL, packets, newp';
    }
    var c := new Context(buf, maxlen - 1);
    assert buf[0..] == buf;
    err := c.UpdateCurrObu();
    if err != OK {
      PacketsStop(maxlen - 1, marker, false, newp, err);
      return;
    }
    var next := false;
    while c.remaining > 0
      invariant c.Valid() && err == OK && c.pkt == []
      invariant newp' == (newp && packets == []) && (no.Some? ==> |packets| <= no.value.at)
      invariant var rest := Packets(c.Current(), maxlen - 1, marker, next, newp');
                Packets(FeedOf(buf), maxlen - 1, marker, false, newp) == Run(packets + rest.packets, rest.err)
      decreases Pending(c.Current())
    {
      var prev := next;
      ghost var f := c.Current();
      ghost var rest := Packets(f, maxlen - 1, marker, prev, newp');
      var w;
      PacketsTurn(f, maxlen - 1, marker, prev, newp');
      err, w, next := c.CopyObusToPacket(prev);
      if err != OK {
        assert packets + rest.packets == packets;
        return;
      }
      var p := Packet(marker && c.remaining == 0, AggrHdr(prev, next, w, newp'), c.pkt);
      ghost var tail := Packets(c.Current(), maxlen - 1, marker, next, false);
      ConcatAssoc(packets, [p], tail.packets);
      newp' := false;
      packets := packets + [p];
      if no.Some? && |packets| == no.value.at + 1 {
        assert (packets + tail.packets)[..|packets|] == packets;
        return no.value.err, packets, newp';
      }
      c.Rewind();
    }
    PacketsStop(maxlen - 1, marker, next, newp', OK);
    assert packets + [] == packets;
  }
}
