/** End-to-end statements about av1_packetize: from an encoded unit list to reassembled units. */
module Av1Run {
  import opened Bytes
  import Leb128
  import opened Av1Obu
  import opened Av1Fragment
  import opened Av1Packets
  import opened Av1Reassembly

  /** The assembly once all the units `us` have arrived. */
  function Close(a: Assembly, us: seq<seq<byte>>): Assembly
    requires a.partial.Some? ==> us != []
  {
    Assembly(a.done + (if a.partial.Some? then [a.partial.value + us[0]] + us[1..] else us), None)
  }

  lemma CloseExtend(a: Assembly, ds: seq<seq<byte>>, open: bool, us: seq<seq<byte>>)
    requires ds != [] && (open ==> us != [])
    ensures Close(Extend(a, ds, open), us) == Close(a, Join(ds, open, us))
  {
    if a.partial.Some? { CloseOpen(a.done, a.partial.value, ds, open, us); } else { CloseFresh(a.done, ds, open, us); }
  }

  lemma CloseFresh(done: seq<seq<byte>>, ds: seq<seq<byte>>, open: bool, us: seq<seq<byte>>)
    requires ds != [] && (open ==> us != [])
    ensures var a := Assembly(done, None); Close(Extend(a, ds, open), us) == Close(a, Join(ds, open, us))
  {
    if open {
      var n := |ds| - 1;
      ConcatAssoc(done, ds[..n], [ds[n] + us[0]] + us[1..]);
      assert ds[..n] + ([ds[n] + us[0]] + us[1..]) == ds[..n] + [ds[n] + us[0]] + us[1..];
    } else {
      ConcatAssoc(done, ds, us);
    }
  }

  /** A unit left open takes in the first element. */
  lemma CloseOpen(done: seq<seq<byte>>, part: seq<byte>, ds: seq<seq<byte>>, open: bool, us: seq<seq<byte>>)
    requires ds != [] && (open ==> us != [])
    ensures var a := Assembly(done, Some(part)); Close(Extend(a, ds, open), us) == Close(a, Join(ds, open, us))
  {
    var es := [part + ds[0]] + ds[1..];
    CloseFresh(done, es, open, us);
    assert Join(es, open, us) == [part + Join(ds, open, us)[0]] + Join(ds, open, us)[1..] by {
      JoinFirst(part, ds, open, us);
    }
  }

  lemma JoinFirst(part: seq<byte>, ds: seq<seq<byte>>, open: bool, us: seq<seq<byte>>)
    requires ds != [] && (open ==> us != [])
    ensures var j := Join(ds, open, us); j != [] && Join([part + ds[0]] + ds[1..], open, us) == [part + j[0]] + j[1..]
  {
    var es := [part + ds[0]] + ds[1..];
    var n := |ds| - 1;
    if !open {
      assert es + us == [part + ds[0]] + (ds + us)[1..];
    } else if n == 0 {
      ConcatAssoc(part, ds[0], us[0]);
      assert es[..0] == [] && ds[..0] == [];
    } else {
      assert es[..n] == [part + ds[0]] + ds[1..n];
      assert (ds[..n] + [ds[n] + us[0]] + us[1..])[1..] == ds[1..n] + [ds[n] + us[0]] + us[1..];
    }
  }

  lemma AbsorbFirst(f: Feed, room: nat, marker: bool, n: bool, a: Assembly, groups: nat)
    requires Wf(f) && f.Unit? && Verdict(f) == OK && groups >= 1 && 1 <= room < Pow(128, groups)
    ensures var p := First(f, room);
            && Width(p) <= 3
            && Absorb(a, Packet(marker, AggrHdr(a.partial.Some?, p.open, Width(p), n), WireAll(p.es)), groups)
            == Some(Extend(a, Datas(p.es), p.open))
  {
    hide FillFrom, Parse, Extend;
    var p := First(f, room);
    FirstIgnoresOpen(f, room, false);
    PacketParses(f, room, false, groups);
    AggrRoundTrip(a.partial.Some?, p.open, Width(p), n);
  }

  lemma PacketsUnfold(f: Feed, room: nat, marker: bool, z: bool, n: bool)
    requires Wf(f) && f.Unit? && Verdict(f) == OK && room >= 1
    ensures var p := First(f, room);
            var tail := Packets(p.rest, room, marker, p.open, false);
            && Width(p) <= 3
            && Packets(f, room, marker, z, n)
            == Run([Packet(marker && p.rest.End?, AggrHdr(z, p.open, Width(p), n), WireAll(p.es))] + tail.packets,
                   tail.err)
  {
    hide FillFrom;
    FirstIgnoresOpen(f, room, z);
  }

  /** A run over a stream without errors succeeds, and absorbing its packets in order completes
      exactly the units of `Received`. */
  lemma {:induction false} RunReassembles(f: Feed, room: nat, marker: bool, n: bool, a: Assembly, groups: nat)
    requires Wf(f) && Verdict(f) == OK && groups >= 1 && 1 <= room < Pow(128, groups)
    requires a.partial.Some? ==> f.Unit?
    ensures var run := Packets(f, room, marker, a.partial.Some?, n);
            && run.err == OK
            && AbsorbAll(a, run.packets, groups) == Some(Close(a, Received(f, room)))
    decreases Pending(f)
  {
    hide FillFrom, Absorb, Extend, Close, Join;
    var z := a.partial.Some?;
    if f.Unit? {
      var p := First(f, room);
      PacketsUnfold(f, room, marker, z, n);
      AbsorbFirst(f, room, marker && p.rest.End?, n, a, groups);
      var b := Extend(a, Datas(p.es), p.open);
      assert b.partial.Some? == p.open by { ExtendOpen(a, Datas(p.es), p.open); }
      RunReassembles(p.rest, room, marker, false, b, groups);
      CloseExtend(a, Datas(p.es), p.open, Received(p.rest, room));
    } else {
      CloseNothing(a);
    }
  }

  lemma ExtendOpen(a: Assembly, es: seq<seq<byte>>, y: bool)
    requires es != []
    ensures Extend(a, es, y).partial.Some? == y
  {
  }

  lemma CloseNothing(a: Assembly)
    requires a.partial.None?
    ensures Close(a, []) == a
  {
    assert a.done + [] == a.done;
  }

  /** What the i-th packet of a run obeys, whether or not the run ends in an error. */
  predicate PacketOk(run: Run, i: nat, room: nat, marker: bool, z: bool, n: bool)
    requires i < |run.packets|
  {
    var p, h := run.packets[i], AggrDecode(run.packets[i].hdr);
    && 1 <= |p.payload| <= room
    && h.z == (if i == 0 then z else AggrDecode(run.packets[i - 1].hdr).y)
    && h.n == (n && i == 0)
    && p.marker == (marker && run.err == OK && i == |run.packets| - 1)
    && (run.err == OK && i == |run.packets| - 1 ==> !h.y)
  }

  predicate Disciplined(run: Run, room: nat, marker: bool, z: bool, n: bool) {
    forall i :: 0 <= i < |run.packets| ==> PacketOk(run, i, room, marker, z, n)
  }

  lemma DisciplinedPrepend(p: Packet, tail: Run, room: nat, marker: bool, z: bool, y: bool, w: nat, n: bool)
    requires Disciplined(tail, room, marker, y, false) && w <= 3
    requires p.hdr == AggrHdr(z, y, w, n) && 1 <= |p.payload| <= room
    requires tail.packets == [] && tail.err == OK ==> !y && p.marker == marker
    requires tail.packets != [] || tail.err != OK ==> !p.marker
    ensures Disciplined(Run([p] + tail.packets, tail.err), room, marker, z, n)
  {
    AggrRoundTrip(z, y, w, n);
    var run := Run([p] + tail.packets, tail.err);
    forall i | 0 <= i < |run.packets|
      ensures PacketOk(run, i, room, marker, z, n)
    {
      if i > 0 {
        assert PacketOk(tail, i - 1, room, marker, y, false);
      }
    }
  }

  /** Packets are never empty and within their size, each Z bit repeats the previous Y bit, the
      N bit is only on the first packet and the marker only on the last one of a complete run. */
  lemma {:induction false} RunDisciplined(f: Feed, room: nat, marker: bool, z: bool, n: bool)
    requires Wf(f) && room >= 1
    ensures Disciplined(Packets(f, room, marker, z, n), room, marker, z, n)
    decreases Pending(f)
  {
    hide FillFrom, Disciplined;
    if !f.Unit? {
      NothingDisciplined(room, marker, z, n, Packets(f, room, marker, z, n).err);
    } else {
      var p := FillFrom(f, room, 0, z);
      FillShape(f, room, 0, z);
      FillStops(f, room, 0, z);
      if p.Failed? {
        NothingDisciplined(room, marker, z, n, p.err);
      } else {
        RunDisciplined(p.rest, room, marker, p.open, false);
        var tail := Packets(p.rest, room, marker, p.open, false);
        if p.rest.Unit? { MoreToCome(p.rest, room, marker, p.open); }
        assert WireAll(p.es) != [] by { ElementWithinWire(p.es, 0); }
        DisciplinedPrepend(Packet(marker && p.rest.End?, AggrHdr(z, p.open, Width(p), n), WireAll(p.es)),
          tail, room, marker, z, p.open, Width(p), n);
      }
    }
  }

  lemma NothingDisciplined(room: nat, marker: bool, z: bool, n: bool, err: Errno)
    ensures Disciplined(Run([], err), room, marker, z, n)
  {
  }

  /** A run with something left to send sends it or reports an error. */
  lemma MoreToCome(f: Feed, room: nat, marker: bool, z: bool)
    requires Wf(f) && room >= 1 && f.Unit?
    ensures var run := Packets(f, room, marker, z, false);
            run.packets != [] || run.err != OK
  {
    hide FragmentLen;
    var p := FillFrom(f, room, 0, z);
    FillFailsLoudly(f, room, 0, z);
  }

  lemma {:induction false} FillFailsLoudly(f: Feed, room: nat, count: nat, open: bool)
    requires Wf(f) && f.Unit?
    ensures var p := FillFrom(f, room, count, open); p.Failed? ==> p.err != OK
    decreases room
  {
    hide FragmentLen;
    var r := FragmentLen(room, |f.data|, f.last, count + 1);
    FragmentFits(room, |f.data|, f.last, count + 1);
    if Continues(f, r) {
      FillFailsLoudly(After(f, r.1), room - Taken(r), count + 1, r.1 < |f.data|);
    }
  }

  // ---------------------------------------------------------------- end to end

  const EMPTY := Assembly([], None)

  /** Packetizing any stream the OBU reader accepts and reassembling its packets: every byte of every
      allowed unit arrives in order and nothing else does; and the unit boundaries are exact if and
      only if no call of the fragment choice lands in its trap. */
  lemma AnyStreamReassembles(buf: seq<byte>, room: nat, marker: bool, n: bool, groups: nat)
    requires Verdict(FeedOf(buf)) == OK && groups >= 1 && 1 <= room < Pow(128, groups)
    ensures var f := FeedOf(buf);
            var run := Packets(f, room, marker, false, n);
            && run.err == OK
            && var got := AbsorbAll(EMPTY, run.packets, groups);
            && got.Some? && got.value.partial == None
            && Flatten(got.value.done) == Flatten(Units(f))
            && (got.value.done == Units(f) <==> RunTraps(f, room) == 0)
  {
    hide FeedOf, Packets, AbsorbAll, RunTraps, Received;
    var f := FeedOf(buf);
    RunReassembles(f, room, marker, n, EMPTY, groups);
    ReceivedUnits(f, room);
    assert [] + Received(f, room) == Received(f, room);
  }

  /** The same for any list of units written out: what arrives is the allowed ones among them. */
  lemma EndToEnd(os: seq<Obu>, room: nat, marker: bool, n: bool, groups: nat)
    requires Encodable(os) && groups >= 1 && 1 <= room < Pow(128, groups)
    ensures var f := FeedOf(EncodeAll(os));
            var run := Packets(f, room, marker, false, n);
            && run.err == OK && Verdict(f) == OK
            && var got := AbsorbAll(EMPTY, run.packets, groups);
            && got.Some? && got.value.partial == None
            && Flatten(got.value.done) == Flatten(Carried(os))
            && (got.value.done == Carried(os) <==> RunTraps(f, room) == 0)
  {
    hide FeedOf, Packets, AbsorbAll, RunTraps;
    FeedOfEncoded(os);
    AnyStreamReassembles(EncodeAll(os), room, marker, n, groups);
  }

  /** Packets with at most 128 payload bytes never meet the trap. */
  lemma {:induction false} SmallPacketsExact(f: Feed, room: nat)
    requires Wf(f) && Verdict(f) == OK && 1 <= room <= 128
    ensures RunTraps(f, room) == 0
    decreases Pending(f)
  {
    hide FillFrom, FillTraps;
    if f.Unit? {
      SmallFillExact(f, room, 0);
      SmallPacketsExact(First(f, room).rest, room);
    }
  }

  lemma {:induction false} SmallFillExact(f: Feed, room: nat, count: nat)
    requires Wf(f) && f.Unit? && room <= 128
    ensures FillTraps(f, room, count) == 0
    decreases room
  {
    hide FragmentLen;
    var r := FragmentLen(room, |f.data|, f.last, count + 1);
    FragmentFits(room, |f.data|, f.last, count + 1);
    if Continues(f, r) {
      SmallFillExact(After(f, r.1), room - Taken(r), count + 1);
    }
  }

  /** Whenever an OBU of 128^k bytes opens a packet with 1 to k bytes more and input follows it,
      the OBU is cut in mid-packet. */
  lemma TrapFamily(f: Feed, room: nat, k: nat)
    requires Wf(f) && f.Unit? && Verdict(f) == OK && k >= 1
    requires |f.data| == Pow(128, k) && !f.last && |f.data| < room <= |f.data| + k
    ensures RunTraps(f, room) >= 1
  {
    hide FillFrom, FragmentLen;
    Leb128.SizeBound(|f.data|, k);
    Leb128.SizeBound(|f.data|, k + 1);
    Leb128.PowPositive(k);
    assert Pow(128, k + 1) == 128 * Pow(128, k);
  }

  /** A frame of 127 payload bytes and a second frame, sent in packets of 130 bytes: the receiver
      sees more units than were sent. */
  lemma SplitExample()
    ensures var os := [Obu(6, true, seq(127, _ => 0)), Obu(6, true, [])];
            && Encodable(os)
            && var run := Packets(FeedOf(EncodeAll(os)), 129, true, false, true);
            && AbsorbAll(EMPTY, run.packets, 8).Some?
            && AbsorbAll(EMPTY, run.packets, 8).value.done != Carried(os)
  {
    hide Packets, AbsorbAll, RunTraps;
    var o := Obu(6, true, seq(127, _ => 0));
    var os := [o, Obu(6, true, [])];
    PowGrows(8);
    assert Encodable(os);
    EndToEnd(os, 129, true, true, 8);
    var rest := EncodeAll(os[1..]);
    HeaderRoundTrip(o, rest);
    assert rest != [];
    assert (Encode(o) + rest)[|Encode(o)|..] == rest;
    assert Pow(128, 1) == 128 * Pow(128, 0);
    TrapFamily(FeedOf(EncodeAll(os)), 129, 1);
  }

  lemma {:induction false} PowGrows(k: nat)
    requires k >= 2
    ensures Pow(128, k) > 129
  {
    if k == 2 {
      assert Pow(128, 2) == 128 * (128 * Pow(128, 0));
    } else {
      PowGrows(k - 1);
    }
  }
}
