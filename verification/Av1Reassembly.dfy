/** Whole-run correctness of the AV1 packetizer: what a receiver puts together again. */
module Av1Reassembly {
  import opened Bytes
  import opened Av1Obu
  import opened Av1Fragment
  import opened Av1Packets

  // ---------------------------------------------------------------- joining element lists

  /** Units seen when the elements `ds` are followed by the units `us`; with `open` the last
      element and the first unit are halves of one unit. */
  function Join(ds: seq<seq<byte>>, open: bool, us: seq<seq<byte>>): (r: seq<seq<byte>>)
    requires ds != [] && (open ==> us != [])
    ensures |r| == |ds| + |us| - Bit(open)
  {
    if open then ds[..|ds| - 1] + [ds[|ds| - 1] + us[0]] + us[1..] else ds + us
  }

  lemma JoinPrepend(d: seq<byte>, ds: seq<seq<byte>>, open: bool, us: seq<seq<byte>>)
    requires ds != [] && (open ==> us != [])
    ensures Join([d] + ds, open, us) == [d] + Join(ds, open, us)
  {
    if open {
      assert ([d] + ds)[..|ds|] == [d] + ds[..|ds| - 1];
    }
  }

  lemma {:induction false} JoinFlatten(ds: seq<seq<byte>>, open: bool, us: seq<seq<byte>>)
    requires ds != [] && (open ==> us != [])
    ensures Flatten(Join(ds, open, us)) == Flatten(ds) + Flatten(us)
  {
    if open {
      var init, last := ds[..|ds| - 1], ds[|ds| - 1];
      calc {
        Flatten(Join(ds, open, us));
        { FlattenConcat(init + [last + us[0]], us[1..]);
          FlattenConcat(init, [last + us[0]]);
          FlattenOne(last + us[0]); }
        Flatten(init) + (last + us[0]) + Flatten(us[1..]);
        (Flatten(init) + last) + (us[0] + Flatten(us[1..]));
        { FlattenConcat(init, [last]); FlattenOne(last); assert init + [last] == ds; }
        Flatten(ds) + Flatten(us);
      }
    } else {
      FlattenConcat(ds, us);
    }
  }

  lemma FlattenOne(d: seq<byte>)
    ensures Flatten([d]) == d
  {
    assert Flatten([d]) == d + Flatten([d][1..]);
  }

  // ---------------------------------------------------------------- one packet

  /** Elements of one packet that end in mid-OBU although another element follows: one for each
      call of the fragment choice that lands in its trap. */
  function FillTraps(f: Feed, room: nat, count: nat): nat
    requires Wf(f) && f.Unit?
    decreases room
  {
    var r := FragmentLen(room, |f.data|, f.last, count + 1);
    FragmentFits(room, |f.data|, f.last, count + 1);
    Bit(Trap(room, |f.data|, f.last, count + 1))
    + if Continues(f, r) then FillTraps(After(f, r.1), room - Taken(r), count + 1) else 0
  }

  /** What filling a packet keeps: no byte is lost, and the units regroup into the original ones
      with one extra cut per trap. */
  predicate Kept(f: Feed, p: Fill, traps: nat) {
    p.Filled? ==>
      && Verdict(p.rest) == Verdict(f)
      && (p.open ==> p.rest.Unit?)
      && if p.es == [] then p.rest == f && traps == 0
         else var j := Join(Datas(p.es), p.open, Units(p.rest));
              && Flatten(j) == Flatten(Units(f))
              && |j| == |Units(f)| + traps
              && (traps == 0 ==> j == Units(f))
  }

  lemma AfterJoins(f: Feed, len: nat)
    requires Wf(f) && f.Unit? && 1 <= len <= |f.data|
    ensures var o := len < |f.data|;
            && (o ==> After(f, len).Unit?)
            && Verdict(After(f, len)) == Verdict(f)
            && Join([f.data[..len]], o, Units(After(f, len))) == Units(f)
  {
    if len < |f.data| {
      assert f.data[..len] + f.data[len..] == f.data;
    } else {
      assert f.data[..len] == f.data;
    }
  }

  lemma KeptSingle(f: Feed, e: Element, prefix: bool)
    requires Wf(f) && f.Unit? && 1 <= |e.data| <= |f.data| && e.data == f.data[..|e.data|]
    ensures Kept(f, Filled([e], After(f, |e.data|), |e.data| < |f.data|, prefix), 0)
  {
    AfterJoins(f, |e.data|);
    assert Datas([e]) == [e.data];
  }

  lemma {:induction false} KeptPrepend(f: Feed, e: Element, q: Fill, traps: nat)
    requires Wf(f) && f.Unit? && 1 <= |e.data| <= |f.data| && e.data == f.data[..|e.data|]
    requires q.Filled? && q.es != [] && Kept(After(f, |e.data|), q, traps)
    ensures Kept(f, Prepend(e, q), traps + Bit(|e.data| < |f.data|))
  {
    var d, next := e.data, After(f, |e.data|);
    AfterJoins(f, |d|);
    assert Datas([e] + q.es) == [d] + Datas(q.es) by { DatasPrepend(e, q.es); }
    hide After, Units, Wf, Datas, Join, Verdict;
    JoinPrepend(d, Datas(q.es), q.open, Units(q.rest));
    OneMoreUnit(d, Join(Datas(q.es), q.open, Units(q.rest)), |d| < |f.data|, Units(next), Units(f), traps);
  }

  lemma DatasPrepend(e: Element, es: seq<Element>)
    ensures Datas([e] + es) == [e.data] + Datas(es)
  {
    assert ([e] + es)[1..] == es;
  }

  /** A piece d in front of pieces j that regroup into us, where d and us regroup into all. */
  lemma {:induction false} OneMoreUnit(d: seq<byte>, j: seq<seq<byte>>, cut: bool,
                                       us: seq<seq<byte>>, all: seq<seq<byte>>, traps: nat)
    requires (cut ==> us != []) && Join([d], cut, us) == all
    requires Flatten(j) == Flatten(us) && |j| == |us| + traps && (traps == 0 ==> j == us)
    ensures Flatten([d] + j) == Flatten(all) && |[d] + j| == |all| + traps + Bit(cut)
    ensures !cut && traps == 0 ==> [d] + j == all
  {
    assert ([d] + j)[1..] == j;
    FlattenOne(d);
    JoinFlatten([d], cut, us);
  }

  lemma KeptTrivially(f: Feed, p: Fill)
    requires p.Failed? || (p.es == [] && p.rest == f && f.Unit?)
    ensures Kept(f, p, 0) && (p.Failed? ==> forall n: nat :: Kept(f, p, n))
  {
  }

  /** A packet takes no further element exactly when a prefix is due and at most one byte is free. */
  lemma FillStops(f: Feed, room: nat, count: nat, open: bool)
    requires Wf(f) && f.Unit? && Ready(room, count)
    ensures var p := FillFrom(f, room, count, open);
            if count >= 3 && room <= 1 then p == Filled([], f, open, false) && FillTraps(f, room, count) == 0
            else p.Failed? || p.es != []
  {
    hide FragmentLen;
    FragmentFits(room, |f.data|, f.last, count + 1);
  }

  lemma TrapsUnfold(f: Feed, room: nat, count: nat)
    requires Wf(f) && f.Unit?
    ensures var r := FragmentLen(room, |f.data|, f.last, count + 1);
            && Fits(r, room, |f.data|, count + 1) && r.1 <= |f.data| && Taken(r) <= room
            && FillTraps(f, room, count) ==
                 Bit(r.0 && r.1 < |f.data| && count < 3)
                 + if Continues(f, r) then FillTraps(After(f, r.1), room - Taken(r), count + 1) else 0
  {
    hide FragmentLen, Trap, Taken, After, Pending, Fits, FillFrom, FillStep;
    FillUnfold(f, room, count, true);
    TrapCuts(room, |f.data|, f.last, count + 1);
  }

  /** An element, and then what the rest of the packet keeps. */
  lemma KeepsOn(f: Feed, room: nat, count: nat, r: (bool, nat), q: Fill, traps: nat)
    requires Wf(f) && f.Unit? && Fits(r, room, |f.data|, count + 1) && Continues(f, r)
    requires q.Filled? && Kept(After(f, r.1), q, traps)
    requires if count + 1 >= 3 && room - Taken(r) <= 1 then
               q == Filled([], After(f, r.1), r.1 < |f.data|, false) && traps == 0
             else q.es != []
    ensures Kept(f, Prepend(Element(r.0, f.data[..r.1]), q), traps + Bit(r.0 && r.1 < |f.data| && count < 3))
  {
    var e := Element(r.0, f.data[..r.1]);
    hide Kept, Wf, After;
    if q.es == [] {
      assert [e] + q.es == [e];
      KeptSingle(f, e, false);
    } else {
      KeptPrepend(f, e, q, traps);
    }
  }

  /** One turn of the filling loop keeps what the later ones keep. */
  lemma KeptStep(f: Feed, room: nat, count: nat, open: bool, r: (bool, nat), q: Fill, traps: nat)
    requires Wf(f) && f.Unit? && Fits(r, room, |f.data|, count + 1) && r.1 <= |f.data|
    requires Continues(f, r) && q.Filled? ==>
               && Kept(After(f, r.1), q, traps)
               && if count + 1 >= 3 && room - Taken(r) <= 1 then
                    q == Filled([], After(f, r.1), r.1 < |f.data|, false) && traps == 0
                  else q.es != []
    requires !Continues(f, r) ==> traps == 0
    ensures Kept(f, FillStep(f, open, r, q), traps + Bit(r.0 && r.1 < |f.data| && count < 3))
  {
    hide Kept, After, Wf;
    var e := Element(r.0, f.data[..r.1]);
    if r.1 == 0 || After(f, r.1).Broken? || (Continues(f, r) && q.Failed?) {
      KeptTrivially(f, FillStep(f, open, r, q));
    } else if Continues(f, r) {
      KeepsOn(f, room, count, r, q, traps);
    } else {
      KeptSingle(f, e, r.0);
      WholeUnit(f, r);
    }
  }

  lemma WholeUnit(f: Feed, r: (bool, nat))
    requires Wf(f) && f.Unit? && 0 < r.1 <= |f.data| && !Continues(f, r)
    ensures !(r.0 && r.1 < |f.data|)
  {
  }

  lemma {:induction false} FillKeeps(f: Feed, room: nat, count: nat, open: bool)
    requires Wf(f) && f.Unit? && Ready(room, count)
    ensures Kept(f, FillFrom(f, room, count, open), FillTraps(f, room, count))
    decreases room
  {
    hide FragmentLen, Kept, FillFrom, FillTraps, FillStep, Fits, Taken, Ready, After;
    FillUnfold(f, room, count, open);
    TrapsUnfold(f, room, count);
    var r := FragmentLen(room, |f.data|, f.last, count + 1);
    if Continues(f, r) {
      var next, o := After(f, r.1), r.1 < |f.data|;
      FillKeeps(next, room - Taken(r), count + 1, o);
      FillStops(next, room - Taken(r), count + 1, o);
      KeptStep(f, room, count, open, r, FillFrom(next, room - Taken(r), count + 1, o),
               FillTraps(next, room - Taken(r), count + 1));
    } else {
      KeptStep(f, room, count, open, r, Failed(OK), 0);
    }
  }

  lemma {:induction false} FillSucceeds(f: Feed, room: nat, count: nat, open: bool)
    requires Wf(f) && f.Unit? && Verdict(f) == OK
    ensures FillFrom(f, room, count, open).Filled?
    decreases room
  {
    hide FragmentLen;
    var r := FragmentLen(room, |f.data|, f.last, count + 1);
    FragmentFits(room, |f.data|, f.last, count + 1);
    if Continues(f, r) {
      FillSucceeds(After(f, r.1), room - Taken(r), count + 1, r.1 < |f.data|);
    }
  }

  lemma TrapCuts(room: nat, left: nat, last: bool, count: nat)
    requires left >= 1 && count >= 1
    ensures var r := FragmentLen(room, left, last, count);
            Trap(room, left, last, count) <==> r.0 && r.1 < left && count <= 3
  {
    if count <= 3 { SplitIffTrap(room, left, last, count); }
  }

  // ---------------------------------------------------------------- receiver

  /** Units complete so far, and the unit that the last packet left open. */
  datatype Assembly = Assembly(done: seq<seq<byte>>, partial: Option<seq<byte>>)

  /** Adds the elements of one packet; the first one completes the open unit, if there is one. */
  function Extend(a: Assembly, es: seq<seq<byte>>, y: bool): Assembly
    requires es != []
  {
    var ds := if a.partial.Some? then [a.partial.value + es[0]] + es[1..] else es;
    if y then Assembly(a.done + ds[..|ds| - 1], Some(ds[|ds| - 1])) else Assembly(a.done + ds, None)
  }

  /** Takes one packet apart by its aggregation header; None when it is malformed or its Z bit
      contradicts the previous packet's Y bit. */
  function Absorb(a: Assembly, p: Packet, groups: nat): Option<Assembly>
    requires groups >= 1
  {
    var h := AggrDecode(p.hdr);
    match Parse(h.w, p.payload, groups)
    case None => None
    case Some(es) =>
      if es == [] || h.z != a.partial.Some? then None else Some(Extend(a, es, h.y))
  }

  function AbsorbAll(a: Assembly, ps: seq<Packet>, groups: nat): Option<Assembly>
    requires groups >= 1
    decreases |ps|
  {
    if ps == [] then Some(a)
    else match Absorb(a, ps[0], groups)
      case None => None
      case Some(b) => AbsorbAll(b, ps[1..], groups)
  }

  predicate GoodFirst(f: Feed, p: Fill) {
    && p.Filled? && p.es != [] && Wf(p.rest) && Verdict(p.rest) == OK && (p.open ==> p.rest.Unit?)
    && Pending(p.rest) < Pending(f)
  }

  lemma FirstIsGood(f: Feed, room: nat)
    requires Wf(f) && f.Unit? && room >= 1 && Verdict(f) == OK
    ensures GoodFirst(f, FillFrom(f, room, 0, false))
  {
    hide FillFrom, FillTraps, FragmentLen;
    FillShape(f, room, 0, false);
    FillSucceeds(f, room, 0, false);
    FillKeeps(f, room, 0, false);
    FillStops(f, room, 0, false);
  }

  /** The first packet of what is left to send; it never depends on the previous packet. */
  function First(f: Feed, room: nat): (p: Fill)
    requires Wf(f) && f.Unit? && room >= 1 && Verdict(f) == OK
    ensures GoodFirst(f, p)
  {
    FirstIsGood(f, room);
    FillFrom(f, room, 0, false)
  }

  lemma FirstIgnoresOpen(f: Feed, room: nat, z: bool)
    requires Wf(f) && f.Unit? && room >= 1 && Verdict(f) == OK
    ensures FillFrom(f, room, 0, z) == First(f, room)
  {
    hide FragmentLen;
    FragmentFits(room, |f.data|, f.last, 1);
  }

  /** The unit list a receiver ends up with. */
  function Received(f: Feed, room: nat): (us: seq<seq<byte>>)
    requires Wf(f) && room >= 1 && Verdict(f) == OK
    ensures f.Unit? ==> us != []
    decreases Pending(f)
  {
    if !f.Unit? then [] else var p := First(f, room); Join(Datas(p.es), p.open, Received(p.rest, room))
  }

  /** Calls of the fragment choice, over the whole run, that land in the trap. */
  function RunTraps(f: Feed, room: nat): nat
    requires Wf(f) && room >= 1 && Verdict(f) == OK
    decreases Pending(f)
  {
    if !f.Unit? then 0 else FillTraps(f, room, 0) + RunTraps(First(f, room).rest, room)
  }

  /** The receiver loses no byte, sees one unit more per trap, and the exact units without traps. */
  lemma {:induction false} ReceivedUnits(f: Feed, room: nat)
    requires Wf(f) && room >= 1 && Verdict(f) == OK
    ensures Flatten(Received(f, room)) == Flatten(Units(f))
    ensures |Received(f, room)| == |Units(f)| + RunTraps(f, room)
    ensures RunTraps(f, room) == 0 ==> Received(f, room) == Units(f)
    decreases Pending(f)
  {
    hide FillFrom, FillTraps;
    if f.Unit? {
      var p := First(f, room);
      FillKeeps(f, room, 0, false);
      FirstIgnoresOpen(f, room, false);
      ReceivedUnits(p.rest, room);
      JoinFlatten(Datas(p.es), p.open, Units(p.rest));
      JoinFlatten(Datas(p.es), p.open, Received(p.rest, room));
    }
  }
}
