/** How well the AV1 packetizer fills its packets, and when it may leave the last prefix out. */
module Av1Full {
  import opened Bytes
  import Leb128
  import opened Av1Obu
  import opened Av1Fragment
  import opened Av1Packets

  /** A unit marked as the last one ends the feed. */
  predicate LastEnds(f: Feed) {
    f.Unit? ==> (f.last ==> f.next.End?) && LastEnds(f.next)
  }

  lemma {:induction false} FeedLastEnds(s: seq<byte>)
    ensures LastEnds(FeedOf(s))
    decreases |s|
  {
    if |s| >= 2 && DecodeHeader(s).Good? {
      var d := DecodeHeader(s);
      FeedLastEnds(s[d.hdrLen + d.size..]);
    }
  }

  /** The bytes that a packet may leave free although more is to be sent: the length prefix that the
      last element would have needed, and one byte of an element after it. */
  function Slack(room: nat): nat {
    PrefixLen(room) + 1
  }

  lemma SlackGrows(a: nat, b: nat)
    requires a <= b
    ensures Slack(a) <= Slack(b)
  {
    Leb128.SizeMonotone(a, b);
  }

  /** An unprefixed element that ends its unit early enough for a prefix is not followed by anything. */
  lemma {:induction false} BareFills(room: nat, left: nat, last: bool, count: nat)
    requires left >= 1 && count >= 1
    ensures var r := FragmentLen(room, left, last, count);
            !r.0 && !(last && r.1 == left) ==> room <= r.1 + Slack(room)
  {
    hide WithPrefix;
    FragmentFits(room, left, last, count);
    if 1 <= room && count <= 3 && !last && room > left {
      WithPrefixWhole(left, room);
      SlackGrows(left, room);
    }
  }

  /** The feed ends with a unit that is not marked as the last one: only skipped units follow it. */
  predicate Trailing(f: Feed) {
    f.Unit? && if f.next.End? then !f.last else Trailing(f.next)
  }

  /** A packet after which more is to be sent is full. Its last element is prefixed only where every
      element has to be, or where the packetizer was looking out for units that it then skipped. */
  predicate Full(f: Feed, p: Fill, room: nat, count: nat) {
    p.Filled? ==>
      && (p.rest.Unit? ==> room <= |WireAll(p.es)| + Slack(room))
      && (p.prefix && count + |p.es| <= MAX_OBUS ==> p.rest.End? && Trailing(f))
  }

  lemma TrailingAfter(f: Feed, len: nat)
    requires Wf(f) && f.Unit? && len <= |f.data| && After(f, len).Unit?
    ensures Trailing(After(f, len)) ==> Trailing(f)
  {
  }

  lemma FullPrepend(f: Feed, g: Feed, e: Element, q: Fill, room: nat, count: nat)
    requires |Wire(e)| <= room && Full(g, q, room - |Wire(e)|, count + 1) && (Trailing(g) ==> Trailing(f))
    ensures Full(f, Prepend(e, q), room, count)
  {
    hide Wire, Slack;
    if q.Filled? {
      assert ([e] + q.es)[1..] == q.es;
      SlackGrows(room - |Wire(e)|, room);
    }
  }

  lemma FullAlone(f: Feed, room: nat, count: nat, r: (bool, nat))
    requires Wf(f) && f.Unit? && LastEnds(f) && r == FragmentLen(room, |f.data|, f.last, count + 1)
    requires 1 <= r.1 <= |f.data| && !Continues(f, r) && !After(f, r.1).Broken?
    ensures Full(f, Filled([Element(r.0, f.data[..r.1])], After(f, r.1), r.1 < |f.data|, r.0), room, count)
  {
    hide FragmentLen, Slack;
    var e := Element(r.0, f.data[..r.1]);
    assert WireAll([e]) == Wire(e) + WireAll([]);
    BareFills(room, |f.data|, f.last, count + 1);
    LastIsBare(room, |f.data|, count + 1);
  }

  /** The last unit goes without a prefix as long as there are at most three elements. */
  lemma LastIsBare(room: nat, left: nat, count: nat)
    requires left >= 1
    ensures count <= MAX_OBUS ==> !FragmentLen(room, left, true, count).0
  {
  }

  lemma {:induction false} FillIsFull(f: Feed, room: nat, count: nat, open: bool)
    requires Wf(f) && f.Unit? && LastEnds(f) && Ready(room, count)
    ensures Full(f, FillFrom(f, room, count, open), room, count)
    decreases room
  {
    hide FragmentLen, FillFrom, Slack, Full;
    var r := FragmentLen(room, |f.data|, f.last, count + 1);
    FillUnfold(f, room, count, open);
    var e := Element(r.0, f.data[..r.1]);
    if r.1 == 0 {
      NothingFits(f, room, count, open);
    } else if Continues(f, r) {
      var next, o := After(f, r.1), r.1 < |f.data|;
      FillIsFull(next, room - Taken(r), count + 1, o);
      assert |Wire(e)| == Taken(r);
      TrailingAfter(f, r.1);
      FullPrepend(f, next, e, FillFrom(next, room - Taken(r), count + 1, o), room, count);
    } else if !After(f, r.1).Broken? {
      FullAlone(f, room, count, r);
    } else {
      FailedIsFull(f, After(f, r.1).err, room, count);
    }
  }

  lemma NothingFits(f: Feed, room: nat, count: nat, open: bool)
    requires f.Unit? && room <= 1
    ensures Full(f, Filled([], f, open, false), room, count)
  {
  }

  lemma FailedIsFull(f: Feed, e: Errno, room: nat, count: nat)
    ensures Full(f, Failed(e), room, count)
  {
  }

  /** The W field names the number of elements whenever there are at most three of them and more is to
      be sent, and says zero whenever there are more than three. */
  lemma WidthExactly(f: Feed, room: nat, z: bool)
    requires Wf(f) && f.Unit? && LastEnds(f) && room >= 1
    ensures var p := FillFrom(f, room, 0, z);
            p.Filled? && (p.rest.Unit? || !Trailing(f)) ==>
              Width(p) == if |p.es| <= MAX_OBUS then |p.es| else 0
  {
    hide FillFrom, LastEnds, Trailing, WireAll, Slack;
    FillIsFull(f, room, 0, z);
  }

  lemma {:induction false} FillLeavesMarks(f: Feed, room: nat, count: nat, open: bool)
    requires Wf(f) && f.Unit? && LastEnds(f)
    ensures var p := FillFrom(f, room, count, open); p.Filled? ==> LastEnds(p.rest)
    decreases room
  {
    hide FragmentLen, FillFrom;
    var r := FragmentLen(room, |f.data|, f.last, count + 1);
    FillUnfold(f, room, count, open);
    if r.1 > 0 && Continues(f, r) {
      FillLeavesMarks(After(f, r.1), room - Taken(r), count + 1, r.1 < |f.data|);
    }
  }

  /** Every packet of a run but its final one is full. */
  lemma {:induction false} RunIsFull(f: Feed, room: nat, marker: bool, z: bool, n: bool, i: nat)
    requires Wf(f) && LastEnds(f) && room >= 1 && i + 1 < |Packets(f, room, marker, z, n).packets|
    ensures room <= |Packets(f, room, marker, z, n).packets[i].payload| + Slack(room)
    decreases Pending(f)
  {
    hide FillFrom, LastEnds, Slack, Trailing, Wf, WireAll;
    var p := FillFrom(f, room, 0, z);
    FillLeavesLess(f, room, z);
    FillIsFull(f, room, 0, z);
    FillLeavesMarks(f, room, 0, z);
    if i > 0 { RunIsFull(p.rest, room, marker, p.open, false, i - 1); }
  }

  /** Units of any stream share packets: all packets but the final one are full. */
  lemma StreamFillsPackets(buf: seq<byte>, room: nat, marker: bool, n: bool, i: nat)
    requires room >= 1 && i + 1 < |Packets(FeedOf(buf), room, marker, false, n).packets|
    ensures room <= |Packets(FeedOf(buf), room, marker, false, n).packets[i].payload| + Slack(room)
  {
    hide FeedOf, Packets, Slack;
    FeedLastEnds(buf);
    RunIsFull(FeedOf(buf), room, marker, false, n, i);
  }
}
