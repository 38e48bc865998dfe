/** H.264 RTP payloads: single NAL unit packets and FU-A fragments (sections 5.6 and 5.8 of RFC 6184). */
module H264 {
  import opened Bytes
  import opened AnnexB
  import opened Depacketizer

  const FU_A := 28

  // ---------------------------------------------------------------- sender

  function FuHdr(first: bool, last: bool, typ: nat): byte
    requires typ < 32
  {
    Bit(first) * 128 + Bit(last) * 64 + typ
  }

  /** The fragments of `body`, at most `sz` bytes each. */
  function Fragments(ind: byte, typ: nat, first: bool, last: bool, marker: bool, body: seq<byte>, sz: nat): seq<Packet>
    requires typ < 32 && sz >= 1
    decreases |body|
  {
    if |body| > sz then
      [Packet(false, [ind, FuHdr(first, false, typ)], body[..sz])]
      + Fragments(ind, typ, false, last, marker, body[sz..], sz)
    else [Packet(marker && last, [ind, FuHdr(first, last, typ)], body)]
  }

  /** The packets of one NAL unit; `first` and `last` say whether it begins and ends here. */
  function Send(first: bool, last: bool, marker: bool, hdr: byte, body: seq<byte>, maxsz: nat): seq<Packet>
    requires maxsz > 2
  {
    if first && last && |body| <= maxsz then [Packet(marker, [hdr], body)]
    else Fragments(hdr / 32 % 4 * 32 + FU_A, hdr % 32, first, last, marker, body, maxsz - 2)
  }

  /** The packets of a list of NAL units up to an empty one; the marker goes on the last unit. */
  function PacketsOf(ns: seq<seq<byte>>, maxsz: nat): seq<Packet>
    requires maxsz > 2
  {
    if ns == [] || ns[0] == [] then []
    else Send(true, true, |ns| == 1, ns[0][0], ns[0][1..], maxsz) + PacketsOf(ns[1..], maxsz)
  }

  /** One turn of the fragment loop, and its last fragment. */
  lemma {:induction false} FragmentTurn(ind: byte, typ: nat, first: bool, last: bool, marker: bool,
                                        buf: seq<byte>, off: nat, sz: nat)
    requires typ < 32 && sz >= 1 && off <= |buf|
    ensures var f := Fragments(ind, typ, first, last, marker, buf[off..], sz);
            if |buf| - off > sz then
              f == [Packet(false, [ind, FuHdr(first, false, typ)], buf[off..off + sz])]
                   + Fragments(ind, typ, false, last, marker, buf[off + sz..], sz)
            else f == [Packet(marker && last, [ind, FuHdr(first, last, typ)], buf[off..])]
  {
    if |buf| - off > sz { assert buf[off..][..sz] == buf[off..off + sz] && buf[off..][sz..] == buf[off + sz..]; }
  }

  method NalSend(first: bool, last: bool, marker: bool, hdr: byte, buf: seq<byte>, maxsz: nat)
    returns (ps: seq<Packet>)
    requires maxsz > 2
    ensures ps == Send(first, last, marker, hdr, buf, maxsz)
  {
    if first && last && |buf| <= maxsz {
      return [Packet(marker, [hdr], buf)];
    }
    hide Fragments;
    var typ: nat, nri := hdr % 32, hdr / 32 % 4 * 32;
    var sz := maxsz - 2;
    var ind: byte := nri + FU_A;
    var fu: byte := if first then 128 + typ else typ;
    var off: nat := 0;
    ps := [];
    while |buf| - off > sz
      invariant off <= |buf| && fu == FuHdr(first && off == 0, false, typ)
      invariant ps + Fragments(ind, typ, first && off == 0, last, marker, buf[off..], sz)
             == Fragments(ind, typ, first, last, marker, buf, sz)
      decreases |buf| - off
    {
      var p := Packet(false, [ind, fu], buf[off..off + sz]);
      FragmentTurn(ind, typ, first && off == 0, last, marker, buf, off, sz);
      ConcatAssoc(ps, [p], Fragments(ind, typ, false, last, marker, buf[off + sz..], sz));
      ps := ps + [p];
      off := off + sz;
      fu := typ;
    }
    FragmentTurn(ind, typ, first && off == 0, last, marker, buf, off, sz);
    if last {
      fu := fu + 64;
    }
    ps := ps + [Packet(marker && last, [ind, fu], buf[off..])];
  }

  lemma {:induction false} PacketsTurn(n: seq<byte>, ns: seq<seq<byte>>, maxsz: nat)
    requires maxsz > 2
    ensures PacketsOf([n] + ns, maxsz) ==
              if n == [] then [] else Send(true, true, ns == [], n[0], n[1..], maxsz) + PacketsOf(ns, maxsz)
    ensures PacketsOf([], maxsz) == []
  {
    assert ([n] + ns)[1..] == ns;
  }

  lemma NextUnit(all: seq<seq<byte>>, k: nat, n: seq<byte>, ns: seq<seq<byte>>)
    requires k <= |all| && all[k..] == [n] + ns
    ensures k < |all| && all[k] == n && all[k + 1..] == ns && all[k..] == [n] + all[k + 1..]
  {
    assert all[k] == all[k..][0] && all[k + 1..] == all[k..][1..];
  }

  lemma {:induction false} LastUnit(s: seq<byte>, r: nat)
    requires r <= |s|
    ensures Nals(s, r, true) == [] <==> r == |s|
  {
    hide Find, SkipZeros;
  }

  /** Packetizes an Annex-B stream. The first byte of a NAL unit is its header; at an empty unit, where
      two start codes meet, the length of what follows is minus one and the run is not defined further. */
  method Packetize(buf: seq<byte>, pktsize: nat, base: nat) returns (defined: bool, ps: seq<Packet>)
    requires pktsize > 2
    ensures defined <==> !CodesMeet(buf)
    ensures defined <==> NonEmpty(Split(buf, true))
    ensures ps == PacketsOf(Split(buf, true), pktsize)
  {
    hide Find, SkipZeros, Send, CodesMeet, Nals, PacketsOf;
    EmptyExactly(buf);
    PacketsTurn([], [], pktsize);
    var r := FindCode(buf, 0, base, true);
    ps := [];
    ghost var all := Split(buf, true);
    ghost var k := 0;
    while r < |buf|
      invariant 0 <= k <= |all| && r <= |buf| && Nals(buf, r, true) == all[k..]
      invariant forall i :: 0 <= i < k ==> all[i] != []
      invariant ps + PacketsOf(all[k..], pktsize) == PacketsOf(all, pktsize)
      decreases |buf| - r
    {
      NalsTurn(buf, r, true);
      var q := SkipCode(buf, r);
      var r1 := FindCode(buf, q, base, true);
      NextUnit(all, k, buf[q..r1], Nals(buf, r1, true));
      PacketsTurn(buf[q..r1], all[k + 1..], pktsize);
      if r1 == q {
        assert all[k] == [] && ps + [] == ps;
        return false, ps;
      }
      LastUnit(buf, r1);
      var one := NalSend(true, true, r1 >= |buf|, buf[q], buf[q + 1..r1], pktsize);
      assert buf[q..r1][1..] == buf[q + 1..r1];
      ConcatAssoc(ps, one, PacketsOf(all[k + 1..], pktsize));
      ps := ps + one;
      r, k := r1, k + 1;
    }
    NalsTurn(buf, |buf|, true);
    assert all[k..] == [] && ps + [] == ps;
    defined := true;
  }

  // ---------------------------------------------------------------- receiver

  /** Takes one packet. A single NAL unit or a start fragment must not interrupt a fragmented unit,
      a later fragment must continue one, and fragments are neither empty nor start and end at once. */
  function Absorb(rx: Rx, w: seq<byte>): Option<Rx> {
    if w == [] then None
    else if 1 <= w[0] % 32 <= 23 then
      if rx.part.Some? then None else Some(Rx(rx.done + [w], None))
    else if w[0] % 32 != FU_A || |w| < 3 then None
    else
      var start, end := w[1] / 128 == 1, w[1] / 64 % 2 == 1;
      if (start && end) || w[1] / 32 % 2 == 1 || start == rx.part.Some? then None
      else
        var part := if start then [w[0] / 32 * 32 + w[1] % 32] + w[2..] else rx.part.value + w[2..];
        if end then Some(Rx(rx.done + [part], None)) else Some(Rx(rx.done, Some(part)))
  }

  lemma AbsorbFragment(rx: Rx, ind: byte, typ: nat, start: bool, end: bool, body: seq<byte>)
    requires typ < 32 && body != [] && ind % 32 == FU_A && ind / 128 == 0 && start == rx.part.None? && !(start && end)
    ensures var part := if start then [ind / 32 * 32 + typ] + body else rx.part.value + body;
            Absorb(rx, [ind, FuHdr(start, end, typ)] + body) ==
              Some(if end then Rx(rx.done + [part], None) else Rx(rx.done, Some(part)))
  {
    var fu := FuHdr(start, end, typ);
    assert fu / 128 == Bit(start) && fu / 64 % 2 == Bit(end) && fu / 32 % 2 == 0 && fu % 32 == typ;
    assert ([ind, fu] + body)[2..] == body;
  }

  lemma {:induction false} FragmentsReassemble(rx: Rx, ind: byte, typ: nat, marker: bool, body: seq<byte>, sz: nat)
    requires typ < 32 && sz >= 1 && body != [] && ind % 32 == FU_A && ind / 128 == 0 && rx.part.Some?
    ensures AbsorbAll(Absorb, rx, Fragments(ind, typ, false, true, marker, body, sz))
         == Some(Rx(rx.done + [rx.part.value + body], None))
    decreases |body|
  {
    hide Absorb, FuHdr;
    if |body| > sz {
      var next := Rx(rx.done, Some(rx.part.value + body[..sz]));
      AbsorbFragment(rx, ind, typ, false, false, body[..sz]);
      FragmentsReassemble(next, ind, typ, marker, body[sz..], sz);
      assert body == body[..sz] + body[sz..];
      ConcatAssoc(rx.part.value, body[..sz], body[sz..]);
      var tail := Fragments(ind, typ, false, true, marker, body[sz..], sz);
      var p := Packet(false, [ind, FuHdr(false, false, typ)], body[..sz]);
      assert ([p] + tail)[1..] == tail;
    } else {
      AbsorbFragment(rx, ind, typ, false, true, body);
      AbsorbOne(Absorb, rx, Packet(marker, [ind, FuHdr(false, true, typ)], body));
    }
  }

  /** A NAL unit that RTP can carry: forbidden bit clear and a type between 1 and 23. */
  predicate Carriable(n: seq<byte>) {
    n != [] && n[0] < 128 && 1 <= n[0] % 32 <= 23
  }

  /** The FU indicator keeps the NRI bits and, with the type, restores the header. */
  lemma IndicatorFacts(hdr: byte)
    requires hdr < 128
    ensures var ind := hdr / 32 % 4 * 32 + FU_A;
            ind < 128 && ind % 32 == FU_A && ind / 32 * 32 + hdr % 32 == hdr
  {
  }

  /** A unit cut into fragments from its beginning to its end. */
  lemma {:induction false} CutReassembles(rx: Rx, ind: byte, typ: nat, hdr: byte, marker: bool,
                                          body: seq<byte>, sz: nat)
    requires typ < 32 && 1 <= sz < |body| && ind % 32 == FU_A && ind / 128 == 0
    requires ind / 32 * 32 + typ == hdr && rx.part.None?
    ensures AbsorbAll(Absorb, rx, Fragments(ind, typ, true, true, marker, body, sz))
         == Some(Rx(rx.done + [[hdr] + body], None))
  {
    hide Absorb, FuHdr;
    var first := Packet(false, [ind, FuHdr(true, false, typ)], body[..sz]);
    var tail := Fragments(ind, typ, false, true, marker, body[sz..], sz);
    var next := Rx(rx.done, Some([hdr] + body[..sz]));
    AbsorbFragment(rx, ind, typ, true, false, body[..sz]);
    FragmentsReassemble(next, ind, typ, marker, body[sz..], sz);
    assert body[..sz] + body[sz..] == body;
    ConcatAssoc([hdr], body[..sz], body[sz..]);
    assert ([first] + tail)[1..] == tail;
  }

  lemma {:induction false} SendReassembles(rx: Rx, marker: bool, n: seq<byte>, maxsz: nat)
    requires maxsz > 2 && Carriable(n) && rx.part.None?
    ensures AbsorbAll(Absorb, rx, Send(true, true, marker, n[0], n[1..], maxsz)) == Some(Rx(rx.done + [n], None))
  {
    var hdr, body := n[0], n[1..];
    assert n == [hdr] + body;
    if |body| <= maxsz {
      AbsorbOne(Absorb, rx, Packet(marker, [hdr], body));
    } else {
      hide Absorb, FuHdr, Fragments, AbsorbAll;
      IndicatorFacts(hdr);
      CutReassembles(rx, hdr / 32 % 4 * 32 + FU_A, hdr % 32, hdr, marker, body, maxsz - 2);
    }
  }

  predicate AllCarriable(ns: seq<seq<byte>>) {
    forall i :: 0 <= i < |ns| ==> Carriable(ns[i])
  }

  /** Reassembling the packets of a list of NAL units gives the list back. */
  lemma {:induction false} PacketsReassemble(rx: Rx, ns: seq<seq<byte>>, maxsz: nat)
    requires maxsz > 2 && AllCarriable(ns) && rx.part.None?
    ensures AbsorbAll(Absorb, rx, PacketsOf(ns, maxsz)) == Some(Rx(rx.done + ns, None))
    decreases |ns|
  {
    hide Send, Carriable;
    if ns == [] {
      assert rx.done + ns == rx.done;
    } else {
      assert Carriable(ns[0]);
      assert ns[0] != [] by { assert Carriable(ns[0]); CarriableNotEmpty(ns[0]); }
      forall i | 0 <= i < |ns| ensures ns[i] != [] { CarriableNotEmpty(ns[i]); }
      var one := Send(true, true, |ns| == 1, ns[0][0], ns[0][1..], maxsz);
      SendReassembles(rx, |ns| == 1, ns[0], maxsz);
      AbsorbConcat(Absorb, rx, one, PacketsOf(ns[1..], maxsz));
      PacketsReassemble(Rx(rx.done + [ns[0]], None), ns[1..], maxsz);
      assert rx.done + [ns[0]] + ns[1..] == rx.done + ns;
    }
  }

  lemma CarriableNotEmpty(n: seq<byte>)
    requires Carriable(n)
    ensures n != []
  {
  }

  /** End to end: from NAL units with 3- or 4-byte start codes to the same NAL units. */
  lemma StreamReassembles(us: seq<Unit>, maxsz: nat)
    requires maxsz > 2 && LegalUnits(us) && AllCarriable(NalsOf(us))
    ensures Split(Stream(us), true) == NalsOf(us)
    ensures NonEmpty(NalsOf(us))
         && AbsorbAll(Absorb, Rx([], None), PacketsOf(Split(Stream(us), true), maxsz)) == Some(Rx(NalsOf(us), None))
  {
    hide Split, Carriable;
    SplitOfStream(us, true);
    FoundExactly(us, true);
    forall i | 0 <= i < |NalsOf(us)| ensures NalsOf(us)[i] != [] { CarriableNotEmpty(NalsOf(us)[i]); }
    PacketsReassemble(Rx([], None), NalsOf(us), maxsz);
    assert [] + NalsOf(us) == NalsOf(us);
  }

  // ---------------------------------------------------------------- sizes and markers

  lemma {:induction false} FragmentSizes(ind: byte, typ: nat, first: bool, marker: bool, body: seq<byte>, sz: nat)
    requires typ < 32 && sz >= 1
    ensures var ps := Fragments(ind, typ, first, true, marker, body, sz);
            && (forall i :: 0 <= i < |ps| ==> |Wire(ps[i])| <= sz + 2)
            && (forall i :: 0 <= i < |ps| ==> ps[i].marker == (marker && i == |ps| - 1))
            && (|body| > sz ==> |ps| >= 2)
    decreases |body|
  {
    if |body| > sz {
      FragmentSizes(ind, typ, false, marker, body[sz..], sz);
    }
  }

  /** The i-th of c fragments: its FU header has the start bit on the first and the end bit on the last. */
  function FragmentOf(ind: byte, typ: nat, first: bool, last: bool, marker: bool, body: seq<byte>, sz: nat,
                      i: nat, c: nat): Packet
    requires typ < 32 && i < c
  {
    var starts, ends := first && i == 0, last && i == c - 1;
    Packet(marker && ends, [ind, typ + (if starts then 128 else 0) + (if ends then 64 else 0)], Piece(body, sz, i))
  }

  /** Fragments are as few as can be, and all of them full but the last. */
  lemma {:induction false} FragmentsExactly(ind: byte, typ: nat, first: bool, last: bool, marker: bool,
                                            body: seq<byte>, sz: nat)
    requires typ < 32 && sz >= 1
    ensures var ps := Fragments(ind, typ, first, last, marker, body, sz);
            && Enough(|body|, sz, |ps|)
            && forall i :: 0 <= i < |ps| ==> ps[i] == FragmentOf(ind, typ, first, last, marker, body, sz, i, |ps|)
    decreases |body|
  {
    hide Piece, Enough;
    FirstPiece(body, sz);
    var ps := Fragments(ind, typ, first, last, marker, body, sz);
    if |body| > sz {
      var rest := body[sz..];
      FragmentsExactly(ind, typ, false, last, marker, rest, sz);
      OneMorePiece(|body|, sz, |ps| - 1);
      forall i | 0 < i < |ps| ensures ps[i] == FragmentOf(ind, typ, first, last, marker, body, sz, i, |ps|) {
        NextPiece(body, sz, i - 1);
      }
    } else {
      OnePiece(|body|, sz);
      assert body[..|body|] == body;
    }
  }

  /** A whole unit that fits goes out as it is; any other is cut into fragments of the size allowed,
      whose indicator is 28 with the unit's own importance bits. */
  lemma SendExactly(first: bool, last: bool, marker: bool, hdr: byte, body: seq<byte>, maxsz: nat)
    requires maxsz > 2
    ensures var ps := Send(first, last, marker, hdr, body, maxsz);
            if first && last && |body| <= maxsz then |ps| == 1 && Wire(ps[0]) == [hdr] + body && ps[0].marker == marker
            else
              && Enough(|body|, maxsz - 2, |ps|)
              && var ind := 28 + 32 * (hdr / 32 % 4);
              forall i :: 0 <= i < |ps| ==>
                ps[i] == FragmentOf(ind, hdr % 32, first, last, marker, body, maxsz - 2, i, |ps|)
  {
    hide Fragments, FragmentOf, Enough;
    FragmentsExactly(28 + 32 * (hdr / 32 % 4), hdr % 32, first, last, marker, body, maxsz - 2);
  }

  /** The packets of a NAL unit stay within the size limit if and only if the unit is not exactly
      one byte longer than the limit: a single packet may hold the header on top of a full body. */
  lemma SendWithinLimit(marker: bool, n: seq<byte>, maxsz: nat)
    requires maxsz > 2 && n != []
    ensures var ps := Send(true, true, marker, n[0], n[1..], maxsz);
            && ps != []
            && (forall i :: 0 <= i < |ps| ==> ps[i].marker == (marker && i == |ps| - 1))
            && ((forall i :: 0 <= i < |ps| ==> |Wire(ps[i])| <= maxsz) <==> |n| != maxsz + 1)
  {
    FragmentSizes(n[0] / 32 % 4 * 32 + FU_A, n[0] % 32, true, marker, n[1..], maxsz - 2);
    var ps := Send(true, true, marker, n[0], n[1..], maxsz);
    if |n| <= maxsz + 1 {
      assert |Wire(ps[0])| == |n|;
    }
  }

  /** In a whole stream only the very last packet carries the marker. */
  lemma {:induction false} MarkerOnLastPacket(ns: seq<seq<byte>>, maxsz: nat)
    requires maxsz > 2 && forall i :: 0 <= i < |ns| ==> ns[i] != []
    ensures var ps := PacketsOf(ns, maxsz);
            && (ns != [] ==> ps != [])
            && forall i :: 0 <= i < |ps| ==> ps[i].marker == (i == |ps| - 1)
    decreases |ns|
  {
    hide Send;
    if ns != [] {
      SendWithinLimit(|ns| == 1, ns[0], maxsz);
      MarkerOnLastPacket(ns[1..], maxsz);
    }
  }
}
