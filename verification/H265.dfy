/** H.265 RTP payloads: single NAL unit packets and fragmentation units (section 4.4 of RFC 7798). */
module H265 {
  import opened Bytes
  import opened AnnexB
  import opened Depacketizer

  const FU := 49

  // ---------------------------------------------------------------- NAL unit header

  datatype Nal = Nal(typ: nat, tid: nat)

  function NalEncode(typ: nat, tid: nat): seq<byte> {
    [typ % 64 * 2, tid % 8]
  }

  /** The header, unless the forbidden bit is set or the layer id is not zero. */
  function NalDecode(p: seq<byte>): Option<Nal>
    requires |p| >= 2
  {
    if p[0] / 128 == 1 then None
    else if p[0] % 2 * 32 + p[1] / 8 != 0 then None
    else Some(Nal(p[0] / 2 % 64, p[1] % 8))
  }

  /** A header decodes exactly when encoding its fields gives its two bytes back. */
  lemma NalHeaderExact(p: seq<byte>)
    requires |p| >= 2
    ensures NalDecode(p).Some? <==>
              exists typ, tid {:trigger NalEncode(typ, tid)} ::
                0 <= typ < 64 && 0 <= tid < 8 && p[..2] == NalEncode(typ, tid)
    ensures NalDecode(p).Some? ==>
              var n := NalDecode(p).value; n.typ < 64 && n.tid < 8 && p[..2] == NalEncode(n.typ, n.tid)
  {
    if NalDecode(p).Some? {
      var n := NalDecode(p).value;
      assert p[..2] == NalEncode(n.typ, n.tid);
    }
    forall typ, tid | 0 <= typ < 64 && 0 <= tid < 8 && p[..2] == NalEncode(typ, tid) ensures NalDecode(p).Some? {
      assert p[0] == p[..2][0] == typ * 2 && p[1] == p[..2][1] == tid;
    }
  }

  // ---------------------------------------------------------------- sender

  function FuByte(first: bool, last: bool, typ: nat): byte
    requires typ < 64
  {
    Bit(first) * 128 + Bit(last) * 64 + typ
  }

  function Fragments(tid: nat, typ: nat, first: bool, marker: bool, body: seq<byte>, flen: nat): seq<Packet>
    requires typ < 64 && flen >= 1
    decreases |body|
  {
    if |body| > flen then
      [Packet(false, NalEncode(FU, tid) + [FuByte(first, false, typ)], body[..flen])]
      + Fragments(tid, typ, false, marker, body[flen..], flen)
    else [Packet(marker, NalEncode(FU, tid) + [FuByte(first, true, typ)], body)]
  }

  /** The packets of one NAL unit; none when it has to be fragmented and its header is bad. */
  function Send(marker: bool, n: seq<byte>, maxlen: nat): seq<Packet>
    requires maxlen > 3
  {
    if |n| <= maxlen then [Packet(marker, [], n)]
    else match NalDecode(n)
      case None => []
      case Some(h) => Fragments(h.tid, h.typ, true, marker, n[2..], maxlen - 3)
  }

  predicate Sends(n: seq<byte>, maxlen: nat) {
    |n| <= maxlen || (|n| >= 2 && NalDecode(n).Some?)
  }

  function PacketsOf(ns: seq<seq<byte>>, maxlen: nat): seq<Packet>
    requires maxlen > 3
  {
    if ns == [] then [] else Send(|ns| == 1, ns[0], maxlen) + PacketsOf(ns[1..], maxlen)
  }

  method SendNal(marker: bool, buf: seq<byte>, maxlen: nat) returns (err: Errno, ps: seq<Packet>)
    requires maxlen > 3
    ensures ps == Send(marker, buf, maxlen) && (err == OK <==> Sends(buf, maxlen))
  {
    if |buf| <= maxlen {
      return OK, [Packet(marker, [], buf)];
    }
    var nal := NalDecode(buf);
    if nal.None? {
      return EBADMSG, [];
    }
    var typ, tid, flen := nal.value.typ, nal.value.tid, maxlen - 3;
    NalHeaderExact(buf);
    var hdr := NalEncode(FU, tid);
    var fu: byte := 128 + typ;
    var off: nat := 2;
    ps := [];
    while |buf| - off > flen
      invariant 2 <= off <= |buf| && fu == FuByte(off == 2, false, typ)
      invariant ps + Fragments(tid, typ, off == 2, marker, buf[off..], flen)
             == Fragments(tid, typ, true, marker, buf[2..], flen)
      decreases |buf| - off
    {
      ghost var body, rest := buf[off..], buf[off + flen..];
      var p := Packet(false, hdr + [fu], buf[off..off + flen]);
      assert body[..flen] == buf[off..off + flen] && body[flen..] == rest;
      ConcatAssoc(ps, [p], Fragments(tid, typ, false, marker, rest, flen));
      ps := ps + [p];
      off := off + flen;
      fu := typ;
    }
    fu := fu + 64;
    ps := ps + [Packet(marker, hdr + [fu], buf[off..])];
    err := OK;
  }

  /** Packetizes an Annex-B stream; a NAL unit that cannot be fragmented is skipped and reported. */
  method Packetize(buf: seq<byte>, pktsize: nat, base: nat) returns (ok: bool, ps: seq<Packet>)
    requires pktsize > 3
    ensures ps == PacketsOf(Split(buf, false), pktsize)
    ensures ok <==> forall i :: 0 <= i < |Split(buf, false)| ==> Sends(Split(buf, false)[i], pktsize)
  {
    hide Find, SkipZeros, Send, Sends;
    var r := FindCode(buf, 0, base, false);
    ok, ps := true, [];
    ghost var all := Split(buf, false);
    ghost var k := 0;
    while r < |buf|
      invariant 0 <= k <= |all| && r <= |buf| && Nals(buf, r, false) == all[k..]
      invariant ps + PacketsOf(all[k..], pktsize) == PacketsOf(all, pktsize)
      invariant ok <==> forall i :: 0 <= i < k ==> Sends(all[i], pktsize)
      decreases |buf| - r
    {
      NalsTurn(buf, r, false);
      var q := SkipCode(buf, r);
      var r1 := FindCode(buf, q, base, false);
      NalsTurn(buf, r1, false);
      assert all[k..] == [buf[q..r1]] + Nals(buf, r1, false);
      assert all[k] == buf[q..r1] && all[k..][1..] == all[k + 1..] == Nals(buf, r1, false);
      var err, one := SendNal(r1 >= |buf|, buf[q..r1], pktsize);
      ConcatAssoc(ps, one, PacketsOf(all[k + 1..], pktsize));
      ps := ps + one;
      ok := ok && err == OK;
      r, k := r1, k + 1;
    }
    assert all[k..] == [];
  }

  // ---------------------------------------------------------------- receiver

  function Absorb(rx: Rx, w: seq<byte>): Option<Rx> {
    if |w| < 2 then None
    else if w[0] / 2 % 64 != FU then
      if rx.part.Some? then None else Some(Rx(rx.done + [w], None))
    else if |w| < 4 then None
    else
      var start, end := w[2] / 128 == 1, w[2] / 64 % 2 == 1;
      if (start && end) || start == rx.part.Some? then None
      else
        var hdr := [w[0] / 128 * 128 + w[2] % 64 * 2 + w[0] % 2, w[1]];
        var part := if start then hdr + w[3..] else rx.part.value + w[3..];
        if end then Some(Rx(rx.done + [part], None)) else Some(Rx(rx.done, Some(part)))
  }

  lemma AbsorbFragment(rx: Rx, tid: nat, typ: nat, start: bool, end: bool, body: seq<byte>)
    requires typ < 64 && tid < 8 && body != [] && start == rx.part.None? && !(start && end)
    ensures var part := if start then NalEncode(typ, tid) + body else rx.part.value + body;
            Absorb(rx, NalEncode(FU, tid) + [FuByte(start, end, typ)] + body) ==
              Some(if end then Rx(rx.done + [part], None) else Rx(rx.done, Some(part)))
  {
    var fu := FuByte(start, end, typ);
    assert fu / 128 == Bit(start) && fu / 64 % 2 == Bit(end) && fu % 64 == typ;
    var w := NalEncode(FU, tid) + [fu] + body;
    assert w[3..] == body && w[0] == FU * 2 && w[1] == tid && w[2] == fu;
  }

  lemma {:induction false} FragmentsReassemble(rx: Rx, tid: nat, typ: nat, marker: bool, body: seq<byte>, flen: nat)
    requires typ < 64 && tid < 8 && flen >= 1 && body != [] && rx.part.Some?
    ensures AbsorbAll(Absorb, rx, Fragments(tid, typ, false, marker, body, flen))
         == Some(Rx(rx.done + [rx.part.value + body], None))
    decreases |body|
  {
    hide Absorb, FuByte, NalEncode;
    if |body| > flen {
      var next := Rx(rx.done, Some(rx.part.value + body[..flen]));
      AbsorbFragment(rx, tid, typ, false, false, body[..flen]);
      FragmentsReassemble(next, tid, typ, marker, body[flen..], flen);
      assert body == body[..flen] + body[flen..];
      ConcatAssoc(rx.part.value, body[..flen], body[flen..]);
      var tail := Fragments(tid, typ, false, marker, body[flen..], flen);
      var p := Packet(false, NalEncode(FU, tid) + [FuByte(false, false, typ)], body[..flen]);
      assert ([p] + tail)[1..] == tail;
    } else {
      AbsorbFragment(rx, tid, typ, false, true, body);
      AbsorbOne(Absorb, rx, Packet(marker, NalEncode(FU, tid) + [FuByte(false, true, typ)], body));
    }
  }

  /** A NAL unit that can be carried at any packet size. */
  predicate Carriable(n: seq<byte>) {
    |n| >= 2 && NalDecode(n).Some? && NalDecode(n).value.typ != FU
  }

  lemma {:induction false} LongReassembles(rx: Rx, marker: bool, n: seq<byte>, maxlen: nat)
    requires maxlen > 3 && Carriable(n) && rx.part.None? && |n| > maxlen
    ensures AbsorbAll(Absorb, rx, Send(marker, n, maxlen)) == Some(Rx(rx.done + [n], None))
  {
    NalHeaderExact(n);
    hide Absorb, FuByte, NalEncode, NalDecode;
    var h, body, flen := NalDecode(n).value, n[2..], maxlen - 3;
    var first := Packet(false, NalEncode(FU, h.tid) + [FuByte(true, false, h.typ)], body[..flen]);
    var tail := Fragments(h.tid, h.typ, false, marker, body[flen..], flen);
    AbsorbFragment(rx, h.tid, h.typ, true, false, body[..flen]);
    var part := NalEncode(h.typ, h.tid) + body[..flen];
    FragmentsReassemble(Rx(rx.done, Some(part)), h.tid, h.typ, marker, body[flen..], flen);
    assert part + body[flen..] == n[..2] + n[2..] == n;
    assert ([first] + tail)[1..] == tail;
  }

  lemma {:induction false} SendReassembles(rx: Rx, marker: bool, n: seq<byte>, maxlen: nat)
    requires maxlen > 3 && Carriable(n) && rx.part.None?
    ensures AbsorbAll(Absorb, rx, Send(marker, n, maxlen)) == Some(Rx(rx.done + [n], None))
  {
    if |n| <= maxlen {
      assert [] + n == n;
      AbsorbOne(Absorb, rx, Packet(marker, [], n));
    } else {
      LongReassembles(rx, marker, n, maxlen);
    }
  }

  predicate AllCarriable(ns: seq<seq<byte>>) {
    forall i :: 0 <= i < |ns| ==> Carriable(ns[i])
  }

  lemma {:induction false} PacketsReassemble(rx: Rx, ns: seq<seq<byte>>, maxlen: nat)
    requires maxlen > 3 && AllCarriable(ns) && rx.part.None?
    ensures AbsorbAll(Absorb, rx, PacketsOf(ns, maxlen)) == Some(Rx(rx.done + ns, None))
    decreases |ns|
  {
    hide Send, Carriable;
    if ns == [] {
      assert rx.done + ns == rx.done;
    } else {
      assert Carriable(ns[0]);
      var one := Send(|ns| == 1, ns[0], maxlen);
      SendReassembles(rx, |ns| == 1, ns[0], maxlen);
      AbsorbConcat(Absorb, rx, one, PacketsOf(ns[1..], maxlen));
      PacketsReassemble(Rx(rx.done + [ns[0]], None), ns[1..], maxlen);
      assert rx.done + [ns[0]] + ns[1..] == rx.done + ns;
    }
  }

  /** End to end: NAL units with 3-byte start codes (the first one may have four) come back. */
  lemma StreamReassembles(us: seq<Unit>, maxlen: nat)
    requires maxlen > 3 && LegalUnits(us) && AllCarriable(NalsOf(us))
    requires forall i :: 1 <= i < |us| ==> !us[i].long
    ensures AbsorbAll(Absorb, Rx([], None), PacketsOf(Split(Stream(us), false), maxlen)) == Some(Rx(NalsOf(us), None))
  {
    hide Split, Carriable;
    SplitOfStream(us, false);
    FoundExactly(us, false);
    PacketsReassemble(Rx([], None), NalsOf(us), maxlen);
    assert [] + NalsOf(us) == NalsOf(us);
  }

  // ---------------------------------------------------------------- sizes and markers

  lemma {:induction false} FragmentSizes(tid: nat, typ: nat, first: bool, marker: bool, body: seq<byte>, flen: nat)
    requires typ < 64 && flen >= 1
    ensures var ps := Fragments(tid, typ, first, marker, body, flen);
            && (forall i :: 0 <= i < |ps| ==> |Wire(ps[i])| <= flen + 3)
            && (forall i :: 0 <= i < |ps| ==> ps[i].marker == (marker && i == |ps| - 1))
            && ps != []
    decreases |body|
  {
    if |body| > flen {
      FragmentSizes(tid, typ, false, marker, body[flen..], flen);
    }
  }

  /** The i-th of c fragments of a unit with a given type and temporal id. */
  function FragmentOf(tid: nat, typ: nat, first: bool, marker: bool, body: seq<byte>, flen: nat, i: nat, c: nat): Packet
    requires typ < 64 && tid < 8 && i < c
  {
    var starts, ends := first && i == 0, i == c - 1;
    var fu: byte := typ + (if starts then 128 else 0) + (if ends then 64 else 0);
    Packet(marker && ends, [98, tid, fu], Piece(body, flen, i))
  }

  /** Fragments are as few as can be, and all of them full but the last. */
  lemma {:induction false} FragmentsExactly(tid: nat, typ: nat, first: bool, marker: bool, body: seq<byte>, flen: nat)
    requires typ < 64 && tid < 8 && flen >= 1
    ensures var ps := Fragments(tid, typ, first, marker, body, flen);
            && Enough(|body|, flen, |ps|)
            && forall i :: 0 <= i < |ps| ==> ps[i] == FragmentOf(tid, typ, first, marker, body, flen, i, |ps|)
    decreases |body|
  {
    hide Piece, Enough;
    FirstPiece(body, flen);
    assert NalEncode(FU, tid) == [98, tid];
    var ps := Fragments(tid, typ, first, marker, body, flen);
    if |body| > flen {
      var rest := body[flen..];
      FragmentsExactly(tid, typ, false, marker, rest, flen);
      OneMorePiece(|body|, flen, |ps| - 1);
      forall i | 0 < i < |ps| ensures ps[i] == FragmentOf(tid, typ, first, marker, body, flen, i, |ps|) {
        NextPiece(body, flen, i - 1);
      }
    } else {
      OnePiece(|body|, flen);
      assert body[..|body|] == body;
    }
  }

  /** A unit that fits goes out as it is; any other whose header can be read is cut into fragments of
      the size allowed, behind a header of type 49 and its own temporal id. */
  lemma SendExactly(marker: bool, n: seq<byte>, maxlen: nat)
    requires maxlen > 3 && (|n| > maxlen ==> NalDecode(n).Some?)
    ensures var ps := Send(marker, n, maxlen);
            if |n| <= maxlen then |ps| == 1 && Wire(ps[0]) == n && ps[0].marker == marker
            else
              && n[0] < 128 && n[0] % 2 == 0 && n[1] < 8
              && Enough(|n| - 2, maxlen - 3, |ps|)
              && forall i :: 0 <= i < |ps| ==>
                   ps[i] == FragmentOf(n[1], n[0] / 2, true, marker, n[2..], maxlen - 3, i, |ps|)
  {
    hide Fragments, FragmentOf, Enough;
    if |n| > maxlen {
      FragmentsExactly(n[1], n[0] / 2, true, marker, n[2..], maxlen - 3);
    } else {
      assert [] + n == n;
    }
  }

  /** Every packet stays within the limit, and the marker is only on the last packet of a stream. */
  lemma {:induction false} PacketsWithinLimit(ns: seq<seq<byte>>, maxlen: nat)
    requires maxlen > 3 && AllCarriable(ns)
    ensures var ps := PacketsOf(ns, maxlen);
            && (ns != [] ==> ps != [])
            && (forall i :: 0 <= i < |ps| ==> |Wire(ps[i])| <= maxlen)
            && (forall i :: 0 <= i < |ps| ==> ps[i].marker == (i == |ps| - 1))
    decreases |ns|
  {
    hide Fragments;
    if ns != [] {
      var n, marker := ns[0], |ns| == 1;
      if |n| > maxlen {
        NalHeaderExact(n);
        FragmentSizes(NalDecode(n).value.tid, NalDecode(n).value.typ, true, marker, n[2..], maxlen - 3);
      }
      PacketsWithinLimit(ns[1..], maxlen);
    }
  }
}
