/** The BFCP writer and reader over a message buffer with a moving position and a movable end. */
module BfcpBuffer {
  import opened Bytes
  import opened Bfcp
  import opened BfcpMessage
  import opened BfcpWriter

  class Mbuf {
    var buf: seq<byte>
    var pos: nat
    var end: nat

    constructor (buf: seq<byte>)
      ensures this.buf == buf && pos == 0 && end == |buf|
    {
      this.buf := buf;
      pos := 0;
      end := |buf|;
    }

    /** Positioned at the end, where everything is written first. */
    ghost predicate AtEnd()
      reads this
    {
      pos == end == |buf|
    }

    ghost predicate Valid()
      reads this
    {
      pos <= end <= |buf|
    }

    ghost function Cur(): Mb
      reads this
    {
      Mb(buf, pos)
    }

    /** What is left to read. */
    ghost function Left(): (b: seq<byte>)
      requires Valid()
      ensures |b| == end - pos
      reads this
    {
      buf[pos..end]
    }

    /** Writes one byte; the hole a position beyond the end leaves holds anything. */
    method WriteU8(x: nat)
      requires end == |buf|
      modifies this
      ensures end == |buf| == Max(|old(buf)|, old(pos) + 1) && pos == old(pos) + 1
      ensures buf[old(pos)] == x % 256
      ensures forall i :: 0 <= i < |old(buf)| && i != old(pos) ==> buf[i] == old(buf)[i]
    {
      if pos >= |buf| {
        var hole: seq<byte> := Zeros(pos + 1 - |buf|);
        buf := buf + hole;
      }
      buf := buf[pos := x % 256];
      pos := pos + 1;
      end := |buf|;
    }

    /** Writes bytes at the position, which may be beyond the end. */
    method WriteMem(data: seq<byte>)
      requires end == |buf|
      modifies this
      ensures end == |buf| == (if data == [] then |old(buf)| else Max(|old(buf)|, pos)) && pos == old(pos) + |data|
      ensures forall i :: 0 <= i < |data| ==> buf[old(pos) + i] == data[i]
      ensures forall i :: 0 <= i < |old(buf)| && !(old(pos) <= i < pos) ==> buf[i] == old(buf)[i]
    {
      for i := 0 to |data|
        invariant end == |buf| == (if i == 0 then |old(buf)| else Max(|old(buf)|, pos)) && pos == old(pos) + i
        invariant forall k :: 0 <= k < i ==> buf[old(pos) + k] == data[k]
        invariant forall k :: 0 <= k < |old(buf)| && !(old(pos) <= k < pos) ==> buf[k] == old(buf)[k]
      {
        WriteU8(data[i]);
      }
    }

    /** Steps over a header to be written later; its bytes can be anything until then. */
    method Reserve(n: nat)
      requires AtEnd()
      modifies this
      ensures AtEnd() && buf == old(buf) + Zeros(n)
    {
      buf := buf + Zeros(n);
      pos := pos + n;
      end := |buf|;
    }

    method ReadU8() returns (x: byte)
      requires Valid() && pos < end
      modifies this`pos
      ensures Valid() && x == old(Left())[0] && pos == old(pos) + 1 && Left() == old(Left())[1..]
    {
      x := buf[pos];
      pos := pos + 1;
    }

    method ReadU16() returns (n: nat)
      requires Valid() && end - pos >= 2
      modifies this`pos
      ensures Valid() && n == (old(Left())[0] as nat) * 256 + old(Left())[1]
      ensures pos == old(pos) + 2 && Left() == old(Left())[2..]
    {
      var x := ReadU8();
      var y := ReadU8();
      n := (x as nat) * 256 + y;
    }

    method ReadMem(n: nat) returns (data: seq<byte>)
      requires Valid() && end - pos >= n
      modifies this`pos
      ensures Valid() && data == old(Left())[..n] && pos == old(pos) + n && Left() == old(Left())[n..]
    {
      ghost var b := Left();
      data := buf[pos..pos + n];
      assert data == b[..n];
      pos := pos + n;
      assert buf[pos..end] == b[n..];
    }
  }

  // ---------------------------------------------------------------- writing

  /** Values have the type that their attribute calls for. */
  predicate WellTyped(f: seq<Attr>)
    decreases f
  {
    f != [] ==>
      f[0].typ < 128 && Typed(KindOf(f[0].typ), f[0].v) && WellTyped(f[0].subs) && WellTyped(f[1..])
  }

  /** Writes the value behind a hole for the header, then the header into the hole, then padding. */
  method AttrEncode(mb: Mbuf, a: Attr) returns (err: Errno)
    requires mb.pos <= mb.end == |mb.buf| && a.typ < 128 && Typed(KindOf(a.typ), a.v)
    modifies mb
    ensures mb.pos <= mb.end == |mb.buf| && mb.Cur() == WrittenOne(old(mb.Cur()), a)
    ensures err == if KindOf(a.typ) == KUnknown then EINVAL else OK
  {
    hide Body, KindOf, Typed, Zeros, PadLen, Head, Put;
    var start := mb.pos;
    var len := PutValue(mb, a);
    err := if KindOf(a.typ) == KUnknown then EINVAL else OK;
    mb.pos := start + len;
    Pad(mb, start);
  }

  method PutValue(mb: Mbuf, a: Attr) returns (len: nat)
    requires mb.pos <= mb.end == |mb.buf|
    modifies mb
    ensures mb.end == |mb.buf| && len == (2 + |Body(a.v)|) % 256
    ensures mb.buf == Put(old(mb.buf), old(mb.pos), Head(a, 2 + |Body(a.v)|) + Body(a.v))
  {
    hide Body, Put;
    ghost var was, body := mb.buf, Body(a.v);
    var start := mb.pos;
    mb.pos := mb.pos + 2;
    mb.WriteMem(Body(a.v));
    len := (mb.pos - start) % 256;
    mb.pos := start;
    mb.WriteU8(a.typ * 2 + Bit(a.mand));
    mb.WriteU8(len);
    PutIs(was, start, Head(a, 2 + |body|) + body, mb.buf);
  }

  method Pad(mb: Mbuf, start: nat)
    requires start <= mb.pos <= mb.end == |mb.buf|
    modifies mb
    ensures mb.end == |mb.buf| && mb.pos == old(mb.pos) + PadLen(old(mb.pos) - start)
    ensures mb.buf == Put(old(mb.buf), old(mb.pos), Zeros(PadLen(old(mb.pos) - start)))
  {
    hide Put, Zeros;
    var was := mb.pos;
    ghost var b := mb.buf;
    while (mb.pos - start) % 4 != 0
      invariant was <= mb.pos <= was + PadLen(was - start) && mb.pos <= mb.end == |mb.buf| == Max(|b|, mb.pos)
      invariant forall i :: 0 <= i < |mb.buf| ==> mb.buf[i] == if was <= i < mb.pos then 0 else b[i]
      decreases was + PadLen(was - start) - mb.pos
    {
      mb.WriteU8(0);
    }
    ZerosAre(mb.pos - was);
    PutIs(b, was, Zeros(mb.pos - was), mb.buf);
  }

  lemma {:induction false} ZerosAre(k: nat)
    ensures forall i :: 0 <= i < k ==> Zeros(k)[i] == 0
  {
    if k > 0 { ZerosAre(k - 1); }
  }

  /** Writes a forest; the length of a group is filled in after its members. */
  method AttrsEncode(mb: Mbuf, f: seq<Attr>) returns (err: Errno)
    requires mb.pos <= mb.end == |mb.buf| && WellTyped(f)
    modifies mb
    ensures mb.pos <= mb.end == |mb.buf| && err == (if AllKnown(f) then OK else EINVAL)
    ensures Written(old(mb.Cur()), f) == if err == OK then Done(mb.Cur()) else Stopped(mb.Cur())
    decreases f
  {
    hide Typed, KindOf, WrittenOne, Written, AllKnown;
    DoneIfKnown(mb.Cur(), f);
    ghost var all := Written(mb.Cur(), f);
    assert f[0..] == f;
    for i := 0 to |f|
      invariant mb.pos <= mb.end == |mb.buf| && WellTyped(f[i..]) && all == Written(mb.Cur(), f[i..])
    {
      var a := f[i];
      var start := mb.pos;
      assert f[i..][0] == a && f[i..][1..] == f[i + 1..];
      Turn(mb.Cur(), f[i..]);
      err := AttrEncode(mb, a);
      if err != OK {
        return;
      }
      if |a.subs| != 0 {
        err := AttrsEncode(mb, a.subs);
        if err != OK {
          return;
        }
        FillLength(mb, start);
      }
    }
    Turn(mb.Cur(), []);
    assert f[|f|..] == [];
    err := OK;
  }

  method FillLength(mb: Mbuf, start: nat)
    requires start + 2 <= |mb.buf| && start <= mb.pos <= mb.end == |mb.buf|
    modifies mb
    ensures mb.pos <= mb.end == |mb.buf| && mb.Cur() == Filled(old(mb.Cur()), start)
  {
    hide Put;
    ghost var was := mb.buf;
    var len := mb.pos - start;
    mb.pos := start + 1;
    mb.WriteU8(len);
    PutIs(was, start + 1, [len % 256], mb.buf);
    mb.pos := mb.pos + len - 2;
  }

  method Overwrite(mb: Mbuf, data: seq<byte>)
    requires mb.pos <= mb.end == |mb.buf|
    modifies mb
    ensures mb.end == |mb.buf| && mb.pos == old(mb.pos) + |data| && mb.buf == Put(old(mb.buf), old(mb.pos), data)
  {
    hide Put;
    ghost var was, at := mb.buf, mb.pos;
    mb.WriteMem(data);
    PutIs(was, at, data, mb.buf);
  }

  /** Writes a message: room for the header, the attributes, then the header with their length. */
  method MsgEncode(mb: Mbuf, h: Header, f: seq<Attr>) returns (err: Errno)
    requires mb.AtEnd() && WellTyped(f)
    modifies mb
    ensures err == if AllKnown(f) then OK else EINVAL
    ensures err == OK ==> mb.end == |mb.buf| && WrittenMsg(old(mb.buf), h, f) == Done(mb.Cur())
    ensures err == OK && Sized(f) ==> mb.AtEnd() && mb.buf == old(mb.buf) + EncodeMsg(h, f)
  {
    hide Written, HeaderBytes, Sized, AllKnown, WellTyped, Put, EncodeMsg, Zeros;
    ghost var was := mb.buf;
    var start := mb.pos;
    mb.Reserve(HDR_SIZE);
    err := AttrsEncode(mb, f);
    if err != OK {
      return;
    }
    var len := mb.pos - start - HDR_SIZE;
    mb.pos := start;
    Overwrite(mb, HeaderBytes(h, len / 4));
    mb.pos := mb.pos + len;
    if Sized(f) { MsgAppends(was, h, f); }
  }

  // ---------------------------------------------------------------- reading

  /** What a reading method returns, and how far it moves, is what the specification says. */
  ghost predicate Is<T>(spec: Read<T>, start: nat, err: Errno, v: T, unknown: seq<nat>, pos: nat) {
    match spec
    case Bad(e) => err == e != OK
    case Got(x, n, u) => err == OK && v == x && unknown == u && pos == start + n
  }

  method ReadValueAt(mb: Mbuf, k: Kind, len: nat) returns (ok: bool, v: Value)
    requires mb.Valid() && len <= mb.end - mb.pos && k != KGroup
    modifies mb`pos
    ensures mb.Valid()
    ensures var r := ReadValue(k, old(mb.Left())[..len]);
            && ok == r.Some?
            && (ok ==> v == r.value.0 && mb.pos == old(mb.pos) + r.value.1)
  {
    v := Unset;
    ghost var b := mb.Left();
    match k {
      case KU16 =>
        if len < 2 { return false, v; }
        var n := mb.ReadU16();
        v := U16(n);
      case KPriority =>
        if len < 2 { return false, v; }
        var x := mb.ReadU8();
        var _ := mb.ReadU8();
        v := Priority((x as nat) / 32);
      case KStatus =>
        if len < 2 { return false, v; }
        var x := mb.ReadU8();
        var y := mb.ReadU8();
        v := Status(x, y);
      case KFailure =>
        if len < 1 { return false, v; }
        var x := mb.ReadU8();
        var d := mb.ReadMem(len - 1);
        assert b[..len][1..] == d;
        v := Failure(x, d);
      case KText =>
        var s := mb.ReadMem(len);
        v := Text(s);
      case KTypes =>
        var ts := ReadTypes(mb, len);
        v := Types(ts);
      case KPrims =>
        var ps := mb.ReadMem(len);
        v := Prims(ps);
      case KUnknown =>
        mb.pos := mb.pos + len;
    }
    ok := true;
  }

  method ReadTypes(mb: Mbuf, len: nat) returns (ts: seq<nat>)
    requires mb.Valid() && len <= mb.end - mb.pos
    modifies mb`pos
    ensures mb.Valid() && ts == Halved(old(mb.Left())[..len]) && mb.pos == old(mb.pos) + len
  {
    ghost var b := mb.Left();
    ts := [];
    assert [] + Halved(b[..len]) == Halved(b[..len]);
    for i := 0 to len
      invariant mb.Valid() && mb.pos == old(mb.pos) + i && mb.Left() == b[i..]
      invariant ts + Halved(b[i..len]) == Halved(b[..len])
    {
      var x := mb.ReadU8();
      assert b[i..len][0] == x && b[i..len][1..] == b[i + 1..len];
      ConcatAssoc(ts, [(x as nat) / 2], Halved(b[i + 1..len]));
      ts := ts + [(x as nat) / 2];
    }
    assert ts + [] == ts;
  }

  method SkipPadding(mb: Mbuf, start: nat)
    requires mb.Valid() && start <= mb.pos
    modifies mb`pos
    ensures mb.Valid() && mb.pos - start == Skip(old(mb.pos) - start, mb.end - start)
  {
    while (mb.pos - start) % 4 != 0 && mb.pos < mb.end
      invariant mb.Valid() && old(mb.pos) <= mb.pos && mb.pos - start <= Skip(old(mb.pos) - start, mb.end - start)
      decreases mb.end - mb.pos
    {
      mb.pos := mb.pos + 1;
    }
  }

  predicate Framed(b: seq<byte>) {
    |b| >= 2 && b[1] >= 2 && b[1] as nat <= |b|
  }

  lemma UnframedTurn(b: seq<byte>, unknown: seq<nat>)
    requires !Framed(b)
    ensures DecodeOne(b, unknown) == Bad(EBADMSG)
  {
  }

  lemma GroupTurn(b: seq<byte>, unknown: seq<nat>)
    requires Framed(b) && KindOf((b[0] as nat) / 2) == KGroup
    ensures DecodeOne(b, unknown) ==
              if b[1] < 4 then Bad(EBADMSG)
              else
                var r := DecodeAll(b[4..b[1]], unknown);
                if r.Bad? then Bad(r.err)
                else
                  var id := (b[2] as nat) * 256 + b[3];
                  Got(Attr((b[0] as nat) / 2, b[0] % 2 == 1, U16(id), r.value), Skip(4 + r.used, |b|), r.unknown)
  {
    hide KindOf, Skip, DecodeAll;
  }

  lemma ValueTurn(b: seq<byte>, unknown: seq<nat>)
    requires Framed(b) && KindOf((b[0] as nat) / 2) != KGroup
    ensures DecodeOne(b, unknown) ==
              var typ, mand := (b[0] as nat) / 2, b[0] % 2 == 1;
              var r := ReadValue(KindOf(typ), b[2..b[1]]);
              if r.None? then Bad(EBADMSG)
              else Got(Attr(typ, mand, r.value.0, []), Skip(2 + r.value.1, |b|), Noted(unknown, KindOf(typ), typ, mand))
  {
    hide KindOf, Skip, ReadValue, Noted;
  }

  method AttrDecode(mb: Mbuf, unknown: seq<nat>) returns (err: Errno, a: Attr, unknown': seq<nat>)
    requires mb.Valid()
    modifies mb`pos, mb`end
    ensures mb.Valid() && mb.end == old(mb.end)
    ensures Is(DecodeOne(old(mb.Left()), unknown), old(mb.pos), err, a, unknown', mb.pos)
    decreases mb.end - mb.pos, 0
  {
    hide DecodeOne, DecodeAll, ReadValue, KindOf, Skip, Noted, Mbuf.Left;
    ghost var b := mb.Left();
    if !Framed(b) { UnframedTurn(b, unknown); }
    a, unknown' := Attr(0, false, Unset, []), unknown;
    if mb.end - mb.pos < 2 {
      err := EBADMSG;
      return;
    }
    var start := mb.pos;
    var b0 := mb.ReadU8();
    var len := mb.ReadU8();
    assert b0 == b[0] && len == b[1];
    if len < 2 || mb.end - mb.pos < len as nat - 2 {
      err := EBADMSG;
      return;
    }
    var typ, mand, n := (b0 as nat) / 2, b0 % 2 == 1, len as nat - 2;
    var k := KindOf(typ);
    if k == KGroup {
      GroupTurn(b, unknown);
      if n < 2 {
        err := EBADMSG;
        return;
      }
      var id := mb.ReadU16();
      var subs;
      assert mb.Left()[..n - 2] == b[4..len];
      err, subs, unknown' := AttrsDecode(mb, n - 2, unknown);
      if err != OK {
        return;
      }
      a := Attr(typ, mand, U16(id), subs);
    } else {
      var ok, v;
      ValueTurn(b, unknown);
      assert mb.Left()[..n] == b[2..len];
      ok, v := ReadValueAt(mb, k, n);
      if !ok {
        err := EBADMSG;
        return;
      }
      a := Attr(typ, mand, v, []);
      unknown' := Noted(unknown, k, typ, mand);
    }
    assert DecodeOne(b, unknown) == Got(a, Skip(mb.pos - start, |b|), unknown');
    SkipPadding(mb, start);
    err := OK;
  }

  /** After n bytes, the attributes f and the unknown types u, what remains to be read decides. */
  ghost predicate Resumes(whole: Read<seq<Attr>>, b: seq<byte>, n: nat, f: seq<Attr>, u: seq<nat>)
    requires n <= |b|
  {
    var more := DecodeAll(b[n..], u);
    if more.Bad? then whole == more else whole == Got(f + more.value, n + more.used, more.unknown)
  }

  lemma ResumesStart(b: seq<byte>, u: seq<nat>)
    ensures Resumes(DecodeAll(b, u), b, 0, [], u)
  {
    hide DecodeAll;
    assert b[0..] == b;
    var r := DecodeAll(b, u);
    if r.Got? { assert [] + r.value == r.value; }
  }

  lemma ResumesStep(whole: Read<seq<Attr>>, b: seq<byte>, n: nat, f: seq<Attr>, u: seq<nat>)
    requires n + 2 <= |b| && Resumes(whole, b, n, f, u)
    ensures var r := DecodeOne(b[n..], u);
            if r.Bad? then whole == Bad(r.err) else Resumes(whole, b, n + r.used, f + [r.value], r.unknown)
  {
    var r := DecodeOne(b[n..], u);
    hide DecodeOne;
    if r.Got? {
      assert b[n..][r.used..] == b[n + r.used..];
      var more := DecodeAll(b[n + r.used..], r.unknown);
      if more.Got? { ConcatAssoc(f, [r.value], more.value); }
    }
  }

  lemma ResumesEnd(whole: Read<seq<Attr>>, b: seq<byte>, n: nat, f: seq<Attr>, u: seq<nat>)
    requires n <= |b| < n + 2 && Resumes(whole, b, n, f, u)
    ensures whole == Got(f, n, u)
  {
    assert f + [] == f;
  }

  /** Reads attributes from the next `len` bytes; the end of the buffer is moved there and back. */
  method AttrsDecode(mb: Mbuf, len: nat, unknown: seq<nat>)
    returns (err: Errno, f: seq<Attr>, unknown': seq<nat>)
    requires mb.Valid() && len <= mb.end - mb.pos
    modifies mb`pos, mb`end
    ensures mb.Valid() && mb.end == old(mb.end)
    ensures Is(DecodeAll(old(mb.Left())[..len], unknown), old(mb.pos), err, f, unknown', mb.pos)
    decreases len, 1
  {
    hide DecodeAll, DecodeOne, Resumes;
    f, unknown' := [], unknown;
    err := OK;
    var end := mb.end;
    mb.end := mb.pos + len;
    ghost var b := mb.Left();
    ghost var whole := DecodeAll(b, unknown);
    ghost var n: nat := 0;
    assert b == old(mb.Left())[..len];
    ResumesStart(b, unknown);
    while mb.end - mb.pos >= 2
      invariant mb.Valid() && n <= len && mb.pos == old(mb.pos) + n && mb.end == old(mb.pos) + len
      invariant err == OK && Resumes(whole, b, n, f, unknown')
      decreases mb.end - mb.pos
    {
      var a;
      assert mb.Left() == b[n..];
      ResumesStep(whole, b, n, f, unknown');
      ghost var r := DecodeOne(b[n..], unknown');
      err, a, unknown' := AttrDecode(mb, unknown');
      if err != OK {
        mb.end := end;
        return;
      }
      f := f + [a];
      n := n + r.used;
    }
    ResumesEnd(whole, b, n, f, unknown');
    mb.end := end;
  }

  method HdrDecode(mb: Mbuf) returns (err: Errno, h: Header, words: nat)
    requires mb.Valid()
    modifies mb`pos
    ensures mb.Valid()
    ensures var b := old(mb.Left());
            if |b| < HDR_SIZE then err == ENODATA
            else
              && words == WordAt(b, 2) && mb.pos == old(mb.pos) + HDR_SIZE
              && h == Header((b[0] as nat) / 32, (b[0] as nat) / 16 % 2 == 1, b[1],
                             WordAt(b, 4) * 65536 + WordAt(b, 6), WordAt(b, 8), WordAt(b, 10))
              && err ==
                   if h.ver != 1 && h.ver != 2 then EBADMSG
                   else if (b[0] as nat) / 8 % 2 == 1 then ENOSYS
                   else if |b| - HDR_SIZE < 4 * words then ENODATA
                   else OK
  {
    hide WordAt;
    h, words := Header(0, false, 0, 0, 0, 0), 0;
    if mb.end - mb.pos < HDR_SIZE {
      err := ENODATA;
      return;
    }
    var b0 := mb.ReadU8();
    var prim := mb.ReadU8();
    words := ReadWord(mb, old(mb.Left()), 2);
    var hi := ReadWord(mb, old(mb.Left()), 4);
    var lo := ReadWord(mb, old(mb.Left()), 6);
    var tid := ReadWord(mb, old(mb.Left()), 8);
    var userid := ReadWord(mb, old(mb.Left()), 10);
    h := Header((b0 as nat) / 32, (b0 as nat) / 16 % 2 == 1, prim, hi * 65536 + lo, tid, userid);
    err := if h.ver != 1 && h.ver != 2 then EBADMSG
           else if (b0 as nat) / 8 % 2 == 1 then ENOSYS
           else if mb.end - mb.pos < 4 * words then ENODATA
           else OK;
  }

  /** The next sixteen bits, the ones at i of what was left at first. */
  method ReadWord(mb: Mbuf, ghost b: seq<byte>, ghost i: nat) returns (n: nat)
    requires mb.Valid() && i + 2 <= |b| && mb.Left() == b[i..]
    modifies mb`pos
    ensures mb.Valid() && n == WordAt(b, i) && mb.pos == old(mb.pos) + 2 && mb.Left() == b[i + 2..]
  {
    n := mb.ReadU16();
  }

  /** Reads one message; a header that cannot be used yet leaves the position where it was. */
  method MsgDecode(mb: Mbuf) returns (err: Errno, h: Header, f: seq<Attr>, unknown: seq<nat>)
    requires mb.Valid()
    modifies mb`pos, mb`end
    ensures mb.Valid() && mb.end == old(mb.end)
    ensures Is(DecodeMsg(old(mb.Left())), old(mb.pos), err, (h, f), unknown, mb.pos)
    ensures err in {ENODATA, ENOSYS} ==> mb.pos == old(mb.pos)
  {
    hide DecodeAll, WordAt;
    ghost var b := mb.Left();
    f, unknown := [], [];
    var start := mb.pos;
    var words;
    err, h, words := HdrDecode(mb);
    if err != OK {
      mb.pos := start;
      return;
    }
    assert mb.Left()[..4 * words] == b[HDR_SIZE..HDR_SIZE + 4 * words];
    err, f, unknown := AttrsDecode(mb, 4 * words, []);
  }
}
