/** Where the BFCP writer puts its bytes: every attribute goes to the current position, which then moves
    on by the length octet. */
module BfcpWriter {
  import opened Bytes
  import opened Bfcp
  import opened BfcpMessage

  /** A buffer and the position in it. */
  datatype Mb = Mb(buf: seq<byte>, pos: nat)

  /** Data over what was there, and beyond the end where it does not fit. */
  function Put(buf: seq<byte>, at: nat, data: seq<byte>): (r: seq<byte>)
    requires at <= |buf|
    ensures |r| == Max(|buf|, at + |data|)
  {
    buf[..at] + data + if at + |data| < |buf| then buf[at + |data|..] else []
  }

  lemma PutIs(buf: seq<byte>, at: nat, data: seq<byte>, now: seq<byte>)
    requires at <= |buf| && |now| == Max(|buf|, at + |data|)
    requires forall i :: 0 <= i < |now| ==> now[i] == if at <= i < at + |data| then data[i - at] else buf[i]
    ensures now == Put(buf, at, data)
  {
  }

  lemma PutAtEnd(buf: seq<byte>, data: seq<byte>)
    ensures Put(buf, |buf|, data) == buf + data
  {
  }

  /** One attribute; the position is beyond the value only if its length fits the octet. */
  function WrittenOne(b: Mb, a: Attr): (r: Mb)
    requires b.pos <= |b.buf|
    ensures b.pos <= r.pos <= |r.buf| && |r.buf| >= b.pos + 2 && |r.buf| >= |b.buf|
  {
    var n := 2 + |Body(a.v)|;
    var whole := Put(b.buf, b.pos, Head(a, n) + Body(a.v));
    var at := b.pos + n % 256;
    Mb(Put(whole, at, Zeros(PadLen(n % 256))), at + PadLen(n % 256))
  }

  datatype Wrote = Stopped(mb: Mb) | Done(mb: Mb)

  /** The length of a group, filled in once its members are written. */
  function Filled(b: Mb, start: nat): (r: Mb)
    requires start + 2 <= |b.buf| && start <= b.pos <= |b.buf|
    ensures r.pos == b.pos && |r.buf| == |b.buf|
  {
    Mb(Put(b.buf, start + 1, [(b.pos - start) % 256]), b.pos)
  }

  /** A forest, up to an attribute of unknown type. */
  function Written(b: Mb, f: seq<Attr>): (r: Wrote)
    requires b.pos <= |b.buf|
    ensures b.pos <= r.mb.pos <= |r.mb.buf| && |r.mb.buf| >= |b.buf|
    decreases f
  {
    if f == [] then Done(b)
    else
      var b1 := WrittenOne(b, f[0]);
      if KindOf(f[0].typ) == KUnknown then Stopped(b1)
      else if f[0].subs == [] then Written(b1, f[1..])
      else match Written(b1, f[0].subs)
        case Stopped(x) => Stopped(x)
        case Done(b2) => Written(Filled(b2, b.pos), f[1..])
  }

  /** A message: the header goes before the attributes once their length is known. */
  function WrittenMsg(b: seq<byte>, h: Header, f: seq<Attr>): Wrote {
    var start := |b| + HDR_SIZE;
    match Written(Mb(b + Zeros(HDR_SIZE), start), f)
    case Stopped(x) => Stopped(x)
    case Done(x) => Done(Mb(Put(x.buf, |b|, HeaderBytes(h, (x.pos - start) / 4)), x.pos))
  }

  // ---------------------------------------------------------------- when this is the encoding

  /** Every value's length fits the length octet. */
  predicate Sized(f: seq<Attr>)
    decreases f
  {
    f != [] ==> 2 + |Body(f[0].v)| <= 255 && Sized(f[0].subs) && Sized(f[1..])
  }

  predicate AllKnown(f: seq<Attr>)
    decreases f
  {
    f != [] ==> KindOf(f[0].typ) != KUnknown && AllKnown(f[0].subs) && AllKnown(f[1..])
  }

  lemma {:induction false} Turn(b: Mb, f: seq<Attr>)
    requires b.pos <= |b.buf|
    ensures f == [] ==> Written(b, f) == Done(b)
    ensures f != [] ==>
              var b1 := WrittenOne(b, f[0]);
              Written(b, f) ==
                if KindOf(f[0].typ) == KUnknown then Stopped(b1)
                else if f[0].subs == [] then Written(b1, f[1..])
                else match Written(b1, f[0].subs)
                  case Stopped(x) => Stopped(x)
                  case Done(b2) => Written(Filled(b2, b.pos), f[1..])
  {
    hide WrittenOne, Filled;
  }

  /** Writing stops exactly at an unknown type. */
  lemma {:induction false} DoneIfKnown(b: Mb, f: seq<Attr>)
    requires b.pos <= |b.buf|
    ensures Written(b, f).Done? <==> AllKnown(f)
    decreases f
  {
    hide Written, WrittenOne, Filled, KindOf;
    Turn(b, f);
    if f != [] {
      var b1 := WrittenOne(b, f[0]);
      DoneIfKnown(b1, f[0].subs);
      Turn(b1, f[0].subs);
      DoneIfKnown(b1, f[1..]);
      var r := Written(b1, f[0].subs);
      if r.Done? { DoneIfKnown(Filled(r.mb, b.pos), f[1..]); }
    }
  }

  /** How far one attribute, and a forest, moves the position. */
  function Moves(a: Attr): nat {
    var n := 2 + |Body(a.v)|;
    n % 256 + PadLen(n % 256)
  }

  function MovesAll(f: seq<Attr>): nat
    decreases f
  {
    if f == [] then 0 else Moves(f[0]) + MovesAll(f[0].subs) + MovesAll(f[1..])
  }

  lemma {:induction false} PositionAfter(b: Mb, f: seq<Attr>)
    requires b.pos <= |b.buf|
    ensures Written(b, f).Done? ==> Written(b, f).mb.pos == b.pos + MovesAll(f)
    decreases f
  {
    hide Written, WrittenOne, Filled, KindOf, Moves;
    Turn(b, f);
    if f != [] {
      var b1 := WrittenOne(b, f[0]);
      assert b1.pos == b.pos + Moves(f[0]) by { OneMoves(b, f[0]); }
      PositionAfter(b1, f[0].subs);
      Turn(b1, f[0].subs);
      PositionAfter(b1, f[1..]);
      var r := Written(b1, f[0].subs);
      if r.Done? { PositionAfter(Filled(r.mb, b.pos), f[1..]); }
    }
  }

  lemma OneMoves(b: Mb, a: Attr)
    requires b.pos <= |b.buf|
    ensures WrittenOne(b, a).pos == b.pos + Moves(a)
  {
  }

  /** The octet moves the position by the padded length, or by less. */
  lemma OneMovesLess(a: Attr)
    ensures Moves(a) <= 2 + |Padded(Body(a.v))|
    ensures Moves(a) == 2 + |Padded(Body(a.v))| <==> 2 + |Body(a.v)| <= 255
  {
    hide Body, Zeros, PadLen;
    OctetMoves(2 + |Body(a.v)|);
  }

  lemma OctetMoves(n: nat)
    ensures n <= 255 ==> n % 256 == n
    ensures n > 255 ==> n % 256 + PadLen(n % 256) < n + PadLen(n)
  {
    if n > 255 {
      var m := n % 256;
      PaddedOctet(m, PadLen(m));
      if n == 256 { assert m == 0; }
    }
  }

  lemma PaddedOctet(m: nat, k: nat)
    requires m < 256 && k < 4 && (m + k) % 4 == 0
    ensures m + k <= 256 && (m == 0 ==> k == 0)
  {
    var q := (m + k) / 4;
    assert m + k == 4 * q && q <= 64;
  }

  lemma {:induction false} MovesLess(f: seq<Attr>)
    ensures MovesAll(f) <= |Encode(f)|
    ensures MovesAll(f) == |Encode(f)| <==> Sized(f)
    decreases f
  {
    if f != [] {
      MovesLess(f[0].subs);
      MovesLess(f[1..]);
      OneMovesLess(f[0]);
      assert |Encode(f)| == 2 + |Padded(Body(f[0].v))| + |Encode(f[0].subs)| + |Encode(f[1..])|;
      hide Padded, Body, Moves, EncodeOne;
    }
  }

  /** The length octet of a group, filled in behind its members. */
  lemma {:induction false} GroupLength(was: seq<byte>, a: Attr, inner: seq<byte>)
    requires a.subs != []
    ensures var one := was + (Head(a, 2 + |Body(a.v)|) + Padded(Body(a.v))) + inner;
            && |was| + 2 <= |one|
            && Put(one, |was| + 1, [(|one| - |was|) % 256]) == was + EncodeOne(a, inner)
  {
    hide Body, Padded;
    var one := was + (Head(a, 2 + |Body(a.v)|) + Padded(Body(a.v))) + inner;
    var now := was + EncodeOne(a, inner);
    PutIs(one, |was| + 1, [(|one| - |was|) % 256], now);
  }

  lemma {:induction false} OneAppends(buf: seq<byte>, a: Attr)
    requires 2 + |Body(a.v)| <= 255
    ensures var one := buf + (Head(a, 2 + |Body(a.v)|) + Padded(Body(a.v)));
            WrittenOne(Mb(buf, |buf|), a) == Mb(one, |one|)
  {
    hide Body, Zeros, Put;
    var n := 2 + |Body(a.v)|;
    var head := Head(a, n) + Body(a.v);
    PutAtEnd(buf, head);
    PutAtEnd(buf + head, Zeros(PadLen(n)));
    ConcatAssoc(buf, head, Zeros(PadLen(n)));
    ConcatAssoc(Head(a, n), Body(a.v), Zeros(PadLen(n)));
  }

  lemma {:induction false} SizedAppends(buf: seq<byte>, f: seq<Attr>)
    requires Sized(f) && AllKnown(f)
    ensures Written(Mb(buf, |buf|), f) == Done(Mb(buf + Encode(f), |buf| + |Encode(f)|))
    decreases f
  {
    hide Written, WrittenOne, KindOf, Body, Padded, Head, EncodeOne, Put;
    var b := Mb(buf, |buf|);
    Turn(b, f);
    if f == [] {
      assert buf + [] == buf;
    } else {
      var a := f[0];
      var one := buf + (Head(a, 2 + |Body(a.v)|) + Padded(Body(a.v)));
      OneAppends(buf, a);
      ConcatAssoc(buf, EncodeOne(a, Encode(a.subs)), Encode(f[1..]));
      if a.subs == [] {
        assert EncodeOne(a, []) == Head(a, 2 + |Body(a.v)|) + Padded(Body(a.v)) by { NoMembers(a); }
        SizedAppends(one, f[1..]);
      } else {
        SizedAppends(one, a.subs);
        GroupLength(buf, a, Encode(a.subs));
        SizedAppends(buf + EncodeOne(a, Encode(a.subs)), f[1..]);
      }
    }
  }

  lemma NoMembers(a: Attr)
    requires a.subs == []
    ensures EncodeOne(a, []) == Head(a, 2 + |Body(a.v)|) + Padded(Body(a.v))
  {
    hide Body, Padded;
  }

  /** A forest of known types, written at the end of a buffer, is appended as its encoding if and only
      if every value's length fits the length octet. */
  lemma {:induction false} AppendsExactly(buf: seq<byte>, f: seq<Attr>)
    requires AllKnown(f)
    ensures Written(Mb(buf, |buf|), f) == Done(Mb(buf + Encode(f), |buf| + |Encode(f)|)) <==> Sized(f)
  {
    hide Written, Encode, Sized, AllKnown, MovesAll;
    var b := Mb(buf, |buf|);
    PositionAfter(b, f);
    MovesLess(f);
    if Sized(f) { SizedAppends(buf, f); }
  }

  /** A text of 254 bytes leaves the position where it was. */
  lemma LongText(buf: seq<byte>, s: seq<byte>)
    requires |s| == 254
    ensures var f := [Attr(7, false, Text(s), [])];
            AllKnown(f) && !Sized(f) && Written(Mb(buf, |buf|), f).Done? && Written(Mb(buf, |buf|), f).mb.pos == |buf|
  {
    var f := [Attr(7, false, Text(s), [])];
    assert f[1..] == [] && MovesAll(f) == 0;
    hide Written;
    DoneIfKnown(Mb(buf, |buf|), f);
    PositionAfter(Mb(buf, |buf|), f);
  }

  /** What reads back is also what the writer accepts. */
  lemma {:induction false} FitsIsWritten(f: seq<Attr>)
    requires Fits(f)
    ensures Sized(f) && AllKnown(f)
    decreases f
  {
    if f != [] {
      FitsIsWritten(f[0].subs);
      FitsIsWritten(f[1..]);
      hide Padded, Body, Encode;
    }
  }

  /** So a message whose values fit is appended as its encoding. */
  lemma {:induction false} MsgAppends(buf: seq<byte>, h: Header, f: seq<Attr>)
    requires Sized(f) && AllKnown(f)
    ensures WrittenMsg(buf, h, f) == Done(Mb(buf + EncodeMsg(h, f), |buf| + |EncodeMsg(h, f)|))
  {
    hide Written, Encode, HeaderBytes, Sized, AllKnown, Put, Zeros;
    SizedAppends(buf + Zeros(HDR_SIZE), f);
    IntoHole(buf, Zeros(HDR_SIZE), HeaderBytes(h, |Encode(f)| / 4), Encode(f));
  }

  lemma IntoHole(buf: seq<byte>, hole: seq<byte>, head: seq<byte>, rest: seq<byte>)
    requires |head| == |hole|
    ensures Put(buf + hole + rest, |buf|, head) == buf + (head + rest)
  {
    hide Put;
    PutIs(buf + hole + rest, |buf|, head, buf + (head + rest));
  }
}
