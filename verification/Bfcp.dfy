/** BFCP attributes (section 5.2 of RFC 4582): a forest of attributes as bytes, and back. */
module Bfcp {
  import opened Bytes

  datatype Value =
    | U16(n: nat)
    | Priority(p: nat)
    | Status(status: byte, qpos: byte)
    | Failure(code: byte, details: seq<byte>)
    | Text(s: seq<byte>)
    | Types(ts: seq<nat>)
    | Prims(ps: seq<byte>)
    | Unset

  datatype Attr = Attr(typ: nat, mand: bool, v: Value, subs: seq<Attr>)

  datatype Kind = KU16 | KPriority | KStatus | KFailure | KText | KTypes | KPrims | KGroup | KUnknown

  function KindOf(typ: nat): Kind {
    if typ in {1, 2, 3} then KU16
    else if typ == 4 then KPriority
    else if typ == 5 then KStatus
    else if typ == 6 then KFailure
    else if typ in {7, 8, 9, 12, 13} then KText
    else if typ == 10 then KTypes
    else if typ == 11 then KPrims
    else if 14 <= typ <= 18 then KGroup
    else KUnknown
  }

  /** The value a caller passes has the type the attribute calls for. */
  predicate Typed(k: Kind, v: Value) {
    match k
    case KU16 => v.U16?
    case KGroup => v.U16?
    case KPriority => v.Priority?
    case KStatus => v.Status?
    case KFailure => v.Failure?
    case KText => v.Text?
    case KTypes => v.Types?
    case KPrims => v.Prims?
    case KUnknown => v.Unset?
  }

  // ---------------------------------------------------------------- writing

  function Word(n: nat): (b: seq<byte>)
    ensures |b| == 2
  {
    [n / 256 % 256, n % 256]
  }

  function Doubled(ts: seq<nat>): (b: seq<byte>)
    ensures |b| == |ts|
  {
    if ts == [] then [] else [ts[0] * 2 % 256] + Doubled(ts[1..])
  }

  function Body(v: Value): seq<byte> {
    match v
    case U16(n) => Word(n)
    case Priority(p) => [p * 32 % 256, 0]
    case Status(s, q) => [s, q]
    case Failure(c, d) => [c] + d
    case Text(s) => s
    case Types(ts) => Doubled(ts)
    case Prims(ps) => ps
    case Unset => []
  }

  function PadLen(n: nat): (k: nat)
    ensures k < 4 && (n + k) % 4 == 0
  {
    (4 - n % 4) % 4
  }

  function Zeros(k: nat): (b: seq<byte>)
    ensures |b| == k
  {
    if k == 0 then [] else [0] + Zeros(k - 1)
  }

  function Padded(b: seq<byte>): (r: seq<byte>)
    ensures |r| % 4 == 2 && |r| >= |b| && r[..|b|] == b && |r| - |b| < 4
  {
    b + Zeros(PadLen(2 + |b|))
  }

  function Head(a: Attr, len: nat): (b: seq<byte>)
    ensures |b| == 2
  {
    [(a.typ * 2 + Bit(a.mand)) % 256, len % 256]
  }

  /** The length octet: the header and value, or for a group everything up to the next sibling. */
  function Length(a: Attr, inner: seq<byte>): nat {
    if a.subs == [] then 2 + |Body(a.v)| else 2 + |Padded(Body(a.v))| + |inner|
  }

  function EncodeOne(a: Attr, inner: seq<byte>): (b: seq<byte>)
    ensures |b| == 2 + |Padded(Body(a.v))| + |inner|
  {
    Head(a, Length(a, inner)) + Padded(Body(a.v)) + inner
  }

  function Encode(f: seq<Attr>): seq<byte>
    decreases f
  {
    if f == [] then [] else EncodeOne(f[0], Encode(f[0].subs)) + Encode(f[1..])
  }

  /** Every attribute ends on a 32-bit boundary. */
  lemma {:induction false} Aligned(f: seq<Attr>)
    ensures |Encode(f)| % 4 == 0
    decreases f
  {
    if f != [] {
      Aligned(f[0].subs);
      Aligned(f[1..]);
      MultipleOfFour(|Padded(Body(f[0].v))|, |Encode(f[0].subs)|, |Encode(f[1..])|);
      hide Padded, Body, EncodeOne;
    }
  }

  lemma MultipleOfFour(x: nat, y: nat, z: nat)
    requires x % 4 == 2 && y % 4 == 0 && z % 4 == 0
    ensures (2 + x + y) % 4 == 0 && (2 + x + y + z) % 4 == 0
  {
    assert 2 + x + y == 4 * (x / 4 + y / 4 + 1);
    assert 2 + x + y + z == 4 * (x / 4 + y / 4 + z / 4 + 1);
  }

  predicate FitsOne(a: Attr, inner: seq<byte>) {
    && 1 <= a.typ <= 18 && Typed(KindOf(a.typ), a.v) && InRange(a.v)
    && (a.subs != [] ==> KindOf(a.typ) == KGroup)
    && Length(a, inner) <= 255
  }

  /** Attributes whose values and groups fit their fields. */
  predicate Fits(f: seq<Attr>)
    decreases f
  {
    f != [] ==> FitsOne(f[0], Encode(f[0].subs)) && Fits(f[0].subs) && Fits(f[1..])
  }

  predicate InRange(v: Value) {
    match v
    case U16(n) => n < 65536
    case Priority(p) => p < 8
    case Types(ts) => forall i :: 0 <= i < |ts| ==> ts[i] < 128
    case _ => true
  }

  // ---------------------------------------------------------------- reading

  datatype Read<T> = Bad(err: Errno) | Got(value: T, used: nat, unknown: seq<nat>)

  function Halved(b: seq<byte>): (ts: seq<nat>)
    ensures |ts| == |b|
  {
    if b == [] then [] else [(b[0] as nat) / 2] + Halved(b[1..])
  }

  /** The value in the payload and the bytes of it that are read; None when it is too short. */
  function ReadValue(k: Kind, b: seq<byte>): (r: Option<(Value, nat)>)
    requires k != KGroup
    ensures r.Some? ==> r.value.1 <= |b|
  {
    match k
    case KU16 => if |b| < 2 then None else Some((U16((b[0] as nat) * 256 + b[1]), 2))
    case KPriority => if |b| < 2 then None else Some((Priority((b[0] as nat) / 32), 2))
    case KStatus => if |b| < 2 then None else Some((Status(b[0], b[1]), 2))
    case KFailure => if |b| < 1 then None else Some((Failure(b[0], b[1..]), |b|))
    case KText => Some((Text(b), |b|))
    case KTypes => Some((Types(Halved(b)), |b|))
    case KPrims => Some((Prims(b), |b|))
    case KUnknown => Some((Unset, |b|))
  }

  const MAX_UNKNOWN := 16

  function Noted(unknown: seq<nat>, k: Kind, typ: nat, mand: bool): seq<nat> {
    if k == KUnknown && mand && |unknown| < MAX_UNKNOWN then unknown + [typ * 2] else unknown
  }

  /** Bytes skipped to a multiple of four, as far as there are any. */
  function Skip(used: nat, size: nat): (n: nat)
    requires used <= size
    ensures used <= n <= size
  {
    Min(used + PadLen(used), size)
  }

  /** One attribute at the front of the bytes that are left. */
  function DecodeOne(b: seq<byte>, unknown: seq<nat>): (r: Read<Attr>)
    ensures r.Got? ==> 2 <= r.used <= |b|
    ensures r.Bad? ==> r.err == EBADMSG
    decreases |b|, 0
  {
    if |b| < 2 || b[1] < 2 || |b| < b[1] as nat then Bad(EBADMSG)
    else
      var typ, mand, len := (b[0] as nat) / 2, b[0] % 2 == 1, b[1] as nat;
      var k := KindOf(typ);
      if k == KGroup then
        if len < 4 then Bad(EBADMSG)
        else match DecodeAll(b[4..len], unknown)
          case Bad(e) => Bad(e)
          case Got(subs, used, u) =>
            Got(Attr(typ, mand, U16((b[2] as nat) * 256 + b[3]), subs), Skip(4 + used, |b|), u)
      else match ReadValue(k, b[2..len])
        case None => Bad(EBADMSG)
        case Some((v, n)) => Got(Attr(typ, mand, v, []), Skip(2 + n, |b|), Noted(unknown, k, typ, mand))
  }

  /** Attributes while there is room for a header. */
  function DecodeAll(b: seq<byte>, unknown: seq<nat>): (r: Read<seq<Attr>>)
    ensures r.Got? ==> r.used <= |b|
    ensures r.Bad? ==> r.err == EBADMSG
    decreases |b|, 1
  {
    if |b| < 2 then Got([], 0, unknown)
    else match DecodeOne(b, unknown)
      case Bad(e) => Bad(e)
      case Got(a, n, u) =>
        match DecodeAll(b[n..], u)
        case Bad(e) => Bad(e)
        case Got(f, m, u') => Got([a] + f, n + m, u')
  }

  /** The octets of the mandatory attributes of unknown type in a forest, in reading order. */
  function Unknowns(f: seq<Attr>): seq<nat>
    decreases f
  {
    if f == [] then []
    else (if KindOf(f[0].typ) == KUnknown && f[0].mand then [f[0].typ * 2] else [])
         + Unknowns(f[0].subs) + Unknowns(f[1..])
  }

  /** Types reported before, and more of them as far as there is room. */
  function Reported(before: seq<nat>, more: seq<nat>): seq<nat> {
    if |before| >= 16 then before else before + more[..Min(|more|, 16 - |before|)]
  }

  lemma ReportedConcat(u: seq<nat>, a: seq<nat>, b: seq<nat>)
    ensures Reported(Reported(u, a), b) == Reported(u, a + b) && Reported(u, []) == u
  {
  }

  lemma UnknownsOne(a: Attr, f: seq<Attr>)
    requires KindOf(a.typ) != KGroup ==> a.subs == []
    ensures var own := if KindOf(a.typ) == KUnknown && a.mand then [a.typ * 2] else [];
            Unknowns([a] + f) == (if KindOf(a.typ) == KGroup then Unknowns(a.subs) else own) + Unknowns(f)
    ensures Unknowns([]) == []
  {
    assert ([a] + f)[1..] == f;
    var own := if KindOf(a.typ) == KUnknown && a.mand then [a.typ * 2] else [];
    assert own + [] == own && [] + Unknowns(a.subs) == Unknowns(a.subs);
  }

  lemma {:induction false} OneRecords(b: seq<byte>, unknown: seq<nat>)
    ensures var r := DecodeOne(b, unknown);
            r.Got? ==> r.unknown == Reported(unknown, Unknowns([r.value]))
    decreases |b|, 0
  {
    if |b| >= 4 && 4 <= b[1] as nat <= |b| { AllRecords(b[4..b[1]], unknown); }
    hide DecodeAll, ReadValue, Skip, Unknowns;
    var r := DecodeOne(b, unknown);
    if r.Got? {
      UnknownsOne(r.value, []);
      var own := Unknowns([r.value]);
      assert [r.value] + [] == [r.value];
      assert Unknowns(r.value.subs) + [] == Unknowns(r.value.subs);
    }
  }

  /** On any bytes, the types reported are the mandatory unknown ones among the attributes read, in
      reading order and behind those reported before, up to the sixteen there is room for. */
  lemma {:induction false} AllRecords(b: seq<byte>, unknown: seq<nat>)
    ensures var r := DecodeAll(b, unknown);
            r.Got? ==> r.unknown == Reported(unknown, Unknowns(r.value))
    decreases |b|, 1
  {
    hide DecodeOne, Unknowns, Reported;
    if |b| >= 2 {
      OneRecords(b, unknown);
      var r := DecodeOne(b, unknown);
      if r.Got? {
        AllRecords(b[r.used..], r.unknown);
        var rest := DecodeAll(b[r.used..], r.unknown);
        if rest.Got? { JoinRecords(r.value, rest.value, unknown); }
      }
    } else {
      NothingRecorded(unknown);
    }
  }

  lemma NothingRecorded(unknown: seq<nat>)
    ensures Reported(unknown, Unknowns([])) == unknown
  {
  }

  lemma {:induction false} JoinRecords(a: Attr, f: seq<Attr>, unknown: seq<nat>)
    ensures Reported(Reported(unknown, Unknowns([a])), Unknowns(f)) == Reported(unknown, Unknowns([a] + f))
  {
    hide Unknowns, Reported;
    ReportedConcat(unknown, Unknowns([a]), Unknowns(f));
    UnknownsJoin(a, f);
  }

  lemma {:induction false} UnknownsJoin(a: Attr, f: seq<Attr>)
    ensures Unknowns([a] + f) == Unknowns([a]) + Unknowns(f)
  {
    var own := if KindOf(a.typ) == KUnknown && a.mand then [a.typ * 2] else [];
    assert ([a] + f)[1..] == f && [a][1..] == [];
    var head := own + Unknowns(a.subs);
    assert Unknowns([a]) == head + [] == head;
  }

  // ---------------------------------------------------------------- round trip

  lemma {:induction false} HalvedDoubled(ts: seq<nat>)
    requires forall i :: 0 <= i < |ts| ==> ts[i] < 128
    ensures Halved(Doubled(ts)) == ts
  {
    hide Doubled, Halved;
    if ts == [] {
      NothingDoubled();
    } else {
      HalvedDoubled(ts[1..]);
      OneDoubled(ts[0], ts[1..]);
      assert ts == [ts[0]] + ts[1..];
    }
  }

  lemma NothingDoubled()
    ensures Doubled([]) == [] && Halved([]) == []
  {
  }

  lemma {:induction false} OneDoubled(t: nat, ts: seq<nat>)
    requires t < 128
    ensures Halved(Doubled([t] + ts)) == [t] + Halved(Doubled(ts))
  {
    var all := [t] + ts;
    assert all[1..] == ts;
    var d := Doubled(all);
    assert d == [t * 2] + Doubled(ts) && d[1..] == Doubled(ts);
  }

  lemma WordReadsBack(n: nat)
    requires n < 65536
    ensures (Word(n)[0] as nat) * 256 + Word(n)[1] == n
  {
  }

  lemma BodyReadsBack(k: Kind, v: Value)
    requires k != KGroup && k != KUnknown && Typed(k, v) && InRange(v)
    ensures ReadValue(k, Body(v)) == Some((v, |Body(v)|))
  {
    hide Word, Doubled, Halved;
    match v
    case U16(n) => WordReadsBack(n);
    case Types(ts) => HalvedDoubled(ts);
    case Failure(c, d) => assert ([c] + d)[1..] == d;
    case _ =>
  }

  lemma PaddedUsed(n: nat, padded: nat, size: nat)
    requires n <= padded <= size && padded % 4 == 0 && padded - n < 4
    ensures Skip(n, size) == padded
  {
  }

  lemma DecodeSimple(s: seq<byte>, typ: nat, mand: bool, len: nat, v: Value, unknown: seq<nat>)
    requires 2 <= len <= |s| && s[0] as nat == typ * 2 + Bit(mand) && s[1] as nat == len
    requires KindOf(typ) !in {KGroup, KUnknown} && ReadValue(KindOf(typ), s[2..len]) == Some((v, len - 2))
    ensures DecodeOne(s, unknown) == Got(Attr(typ, mand, v, []), Skip(len, |s|), unknown)
  {
    hide KindOf, ReadValue, Skip;
  }

  lemma {:induction false} SimpleLayout(a: Attr, rest: seq<byte>)
    requires FitsOne(a, []) && KindOf(a.typ) != KGroup
    ensures var b, n := EncodeOne(a, []), 2 + |Body(a.v)|;
            var s := b + rest;
            && n <= |b| <= |s| && |b| % 4 == 0 && |b| - n < 4
            && s[0] as nat == a.typ * 2 + Bit(a.mand) && s[1] as nat == n && s[2..n] == Body(a.v)
  {
    hide Body;
    var body := Body(a.v);
    var b, pad := EncodeOne(a, []), Padded(body);
    var head := Head(a, 2 + |body|);
    assert a.subs == [] && b == head + pad;
    var s := b + rest;
    assert s[0] == head[0] && s[1] == head[1];
    assert s[2..2 + |body|] == pad[..|body|] == body;
  }

  lemma SimpleReadsBack(a: Attr, rest: seq<byte>, unknown: seq<nat>)
    requires FitsOne(a, []) && KindOf(a.typ) != KGroup
    ensures var b := EncodeOne(a, []); DecodeOne(b + rest, unknown) == Got(a, |b|, unknown)
  {
    hide DecodeOne, ReadValue, Body, Skip, EncodeOne;
    var body := Body(a.v);
    var b := EncodeOne(a, []);
    var s := b + rest;
    SimpleLayout(a, rest);
    BodyReadsBack(KindOf(a.typ), a.v);
    DecodeSimple(s, a.typ, a.mand, 2 + |body|, a.v, unknown);
    PaddedUsed(2 + |body|, |b|, |s|);
  }

  lemma GroupReadsBack(a: Attr, inner: seq<byte>, rest: seq<byte>, unknown: seq<nat>)
    requires FitsOne(a, inner) && KindOf(a.typ) == KGroup && (a.subs == [] ==> inner == [])
    requires |inner| % 4 == 0 && DecodeAll(inner, unknown) == Got(a.subs, |inner|, unknown)
    ensures var b := EncodeOne(a, inner); DecodeOne(b + rest, unknown) == Got(a, |b|, unknown)
  {
    hide DecodeOne, DecodeAll, Skip, EncodeOne;
    var s := EncodeOne(a, inner) + rest;
    GroupLayout(a, inner, rest);
    DecodeGroup(s, a.typ, a.mand, 4 + |inner|, a.v, a.subs, unknown);
    PaddedUsed(4 + |inner|, 4 + |inner|, |s|);
  }

  lemma {:induction false} GroupLayout(a: Attr, inner: seq<byte>, rest: seq<byte>)
    requires FitsOne(a, inner) && KindOf(a.typ) == KGroup && (a.subs == [] ==> inner == [])
    ensures var b := EncodeOne(a, inner);
            var s := b + rest;
            && a.v.U16? && |b| == 4 + |inner| <= 255
            && s[0] as nat == a.typ * 2 + Bit(a.mand) && s[1] as nat == 4 + |inner|
            && (s[2] as nat) * 256 + s[3] == a.v.n && s[4..4 + |inner|] == inner
  {
    var body, head := Body(a.v), Head(a, 4 + |inner|);
    assert Padded(body) == body by { assert Zeros(0) == []; }
    var s := EncodeOne(a, inner) + rest;
    assert s == head + body + inner + rest;
    assert s[0] == head[0] && s[1] == head[1] && s[2] == body[0] && s[3] == body[1];
    WordReadsBack(a.v.n);
  }

  lemma {:induction false} DecodeGroup(s: seq<byte>, typ: nat, mand: bool, len: nat, v: Value, subs: seq<Attr>,
                                       unknown: seq<nat>)
    requires 4 <= len <= |s| && s[0] as nat == typ * 2 + Bit(mand) && s[1] as nat == len
    requires v.U16? && (s[2] as nat) * 256 + s[3] == v.n
    requires KindOf(typ) == KGroup && DecodeAll(s[4..len], unknown) == Got(subs, len - 4, unknown)
    ensures DecodeOne(s, unknown) == Got(Attr(typ, mand, v, subs), Skip(len, |s|), unknown)
  {
    hide KindOf, DecodeAll, Skip;
  }

  lemma ConsReadsBack(one: seq<byte>, rest: seq<byte>, a: Attr, f: seq<Attr>, unknown: seq<nat>)
    requires DecodeOne(one + rest, unknown) == Got(a, |one|, unknown)
    requires DecodeAll(rest, unknown) == Got(f, |rest|, unknown)
    ensures DecodeAll(one + rest, unknown) == Got([a] + f, |one + rest|, unknown)
  {
    hide DecodeOne;
    assert (one + rest)[|one|..] == rest;
  }

  lemma {:induction false} ForestTurn(f: seq<Attr>, unknown: seq<nat>)
    requires Fits(f)
    ensures f == [] ==> Encode(f) == [] && DecodeAll([], unknown) == Got([], 0, unknown)
    ensures f != [] ==>
              && FitsOne(f[0], Encode(f[0].subs)) && Fits(f[0].subs) && Fits(f[1..])
              && (f[0].subs != [] ==> KindOf(f[0].typ) == KGroup)
              && Encode(f) == EncodeOne(f[0], Encode(f[0].subs)) + Encode(f[1..])
  {
    hide EncodeOne, Length;
  }

  /** Decoding an encoded forest gives back every type, flag, value and nesting, consumes all of it
      and reports nothing as unknown. */
  lemma {:induction false} AllReadBack(f: seq<Attr>, unknown: seq<nat>)
    requires Fits(f)
    ensures DecodeAll(Encode(f), unknown) == Got(f, |Encode(f)|, unknown)
    decreases f
  {
    hide Encode, Fits, FitsOne, EncodeOne, DecodeOne, DecodeAll, KindOf;
    ForestTurn(f, unknown);
    if f != [] {
      var a := f[0];
      var inner, rest := Encode(a.subs), Encode(f[1..]);
      AllReadBack(a.subs, unknown);
      AllReadBack(f[1..], unknown);
      Aligned(a.subs);
      ForestTurn(a.subs, unknown);
      if KindOf(a.typ) == KGroup {
        GroupReadsBack(a, inner, rest, unknown);
      } else {
        SimpleReadsBack(a, rest, unknown);
      }
      ConsReadsBack(EncodeOne(a, inner), rest, a, f[1..], unknown);
      assert [a] + f[1..] == f;
    }
  }
}
