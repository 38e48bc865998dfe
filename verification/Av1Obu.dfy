/** AV1 open bitstream units: header coding and the list of units an RTP sender has to carry. */
module Av1Obu {
  import opened Bytes
  import Leb128

  datatype Obu = Obu(typ: nat, sized: bool, payload: seq<byte>)

  /** Sequence header, frame header, tile group, metadata, frame, redundant frame header. */
  predicate AllowedRtp(typ: nat) {
    typ == 1 || typ == 3 || typ == 4 || typ == 5 || typ == 6 || typ == 7
  }

  function Encode(o: Obu): seq<byte>
    requires o.typ < 16
  {
    [o.typ * 8 + if o.sized then 2 else 0]
    + (if o.sized then Leb128.Encode(|o.payload|) else [])
    + o.payload
  }

  datatype Decoded = Bad(err: Errno) | Good(typ: nat, size: nat, hdrLen: nat)

  /** Reads the header byte and the optional size field at the front of `s`. */
  function DecodeHeader(s: seq<byte>): (d: Decoded)
    ensures d.Bad? ==> d.err != OK
    ensures d.Good? ==> d.typ < 16 && 1 <= d.hdrLen && d.hdrLen + d.size <= |s|
  {
    if |s| < 1 then Bad(EBADMSG)
    else if s[0] / 128 == 1 then Bad(EBADMSG)
    else if s[0] / 4 % 2 == 1 then Bad(ENOTSUP)
    else if s[0] / 2 % 2 == 1 then
      match Leb128.Decode(s[1..], 8)
      case Short => Bad(EBADMSG)
      case Value(v, n) => if v > |s| - 1 - n then Bad(EBADMSG) else Good(s[0] / 8 % 16, v, 1 + n)
    else Good(s[0] / 8 % 16, |s| - 1, 1)
  }

  method DecodeAt(buf: seq<byte>, pos: nat) returns (d: Decoded)
    requires pos <= |buf|
    ensures d == DecodeHeader(buf[pos..])
  {
    if |buf| - pos < 1 {
      return Bad(EBADMSG);
    }
    var val := buf[pos];
    if val / 128 == 1 {
      return Bad(EBADMSG);
    }
    if val / 4 % 2 == 1 {
      return Bad(ENOTSUP);
    }
    if val / 2 % 2 == 1 {
      var size := Leb128.ReadFrom(buf, pos + 1);
      assert buf[pos..][1..] == buf[pos + 1..];
      if size.Short? {
        return Bad(EBADMSG);
      }
      if size.v > |buf| - (pos + 1 + size.len) {
        return Bad(EBADMSG);
      }
      return Good(val / 8 % 16, size.v, 1 + size.len);
    }
    return Good(val / 8 % 16, |buf| - pos - 1, 1);
  }

  /** What is left to send: the allowed units in order, each as its header byte with the size
      flag cleared followed by its payload. `last` says that no input byte follows the unit. */
  datatype Feed = End | Broken(err: Errno) | Unit(data: seq<byte>, last: bool, next: Feed)

  predicate Wf(f: Feed) {
    (f.Broken? ==> f.err != OK) && (f.Unit? ==> f.data != [] && Wf(f.next))
  }

  function FeedOf(s: seq<byte>): (f: Feed)
    ensures Wf(f)
    decreases |s|
  {
    if |s| < 2 then End
    else match DecodeHeader(s)
      case Bad(e) => Broken(e)
      case Good(typ, size, h) =>
        var rest := s[h + size..];
        if AllowedRtp(typ) then Unit([typ * 8] + s[h..h + size], rest == [], FeedOf(rest))
        else FeedOf(rest)
  }

  function Units(f: Feed): seq<seq<byte>> {
    if f.Unit? then [f.data] + Units(f.next) else []
  }

  function Verdict(f: Feed): Errno {
    match f
    case End => OK
    case Broken(e) => e
    case Unit(_, _, next) => Verdict(next)
  }

  /** A unit list a sender may hand over: every unit but the last carries its size. */
  predicate Encodable(os: seq<Obu>) {
    forall i :: 0 <= i < |os| ==>
      && os[i].typ < 16
      && (if os[i].sized then |os[i].payload| < Pow(128, 8) else i == |os| - 1 && os[i].payload != [])
  }

  function EncodeAll(os: seq<Obu>): seq<byte>
    requires Encodable(os)
  {
    if os == [] then [] else Encode(os[0]) + EncodeAll(os[1..])
  }

  /** The units a receiver should see. */
  function Carried(os: seq<Obu>): seq<seq<byte>>
    requires Encodable(os)
  {
    if os == [] then []
    else (if AllowedRtp(os[0].typ) then [[os[0].typ * 8] + os[0].payload] else []) + Carried(os[1..])
  }

  lemma HeaderRoundTrip(o: Obu, rest: seq<byte>)
    requires o.typ < 16
    requires if o.sized then |o.payload| < Pow(128, 8) else rest == []
    ensures var d := DecodeHeader(Encode(o) + rest);
            && d == Good(o.typ, |o.payload|, |Encode(o)| - |o.payload|)
            && (Encode(o) + rest)[d.hdrLen..d.hdrLen + d.size] == o.payload
  {
    hide Leb128.Encode, Leb128.Decode, Pow;
    var s := Encode(o) + rest;
    var b := o.typ * 8 + if o.sized then 2 else 0;
    assert s[0] == b;
    HeaderBits(o.typ, o.sized);
    if o.sized {
      var prefix := Leb128.Encode(|o.payload|);
      Leb128.RoundTrip(|o.payload|, o.payload + rest, 8);
      SizedParts(b, prefix, o.payload, rest);
    } else {
      assert s[1..1 + |o.payload|] == o.payload;
    }
  }

  /** A unit that carries its size and breaks off anywhere is refused. */
  lemma {:induction false} CutShort(o: Obu, k: nat)
    requires o.typ < 16 && o.sized && |o.payload| < Pow(128, 8) && k < |Encode(o)|
    ensures DecodeHeader(Encode(o)[..k]) == Bad(EBADMSG)
  {
    hide Leb128.Encode, Leb128.Decode, Pow;
    var prefix := Leb128.Encode(|o.payload|);
    var b: byte := o.typ * 8 + 2;
    HeaderBits(o.typ, true);
    if k > 0 {
      var s := Encode(o)[..k];
      assert s[0] == b;
      if k - 1 < |prefix| {
        Leb128.CutShort(|o.payload|, k - 1, 8);
        assert s[1..] == prefix[..k - 1];
      } else {
        var part := o.payload[..k - 1 - |prefix|];
        Leb128.RoundTrip(|o.payload|, part, 8);
        assert s[1..] == prefix + part;
      }
    }
  }

  /** So is one with the forbidden bit set, and one with a header extension, which is not supported. */
  lemma FlagsRefused(s: seq<byte>, low: nat)
    requires s != []
    ensures s[0] == 128 + low ==> DecodeHeader(s) == Bad(EBADMSG)
    ensures s[0] == low && low < 128 && low % 8 in {4, 5, 6, 7} ==> DecodeHeader(s) == Bad(ENOTSUP)
  {
  }

  /** Not carried: reserved types, temporal delimiters, tile lists and padding. */
  lemma SkippedTypes(typ: nat)
    requires typ < 16
    ensures !AllowedRtp(typ) <==> typ in {0, 2, 8, 15} || 9 <= typ <= 14
  {
  }

  lemma HeaderBits(typ: nat, sized: bool)
    requires typ < 16
    ensures var b := typ * 8 + if sized then 2 else 0;
            b < 256 && b / 128 == 0 && b / 4 % 2 == 0 && b / 2 % 2 == Bit(sized) && b / 8 % 16 == typ
  {
  }

  lemma SizedParts(b: byte, prefix: seq<byte>, payload: seq<byte>, rest: seq<byte>)
    ensures var s := [b] + prefix + payload + rest;
            && s[1..] == prefix + (payload + rest)
            && s[1 + |prefix|..1 + |prefix| + |payload|] == payload
  {
  }

  /** Decoding an encoded unit list yields exactly the allowed units, without error. */
  lemma {:induction false} FeedOfEncoded(os: seq<Obu>)
    requires Encodable(os)
    ensures Units(FeedOf(EncodeAll(os))) == Carried(os)
    ensures Verdict(FeedOf(EncodeAll(os))) == OK
  {
    if os != [] {
      var o, rest := os[0], EncodeAll(os[1..]);
      FeedOfEncoded(os[1..]);
      HeaderRoundTrip(o, rest);
      assert (Encode(o) + rest)[|Encode(o)|..] == rest;
    }
  }
}
