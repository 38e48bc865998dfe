/** BFCP messages: the common header in front of an attribute forest. */
module BfcpMessage {
  import opened Bytes
  import Bitwise
  import opened Bfcp

  const HDR_SIZE := 12

  datatype Header = Header(ver: nat, r: bool, prim: byte, confid: nat, tid: nat, userid: nat)

  predicate InFields(h: Header) {
    h.ver in {1, 2} && h.confid < 0x1_0000_0000 && h.tid < 65536 && h.userid < 65536
  }

  function HeaderBytes(h: Header, words: nat): (b: seq<byte>)
    ensures |b| == HDR_SIZE
  {
    [(h.ver * 32 + Bit(h.r) * 16) % 256, h.prim] + Word(words) + Word(h.confid / 65536) + Word(h.confid)
    + Word(h.tid) + Word(h.userid)
  }

  function EncodeMsg(h: Header, f: seq<Attr>): seq<byte> {
    HeaderBytes(h, |Encode(f)| / 4) + Encode(f)
  }

  function WordAt(b: seq<byte>, i: nat): (n: nat)
    requires i + 1 < |b|
    ensures n < 65536
  {
    (b[i] as nat) * 256 + b[i + 1]
  }

  function DecodeMsg(b: seq<byte>): (d: Read<(Header, seq<Attr>)>)
    ensures d.Got? ==> d.used <= |b|
  {
    if |b| < HDR_SIZE then Bad(ENODATA)
    else
      var b0 := b[0] as nat;
      var h := Header(b0 / 32, b0 / 16 % 2 == 1, b[1], WordAt(b, 4) * 65536 + WordAt(b, 6),
                      WordAt(b, 8), WordAt(b, 10));
      var len := 4 * WordAt(b, 2);
      if h.ver != 1 && h.ver != 2 then Bad(EBADMSG)
      else if b0 / 8 % 2 == 1 then Bad(ENOSYS)
      else if |b| - HDR_SIZE < len then Bad(ENODATA)
      else match DecodeAll(b[HDR_SIZE..HDR_SIZE + len], [])
        case Bad(e) => Bad(e)
        case Got(f, used, u) => Got((h, f), HDR_SIZE + used, u)
  }

  lemma WordReads(s: seq<byte>, i: nat, n: nat)
    requires i + 1 < |s| && s[i] == Word(n)[0] && s[i + 1] == Word(n)[1]
    ensures WordAt(s, i) == n % 65536
  {
    var high, low := n / 256, n % 256;
    var q, r := high / 256, high % 256 * 256 + low;
    assert n == q * 65536 + r;
    Bitwise.ModUnique(n, 65536, q, r);
  }

  lemma FirstByte(ver: nat, r: bool)
    requires ver in {1, 2}
    ensures var x := (ver * 32 + Bit(r) * 16) % 256; x / 32 == ver && (x / 16 % 2 == 1) == r && x / 8 % 2 == 0
  {
  }

  lemma HeaderFields(h: Header, words: nat, rest: seq<byte>)
    requires InFields(h) && words < 65536
    ensures var s := HeaderBytes(h, words) + rest;
            && (s[0] as nat) / 32 == h.ver && ((s[0] as nat) / 16 % 2 == 1) == h.r && (s[0] as nat) / 8 % 2 == 0
            && s[1] == h.prim && WordAt(s, 2) == words && WordAt(s, 4) * 65536 + WordAt(s, 6) == h.confid
            && WordAt(s, 8) == h.tid && WordAt(s, 10) == h.userid
  {
    hide Word, WordAt;
    var s := HeaderBytes(h, words) + rest;
    FirstByte(h.ver, h.r);
    WordReads(s, 2, words);
    WordReads(s, 4, h.confid / 65536);
    WordReads(s, 6, h.confid);
    WordReads(s, 8, h.tid);
    WordReads(s, 10, h.userid);
  }

  predicate Sendable(h: Header, f: seq<Attr>) {
    InFields(h) && Fits(f) && |Encode(f)| < 4 * 65536
  }

  /** A message is read back whole, whatever follows it in the stream, and exactly its bytes are
      consumed. */
  lemma MsgReadsBack(h: Header, f: seq<Attr>, rest: seq<byte>)
    requires Sendable(h, f)
    ensures var m := EncodeMsg(h, f); DecodeMsg(m + rest) == Got((h, f), |m|, [])
  {
    hide Encode, DecodeAll, HeaderBytes, Fits;
    var body := Encode(f);
    Aligned(f);
    AllReadBack(f, []);
    var head := HeaderBytes(h, |body| / 4);
    HeaderFields(h, |body| / 4, body + rest);
    ConcatAssoc(head, body, rest);
    assert (head + (body + rest))[HDR_SIZE..HDR_SIZE + |body|] == body;
  }

  /** While part of a message is missing the reader asks for more data. */
  lemma PrefixWaits(h: Header, f: seq<Attr>, k: nat)
    requires Sendable(h, f) && k < |EncodeMsg(h, f)|
    ensures DecodeMsg(EncodeMsg(h, f)[..k]) == Bad(ENODATA)
  {
    hide Encode, DecodeAll, HeaderBytes, Fits;
    var body := Encode(f);
    Aligned(f);
    var head := HeaderBytes(h, |body| / 4);
    if k >= HDR_SIZE {
      HeaderFields(h, |body| / 4, body[..k - HDR_SIZE]);
      assert (head + body)[..k] == head + body[..k - HDR_SIZE];
    }
  }

  /** Which messages are refused, by their bytes: the version is one or two, the fragment bit is clear,
      and as many words as announced are there. */
  lemma RefusedExactly(b: seq<byte>)
    ensures var d := DecodeMsg(b);
            if |b| < 12 then d == Bad(ENODATA)
            else if !(32 <= b[0] < 96) then d == Bad(EBADMSG)
            else if b[0] % 16 >= 8 then d == Bad(ENOSYS)
            else if |b| < 12 + 1024 * (b[2] as nat) + 4 * (b[3] as nat) then d == Bad(ENODATA)
            else d.Bad? ==> d.err == EBADMSG
  {
    hide DecodeAll;
    if |b| >= 12 {
      var x := b[0] as nat;
      assert (x / 32 == 1 || x / 32 == 2) <==> 32 <= x < 96;
      assert x / 8 % 2 == 1 <==> x % 16 >= 8;
    }
  }

  /** The value that RFC 4582 gives the two bytes of an attribute of each type. */
  function TwoBytes(typ: nat, x: byte, y: byte): Value {
    match typ
    case 1 => U16(256 * x + y)          // beneficiary id
    case 2 => U16(256 * x + y)          // floor id
    case 3 => U16(256 * x + y)          // floor request id
    case 4 => Priority(x / 32)          // priority
    case 5 => Status(x, y)              // request status
    case 6 => Failure(x, [y])           // error code
    case 7 => Text([x, y])              // error info
    case 8 => Text([x, y])              // participant provided info
    case 9 => Text([x, y])              // status info
    case 10 => Types([x / 2, y / 2])    // supported attributes
    case 11 => Prims([x, y])            // supported primitives
    case 12 => Text([x, y])             // user display name
    case 13 => Text([x, y])             // user URI
    case _ => if 14 <= typ <= 18 then U16(256 * x + y) else Unset
  }

  lemma KindFacts(typ: nat)
    ensures KindOf(typ) == KGroup <==> 14 <= typ <= 18
    ensures KindOf(typ) == KUnknown <==> typ == 0 || typ > 18
  {
  }

  lemma TwoByteValue(typ: nat, x: byte, y: byte)
    requires KindOf(typ) != KGroup
    ensures ReadValue(KindOf(typ), [x, y]) == Some((TwoBytes(typ, x, y), 2))
  {
    TwoHalves(x, y);
    assert [x, y][1..] == [y];
    hide Halved;
  }

  /** An attribute of two bytes has the value of its type, and the mandatory bit of its first byte. */
  lemma TwoByteAttribute(typ: nat, mand: bool, x: byte, y: byte)
    requires typ < 128
    ensures var r := DecodeOne([typ * 2 + Bit(mand), 4, x, y], []);
            && r.Got? && r.value == Attr(typ, mand, TwoBytes(typ, x, y), []) && r.used == 4
            && r.unknown == if mand && (typ == 0 || typ > 18) then [typ * 2] else []
  {
    var b: seq<byte> := [typ * 2 + Bit(mand), 4, x, y];
    assert b[2..4] == [x, y] && b[4..4] == [];
    assert (b[0] as nat) / 2 == typ && (b[0] % 2 == 1) == mand;
    KindFacts(typ);
    NoAttributes();
    hide KindOf, DecodeAll, ReadValue;
    if KindOf(typ) != KGroup { TwoByteValue(typ, x, y); }
  }

  lemma NoAttributes()
    ensures DecodeAll([], []) == Got([], 0, [])
  {
  }

  lemma TwoHalves(x: byte, y: byte)
    ensures Halved([x, y]) == [x / 2, y / 2]
  {
    assert [x, y][1..] == [y] && [y][1..] == [];
  }
}
