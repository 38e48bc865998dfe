/** Chunk sizes as senders print them. */
module HttpHex {
  import opened Bytes
  import opened HttpChunk

  /** The character for a value below sixteen. */
  function Digit(v: nat, upper: bool): byte
    requires v < 16
  {
    if v < 10 then '0' as int + v else (if upper then 'A' else 'a') as int + (v - 10)
  }

  /** A size in hexadecimal, as printf() writes it with %x or %X. */
  function Printed(n: nat, upper: bool): (d: seq<byte>)
    ensures d != []
  {
    if n < 16 then [Digit(n, upper)] else Printed(n / 16, upper) + [Digit(n % 16, upper)]
  }

  /** A character is a digit exactly if one of the sixteen values prints as it, in either case. */
  lemma HexExactly(b: byte, v: nat)
    ensures Hex(b) == Some(v) <==> v < 16 && (b == Digit(v, false) || b == Digit(v, true))
  {
  }

  lemma {:induction false} HexSnoc(d: seq<byte>, b: byte, acc: nat)
    requires IsHex(d) && Hex(b).Some?
    ensures IsHex(d + [b]) && HexValue(d + [b], acc) == (HexValue(d, acc) * 16 + Hex(b).value) % WORD
    decreases |d|
  {
    hide Hex;
    assert IsHex(d + [b]);
    if d == [] {
      assert d + [b] == [b];
      assert HexValue([b][1..], (acc * 16 + Hex(b).value) % WORD) == (acc * 16 + Hex(b).value) % WORD;
    } else {
      assert (d + [b])[1..] == d[1..] + [b];
      HexSnoc(d[1..], b, (acc * 16 + Hex(d[0]).value) % WORD);
    }
  }

  /** A printed size is read as itself, up to the width of the size. */
  lemma {:induction false} PrintedReads(n: nat, upper: bool)
    ensures IsHex(Printed(n, upper)) && HexValue(Printed(n, upper), 0) == n % WORD
    decreases n
  {
    var v := if n < 16 then n else n % 16;
    HexExactly(Digit(v, upper), v);
    hide Hex, Digit;
    if n < 16 {
      var d := Printed(n, upper);
      assert d == [] + [Digit(v, upper)];
      HexSnoc([], Digit(v, upper), 0);
    } else {
      PrintedReads(n / 16, upper);
      HexSnoc(Printed(n / 16, upper), Digit(v, upper), 0);
      Shifted(n);
    }
  }

  lemma Shifted(n: nat)
    ensures (n / 16 % WORD * 16 + n % 16) % WORD == n % WORD
  {
    var q, r := n / 16 / WORD, n / 16 % WORD;
    assert n == 16 * (n / 16) + n % 16 && n / 16 == q * WORD + r;
    assert n == (16 * q) * WORD + (r * 16 + n % 16);
    Multiples(16 * q, r * 16 + n % 16);
  }

  lemma {:induction false} Multiples(k: nat, x: nat)
    ensures (k * WORD + x) % WORD == x % WORD
  {
    if k > 0 { Multiples(k - 1, x); }
  }

  /** The chunks of a body with their sizes printed. */
  function Pieces(ds: seq<seq<byte>>, upper: bool): (ps: seq<Piece>)
    ensures |ps| == |ds| && forall i :: 0 <= i < |ds| ==> ps[i] == Piece(Printed(|ds[i]|, upper), [], ds[i])
  {
    seq(|ds|, i requires 0 <= i < |ds| => Piece(Printed(|ds[i]|, upper), [], ds[i]))
  }

  lemma {:induction false} PieceBodies(ds: seq<seq<byte>>, upper: bool)
    ensures Bodies(Pieces(ds, upper)) == Flatten(ds)
  {
    if ds != [] {
      PieceBodies(ds[1..], upper);
      assert Pieces(ds, upper)[1..] == Pieces(ds[1..], upper);
    }
  }

  /** Any body cut into chunks with printed sizes arrives. */
  lemma PrintedMessage(ds: seq<seq<byte>>, ts: seq<seq<byte>>, upper: bool)
    requires forall i :: 0 <= i < |ds| ==> 0 < |ds[i]| < WORD
    requires TrailersOk(ts)
    ensures var r := Feed(START, Message(Pieces(ds, upper), Piece(Printed(0, upper), [], []), ts));
            r.verdict == Last && r.body == Flatten(ds)
  {
    hide Hex, Feed, Message, HexValue, Printed, Bodies;
    var ps, last := Pieces(ds, upper), Piece(Printed(0, upper), [], []);
    forall i | 0 <= i < |ds| ensures LineOk(ps[i], |ds[i]|) { PrintedReads(|ds[i]|, upper); }
    PrintedReads(0, upper);
    PieceBodies(ds, upper);
    MessageFeed(ps, last, ts);
  }

  /** What a size line may hold outside its parameters: digits, line ends, white space, and a semicolon
      once there is a digit. Anything else, and only that, is refused. */
  lemma RefusedExactly(s: Rx, b: byte)
    requires s.verdict == More && s.rx == 0 && !s.chunk.trailer && !s.chunk.param
    ensures Step(s, b).verdict.Failed? <==>
              && (forall v: nat :: v < 16 ==> b != Digit(v, false) && b != Digit(v, true))
              && b != '\n' as int && b != '\r' as int && b != ' ' as int && b != '\t' as int
              && !(b == ';' as int && s.chunk.digit)
    ensures Step(s, b).verdict.Failed? ==> Step(s, b).verdict.err == EPROTO && Step(s, b).body == s.body
  {
    if v :| 0 <= v < 16 && (b == Digit(v, false) || b == Digit(v, true)) {
      HexExactly(b, v);
    } else if Hex(b).Some? {
      HexExactly(b, Hex(b).value);
    }
    hide Digit;
  }
}
