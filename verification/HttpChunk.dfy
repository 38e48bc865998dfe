/** Chunked transfer coding (section 3.6.1 of RFC 2616): the decoder as a fold over single bytes,
    with no limit on the body. */
module HttpChunk {
  import opened Bytes

  const LF: byte := 10
  const CR: byte := 13
  const SEMICOLON: byte := 59

  const WORD: nat := 0x1_0000_0000_0000_0000

  datatype Chunk = Chunk(size: nat, lf: nat, trailer: bool, digit: bool, param: bool)

  datatype Verdict = More | Last | Failed(err: Errno)

  /** Where a response body has got to: `rx` bytes of the current chunk are still to come. */
  datatype Rx = Rx(chunk: Chunk, rx: nat, body: seq<byte>, verdict: Verdict)

  const START := Rx(Chunk(0, 0, false, false, false), 0, [], More)

  function Hex(b: byte): Option<nat> {
    if 48 <= b <= 57 then Some(b as nat - 48)
    else if 65 <= b <= 70 then Some(b as nat - 55)
    else if 97 <= b <= 102 then Some(b as nat - 87)
    else None
  }

  /** A byte of a size line; the flag says that it completes the line. */
  function SizeByte(c: Chunk, b: byte): (r: Option<(Chunk, bool)>) {
    if b == LF then
      Some(if c.digit then (c.(digit := false, param := false), true) else (c, false))
    else if c.param then Some((c, false))
    else if Hex(b).Some? then Some((c.(digit := true, size := (c.size * 16 + Hex(b).value) % WORD), false))
    else if b in {CR, 32, 9} then Some((c, false))
    else if b == SEMICOLON && c.digit then Some((c.(param := true), false))
    else None
  }

  /** A byte of the trailer, which a second line end in a row completes. */
  function TrailerByte(c: Chunk, b: byte): (Chunk, bool) {
    if b == LF then (c.(lf := c.lf + 1), c.lf + 1 >= 2)
    else if b != CR then (c.(lf := 0), false)
    else (c, false)
  }

  function Step(s: Rx, b: byte): Rx {
    if s.verdict != More then s
    else if s.rx > 0 then
      s.(rx := s.rx - 1, body := s.body + [b])
    else if s.chunk.trailer then
      var (c, done) := TrailerByte(s.chunk, b);
      s.(chunk := c, verdict := if done then Last else More)
    else match SizeByte(s.chunk, b)
      case None => s.(verdict := Failed(EPROTO))
      case Some((c, false)) => s.(chunk := c)
      case Some((c, true)) =>
        if c.size == 0 then s.(chunk := c.(trailer := true, lf := 1))
        else s.(chunk := c.(size := 0), rx := c.size)
  }

  function Feed(s: Rx, data: seq<byte>): Rx
    decreases |data|
  {
    if data == [] then s else Feed(Step(s, data[0]), data[1..])
  }

  lemma {:induction false} FeedConcat(s: Rx, a: seq<byte>, b: seq<byte>)
    ensures Feed(s, a + b) == Feed(Feed(s, a), b)
    decreases |a|
  {
    hide Step;
    if a == [] {
      assert a + b == b;
    } else {
      FeedConcat(Step(s, a[0]), a[1..], b);
      assert (a + b)[1..] == a[1..] + b;
    }
  }

  lemma FeedNothing(s: Rx)
    ensures Feed(s, []) == s
  {
  }

  lemma FeedOne(s: Rx, b: byte, rest: seq<byte>)
    ensures Feed(s, [b] + rest) == Feed(Step(s, b), rest)
  {
    assert ([b] + rest)[1..] == rest;
  }

  lemma {:induction false} FeedStopped(s: Rx, data: seq<byte>)
    requires s.verdict != More
    ensures Feed(s, data) == s
    decreases |data|
  {
    if data != [] { FeedStopped(s, data[1..]); }
  }

  /** Bytes of a chunk are taken as they are. */
  lemma {:induction false} FeedData(s: Rx, data: seq<byte>)
    requires s.verdict == More && |data| <= s.rx
    ensures Feed(s, data) == s.(rx := s.rx - |data|, body := s.body + data)
    decreases |data|
  {
    if data == [] {
      assert s.body + [] == s.body;
    } else {
      var t := Step(s, data[0]);
      FeedData(t, data[1..]);
      assert t.body + data[1..] == s.body + data;
    }
  }

  /** A body only grows. */
  lemma {:induction false} FeedGrows(s: Rx, data: seq<byte>)
    ensures s.body <= Feed(s, data).body
    decreases |data|
  {
    if data != [] {
      assert s.body <= Step(s, data[0]).body;
      FeedGrows(Step(s, data[0]), data[1..]);
    }
  }

  // ---------------------------------------------------------------- encoded bodies

  /** A chunk on the wire: its size in hexadecimal, extensions after a semicolon, its bytes. */
  datatype Piece = Piece(digits: seq<byte>, ext: seq<byte>, data: seq<byte>)

  predicate IsHex(d: seq<byte>) {
    forall i :: 0 <= i < |d| ==> Hex(d[i]).Some?
  }

  function HexValue(d: seq<byte>, acc: nat): nat
    requires IsHex(d)
    decreases |d|
  {
    if d == [] then acc else HexValue(d[1..], (acc * 16 + Hex(d[0]).value) % WORD)
  }

  predicate ExtOk(e: seq<byte>) {
    (e != [] ==> e[0] == SEMICOLON) && LF !in e
  }

  /** A size line that announces n bytes. */
  predicate LineOk(p: Piece, n: nat) {
    p.digits != [] && IsHex(p.digits) && HexValue(p.digits, 0) == n && ExtOk(p.ext)
  }

  function SizeLine(p: Piece): seq<byte> {
    p.digits + p.ext + [CR, LF]
  }

  function Wire(ps: seq<Piece>): seq<byte> {
    if ps == [] then [] else SizeLine(ps[0]) + ps[0].data + [CR, LF] + Wire(ps[1..])
  }

  function Bodies(ps: seq<Piece>): seq<byte> {
    if ps == [] then [] else ps[0].data + Bodies(ps[1..])
  }

  predicate PiecesOk(ps: seq<Piece>) {
    forall i :: 0 <= i < |ps| ==> ps[i].data != [] && LineOk(ps[i], |ps[i].data|)
  }

  /** Trailer lines: not blank, and without line ends inside. */
  predicate TrailersOk(ts: seq<seq<byte>>) {
    forall i :: 0 <= i < |ts| ==> LF !in ts[i] && exists j :: 0 <= j < |ts[i]| && ts[i][j] != CR
  }

  function TrailerWire(ts: seq<seq<byte>>): seq<byte> {
    if ts == [] then [CR, LF] else ts[0] + [CR, LF] + TrailerWire(ts[1..])
  }

  function Message(ps: seq<Piece>, last: Piece, ts: seq<seq<byte>>): seq<byte> {
    Wire(ps) + (SizeLine(last) + TrailerWire(ts))
  }

  /** The decoder between chunks. */
  predicate Between(s: Rx) {
    s.verdict == More && s.rx == 0 && s.chunk.size == 0 && !s.chunk.trailer && !s.chunk.digit && !s.chunk.param
  }

  lemma {:induction false} DigitsFeed(s: Rx, d: seq<byte>)
    requires s.verdict == More && s.rx == 0 && !s.chunk.trailer && !s.chunk.param && IsHex(d)
    ensures Feed(s, d) == s.(chunk := s.chunk.(digit := s.chunk.digit || d != [], size := HexValue(d, s.chunk.size)))
    decreases |d|
  {
    if d != [] { DigitsFeed(Step(s, d[0]), d[1..]); }
  }

  lemma {:induction false} ParamFeed(s: Rx, e: seq<byte>)
    requires s.verdict == More && s.rx == 0 && !s.chunk.trailer && s.chunk.param && LF !in e
    ensures Feed(s, e) == s
    decreases |e|
  {
    if e != [] { ParamFeed(Step(s, e[0]), e[1..]); }
  }

  lemma ExtFeed(s: Rx, e: seq<byte>)
    requires s.verdict == More && s.rx == 0 && !s.chunk.trailer && s.chunk.digit && !s.chunk.param && ExtOk(e)
    ensures Feed(s, e) == s.(chunk := s.chunk.(param := e != []))
  {
    if e != [] { ParamFeed(Step(s, e[0]), e[1..]); }
  }

  lemma CrLfFeed(s: Rx)
    ensures Feed(s, [CR, LF]) == Step(Step(s, CR), LF)
  {
    hide Step;
    FeedOne(s, CR, [LF]);
    FeedOne(Step(s, CR), LF, []);
    assert [CR] + [LF] == [CR, LF] && [LF] + [] == [LF];
  }

  lemma SizeLineFeed(s: Rx, p: Piece, n: nat)
    requires Between(s) && LineOk(p, n)
    ensures Feed(s, SizeLine(p)) ==
              if n == 0 then s.(chunk := s.chunk.(trailer := true, lf := 1)) else s.(rx := n)
  {
    hide Feed, Step, Hex;
    DigitsFeed(s, p.digits);
    var s1 := Feed(s, p.digits);
    ExtFeed(s1, p.ext);
    var s2 := Feed(s1, p.ext);
    FeedConcat(s, p.digits, p.ext);
    FeedConcat(s, p.digits + p.ext, [CR, LF]);
    CrLfFeed(s2);
    LineEnd(s2);
  }

  lemma LineEnd(s: Rx)
    requires s.verdict == More && s.rx == 0 && !s.chunk.trailer && s.chunk.digit
    ensures var c := s.chunk.(digit := false, param := false);
            Step(Step(s, CR), LF) ==
              if c.size == 0 then s.(chunk := c.(trailer := true, lf := 1))
              else s.(chunk := c.(size := 0), rx := c.size)
  {
  }

  /** One chunk: its bytes join the body. */
  lemma PieceFeed(s: Rx, p: Piece)
    requires Between(s) && p.data != [] && LineOk(p, |p.data|)
    ensures Feed(s, SizeLine(p) + p.data + [CR, LF]) == s.(body := s.body + p.data)
  {
    hide Feed, SizeLine, LineOk;
    SizeLineFeed(s, p, |p.data|);
    var s1 := s.(rx := |p.data|);
    FeedData(s1, p.data);
    var s2 := Feed(s1, p.data);
    FeedConcat(s, SizeLine(p), p.data);
    FeedConcat(s, SizeLine(p) + p.data, [CR, LF]);
    CrLfFeed(s2);
  }

  lemma {:induction false} WireFeed(s: Rx, ps: seq<Piece>)
    requires Between(s) && PiecesOk(ps)
    ensures Feed(s, Wire(ps)) == s.(body := s.body + Bodies(ps))
    decreases |ps|
  {
    hide Feed, SizeLine, LineOk;
    if ps == [] {
      FeedNothing(s);
      assert s.body + [] == s.body;
    } else {
      var p, rest := ps[0], Wire(ps[1..]);
      PieceFeed(s, p);
      FeedConcat(s, SizeLine(p) + p.data + [CR, LF], rest);
      WireFeed(s.(body := s.body + p.data), ps[1..]);
      ConcatAssoc(s.body, p.data, Bodies(ps[1..]));
    }
  }

  predicate InTrailer(s: Rx) {
    s.verdict == More && s.rx == 0 && s.chunk.trailer
  }

  /** A line without line ends inside clears the count unless it is blank. */
  lemma {:induction false} TrailerLineFeed(s: Rx, t: seq<byte>)
    requires InTrailer(s) && LF !in t
    ensures Feed(s, t) ==
              if exists j :: 0 <= j < |t| && t[j] != CR then s.(chunk := s.chunk.(lf := 0)) else s
    decreases |t|
  {
    if t != [] {
      var s1 := Step(s, t[0]);
      TrailerLineFeed(s1, t[1..]);
      if exists j :: 0 <= j < |t| && t[j] != CR {
        var j :| 0 <= j < |t| && t[j] != CR;
        if j > 0 { assert t[1..][j - 1] != CR; }
      }
      if exists j :: 0 <= j < |t[1..]| && t[1..][j] != CR {
        var j :| 0 <= j < |t[1..]| && t[1..][j] != CR;
        assert t[j + 1] != CR;
      }
    }
  }

  lemma {:induction false} TrailerFeed(s: Rx, ts: seq<seq<byte>>)
    requires InTrailer(s) && s.chunk.lf == 1 && TrailersOk(ts)
    ensures var r := Feed(s, TrailerWire(ts)); r.verdict == Last && r.body == s.body
    decreases |ts|
  {
    hide Feed;
    CrLfFeed(s);
    if ts != [] {
      var t := ts[0];
      TrailerLineFeed(s, t);
      var s1 := s.(chunk := s.chunk.(lf := 0));
      CrLfFeed(s1);
      FeedConcat(s, t, [CR, LF]);
      FeedConcat(s, t + [CR, LF], TrailerWire(ts[1..]));
      TrailerFeed(Feed(s1, [CR, LF]), ts[1..]);
    }
  }

  /** Any list of non-empty chunks, any extensions and trailers: the body is the concatenation of the
      chunks, and the end is recognised. */
  lemma MessageFeed(ps: seq<Piece>, last: Piece, ts: seq<seq<byte>>)
    requires PiecesOk(ps) && LineOk(last, 0) && TrailersOk(ts)
    ensures var r := Feed(START, Message(ps, last, ts)); r.verdict == Last && r.body == Bodies(ps)
  {
    hide Feed, Wire, SizeLine, TrailerWire, LineOk, Bodies, PiecesOk;
    var tail := SizeLine(last) + TrailerWire(ts);
    FeedConcat(START, Wire(ps), tail);
    WireFeed(START, ps);
    assert [] + Bodies(ps) == Bodies(ps);
    var s := Feed(START, Wire(ps));
    SizeLineFeed(s, last, 0);
    FeedConcat(s, SizeLine(last), TrailerWire(ts));
    TrailerFeed(Feed(s, SizeLine(last)), ts);
  }
}
