/** A chunked body received segment by segment with a limit on its length. Chunk bytes are copied in
    blocks, a block being what one segment holds of one chunk; a block that does not fit is refused
    as a whole. */
module HttpLimit {
  import opened Bytes
  import opened HttpChunk

  /** One segment. */
  function Receive(s: Rx, data: seq<byte>, max: nat): Rx
    decreases |data|
  {
    if data == [] || s.verdict != More then s
    else if s.rx == 0 then Receive(Step(s, data[0]), data[1..], max)
    else
      var n := Min(|data|, s.rx);
      if |s.body| + n > max then s.(verdict := Failed(EOVERFLOW))
      else Receive(s.(rx := s.rx - n, body := s.body + data[..n]), data[n..], max)
  }

  /** One segment after the other. */
  function ReceiveAll(s: Rx, segs: seq<seq<byte>>, max: nat): Rx
    decreases |segs|
  {
    if segs == [] then s else ReceiveAll(Receive(s, segs[0], max), segs[1..], max)
  }

  // ---------------------------------------------------------------- one step at a time

  lemma ReceiveStopped(s: Rx, data: seq<byte>, max: nat)
    requires s.verdict != More
    ensures Receive(s, data, max) == s
  {
  }

  lemma ReceiveNothing(s: Rx, max: nat)
    ensures Receive(s, [], max) == s
  {
  }

  lemma ReceiveByte(s: Rx, data: seq<byte>, max: nat)
    requires s.verdict == More && s.rx == 0 && data != []
    ensures Receive(s, data, max) == Receive(Step(s, data[0]), data[1..], max)
    ensures Step(s, data[0]).body == s.body
    ensures Feed(s, data) == Feed(Step(s, data[0]), data[1..])
  {
    hide SizeByte, TrailerByte;
  }

  function Copied(s: Rx, data: seq<byte>): Rx {
    var n := Min(|data|, s.rx);
    s.(rx := s.rx - n, body := s.body + data[..n])
  }

  lemma ReceiveBlock(s: Rx, data: seq<byte>, max: nat)
    requires s.verdict == More && s.rx > 0 && data != []
    ensures var n := Min(|data|, s.rx);
            && (|s.body| + n > max ==> Receive(s, data, max) == s.(verdict := Failed(EOVERFLOW)))
            && (|s.body| + n <= max ==> Receive(s, data, max) == Receive(Copied(s, data), data[n..], max))
            && Feed(s, data[..n]) == Copied(s, data)
            && Feed(s, data) == Feed(Copied(s, data), data[n..])
  {
    hide Feed;
    var n := Min(|data|, s.rx);
    FeedData(s, data[..n]);
    FeedConcat(s, data[..n], data[n..]);
    assert data == data[..n] + data[n..];
  }

  lemma {:induction false} StoppedAll(s: Rx, segs: seq<seq<byte>>, max: nat)
    requires s.verdict != More
    ensures ReceiveAll(s, segs, max) == s
    decreases |segs|
  {
    if segs != [] { StoppedAll(s, segs[1..], max); }
  }

  // ---------------------------------------------------------------- the verdict

  /** A segment is taken as if byte by byte without a limit, or it is over the limit. */
  lemma {:induction false} ReceiveIsFeed(s: Rx, data: seq<byte>, max: nat)
    requires |s.body| <= max
    ensures var r, f := Receive(s, data, max), Feed(s, data);
            if |f.body| <= max then r == f
            else r.verdict == Failed(EOVERFLOW) && s.body <= r.body <= f.body && |r.body| <= max
    decreases |data|
  {
    hide Feed, Receive, Step;
    if data == [] {
      FeedNothing(s);
      ReceiveNothing(s, max);
    } else if s.verdict != More {
      FeedStopped(s, data);
      ReceiveStopped(s, data, max);
    } else if s.rx == 0 {
      ReceiveByte(s, data, max);
      ReceiveIsFeed(Step(s, data[0]), data[1..], max);
    } else {
      var n := Min(|data|, s.rx);
      ReceiveBlock(s, data, max);
      FeedGrows(Copied(s, data), data[n..]);
      if |s.body| + n <= max { ReceiveIsFeed(Copied(s, data), data[n..], max); }
    }
  }

  /** However a stream is cut into segments: without the limit, state and verdict are those of the
      bytes one by one; over the limit, the verdict is that. */
  lemma {:induction false} SegmentsDoNotMatter(s: Rx, segs: seq<seq<byte>>, max: nat)
    requires |s.body| <= max
    ensures var r, f := ReceiveAll(s, segs, max), Feed(s, Flatten(segs));
            if |f.body| <= max then r == f
            else r.verdict == Failed(EOVERFLOW) && s.body <= r.body <= f.body && |r.body| <= max
    decreases |segs|
  {
    hide Feed, Receive;
    if segs == [] {
      FeedNothing(s);
    } else {
      var f1 := Feed(s, segs[0]);
      ReceiveIsFeed(s, segs[0], max);
      FeedConcat(s, segs[0], Flatten(segs[1..]));
      FeedGrows(s, segs[0]);
      FeedGrows(f1, Flatten(segs[1..]));
      if |f1.body| <= max {
        SegmentsDoNotMatter(f1, segs[1..], max);
      } else {
        StoppedAll(Receive(s, segs[0], max), segs[1..], max);
      }
    }
  }

  // ---------------------------------------------------------------- the body that is left

  function BodyAt(s: Rx, data: seq<byte>, q: nat): seq<byte>
    requires q <= |data|
  {
    Feed(s, data[..q]).body
  }

  /** A segment ends after q bytes of the stream. */
  ghost predicate Cut(segs: seq<seq<byte>>, q: nat) {
    exists k :: 0 <= k <= |segs| && q == |Flatten(segs[..k])|
  }

  /** No block runs across position q: a segment ends there, or no chunk is in progress. */
  ghost predicate BlockEnd(s: Rx, segs: seq<seq<byte>>, q: nat) {
    q <= |Flatten(segs)| && (Cut(segs, q) || Feed(s, Flatten(segs)[..q]).rx == 0)
  }

  /** The longest body that ends with a block and is within the limit. */
  ghost predicate LongestWithin(s: Rx, segs: seq<seq<byte>>, max: nat, body: seq<byte>) {
    && |body| <= max
    && (exists q: nat :: BlockEnd(s, segs, q) && body == BodyAt(s, Flatten(segs), q))
    && (forall q: nat :: BlockEnd(s, segs, q) && |BodyAt(s, Flatten(segs), q)| <= max ==>
          BodyAt(s, Flatten(segs), q) <= body)
  }

  /** The same within one segment. */
  predicate EndIn(s: Rx, data: seq<byte>, q: nat) {
    q <= |data| && (q == 0 || q == |data| || Feed(s, data[..q]).rx == 0)
  }

  ghost predicate LongestIn(s: Rx, data: seq<byte>, max: nat, body: seq<byte>) {
    && |body| <= max
    && (exists q: nat :: EndIn(s, data, q) && body == BodyAt(s, data, q))
    && (forall q: nat :: EndIn(s, data, q) && |BodyAt(s, data, q)| <= max ==> BodyAt(s, data, q) <= body)
  }

  /** What is fed in two parts. */
  lemma FeedSplit(s: Rx, data: seq<byte>, n: nat, q: nat)
    requires n <= q <= |data|
    ensures Feed(s, data[..q]) == Feed(Feed(s, data[..n]), data[n..][..q - n])
  {
    hide Feed;
    assert data[..q] == data[..n] + data[n..][..q - n];
    FeedConcat(s, data[..n], data[n..][..q - n]);
  }

  lemma Earlier(s: Rx, data: seq<byte>, p: nat, q: nat)
    requires p <= q <= |data|
    ensures BodyAt(s, data, p) <= BodyAt(s, data, q)
  {
    hide Feed;
    FeedSplit(s, data, p, q);
    FeedGrows(Feed(s, data[..p]), data[p..][..q - p]);
  }

  /** A first part that is within the limit, and in which no end but its last position matters: then
      what is left by the rest is what is left by the whole. */
  predicate FirstPart(s: Rx, data: seq<byte>, n: nat, max: nat) {
    && 0 < n <= |data| && |BodyAt(s, data, n)| <= max
    && (Feed(s, data[..n]).rx == 0 || BodyAt(s, data, n) == s.body)
  }

  lemma EndOfRest(s: Rx, data: seq<byte>, n: nat, max: nat, q: nat)
    requires FirstPart(s, data, n, max) && EndIn(Feed(s, data[..n]), data[n..], q)
    ensures exists p: nat :: EndIn(s, data, p) && BodyAt(Feed(s, data[..n]), data[n..], q) == BodyAt(s, data, p)
  {
    hide Feed;
    var t, rest := Feed(s, data[..n]), data[n..];
    FeedSplit(s, data, n, n + q);
    if q > 0 || t.rx == 0 {
      assert EndIn(s, data, n + q);
    } else {
      assert data[..0] == [] && rest[..0] == [];
      FeedNothing(s);
      FeedNothing(t);
      assert EndIn(s, data, 0);
    }
  }

  lemma EndOfWhole(s: Rx, data: seq<byte>, n: nat, max: nat, body: seq<byte>, q: nat)
    requires FirstPart(s, data, n, max) && LongestIn(Feed(s, data[..n]), data[n..], max, body)
    requires EndIn(s, data, q) && |BodyAt(s, data, q)| <= max
    ensures BodyAt(s, data, q) <= body
  {
    hide Feed;
    var t, rest := Feed(s, data[..n]), data[n..];
    if q < n {
      Earlier(s, data, q, n);
      assert rest[..0] == [];
      FeedNothing(t);
      assert EndIn(t, rest, 0) && BodyAt(t, rest, 0) == BodyAt(s, data, n);
    } else {
      FeedSplit(s, data, n, q);
      assert EndIn(t, rest, q - n);
    }
  }

  lemma LeftLater(s: Rx, data: seq<byte>, n: nat, max: nat, body: seq<byte>)
    requires FirstPart(s, data, n, max) && LongestIn(Feed(s, data[..n]), data[n..], max, body)
    ensures LongestIn(s, data, max, body)
  {
    hide Feed, BodyAt;
    var t, rest := Feed(s, data[..n]), data[n..];
    var q0: nat :| EndIn(t, rest, q0) && body == BodyAt(t, rest, q0);
    EndOfRest(s, data, n, max, q0);
    forall q: nat | EndIn(s, data, q) && |BodyAt(s, data, q)| <= max ensures BodyAt(s, data, q) <= body {
      EndOfWhole(s, data, n, max, body, q);
    }
  }

  /** The block at the front does not fit. */
  lemma LeftHere(s: Rx, data: seq<byte>, max: nat)
    requires s.verdict == More && s.rx > 0 && data != [] && |s.body| <= max
    requires |s.body| + Min(|data|, s.rx) > max
    ensures LongestIn(s, data, max, s.body)
  {
    hide Feed;
    var n := Min(|data|, s.rx);
    assert data[..0] == [];
    FeedNothing(s);
    assert EndIn(s, data, 0) && BodyAt(s, data, 0) == s.body;
    FeedData(s, data[..n]);
    forall q: nat | EndIn(s, data, q) && |BodyAt(s, data, q)| <= max ensures BodyAt(s, data, q) <= s.body {
      if q < n { FeedData(s, data[..q]); } else { Earlier(s, data, n, q); }
    }
  }

  lemma {:induction false} SegmentLeaves(s: Rx, data: seq<byte>, max: nat)
    requires |s.body| <= max < |Feed(s, data).body|
    ensures LongestIn(s, data, max, Receive(s, data, max).body)
    decreases |data|
  {
    hide Feed, Receive, Step, LongestIn;
    if data == [] {
      FeedNothing(s);
    } else if s.verdict != More {
      FeedStopped(s, data);
    } else if s.rx == 0 {
      ReceiveByte(s, data, max);
      SegmentLeaves(Step(s, data[0]), data[1..], max);
      assert data[..1] == [data[0]] + [];
      FeedOne(s, data[0], []);
      FeedNothing(Step(s, data[0]));
      LeftLater(s, data, 1, max, Receive(s, data, max).body);
    } else {
      var n := Min(|data|, s.rx);
      ReceiveBlock(s, data, max);
      if |s.body| + n > max {
        LeftHere(s, data, max);
      } else {
        if n == |data| { FeedNothing(Copied(s, data)); }
        SegmentLeaves(Copied(s, data), data[n..], max);
        LeftLater(s, data, n, max, Receive(s, data, max).body);
      }
    }
  }

  lemma FirstCuts(segs: seq<seq<byte>>)
    requires segs != []
    ensures Cut(segs, 0) && Cut(segs, |segs[0]|)
  {
    assert segs[..0] == [] && segs[..1] == [segs[0]] && segs[..1][1..] == segs[..0];
    assert segs[0] + [] == segs[0];
    assert |Flatten(segs[..0])| == 0 && |Flatten(segs[..1])| == |segs[0]|;
  }

  lemma CutShift(segs: seq<seq<byte>>, q: nat)
    requires segs != []
    ensures Cut(segs[1..], q) ==> Cut(segs, |segs[0]| + q)
    ensures Cut(segs, |segs[0]| + q) ==> Cut(segs[1..], q)
  {
    var n, rest := |segs[0]|, segs[1..];
    if Cut(rest, q) {
      var k :| 0 <= k <= |rest| && q == |Flatten(rest[..k])|;
      assert segs[..k + 1][1..] == rest[..k];
      assert n + q == |Flatten(segs[..k + 1])|;
    }
    if Cut(segs, n + q) {
      var k :| 0 <= k <= |segs| && n + q == |Flatten(segs[..k])|;
      if k == 0 {
        assert q == |Flatten(rest[..0])|;
      } else {
        assert segs[..k][1..] == rest[..k - 1];
        assert q == |Flatten(rest[..k - 1])|;
      }
    }
  }

  /** Within the first segment, a segment ends only at its two ends. */
  lemma NoCutInside(segs: seq<seq<byte>>, q: nat)
    requires segs != [] && 0 < q < |segs[0]|
    ensures !Cut(segs, q)
  {
    forall k | 0 <= k <= |segs| ensures q != |Flatten(segs[..k])| {
      if k > 0 { assert segs[..k][0] == segs[0]; }
    }
  }

  lemma EndsInFirst(s: Rx, segs: seq<seq<byte>>, q: nat)
    requires segs != [] && q <= |segs[0]|
    ensures Flatten(segs)[..q] == segs[0][..q]
    ensures BlockEnd(s, segs, q) ==> EndIn(s, segs[0], q)
    ensures EndIn(s, segs[0], q) ==> BlockEnd(s, segs, q)
  {
    hide Feed, Cut;
    FirstCuts(segs);
    assert Flatten(segs)[..q] == segs[0][..q];
    if 0 < q < |segs[0]| { NoCutInside(segs, q); }
  }

  lemma EndsLater(s: Rx, segs: seq<seq<byte>>, q: nat)
    requires segs != [] && q <= |Flatten(segs[1..])|
    ensures Feed(s, Flatten(segs)[..|segs[0]| + q]) == Feed(Feed(s, segs[0]), Flatten(segs[1..])[..q])
    ensures BlockEnd(Feed(s, segs[0]), segs[1..], q) <==> BlockEnd(s, segs, |segs[0]| + q)
  {
    hide Feed, Cut;
    var a, rest := segs[0], Flatten(segs[1..]);
    assert Flatten(segs)[..|a| + q] == a + rest[..q];
    FeedConcat(s, a, rest[..q]);
    CutShift(segs, q);
  }

  /** The first segment is over the limit. */
  lemma LeftInFirst(s: Rx, segs: seq<seq<byte>>, max: nat, body: seq<byte>)
    requires segs != [] && LongestIn(s, segs[0], max, body) && |Feed(s, segs[0]).body| > max
    ensures LongestWithin(s, segs, max, body)
  {
    hide Feed, Cut;
    var a, all := segs[0], Flatten(segs);
    var q0: nat :| EndIn(s, a, q0) && body == BodyAt(s, a, q0);
    EndsInFirst(s, segs, q0);
    assert BlockEnd(s, segs, q0) && body == BodyAt(s, all, q0);
    assert all[..|a|] == a;
    forall q: nat | BlockEnd(s, segs, q) && |BodyAt(s, all, q)| <= max ensures BodyAt(s, all, q) <= body {
      if q <= |a| {
        EndsInFirst(s, segs, q);
      } else {
        Earlier(s, all, |a|, q);
      }
    }
  }

  /** The first segment is within the limit. */
  lemma LeftInRest(s: Rx, segs: seq<seq<byte>>, max: nat, body: seq<byte>)
    requires segs != [] && |Feed(s, segs[0]).body| <= max
    requires LongestWithin(Feed(s, segs[0]), segs[1..], max, body) && Feed(s, segs[0]).body <= body
    ensures LongestWithin(s, segs, max, body)
  {
    hide Feed, Cut;
    var t, n, all, rest := Feed(s, segs[0]), |segs[0]|, Flatten(segs), Flatten(segs[1..]);
    var q0: nat :| BlockEnd(t, segs[1..], q0) && body == BodyAt(t, rest, q0);
    EndsLater(s, segs, q0);
    assert BlockEnd(s, segs, n + q0) && body == BodyAt(s, all, n + q0);
    forall q: nat | BlockEnd(s, segs, q) && |BodyAt(s, all, q)| <= max ensures BodyAt(s, all, q) <= body {
      if q < n {
        Earlier(s, all, q, n);
        assert all[..n] == segs[0];
      } else {
        EndsLater(s, segs, q - n);
      }
    }
  }

  /** Over the limit, exactly this body is left: the longest that ends with a block and is within
      the limit. It depends on how the stream was cut. */
  lemma {:induction false} OverflowLeaves(s: Rx, segs: seq<seq<byte>>, max: nat)
    requires |s.body| <= max < |Feed(s, Flatten(segs)).body|
    ensures LongestWithin(s, segs, max, ReceiveAll(s, segs, max).body)
    decreases |segs|
  {
    hide Feed, Receive, LongestIn, LongestWithin;
    if segs == [] {
      FeedNothing(s);
    } else {
      var f1 := Feed(s, segs[0]);
      ReceiveIsFeed(s, segs[0], max);
      if |f1.body| <= max {
        FeedConcat(s, segs[0], Flatten(segs[1..]));
        OverflowLeaves(f1, segs[1..], max);
        SegmentsDoNotMatter(f1, segs[1..], max);
        LeftInRest(s, segs, max, ReceiveAll(f1, segs[1..], max).body);
      } else {
        SegmentLeaves(s, segs[0], max);
        StoppedAll(Receive(s, segs[0], max), segs[1..], max);
        LeftInFirst(s, segs, max, Receive(s, segs[0], max).body);
      }
    }
  }

  // ---------------------------------------------------------------- whole messages

  /** Any list of non-empty chunks, any extensions and trailers, cut into segments anyhow: the body is
      the concatenation of the chunks and the end is recognised, exactly when the body fits the limit. */
  lemma BodyArrives(ps: seq<Piece>, last: Piece, ts: seq<seq<byte>>, segs: seq<seq<byte>>, max: nat)
    requires PiecesOk(ps) && LineOk(last, 0) && TrailersOk(ts) && Flatten(segs) == Message(ps, last, ts)
    ensures var r := ReceiveAll(START, segs, max);
            if |Bodies(ps)| <= max then r.verdict == Last && r.body == Bodies(ps)
            else r.verdict == Failed(EOVERFLOW) && r.body <= Bodies(ps) && LongestWithin(START, segs, max, r.body)
  {
    hide Feed, ReceiveAll, Message, LineOk, Bodies, PiecesOk, TrailersOk, LongestWithin;
    MessageFeed(ps, last, ts);
    SegmentsDoNotMatter(START, segs, max);
    if |Bodies(ps)| > max { OverflowLeaves(START, segs, max); }
  }

  /** The size line of a chunk of five bytes. */
  const FIVE: seq<byte> := [53, CR, LF]

  lemma AfterFive(x: seq<byte>)
    ensures Receive(START, FIVE + x, 3) == Receive(START.(rx := 5), x, 3)
  {
    hide Receive;
    var d := FIVE + x;
    var c := START.chunk;
    var s1, s2 := START.(chunk := c.(digit := true, size := 5)), START.(rx := 5);
    ReceiveByte(START, d, 3);
    ReceiveByte(s1, d[1..], 3);
    ReceiveByte(s1, d[1..][1..], 3);
    assert d[1..][1..][1..] == x;
    assert Step(START, 53) == s1 && Step(s1, CR) == s1 && Step(s1, LF) == s2;
  }

  /** A chunk of five bytes, with a limit of three: in one segment it leaves no body, in two it leaves
      the two bytes of the first. */
  lemma CutsLeaveDifferentBodies(d: seq<byte>)
    requires |d| == 5
    ensures var one, two := [FIVE + d], [FIVE + d[..2], d[2..]];
            && Flatten(one) == Flatten(two)
            && ReceiveAll(START, one, 3).body == []
            && ReceiveAll(START, two, 3).body == d[..2]
  {
    var one, two := [FIVE + d], [FIVE + d[..2], d[2..]];
    var rest := [d[2..]];
    assert |one[1..]| == 0 && two[1..] == rest && |rest[1..]| == 0;
    assert d[2..] + [] == d[2..] && FIVE + d + [] == FIVE + d;
    assert FIVE + d == FIVE + d[..2] + d[2..];
    AfterFive(d);
    AfterFive(d[..2]);
    var s := START.(rx := 3, body := d[..2]);
    assert Receive(START.(rx := 5), d[..2], 3) == s by {
      assert d[..2][..2] == d[..2] && [] + d[..2] == d[..2];
    }
    assert ReceiveAll(s, [d[2..]], 3) == Receive(s, d[2..], 3);
  }
}
