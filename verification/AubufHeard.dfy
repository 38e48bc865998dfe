/** What the caller of the audio buffer hears: samples, silence, or what was in its own array before. */
module AubufHeard {
  import opened Bytes
  import opened Aubuf
  import opened AubufBuffer

  /** The caller's array after a read that finds `was` in it. */
  function Heard(ab: Ab, jitter: Jitter, was: seq<byte>): seq<byte>
    requires ab.cur == |Contents(ab.afl)|
  {
    var r := Read(ab, jitter, |was|);
    ReadFits(ab, jitter, |was|);
    Laid(Laid(if r.silence then Silence(|was|) else was, r.out), r.again)
  }

  lemma {:induction false} SilenceZero(n: nat, i: nat)
    requires i < n
    ensures Silence(n)[i] == 0
  {
    if i > 0 { SilenceZero(n - 1, i - 1); }
  }

  lemma TakeLength(afl: seq<Frame>, sz: nat)
    ensures |Take(afl, sz).1| == Min(sz, |Contents(afl)|)
  {
    hide TakeAs, Contents;
    TakeQueue(afl, sz);
  }

  lemma ReadFits(ab: Ab, jitter: Jitter, sz: nat)
    ensures var r := Read(ab, jitter, sz); |r.out| <= sz && |r.again| <= sz && |r.again| <= |r.out|
  {
    hide Take, DropTo, Contents, Settle;
    var d := if ab.live && !ab.started && ab.wish > 0 then DropTo(ab.afl, ab.wish) else (ab.afl, []);
    var t := Take(d.0, sz);
    TakeLength(d.0, sz);
    TakeLength(t.0, sz);
    TakeLess(d.0, sz);
  }

  lemma TakeLess(afl: seq<Frame>, sz: nat)
    ensures |Contents(Take(afl, sz).0)| + |Take(afl, sz).1| == |Contents(afl)|
  {
    hide Take, Contents;
    TakeParts(afl, sz);
    var t := Take(afl, sz);
    assert |t.1 + Contents(t.0)| == |t.1| + |Contents(t.0)|;
  }

  // ---------------------------------------------------------------- what a first read leaves

  /** The frames from k on, all that fit the wished size. */
  predicate Keeps(afl: seq<Frame>, wish: nat, k: nat) {
    && k <= |afl| && |Contents(afl[k..])| <= wish
    && forall j :: 0 <= j < k ==> |Contents(afl[j..])| > wish
  }

  /** Dropping to the wished size drops as few frames as it can. */
  lemma {:induction false} DropExactly(afl: seq<Frame>, wish: nat) returns (k: nat)
    ensures Keeps(afl, wish, k) && DropTo(afl, wish).0 == afl[k..]
    decreases |afl|
  {
    hide Contents;
    assert afl[0..] == afl;
    if |Contents(afl)| <= wish {
      k := 0;
    } else {
      assert afl != [] by { EmptyContents(); }
      k := DropExactly(afl[1..], wish);
      forall j | 0 <= j <= k ensures j == 0 || afl[j..] == afl[1..][j - 1..] { }
      k := k + 1;
    }
  }

  /** What is left to be read after a first read has dropped what is old. */
  function Ready(ab: Ab): seq<byte> {
    Contents(if ab.live && !ab.started && ab.wish > 0 then DropTo(ab.afl, ab.wish).0 else ab.afl)
  }

  // ---------------------------------------------------------------- one read

  /** While the buffer fills up the caller hears silence, and with too little jitter nothing is done to
      its array at all. */
  lemma NothingHeard(ab: Ab, jitter: Jitter, was: seq<byte>, i: nat)
    requires ab.cur == |Contents(ab.afl)| && i < |was| && (jitter == Low || ab.fill > 0)
    ensures |Heard(ab, jitter, was)| == |was|
    ensures Heard(ab, jitter, was)[i] == if jitter == Low then was[i] else 0
  {
    hide Contents, Settle;
    LaidNothing(was);
    LaidNothing(Silence(|was|));
    SilenceZero(|was|, i);
  }

  /** A read in parts: what one reading takes, and what a second one takes after it. */
  lemma ReadParts(ab: Ab, jitter: Jitter, sz: nat)
    requires ab.fill == 0 && jitter != Low
    ensures var q, r := Ready(ab), Read(ab, jitter, sz);
            var k := Min(sz, |q|);
            && r.silence == (ab.cur < sz) && r.out == q[..k]
            && r.again == if jitter == High then q[k..][..Min(sz, |q| - k)] else []
  {
    hide Contents, Settle, Take, DropTo;
    var afl := if ab.live && !ab.started && ab.wish > 0 then DropTo(ab.afl, ab.wish).0 else ab.afl;
    TakeQueue(afl, sz);
    TakeQueue(Take(afl, sz).0, sz);
  }

  lemma LaidAt(base: seq<byte>, out: seq<byte>, i: nat)
    requires |out| <= |base| && i < |base|
    ensures |Laid(base, out)| == |base| && Laid(base, out)[i] == if i < |out| then out[i] else base[i]
  {
  }

  lemma SecondPart(q: seq<byte>, k: nat, n: nat, i: nat)
    requires k + n <= |q|
    ensures i < n ==> q[k..][..n][i] == q[k + i]
  {
  }

  /** One or two readings of a queue laid over an array. */
  lemma {:induction false} LaidTwice(q: seq<byte>, base: seq<byte>, i: nat, twice: bool)
    requires i < |base|
    ensures var k := Min(|base|, |q|);
            var n := if twice then Min(|base|, |q| - k) else 0;
            && |Laid(base, q[..k])| == |base|
            && var p := Laid(Laid(base, q[..k]), q[k..][..n]);
            |p| == |base| && p[i] == if i < n then q[|base| + i] else if i < |q| then q[i] else base[i]
  {
    hide Laid;
    var k := Min(|base|, |q|);
    var n := if twice then Min(|base|, |q| - k) else 0;
    LaidAt(base, q[..k], i);
    SecondPart(q, k, n, i);
    LaidAt(Laid(base, q[..k]), q[k..][..n], i);
  }

  /** Otherwise it hears what is ready, from the front. Where that is too short, silence follows if the
      buffer held too little from the start, and else what the array held before. */
  lemma {:induction false} HeardExactly(ab: Ab, was: seq<byte>, i: nat)
    requires ab.cur == |Contents(ab.afl)| && i < |was| && ab.fill == 0
    ensures |Heard(ab, Good, was)| == |was|
    ensures Heard(ab, Good, was)[i] ==
              if i < |Ready(ab)| then Ready(ab)[i] else if ab.cur < |was| then 0 else was[i]
  {
    hide Contents, Read, Ready, Silence, Laid;
    ReadParts(ab, Good, |was|);
    SilenceZero(|was|, i);
    var q := Ready(ab);
    assert q[Min(|was|, |q|)..][..0] == [];
    LaidTwice(q, if ab.cur < |was| then Silence(|was|) else was, i, false);
  }

  /** On high jitter the first of two reads is heard only where the second has nothing. */
  lemma {:induction false} HeardTwice(ab: Ab, was: seq<byte>, i: nat)
    requires ab.cur == |Contents(ab.afl)| && i < |was| && ab.fill == 0
    ensures |Heard(ab, High, was)| == |was|
    ensures Heard(ab, High, was)[i] ==
              if |was| + i < |Ready(ab)| then Ready(ab)[|was| + i]
              else if i < |Ready(ab)| then Ready(ab)[i] else if ab.cur < |was| then 0 else was[i]
  {
    hide Contents, Read, Ready, Silence, Laid;
    ReadParts(ab, High, |was|);
    SilenceZero(|was|, i);
    LaidTwice(Ready(ab), if ab.cur < |was| then Silence(|was|) else was, i, true);
  }

  /** Whatever the caller's array held, samples that the buffer does not have are silent. */
  ghost predicate AlwaysSilent(ab: Ab, sz: nat)
    requires ab.cur == |Contents(ab.afl)|
  {
    forall was: seq<byte>, i: nat ::
      |was| == sz && |Ready(ab)| <= i < sz && i < |Heard(ab, Good, was)| ==> Heard(ab, Good, was)[i] == 0
  }

  /** That is so if and only if the buffer held fewer than asked for before old frames were dropped, or
      still has enough after that. */
  lemma {:induction false} SilentExactly(ab: Ab, sz: nat)
    requires ab.cur == |Contents(ab.afl)| && ab.fill == 0
    ensures AlwaysSilent(ab, sz) <==> ab.cur < sz || |Ready(ab)| >= sz
  {
    hide Contents, Ready, Heard;
    if ab.cur < sz || |Ready(ab)| >= sz {
      forall was: seq<byte>, i: nat | |was| == sz && |Ready(ab)| <= i < sz && i < |Heard(ab, Good, was)|
        ensures Heard(ab, Good, was)[i] == 0
      {
        HeardExactly(ab, was, i);
      }
    } else {
      var was: seq<byte> := seq(sz, _ => 1);
      var i := |Ready(ab)|;
      HeardExactly(ab, was, i);
      assert Heard(ab, Good, was)[i] == 1;
    }
  }

  /** A buffer with a wished size of four bytes, filled with two packets of three: the first read of four
      bytes drops one of them, gets the three bytes of the other, and leaves the fourth as it was. */
  lemma StaleSample(a: seq<byte>, b: seq<byte>, was: seq<byte>)
    requires |a| == 3 && |b| == 3 && |was| == 4
    ensures var ab := Ab([Frame(0, 0, a), Frame(0, 0, b)], 4, 6, 0, 0, 3, 6, false, true, 0, 0);
            && ab.cur == |Contents(ab.afl)| && ab.fill == 0
            && Heard(ab, Good, was) == b + [was[3]]
  {
    var f, g := Frame(0, 0, a), Frame(0, 0, b);
    var ab := Ab([f, g], 4, 6, 0, 0, 3, 6, false, true, 0, 0);
    ContentsCons(f, [g]);
    ContentsOne(g);
    assert [f] + [g] == ab.afl;
    assert DropTo([g], 4).0 == [g];
    assert ab.afl[1..] == [g];
    assert Ready(ab) == b;
    hide Contents, DropTo, Ready, Heard;
    var h, e := Heard(ab, Good, was), b + [was[3]];
    HeardExactly(ab, was, 0);
    forall i | 0 <= i < |h| ensures h[i] == e[i] { HeardExactly(ab, was, i); }
    assert h == e;
  }

  /** A new buffer gets there by two packets and a read that is too early. */
  lemma StaleReached(w: World, a: seq<byte>, b: seq<byte>)
    requires Balanced(w) && w.ab == New(4, 0) && |a| == 3 && |b| == 3
    ensures var x := Step(w, Put(0, 0, a));
            && Balanced(x)
            && var y := Step(x, Put(0, 0, b));
            && Balanced(y)
            && Step(y, Get(Good, 4)).ab == Ab([Frame(0, 0, a), Frame(0, 0, b)], 4, 6, 0, 0, 3, 6, false, true, 0, 0)
  {
    StepBalanced(w, Put(0, 0, a));
    var x := Step(w, Put(0, 0, a));
    StepBalanced(x, Put(0, 0, b));
    assert Insert([], Frame(0, 0, a)) == [Frame(0, 0, a)];
    assert Insert([Frame(0, 0, a)], Frame(0, 0, b)) == [Frame(0, 0, a)] + [Frame(0, 0, b)];
  }

  // ---------------------------------------------------------------- filling comes to an end

  /** What is still to be filled is what has not come yet, or less than one packet. */
  predicate Filled(w: World) {
    w.ab.pkt <= w.largest && (w.ab.fill + w.since <= w.ab.wish || w.ab.fill < w.largest)
  }

  lemma StepFilled(w: World, op: Op)
    requires Balanced(w) && Filled(w)
    ensures Filled(Step(w, op))
  {
    hide Insert, Serve, Contents, Dur, Stamp;
  }

  /** In every run: once as much as the wished size has come since the buffer began to fill, it waits for
      less than one packet more. */
  lemma {:induction false} FillsInTime(w: World, ops: seq<Op>)
    requires Balanced(w) && Filled(w)
    ensures var r := Run(w, ops);
            Filled(r) && (r.since >= r.ab.wish ==> r.ab.fill == 0 || r.ab.fill < r.largest)
    decreases |ops|
  {
    hide Step;
    if ops != [] {
      StepBalanced(w, ops[0]);
      StepFilled(w, ops[0]);
      FillsInTime(Step(w, ops[0]), ops[1..]);
    }
  }

  lemma StartsFilled(wish: nat, max: nat)
    ensures Filled(Start(wish, max))
  {
  }

  /** Less than a packet is not waited for: each read takes its own size off what is still to be filled,
      so that reading begins after fewer reads than that has bytes. */
  lemma {:induction false} WaitEnds(w: World, jitter: Jitter, sz: nat)
    requires Balanced(w) && 0 < w.ab.fill < w.ab.pkt
    ensures var r := Step(w, Get(jitter, sz));
            && r.ab.fill == (if w.ab.fill > sz then w.ab.fill - sz else 0)
            && r.ab.pkt == w.ab.pkt && r.ab.afl == w.ab.afl && r.gone == w.gone
  {
    hide Serve, Contents;
  }

  // ---------------------------------------------------------------- counters and time stamps

  /** Overruns count the packets that were too much for the buffer, underruns the reads that it had too
      little for. */
  lemma Counted(w: World, op: Op)
    requires Balanced(w)
    ensures var r := Step(w, op);
            && r.ab.overruns == w.ab.overruns
                 + Bit(op.Put? && w.ab.max > 0 && |Contents(w.ab.afl)| + |op.data| > w.ab.max)
            && r.ab.underruns == w.ab.underruns
                 + Bit(op.Get? && op.jitter != Low && w.ab.fill == 0 && |Contents(w.ab.afl)| < op.sz)
  {
    hide Insert, Serve, Contents, Dur, Stamp;
  }

  lemma {:induction false} FloorApart(a: nat, b: nat, d: nat)
    requires d > 0
    ensures a / d + b / d <= (a + b) / d <= a / d + b / d + 1
  {
    FloorSum(a, b, d);
    var qa, qb, q := a / d, b / d, (a + b) / d;
    assert a < qa * d + d && b < qb * d + d && q * d <= a + b;
    Distribute(qa, qb, d);
    Distribute(qa + qb, 2, d);
    if q >= qa + qb + 2 { MulUp(qa + qb + 2, q, d); }
  }

  lemma {:induction false} MulUp(a: nat, b: nat, d: nat)
    requires a <= b
    ensures a * d <= b * d
  {
    if a < b {
      MulUp(a, b - 1, d);
      Distribute(b - 1, 1, d);
    }
  }

  /** A frame read in part still ends when it did, to the microsecond, if its time stamps move at all. */
  lemma EndStays(f: Frame, n: nat, rated: bool)
    requires n <= |f.data|
    ensures var g := Advance(f, n, rated);
            var left := |f.data| - n;
            && |g.data| == left && g.rate == f.rate
            && (rated ==> 0 <= f.ts + Dur(|f.data|, f.rate) - (g.ts + Dur(left, f.rate)) <= 1)
            && (!rated ==> g.ts == f.ts)
  {
    if f.rate > 0 {
      FloorApart(n * TIMEBASE, (|f.data| - n) * TIMEBASE, f.rate);
      assert n * TIMEBASE + (|f.data| - n) * TIMEBASE == |f.data| * TIMEBASE;
    }
  }
}
