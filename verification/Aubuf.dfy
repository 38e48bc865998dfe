/** The audio buffer: a list of partly read frames and the counters kept beside it. */
module Aubuf {
  import opened Bytes
  import Bitwise

  const TIMEBASE := 1000000

  /** A frame: time stamp, bytes per second (0 when unknown) and the bytes not read yet. */
  datatype Frame = Frame(ts: nat, rate: nat, data: seq<byte>)

  datatype Ab = Ab(afl: seq<Frame>, wish: nat, cur: nat, max: nat, fill: nat, pkt: nat, wr: nat,
                   started: bool, live: bool, overruns: nat, underruns: nat)

  /** What the adaptive jitter buffer advises. */
  datatype Jitter = Low | Good | High

  function Contents(afl: seq<Frame>): seq<byte> {
    if afl == [] then [] else afl[0].data + Contents(afl[1..])
  }

  function Dur(n: nat, rate: nat): nat {
    if rate == 0 then 0 else n * TIMEBASE / rate
  }

  // ---------------------------------------------------------------- operations

  function Insert(afl: seq<Frame>, f: Frame): (r: seq<Frame>)
    ensures r != []
  {
    if afl == [] then [f]
    else if afl[|afl| - 1].ts <= f.ts then afl + [f]
    else Insert(afl[..|afl| - 1], f) + [afl[|afl| - 1]]
  }

  function Stamp(ab: Ab, ts: nat, rate: nat): nat {
    if ts == 0 && rate > 0 then Dur(ab.wr, rate) else ts
  }

  /** Queues a packet; over the limit the frame at the head is dropped and returned. */
  function Append(ab: Ab, ts: nat, rate: nat, data: seq<byte>): (r: (Ab, seq<byte>))
    requires ab.cur == |Contents(ab.afl)|
  {
    var sz := |data|;
    var fill := if ab.fill >= sz then ab.fill - sz else ab.fill;
    var afl := Insert(ab.afl, Frame(Stamp(ab, ts, rate), rate, data));
    var ab1 := ab.(afl := afl, fill := fill, pkt := sz, cur := ab.cur + sz, wr := ab.wr + sz);
    if ab.max > 0 && ab1.cur > ab.max then
      InsertSize(ab.afl, Frame(Stamp(ab, ts, rate), rate, data));
      (ab1.(afl := afl[1..], cur := ab1.cur - |afl[0].data|, overruns := ab.overruns + 1), afl[0].data)
    else (ab1, [])
  }

  /** A frame of which n bytes are read; its time stamp moves on if the first frame of the read has
      a rate. */
  function Advance(f: Frame, n: nat, rated: bool): Frame
    requires n <= |f.data|
  {
    Frame(if rated then f.ts + Dur(n, f.rate) else f.ts, f.rate, f.data[n..])
  }

  /** Takes up to sz bytes off the front; frames read to their end leave the list. */
  function TakeAs(afl: seq<Frame>, sz: nat, rated: bool): (r: (seq<Frame>, seq<byte>)) {
    if afl == [] then ([], [])
    else
      var f := afl[0];
      if |f.data| < sz then
        var (rest, out) := TakeAs(afl[1..], sz - |f.data|, rated);
        (rest, f.data + out)
      else if |f.data| == sz then (afl[1..], f.data)
      else ([Advance(f, sz, rated)] + afl[1..], f.data[..sz])
  }

  function Take(afl: seq<Frame>, sz: nat): (seq<Frame>, seq<byte>) {
    TakeAs(afl, sz, afl != [] && afl[0].rate > 0)
  }

  /** Drops frames from the front until at most `wish` bytes are left. */
  function DropTo(afl: seq<Frame>, wish: nat): (r: (seq<Frame>, seq<byte>)) {
    if |Contents(afl)| <= wish then (afl, [])
    else
      var (rest, lost) := DropTo(afl[1..], wish);
      (rest, afl[0].data + lost)
  }

  /** A read: the state after it, what a first read dropped, and what was read, twice on high jitter. */
  datatype Reading = Reading(ab: Ab, silence: bool, lost: seq<byte>, out: seq<byte>, again: seq<byte>)

  function Settle(ab: Ab, sz: nat): (r: Ab)
    ensures r == ab.(fill := r.fill) && r.fill <= ab.fill
  {
    if 0 < ab.fill < ab.pkt then ab.(fill := if ab.fill >= sz then ab.fill - sz else 0) else ab
  }

  datatype Served = Served(afl: seq<Frame>, lost: seq<byte>, out: seq<byte>, again: seq<byte>)

  /** Drops old frames first where asked to, then reads once or twice. */
  function Serve(afl: seq<Frame>, drop: bool, wish: nat, sz: nat, twice: bool): Served {
    var d := if drop then DropTo(afl, wish) else (afl, []);
    var t := Take(d.0, sz);
    var u := if twice then Take(t.0, sz) else (t.0, []);
    Served(u.0, d.1, t.1, u.1)
  }

  function Read(ab: Ab, jitter: Jitter, sz: nat): (r: Reading) {
    if jitter == Low then Reading(Settle(ab, sz), false, [], [], [])
    else if ab.fill > 0 then Reading(Settle(ab, sz), true, [], [], [])
    else
      var short := ab.cur < sz;
      var ab1 := if short then ab.(fill := ab.wish, underruns := ab.underruns + 1) else ab;
      var v := Serve(ab.afl, ab.live && !ab.started && ab.wish > 0, ab.wish, sz, jitter == High);
      var ab2 := ab1.(afl := v.afl, cur := |Contents(v.afl)|, started := true);
      Reading(Settle(ab2, sz), short, v.lost, v.out, v.again)
  }

  function Flush(ab: Ab): Ab {
    ab.(afl := [], fill := ab.wish, cur := 0, wr := 0)
  }

  function New(wish: nat, max: nat): Ab {
    Ab([], wish, 0, max, wish, 0, 0, false, true, 0, 0)
  }

  // ---------------------------------------------------------------- list facts

  lemma {:induction false} ContentsConcat(a: seq<Frame>, b: seq<Frame>)
    ensures Contents(a + b) == Contents(a) + Contents(b)
  {
    if a == [] {
      assert a + b == b;
    } else {
      assert (a + b)[1..] == a[1..] + b;
      ContentsConcat(a[1..], b);
      ConcatAssoc(a[0].data, Contents(a[1..]), Contents(b));
    }
  }

  lemma ContentsOne(f: Frame)
    ensures Contents([f]) == f.data
  {
    assert f.data + [] == f.data && [f][1..] == [];
  }

  lemma {:induction false} InsertSize(afl: seq<Frame>, f: Frame)
    ensures |Contents(Insert(afl, f))| == |Contents(afl)| + |f.data|
    ensures var r := Insert(afl, f); |Contents(r)| == |r[0].data| + |Contents(r[1..])|
    decreases |afl|
  {
    ContentsOne(f);
    if afl != [] {
      var last := afl[|afl| - 1];
      if last.ts <= f.ts {
        ContentsConcat(afl, [f]);
      } else {
        var init := afl[..|afl| - 1];
        assert afl == init + [last];
        InsertSize(init, f);
        ContentsConcat(init, [last]);
        ContentsConcat(Insert(init, f), [last]);
      }
    }
  }

  lemma {:induction false} TakeStep(afl: seq<Frame>, sz: nat, rated: bool)
    requires afl != []
    ensures var f, t := afl[0], TakeAs(afl, sz, rated);
            if |f.data| < sz then
              var u := TakeAs(afl[1..], sz - |f.data|, rated); t == (u.0, f.data + u.1)
            else if |f.data| == sz then t == (afl[1..], f.data)
            else t == ([Advance(f, sz, rated)] + afl[1..], f.data[..sz])
    ensures Contents(afl) == afl[0].data + Contents(afl[1..])
  {
  }

  lemma {:induction false} ContentsCons(f: Frame, afl: seq<Frame>)
    ensures Contents([f] + afl) == f.data + Contents(afl)
  {
    assert ([f] + afl)[1..] == afl;
  }

  /** The first sz bytes of a queue, and the rest. */
  predicate Front(q: seq<byte>, sz: nat, out: seq<byte>, rest: seq<byte>) {
    var k := Min(sz, |q|);
    out == q[..k] && rest == q[k..]
  }

  lemma FrontBeyond(a: seq<byte>, q: seq<byte>, sz: nat, out: seq<byte>, rest: seq<byte>)
    requires |a| < sz && Front(q, sz - |a|, out, rest)
    ensures Front(a + q, sz, a + out, rest)
  {
  }

  lemma FrontWithin(a: seq<byte>, q: seq<byte>, sz: nat)
    requires sz <= |a|
    ensures Front(a + q, sz, a[..sz], a[sz..] + q) && (sz == |a| ==> Front(a + q, sz, a, q))
  {
    if sz == |a| { assert a[..sz] == a && a[sz..] + q == q; }
  }

  /** What is taken is the front of the queue and the rest stays, in order. */
  lemma {:induction false} TakeAsQueue(afl: seq<Frame>, sz: nat, rated: bool)
    ensures var t := TakeAs(afl, sz, rated); Front(Contents(afl), sz, t.1, Contents(t.0))
    decreases |afl|
  {
    if afl == [] {
      EmptyContents();
    } else {
      hide TakeAs, Contents, Front;
      var f, q := afl[0], Contents(afl[1..]);
      TakeStep(afl, sz, rated);
      if |f.data| < sz {
        TakeAsQueue(afl[1..], sz - |f.data|, rated);
        var u := TakeAs(afl[1..], sz - |f.data|, rated);
        FrontBeyond(f.data, q, sz, u.1, Contents(u.0));
      } else {
        FrontWithin(f.data, q, sz);
        ContentsCons(Advance(f, sz, rated), afl[1..]);
      }
    }
  }

  lemma TakeQueue(afl: seq<Frame>, sz: nat)
    ensures var k := Min(sz, |Contents(afl)|);
            Take(afl, sz).1 == Contents(afl)[..k] && Contents(Take(afl, sz).0) == Contents(afl)[k..]
  {
    hide TakeAs;
    TakeAsQueue(afl, sz, afl != [] && afl[0].rate > 0);
  }

  lemma {:induction false} DropQueue(afl: seq<Frame>, wish: nat)
    ensures var (rest, lost) := DropTo(afl, wish); lost + Contents(rest) == Contents(afl) && |Contents(rest)| <= wish
    decreases |afl|
  {
    if |Contents(afl)| > wish {
      DropQueue(afl[1..], wish);
      var (rest, lost) := DropTo(afl[1..], wish);
      ConcatAssoc(afl[0].data, lost, Contents(rest));
    } else {
      assert [] + Contents(afl) == Contents(afl);
    }
  }

  lemma {:induction false} TakeParts(afl: seq<Frame>, sz: nat)
    ensures Take(afl, sz).1 + Contents(Take(afl, sz).0) == Contents(afl)
  {
    hide Take, Contents;
    TakeQueue(afl, sz);
  }

  lemma {:induction false} ServeQueue(afl: seq<Frame>, drop: bool, wish: nat, sz: nat, twice: bool)
    ensures var v := Serve(afl, drop, wish, sz, twice);
            v.lost + v.out + v.again + Contents(v.afl) == Contents(afl)
  {
    hide Take, DropTo, Contents;
    var q := Contents(afl);
    var d := if drop then DropTo(afl, wish) else (afl, []);
    if drop { DropQueue(afl, wish); } else { assert [] + q == q; }
    var t := Take(d.0, sz);
    TakeParts(d.0, sz);
    var u := if twice then Take(t.0, sz) else (t.0, []);
    if twice { TakeParts(t.0, sz); } else { assert [] + Contents(t.0) == Contents(t.0); }
    ConcatAssoc(d.1, t.1, Contents(t.0));
    ConcatAssoc(d.1 + t.1, u.1, Contents(u.0));
  }

  /** Everything a read takes or drops comes off the front, in order; nothing is lost or doubled. */
  lemma ReadQueue(ab: Ab, jitter: Jitter, sz: nat)
    requires ab.cur == |Contents(ab.afl)|
    ensures var r := Read(ab, jitter, sz);
            && r.lost + r.out + r.again + Contents(r.ab.afl) == Contents(ab.afl)
            && r.ab.cur == |Contents(r.ab.afl)| && r.ab.wr == ab.wr
  {
    hide Serve, Contents, Settle;
    ServeQueue(ab.afl, ab.live && !ab.started && ab.wish > 0, ab.wish, sz, jitter == High);
    var q := Contents(ab.afl);
    assert [] + [] + [] + q == q;
  }

  // ---------------------------------------------------------------- runs

  datatype Op =
    | Put(ts: nat, rate: nat, data: seq<byte>)
    | Get(jitter: Jitter, sz: nat)
    | Clear
    | Resize(wish: nat, max: nat)

  /** The buffer and, since the last flush: all bytes appended, all bytes gone in the order they went,
      how many of those were read and how many dropped, and the end of the last packet; further, the
      bytes appended since the buffer last began to fill and the size of the largest packet. */
  datatype World = World(ab: Ab, sent: seq<byte>, gone: seq<byte>, consumed: nat, dropped: nat, horizon: nat,
                         since: nat, largest: nat)

  function Step(w: World, op: Op): World
    requires w.ab.cur == |Contents(w.ab.afl)|
  {
    match op
    case Put(ts, rate, data) =>
      var (ab, lost) := Append(w.ab, ts, rate, data);
      w.(ab := ab, sent := w.sent + data, gone := w.gone + lost, dropped := w.dropped + |lost|,
         horizon := Stamp(w.ab, ts, rate) + Dur(|data|, rate),
         since := w.since + |data|, largest := Max(w.largest, |data|))
    case Get(jitter, sz) =>
      var r := Read(w.ab, jitter, sz);
      w.(ab := r.ab, gone := w.gone + (r.lost + r.out + r.again),
         consumed := w.consumed + |r.out| + |r.again|, dropped := w.dropped + |r.lost|,
         since := if jitter != Low && w.ab.fill == 0 && w.ab.cur < sz then 0 else w.since)
    case Clear => World(Flush(w.ab), [], [], 0, 0, 0, 0, w.largest)
    case Resize(wish, max) => World(Flush(w.ab.(wish := wish, max := max)), [], [], 0, 0, 0, 0, w.largest)
  }

  /** The counters agree with the list, and every byte written is read, dropped or still there. */
  predicate Balanced(w: World) {
    && w.ab.cur == |Contents(w.ab.afl)|
    && w.ab.wr == w.consumed + w.dropped + w.ab.cur
  }

  lemma AppendBalance(ab: Ab, ts: nat, rate: nat, data: seq<byte>)
    requires ab.cur == |Contents(ab.afl)|
    ensures var (ab', lost) := Append(ab, ts, rate, data);
            && ab'.cur == |Contents(ab'.afl)| && ab'.wr == ab.wr + |data|
            && |Contents(ab.afl)| + |data| == |lost| + ab'.cur
  {
    InsertSize(ab.afl, Frame(Stamp(ab, ts, rate), rate, data));
    hide Insert, Contents;
  }

  lemma StepBalanced(w: World, op: Op)
    requires Balanced(w)
    ensures Balanced(Step(w, op))
  {
    hide Append, Read, Contents;
    match op
    case Put(ts, rate, data) => AppendBalance(w.ab, ts, rate, data);
    case Get(jitter, sz) => ReadQueue(w.ab, jitter, sz);
    case Clear => EmptyContents();
    case Resize(_, _) => EmptyContents();
  }

  lemma EmptyContents()
    ensures Contents([]) == []
  {
  }

  function Start(wish: nat, max: nat): World {
    World(New(wish, max), [], [], 0, 0, 0, 0, 0)
  }

  /** The state a sequence of calls leads to. */
  function Run(w: World, ops: seq<Op>): (r: World)
    requires Balanced(w)
    ensures Balanced(r)
    decreases |ops|
  {
    if ops == [] then w else StepBalanced(w, ops[0]); Run(Step(w, ops[0]), ops[1..])
  }

  /** Conservation, in every run from a new buffer. */
  lemma Conservation(wish: nat, max: nat, ops: seq<Op>)
    ensures Balanced(Start(wish, max))
    ensures var w := Run(Start(wish, max), ops);
            w.ab.cur == |Contents(w.ab.afl)| && w.ab.wr == w.consumed + w.dropped + w.ab.cur
  {
    EmptyContents();
  }

  // ---------------------------------------------------------------- filling

  /** Until the wished size is filled up, all that has come is filled or at most one packet short. */
  predicate Filling(w: World) {
    && w.ab.pkt <= w.largest
    && (w.ab.wish <= w.ab.fill + w.since || w.ab.wish < w.since + w.largest)
  }

  lemma StepFilling(w: World, op: Op)
    requires Balanced(w) && Filling(w)
    ensures Filling(Step(w, op))
  {
    hide Insert, Serve, Contents, Dur, Stamp;
  }

  /** In every run, samples are read only once the bytes that came since the buffer began to fill reach
      the wished size, less than one packet excepted. */
  lemma {:induction false} ReadsOnceFilled(w: World, ops: seq<Op>)
    requires Balanced(w) && Filling(w)
    ensures var r := Run(w, ops);
            Filling(r) && (r.ab.fill == 0 ==> r.since >= r.ab.wish || r.since + r.largest > r.ab.wish)
    decreases |ops|
  {
    hide Step;
    if ops != [] {
      StepBalanced(w, ops[0]);
      StepFilling(w, ops[0]);
      ReadsOnceFilled(Step(w, ops[0]), ops[1..]);
    }
  }

  // ---------------------------------------------------------------- packets in order

  /** The packet starts no earlier than the one before it ended. */
  predicate Follows(w: World, op: Op) {
    op.Put? ==> w.horizon <= Stamp(w.ab, op.ts, op.rate)
  }

  /** Every frame ends by the end of the last packet. */
  predicate Ordered(afl: seq<Frame>, horizon: nat) {
    forall i :: 0 <= i < |afl| ==> afl[i].ts + Dur(|afl[i].data|, afl[i].rate) <= horizon
  }

  predicate Fifo(w: World) {
    && Balanced(w)
    && Ordered(w.ab.afl, w.horizon)
    && w.gone + Contents(w.ab.afl) == w.sent
  }

  lemma DurSum(a: nat, b: nat, rate: nat)
    ensures Dur(a, rate) + Dur(b, rate) <= Dur(a + b, rate)
  {
    if rate > 0 { FloorSum(a * TIMEBASE, b * TIMEBASE, rate); }
  }

  lemma FloorSum(a: nat, b: nat, d: nat)
    requires d > 0
    ensures a / d + b / d <= (a + b) / d
  {
    var qa, qb, r := a / d, b / d, a % d + b % d;
    Distribute(qa, qb, d);
    assert a + b == (qa + qb) * d + r;
    if r < d {
      Bitwise.ModUnique(a + b, d, qa + qb, r);
    } else {
      Distribute(qa + qb, 1, d);
      Bitwise.ModUnique(a + b, d, qa + qb + 1, r - d);
    }
  }

  lemma Distribute(x: nat, y: nat, d: nat)
    ensures (x + y) * d == x * d + y * d
  {
  }

  /** Reading part of a frame moves its time stamp no further than its end. */
  lemma {:induction false} TakeOrdered(afl: seq<Frame>, sz: nat, rated: bool, horizon: nat)
    requires Ordered(afl, horizon)
    ensures Ordered(TakeAs(afl, sz, rated).0, horizon)
    decreases |afl|
  {
    if afl != [] {
      var f := afl[0];
      if |f.data| < sz {
        TakeOrdered(afl[1..], sz - |f.data|, rated, horizon);
      } else if |f.data| > sz {
        DurSum(sz, |f.data| - sz, f.rate);
        hide Dur;
      }
    }
  }

  lemma {:induction false} DropOrdered(afl: seq<Frame>, wish: nat, horizon: nat)
    requires Ordered(afl, horizon)
    ensures Ordered(DropTo(afl, wish).0, horizon)
    decreases |afl|
  {
    if |Contents(afl)| > wish { DropOrdered(afl[1..], wish, horizon); }
  }

  lemma ReadOrdered(ab: Ab, jitter: Jitter, sz: nat, horizon: nat)
    requires Ordered(ab.afl, horizon)
    ensures Ordered(Read(ab, jitter, sz).ab.afl, horizon)
  {
    hide TakeAs, DropTo, Contents, Ordered, Settle;
    DropOrdered(ab.afl, ab.wish, horizon);
    var d := if ab.live && !ab.started && ab.wish > 0 then DropTo(ab.afl, ab.wish) else (ab.afl, []);
    TakeOrdered(d.0, sz, d.0 != [] && d.0[0].rate > 0, horizon);
    var t := Take(d.0, sz).0;
    TakeOrdered(t, sz, t != [] && t[0].rate > 0, horizon);
  }

  /** A packet that follows goes to the tail of the list. */
  lemma InsertAtTail(afl: seq<Frame>, f: Frame, horizon: nat)
    requires Ordered(afl, horizon) && horizon <= f.ts
    ensures Insert(afl, f) == afl + [f] && Ordered(afl + [f], f.ts + Dur(|f.data|, f.rate))
  {
    if afl == [] { assert [] + [f] == [f]; }
    hide Dur;
  }

  lemma AppendFifo(ab: Ab, ts: nat, rate: nat, data: seq<byte>, horizon: nat)
    requires ab.cur == |Contents(ab.afl)| && Ordered(ab.afl, horizon) && horizon <= Stamp(ab, ts, rate)
    ensures var (ab', lost) := Append(ab, ts, rate, data);
            && Ordered(ab'.afl, Stamp(ab, ts, rate) + Dur(|data|, rate))
            && lost + Contents(ab'.afl) == Contents(ab.afl) + data
  {
    var f := Frame(Stamp(ab, ts, rate), rate, data);
    InsertAtTail(ab.afl, f, horizon);
    ContentsOne(f);
    ContentsConcat(ab.afl, [f]);
    var afl := ab.afl + [f];
    assert Contents(afl) == afl[0].data + Contents(afl[1..]);
    hide Insert, Dur, Stamp;
    assert [] + Contents(afl) == Contents(afl);
  }

  lemma StepFifo(w: World, op: Op)
    requires Fifo(w) && Follows(w, op)
    ensures Fifo(Step(w, op))
  {
    StepBalanced(w, op);
    hide Append, Read, Contents, Ordered, Balanced, Dur, Stamp;
    match op
    case Put(ts, rate, data) =>
      assert w.ab.cur == |Contents(w.ab.afl)| by { BalancedCur(w); }
      AppendFifo(w.ab, ts, rate, data, w.horizon);
      var (ab, lost) := Append(w.ab, ts, rate, data);
      ConcatAssoc(w.gone, Contents(w.ab.afl), data);
      ConcatAssoc(w.gone, lost, Contents(ab.afl));
    case Get(jitter, sz) =>
      BalancedCur(w);
      ReadQueue(w.ab, jitter, sz);
      ReadOrdered(w.ab, jitter, sz, w.horizon);
      var r := Read(w.ab, jitter, sz);
      ConcatAssoc(w.gone, r.lost + r.out + r.again, Contents(r.ab.afl));
    case Clear => EmptyFifo();
    case Resize(_, _) => EmptyFifo();
  }

  lemma BalancedCur(w: World)
    requires Balanced(w)
    ensures w.ab.cur == |Contents(w.ab.afl)|
  {
  }

  lemma EmptyFifo()
    ensures Ordered([], 0) && [] + Contents([]) == []
  {
  }

  /** All calls in order: each packet follows the one before it. */
  predicate InOrder(w: World, ops: seq<Op>)
    requires Balanced(w)
    decreases |ops|
  {
    ops != [] ==> Follows(w, ops[0]) && (StepBalanced(w, ops[0]); InOrder(Step(w, ops[0]), ops[1..]))
  }

  /** With packets in order the bytes gone are exactly the first ones sent, in the order sent: every
      byte leaves at most once and none overtakes another. */
  lemma {:induction false} FirstInFirstOut(w: World, ops: seq<Op>)
    requires Fifo(w) && InOrder(w, ops)
    ensures Fifo(Run(w, ops))
    decreases |ops|
  {
    hide Step;
    if ops != [] {
      StepFifo(w, ops[0]);
      FirstInFirstOut(Step(w, ops[0]), ops[1..]);
    }
  }

  /** Packets without time stamps are stamped by the bytes written before them, so they are in order. */
  lemma {:induction false} UnstampedInOrder(w: World, ops: seq<Op>, rate: nat)
    requires Balanced(w) && w.horizon <= Dur(w.ab.wr, rate)
    requires forall i :: 0 <= i < |ops| && ops[i].Put? ==> ops[i].ts == 0 && ops[i].rate == rate
    ensures InOrder(w, ops)
    decreases |ops|
  {
    if ops != [] {
      UnstampedStep(w, ops[0], rate);
      hide Step, Dur;
      UnstampedInOrder(Step(w, ops[0]), ops[1..], rate);
    }
  }

  lemma UnstampedStep(w: World, op: Op, rate: nat)
    requires Balanced(w) && w.horizon <= Dur(w.ab.wr, rate) && (op.Put? ==> op.ts == 0 && op.rate == rate)
    ensures Follows(w, op) && Balanced(Step(w, op)) && Step(w, op).horizon <= Dur(Step(w, op).ab.wr, rate)
  {
    StepBalanced(w, op);
    match op
    case Put(_, _, data) =>
      AppendBalance(w.ab, 0, rate, data);
      DurSum(w.ab.wr, |data|, rate);
      hide Append, Contents;
    case Get(jitter, sz) =>
      ReadQueue(w.ab, jitter, sz);
      hide Read, Contents, Dur;
    case Clear =>
    case Resize(_, _) =>
  }

  /** A new buffer has everything that the theorems on runs ask for. */
  lemma StartsWell(wish: nat, max: nat)
    ensures var w := Start(wish, max); Balanced(w) && Filling(w) && Fifo(w)
  {
    EmptyFifo();
  }
}
