/** How much the audio buffer can come to hold. */
module AubufLimit {
  import opened Bytes
  import opened Aubuf

  // ---------------------------------------------------------------- states of a run

  /** The state before call k. */
  function At(w: World, ops: seq<Op>, k: nat): (r: World)
    requires Balanced(w) && k <= |ops|
    ensures Balanced(r)
  {
    Run(w, ops[..k])
  }

  lemma {:induction false} RunAppend(w: World, ops: seq<Op>, op: Op)
    requires Balanced(w)
    ensures Run(w, ops + [op]) == Step(Run(w, ops), op)
    decreases |ops|
  {
    hide Step;
    StepBalanced(w, if ops == [] then op else ops[0]);
    if ops == [] {
      assert ops + [op] == [op] && [op][1..] == [];
    } else {
      assert (ops + [op])[1..] == ops[1..] + [op];
      RunAppend(Step(w, ops[0]), ops[1..], op);
    }
  }

  lemma {:induction false} AtNext(w: World, ops: seq<Op>, k: nat)
    requires Balanced(w) && k < |ops|
    ensures At(w, ops, k + 1) == Step(At(w, ops, k), ops[k])
  {
    hide Step, Run;
    assert ops[..k + 1] == ops[..k] + [ops[k]];
    RunAppend(w, ops[..k], ops[k]);
  }

  lemma {:induction false} AtEnds(w: World, ops: seq<Op>)
    requires Balanced(w)
    ensures At(w, ops, 0) == w && At(w, ops, |ops|) == Run(w, ops)
  {
    assert ops[..0] == [] && ops[..|ops|] == ops;
    hide Step;
  }

  /** All packets have between lo and hi bytes. */
  predicate Sizes(ops: seq<Op>, lo: nat, hi: nat) {
    forall k :: 0 <= k < |ops| && ops[k].Put? ==> lo <= |ops[k].data| <= hi
  }

  // ---------------------------------------------------------------- where a packet goes

  /** A new frame goes behind all frames up to the last that is not later. */
  lemma {:induction false} InsertPlace(afl: seq<Frame>, f: Frame) returns (k: nat)
    ensures k <= |afl| && Insert(afl, f) == afl[..k] + [f] + afl[k..]
    ensures k == 0 <==> forall i :: 0 <= i < |afl| ==> afl[i].ts > f.ts
    decreases |afl|
  {
    if afl == [] {
      k := 0;
    } else if afl[|afl| - 1].ts <= f.ts {
      k := |afl|;
      assert afl[..k] + [f] + afl[k..] == afl + [f];
    } else {
      var init, last := afl[..|afl| - 1], afl[|afl| - 1];
      k := InsertPlace(init, f);
      assert init[..k] + [f] + init[k..] + [last] == afl[..k] + [f] + afl[k..];
      assert forall i :: 0 <= i < |init| ==> init[i] == afl[i];
    }
  }

  lemma HeadSize(afl: seq<Frame>)
    requires afl != []
    ensures |Contents(afl)| == |afl[0].data| + |Contents(afl[1..])|
  {
  }

  lemma PlacedSize(afl: seq<Frame>, k: nat, f: Frame)
    requires k <= |afl|
    ensures var all := afl[..k] + [f] + afl[k..];
            |Contents(all)| == |Contents(afl)| + |f.data| == |all[0].data| + |Contents(all[1..])|
  {
    ContentsOne(f);
    ContentsConcat(afl[..k] + [f], afl[k..]);
    ContentsConcat(afl[..k], [f]);
    ContentsConcat(afl[..k], afl[k..]);
    assert afl[..k] + afl[k..] == afl;
    HeadSize(afl[..k] + [f] + afl[k..]);
    hide Contents;
  }

  /** Some frame is not later than the packet, so the packet goes behind the head. */
  predicate Behind(ab: Ab, op: Op)
    requires op.Put?
  {
    exists i :: 0 <= i < |ab.afl| && ab.afl[i].ts <= Stamp(ab, op.ts, op.rate)
  }

  /** The list and the size after a packet: over the limit the head goes, which is the packet itself
      unless it went behind another. */
  lemma {:induction false} AppendSize(ab: Ab, op: Op)
    requires op.Put? && ab.cur == |Contents(ab.afl)|
    ensures var r := Append(ab, op.ts, op.rate, op.data).0;
            && r.max == ab.max
            && r.cur == if ab.max == 0 || ab.cur + |op.data| <= ab.max then ab.cur + |op.data|
                        else if Behind(ab, op) then ab.cur + |op.data| - |ab.afl[0].data|
                        else ab.cur
  {
    hide Insert, Stamp, Contents;
    var f := Frame(Stamp(ab, op.ts, op.rate), op.rate, op.data);
    var k := InsertPlace(ab.afl, f);
    var all := ab.afl[..k] + [f] + ab.afl[k..];
    assert all[0] == if k == 0 then f else ab.afl[0];
    InsertSize(ab.afl, f);
  }

  // ---------------------------------------------------------------- the limit and one packet more

  /** Less than a packet of p bytes above the limit. */
  predicate Within(w: World, p: nat) {
    w.ab.max > 0 ==> w.ab.cur < w.ab.max + p
  }

  /** The call puts a packet behind a head too small for what dropping it has to make room for. */
  predicate Overfills(ab: Ab, op: Op, p: nat) {
    op.Put? && ab.max > 0 && Behind(ab, op) && ab.cur + |op.data| >= ab.max + p + |ab.afl[0].data|
  }

  lemma StepWithin(w: World, op: Op, p: nat)
    requires Balanced(w) && Within(w, p) && p > 0 && (op.Put? ==> |op.data| <= p)
    ensures Within(Step(w, op), p) <==> !Overfills(w.ab, op, p)
  {
    hide Append, Read, Contents, Behind;
    match op
    case Put(_, _, _) => AppendSize(w.ab, op);
    case Get(jitter, sz) => ReadShrinks(w.ab, jitter, sz);
    case Clear =>
    case Resize(_, _) =>
  }

  lemma ReadShrinks(ab: Ab, jitter: Jitter, sz: nat)
    requires ab.cur == |Contents(ab.afl)|
    ensures var r := Read(ab, jitter, sz).ab; r.cur <= ab.cur && r.max == ab.max
  {
    hide Contents, Serve;
    ReadQueue(ab, jitter, sz);
    var r := Read(ab, jitter, sz);
    assert |r.lost + r.out + r.again + Contents(r.ab.afl)| == |Contents(ab.afl)|;
  }

  lemma {:induction false} StaysWithin(w: World, ops: seq<Op>, p: nat, k: nat)
    requires Balanced(w) && Within(w, p) && p > 0 && Sizes(ops, 0, p) && k <= |ops|
    requires forall j: nat :: j < |ops| ==> !Overfills(At(w, ops, j).ab, ops[j], p)
    ensures Within(At(w, ops, k), p)
  {
    hide Step, At, Within, Overfills;
    if k == 0 {
      AtEnds(w, ops);
    } else {
      StaysWithin(w, ops, p, k - 1);
      AtNext(w, ops, k - 1);
      StepWithin(At(w, ops, k - 1), ops[k - 1], p);
    }
  }

  /** With packets of at most p bytes, every state of a run is less than p bytes above the limit if and
      only if no call overfills the buffer. */
  lemma {:induction false} LimitExactly(w: World, ops: seq<Op>, p: nat)
    requires Balanced(w) && Within(w, p) && p > 0 && Sizes(ops, 0, p)
    ensures (forall k: nat :: k <= |ops| ==> Within(At(w, ops, k), p)) <==>
            (forall k: nat :: k < |ops| ==> !Overfills(At(w, ops, k).ab, ops[k], p))
  {
    hide Step, At, Within, Overfills;
    if forall k: nat :: k <= |ops| ==> Within(At(w, ops, k), p) {
      forall k: nat | k < |ops| ensures !Overfills(At(w, ops, k).ab, ops[k], p) {
        AtNext(w, ops, k);
        StepWithin(At(w, ops, k), ops[k], p);
      }
    }
    if forall k: nat :: k < |ops| ==> !Overfills(At(w, ops, k).ab, ops[k], p) {
      forall k: nat | k <= |ops| ensures Within(At(w, ops, k), p) {
        StaysWithin(w, ops, p, k);
      }
    }
  }

  // ---------------------------------------------------------------- packets of one size

  /** Packets of p bytes: only the head can be partly read, and what is behind it is below the limit. */
  predicate Bounded(afl: seq<Frame>, p: nat, max: nat) {
    && (forall i :: 0 < i < |afl| ==> |afl[i].data| == p)
    && (afl != [] ==> 1 <= |afl[0].data| <= p && (max > 0 ==> |Contents(afl[1..])| < max))
  }

  lemma BoundedTail(afl: seq<Frame>, p: nat, max: nat)
    requires Bounded(afl, p, max) && afl != []
    ensures Bounded(afl[1..], p, max)
  {
  }

  lemma {:induction false} TakeBounded(afl: seq<Frame>, sz: nat, rated: bool, p: nat, max: nat)
    requires Bounded(afl, p, max)
    ensures Bounded(TakeAs(afl, sz, rated).0, p, max)
    decreases |afl|
  {
    if afl != [] {
      BoundedTail(afl, p, max);
      var f := afl[0];
      if |f.data| < sz {
        TakeBounded(afl[1..], sz - |f.data|, rated, p, max);
      } else if |f.data| > sz {
        var g := Advance(f, sz, rated);
        assert ([g] + afl[1..])[1..] == afl[1..];
      }
    }
  }

  lemma {:induction false} DropBounded(afl: seq<Frame>, wish: nat, p: nat, max: nat)
    requires Bounded(afl, p, max)
    ensures Bounded(DropTo(afl, wish).0, p, max)
    decreases |afl|
  {
    if |Contents(afl)| > wish {
      BoundedTail(afl, p, max);
      DropBounded(afl[1..], wish, p, max);
    }
  }

  lemma ReadBounded(ab: Ab, jitter: Jitter, sz: nat, p: nat)
    requires Bounded(ab.afl, p, ab.max)
    ensures var r := Read(ab, jitter, sz); Bounded(r.ab.afl, p, r.ab.max) && r.ab.max == ab.max
  {
    hide TakeAs, DropTo, Contents, Bounded, Settle;
    DropBounded(ab.afl, ab.wish, p, ab.max);
    var d := if ab.live && !ab.started && ab.wish > 0 then DropTo(ab.afl, ab.wish) else (ab.afl, []);
    TakeBounded(d.0, sz, d.0 != [] && d.0[0].rate > 0, p, ab.max);
    var t := Take(d.0, sz).0;
    TakeBounded(t, sz, t != [] && t[0].rate > 0, p, ab.max);
  }

  /** The next call does not put a packet before a partly read head. */
  predicate SparesHead(ab: Ab, op: Op, p: nat) {
    op.Put? && ab.afl != [] && |ab.afl[0].data| < p ==>
      exists i :: 0 <= i < |ab.afl| && ab.afl[i].ts <= Stamp(ab, op.ts, op.rate)
  }

  /** A full packet in the list, and the head dropped if that is too much. */
  lemma PlacedBounded(afl: seq<Frame>, k: nat, f: Frame, max: nat)
    requires Bounded(afl, |f.data|, max) && f.data != [] && k <= |afl|
    requires k > 0 || afl == [] || |afl[0].data| == |f.data|
    ensures var all, cur := afl[..k] + [f] + afl[k..], |Contents(afl)| + |f.data|;
            Bounded(if max > 0 && cur > max then all[1..] else all, |f.data|, max)
  {
    var all, p := afl[..k] + [f] + afl[k..], |f.data|;
    PlacedSize(afl, k, f);
    hide Contents;
    assert |Contents(all)| == |Contents(afl)| + p == |all[0].data| + |Contents(all[1..])|;
    if k == 0 {
      assert all[1..] == afl;
      forall i | 0 < i < |all| ensures |all[i].data| == p { assert all[i] == afl[i - 1]; }
    } else {
      forall i | 0 < i < |all| ensures |all[i].data| == p {
        assert all[i] == if i < k then afl[i] else if i == k then f else afl[i - 1];
      }
      assert all[1] == all[1..][0];
      HeadSize(all[1..]);
      HeadSize(afl);
    }
  }

  lemma AppendBounded(ab: Ab, ts: nat, rate: nat, data: seq<byte>)
    requires ab.cur == |Contents(ab.afl)| && Bounded(ab.afl, |data|, ab.max) && data != []
    requires SparesHead(ab, Put(ts, rate, data), |data|)
    ensures var ab' := Append(ab, ts, rate, data).0; Bounded(ab'.afl, |data|, ab'.max) && ab'.max == ab.max
  {
    hide Insert, Dur, Stamp, Contents;
    var f := Frame(Stamp(ab, ts, rate), rate, data);
    var k := InsertPlace(ab.afl, f);
    PlacedBounded(ab.afl, k, f, ab.max);
    hide Bounded;
  }

  predicate Capped(w: World, p: nat) {
    Balanced(w) && Bounded(w.ab.afl, p, w.ab.max)
  }

  lemma StepCapped(w: World, op: Op, p: nat)
    requires Capped(w, p) && SparesHead(w.ab, op, p) && p > 0 && (op.Put? ==> |op.data| == p)
    ensures Capped(Step(w, op), p)
  {
    StepBalanced(w, op);
    BalancedCur(w);
    hide SparesHead, Append, Read, Contents, Balanced, Dur, Stamp;
    match op
    case Put(ts, rate, data) => AppendBounded(w.ab, ts, rate, data);
    case Get(jitter, sz) => ReadBounded(w.ab, jitter, sz, p);
    case Clear =>
    case Resize(_, _) =>
  }

  /** A head that is partly read has only packets of p bytes behind it, so no packet overfills. */
  lemma CappedHolds(w: World, op: Op, p: nat)
    requires Capped(w, p) && p > 0 && (op.Put? ==> |op.data| == p)
    ensures Within(w, p) && !Overfills(w.ab, op, p)
  {
    hide Contents, Stamp;
    if w.ab.afl == [] { EmptyContents(); } else { HeadSize(w.ab.afl); }
  }

  /** No call puts a packet before a partly read head. */
  ghost predicate HeadsSpared(w: World, ops: seq<Op>, p: nat)
    requires Balanced(w)
  {
    forall k: nat :: k < |ops| ==> SparesHead(At(w, ops, k).ab, ops[k], p)
  }

  lemma {:induction false} StaysCapped(w: World, ops: seq<Op>, p: nat, k: nat)
    requires Capped(w, p) && HeadsSpared(w, ops, p) && p > 0 && Sizes(ops, p, p) && k <= |ops|
    ensures Capped(At(w, ops, k), p)
  {
    hide Step, At, SparesHead, Capped;
    assert Balanced(w) by { CappedBalanced(w, p); }
    if k == 0 {
      AtEnds(w, ops);
    } else {
      StaysCapped(w, ops, p, k - 1);
      AtNext(w, ops, k - 1);
      StepCapped(At(w, ops, k - 1), ops[k - 1], p);
    }
  }

  lemma CappedBalanced(w: World, p: nat)
    requires Capped(w, p)
    ensures Balanced(w)
  {
  }

  /** With packets of p bytes, none of them put before a partly read head, no call overfills the
      buffer, and so it never reaches max + p bytes. */
  lemma {:induction false} BelowLimit(w: World, ops: seq<Op>, p: nat)
    requires Capped(w, p) && HeadsSpared(w, ops, p) && p > 0 && Sizes(ops, p, p)
    ensures forall k: nat :: k <= |ops| ==> Within(At(w, ops, k), p)
  {
    hide Step, At, HeadsSpared, Capped, Within, Overfills;
    assert Balanced(w) by { CappedBalanced(w, p); }
    CappedHolds(w, Clear, p);
    forall k: nat | k < |ops| ensures !Overfills(At(w, ops, k).ab, ops[k], p) {
      StaysCapped(w, ops, p, k);
      CappedHolds(At(w, ops, k), ops[k], p);
    }
    LimitExactly(w, ops, p);
  }

  lemma {:induction false} OrderAt(w: World, ops: seq<Op>, k: nat)
    requires Fifo(w) && InOrder(w, ops) && k <= |ops|
    ensures Fifo(At(w, ops, k)) && (k < |ops| ==> Follows(At(w, ops, k), ops[k]))
    decreases k
  {
    hide Step;
    if k == 0 {
      AtEnds(w, ops);
    } else {
      StepFifo(w, ops[0]);
      OrderAt(Step(w, ops[0]), ops[1..], k - 1);
      assert ops[..k][1..] == ops[1..][..k - 1];
    }
  }

  /** Packets in order are always put behind what is there. */
  lemma {:induction false} InOrderSpares(w: World, ops: seq<Op>, p: nat)
    requires Fifo(w) && InOrder(w, ops)
    ensures HeadsSpared(w, ops, p)
  {
    hide Step, At, Dur, Stamp, InOrder;
    forall k: nat | k < |ops| ensures SparesHead(At(w, ops, k).ab, ops[k], p) {
      OrderAt(w, ops, k);
      var v := At(w, ops, k);
      assert v.ab.afl != [] ==> v.ab.afl[0].ts <= v.horizon;
    }
  }

  // ---------------------------------------------------------------- a bound for every run

  /** Frames of one to hi bytes. */
  predicate Pieces(afl: seq<Frame>, hi: nat) {
    forall i :: 0 <= i < |afl| ==> 1 <= |afl[i].data| <= hi
  }

  /** How many frames can be there before a packet of at least lo bytes is over the limit, and it. */
  function MostFrames(max: nat, lo: nat): nat {
    if max >= lo then max - lo + 1 else 0
  }

  predicate Few(w: World, lo: nat, hi: nat) {
    Pieces(w.ab.afl, hi) && (w.ab.max > 0 ==> |w.ab.afl| <= MostFrames(w.ab.max, lo))
  }

  lemma {:induction false} PiecesSize(afl: seq<Frame>, hi: nat)
    requires Pieces(afl, hi)
    ensures |afl| <= |Contents(afl)| <= hi * |afl|
    decreases |afl|
  {
    if afl != [] {
      PiecesSize(afl[1..], hi);
      assert hi * |afl| == hi * |afl[1..]| + hi;
    }
  }

  lemma {:induction false} TakePieces(afl: seq<Frame>, sz: nat, rated: bool, hi: nat)
    requires Pieces(afl, hi)
    ensures var r := TakeAs(afl, sz, rated).0; Pieces(r, hi) && |r| <= |afl|
    decreases |afl|
  {
    if afl != [] && |afl[0].data| < sz { TakePieces(afl[1..], sz - |afl[0].data|, rated, hi); }
  }

  lemma {:induction false} DropPieces(afl: seq<Frame>, wish: nat, hi: nat)
    requires Pieces(afl, hi)
    ensures var r := DropTo(afl, wish).0; Pieces(r, hi) && |r| <= |afl|
    decreases |afl|
  {
    if |Contents(afl)| > wish { DropPieces(afl[1..], wish, hi); }
  }

  lemma ReadPieces(ab: Ab, jitter: Jitter, sz: nat, hi: nat)
    requires Pieces(ab.afl, hi)
    ensures var r := Read(ab, jitter, sz).ab; Pieces(r.afl, hi) && |r.afl| <= |ab.afl| && r.max == ab.max
  {
    hide TakeAs, DropTo, Contents, Pieces, Settle;
    DropPieces(ab.afl, ab.wish, hi);
    var d := if ab.live && !ab.started && ab.wish > 0 then DropTo(ab.afl, ab.wish) else (ab.afl, []);
    TakePieces(d.0, sz, d.0 != [] && d.0[0].rate > 0, hi);
    var t := Take(d.0, sz).0;
    TakePieces(t, sz, t != [] && t[0].rate > 0, hi);
  }

  /** A packet makes one frame more only if it is not over the limit. */
  lemma {:induction false} AppendPieces(ab: Ab, op: Op, hi: nat)
    requires op.Put? && ab.cur == |Contents(ab.afl)| && Pieces(ab.afl, hi) && 1 <= |op.data| <= hi
    ensures var r := Append(ab, op.ts, op.rate, op.data).0;
            && r.max == ab.max && Pieces(r.afl, hi)
            && |r.afl| == |ab.afl| + if ab.max > 0 && ab.cur + |op.data| > ab.max then 0 else 1
  {
    hide Insert, Stamp, Contents;
    var f := Frame(Stamp(ab, op.ts, op.rate), op.rate, op.data);
    var k := InsertPlace(ab.afl, f);
    var all := ab.afl[..k] + [f] + ab.afl[k..];
    InsertSize(ab.afl, f);
    forall i | 0 <= i < |all| ensures 1 <= |all[i].data| <= hi {
      assert all[i] == if i < k then ab.afl[i] else if i == k then f else ab.afl[i - 1];
    }
  }

  lemma StepFew(w: World, op: Op, lo: nat, hi: nat)
    requires Balanced(w) && Few(w, lo, hi) && 1 <= lo && (op.Put? ==> lo <= |op.data| <= hi)
    ensures Few(Step(w, op), lo, hi)
  {
    hide Append, Read, Contents, Pieces;
    match op
    case Put(_, _, _) =>
      AppendPieces(w.ab, op, hi);
      PiecesSize(w.ab.afl, hi);
    case Get(jitter, sz) => ReadPieces(w.ab, jitter, sz, hi);
    case Clear => NoPieces(hi);
    case Resize(_, _) => NoPieces(hi);
  }

  lemma NoPieces(hi: nat)
    ensures Pieces([], hi)
  {
  }

  /** Whatever the time stamps: with packets of lo to hi bytes a buffer that has a limit never holds
      more than max - lo + 1 frames, and so no more than hi times as many bytes. */
  lemma {:induction false} AnyRunBounded(w: World, ops: seq<Op>, lo: nat, hi: nat)
    requires Balanced(w) && Few(w, lo, hi) && 1 <= lo && Sizes(ops, lo, hi)
    ensures var r := Run(w, ops);
            Few(r, lo, hi) && (r.ab.max > 0 ==> r.ab.cur <= hi * MostFrames(r.ab.max, lo))
    decreases |ops|
  {
    hide Step, Pieces;
    if ops == [] {
      PiecesSize(w.ab.afl, hi);
      if w.ab.max > 0 { Product(hi, |w.ab.afl|, MostFrames(w.ab.max, lo)); }
    } else {
      StepBalanced(w, ops[0]);
      StepFew(w, ops[0], lo, hi);
      AnyRunBounded(Step(w, ops[0]), ops[1..], lo, hi);
    }
  }

  lemma Product(a: nat, b: nat, c: nat)
    requires b <= c
    ensures a * b <= a * c
  {
  }

  /** A new buffer is where all of these start. */
  lemma StartsWithin(wish: nat, max: nat, p: nat)
    requires p > 0
    ensures var w := Start(wish, max); Within(w, p) && Capped(w, p) && Few(w, p, p)
  {
    EmptyContents();
  }

  // ---------------------------------------------------------------- a run over the limit

  /** A packet that goes to the tail and one that goes to the head of a short list. */
  lemma PutLands(w: World, ts: nat, d: seq<byte>)
    requires Balanced(w) && ts > 0 && |w.ab.afl| <= 3 && w.ab.max > 0
    requires w.ab.afl == [] || w.ab.afl[|w.ab.afl| - 1].ts <= ts || (|w.ab.afl| == 1 && ts < w.ab.afl[0].ts)
    ensures var f := Frame(ts, 0, d);
            var afl := if w.ab.afl == [] || w.ab.afl[|w.ab.afl| - 1].ts <= ts then w.ab.afl + [f] else [f] + w.ab.afl;
            var r := Step(w, Put(ts, 0, d)).ab;
            && r.afl == (if w.ab.cur + |d| > w.ab.max then afl[1..] else afl)
            && r.cur == w.ab.cur + |d| - (if w.ab.cur + |d| > w.ab.max then |afl[0].data| else 0)
            && r.max == w.ab.max && r.fill <= w.ab.fill && r.wish == w.ab.wish
  {
    hide Contents;
    var f := Frame(ts, 0, d);
    if w.ab.afl == [] { assert [] + [f] == [f]; }
    if |w.ab.afl| == 1 && ts < w.ab.afl[0].ts {
      assert Insert(w.ab.afl[..0], f) == [f];
      assert w.ab.afl == [w.ab.afl[0]];
    }
  }

  lemma HeadRead(w: World, sz: nat)
    requires Balanced(w) && w.ab.fill == 0 && w.ab.wish == 0
    requires w.ab.afl != [] && sz < |w.ab.afl[0].data| && sz <= w.ab.cur && w.ab.afl[0].rate == 0
    ensures var f := w.ab.afl[0];
            var r := Step(w, Get(Good, sz)).ab;
            && r.afl == [Frame(f.ts, 0, f.data[sz..])] + w.ab.afl[1..] && r.cur == w.ab.cur - sz
            && r.max == w.ab.max && r.fill == 0 && r.wish == 0
  {
    TakeQueue(w.ab.afl, sz);
    hide Contents;
  }

  /** Empty, with nothing to fill up and a limit of six bytes. */
  predicate Fresh(w: World) {
    w.ab.afl == [] && w.ab.cur == 0 && w.ab.fill == 0 && w.ab.wish == 0 && w.ab.max == 6
  }

  /** Out of order a buffer with a limit of 6 comes to hold 12 bytes, which is all that the bound for any
      run allows: partly read frames that end up behind newer ones are dropped one small rest at a time,
      while each packet brings 4 bytes. */
  lemma {:induction false} OutOfOrderGrows(w: World, d: seq<byte>)
    requires Balanced(w) && Fresh(w) && |d| == 4
    ensures var r := Run(w, OutOfOrder(d)); r.ab.max == 6 && r.ab.cur == 12 == 4 * MostFrames(6, 4)
  {
    hide Step, Contents, Run, Late;
    var w2 := LeavesRest(w, 10, d, PutGet(5, d) + Late(d));
    var w4 := LeavesRest(w2, 5, d, Late(d));
    assert w4.ab.afl == [Frame(5, 0, d[3..]), Frame(10, 0, d[3..])];
    LateGrowth(w4, d);
  }

  /** Such is a new buffer. */
  lemma StartIsFresh()
    ensures Balanced(Start(0, 6)) && Fresh(Start(0, 6))
  {
    EmptyContents();
  }

  /** A packet put in front and read but for its last byte. */
  lemma LeavesRest(w: World, ts: nat, d: seq<byte>, rest: seq<Op>) returns (r: World)
    requires Balanced(w) && |d| == 4 && ts > 0 && w.ab.fill == 0 && w.ab.wish == 0 && w.ab.cur + 4 <= w.ab.max
    requires w.ab.afl == [] || (|w.ab.afl| == 1 && ts < w.ab.afl[0].ts)
    ensures Balanced(r) && Run(w, PutGet(ts, d) + rest) == Run(r, rest)
    ensures r.ab.afl == [Frame(ts, 0, d[3..])] + w.ab.afl && r.ab.cur == w.ab.cur + 1
    ensures r.ab.max == w.ab.max && r.ab.fill == 0 && r.ab.wish == 0
  {
    hide Step, Contents, Run;
    var put, get := Put(ts, 0, d), Get(Good, 3);
    var ops := PutGet(ts, d) + rest;
    PutLands(w, ts, d);
    var w1 := Step(w, put);
    StepBalanced(w, put);
    assert w1.ab.afl == [Frame(ts, 0, d)] + w.ab.afl;
    HeadRead(w1, 3);
    StepBalanced(w1, get);
    RunSteps(w, ops);
    RunSteps(w1, ops[1..]);
    assert ops[1..][1..] == rest;
    r := Step(w1, get);
  }

  function PutGet(ts: nat, d: seq<byte>): seq<Op> {
    [Put(ts, 0, d), Get(Good, 3)]
  }

  function Late(d: seq<byte>): seq<Op> {
    [Put(11, 0, d), Put(12, 0, d), Put(13, 0, d)]
  }

  function OutOfOrder(d: seq<byte>): seq<Op> {
    PutGet(10, d) + (PutGet(5, d) + Late(d))
  }

  lemma RunSteps(w: World, ops: seq<Op>)
    requires Balanced(w) && ops != []
    ensures Balanced(Step(w, ops[0])) && Run(w, ops) == Run(Step(w, ops[0]), ops[1..])
  {
    StepBalanced(w, ops[0]);
  }

  lemma LateGrowth(w: World, d: seq<byte>)
    requires Balanced(w) && |d| == 4 && w.ab.max == 6 && w.ab.cur == 2
    requires w.ab.afl == [Frame(5, 0, d[3..]), Frame(10, 0, d[3..])]
    ensures Run(w, Late(d)).ab.cur == 12 && Run(w, Late(d)).ab.max == 6
  {
    hide Step, Contents;
    var ops := Late(d);
    PutLands(w, 11, d);
    var w1 := Step(w, ops[0]);
    StepBalanced(w, ops[0]);
    assert w1.ab.afl == [Frame(5, 0, d[3..]), Frame(10, 0, d[3..]), Frame(11, 0, d)];
    PutLands(w1, 12, d);
    var w2 := Step(w1, ops[1]);
    StepBalanced(w1, ops[1]);
    assert w2.ab.afl == [Frame(10, 0, d[3..]), Frame(11, 0, d), Frame(12, 0, d)];
    PutLands(w2, 13, d);
    var w3 := Step(w2, ops[2]);
    RunSteps(w, ops);
    RunSteps(w1, ops[1..]);
    RunSteps(w2, ops[2..]);
    assert ops[1..][1..] == ops[2..] && ops[2..][1..] == [];
  }

  /** In that run some call overfills the buffer. */
  lemma {:induction false} OutOfOrderOverfills(w: World, d: seq<byte>)
    requires Balanced(w) && Fresh(w) && |d| == 4
    ensures exists k: nat :: k < |OutOfOrder(d)| && Overfills(At(w, OutOfOrder(d), k).ab, OutOfOrder(d)[k], 4)
  {
    hide Step, At, Run, Overfills;
    var ops := OutOfOrder(d);
    assert Sizes(ops, 0, 4);
    hide OutOfOrder;
    OutOfOrderGrows(w, d);
    AtEnds(w, ops);
    LimitExactly(w, ops, 4);
  }
}
