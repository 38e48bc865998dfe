/** The FIR filter: a masked ring of past samples against the direct convolution of the whole input. */
module Fir {
  import opened Bytes
  import Bitwise

  const HISTORY := 256
  const WORD := 0x1_0000_0000

  // ---------------------------------------------------------------- direct convolution

  /** Sample m of a stream that was silent before it began. */
  function At(x: seq<int>, m: int): int {
    if 0 <= m < |x| then x[m] else 0
  }

  /** The first k taps applied to sample n, tap i that many samples back. */
  function Sum(x: seq<int>, n: int, lags: seq<nat>, taps: seq<int>, k: nat): int
    requires k <= |taps| == |lags|
  {
    if k == 0 then 0 else Sum(x, n, lags, taps, k - 1) + At(x, n - lags[k - 1]) * taps[k - 1]
  }

  function Clamp(acc: int): int {
    if acc > 0x3fff_ffff then 0x3fff_ffff else if acc < -0x4000_0000 then -0x4000_0000 else acc
  }

  /** Output sample n: a sixteen bit number. */
  function Out(x: seq<int>, n: int, lags: seq<nat>, taps: seq<int>): (r: int)
    requires |lags| == |taps|
    ensures -0x8000 <= r <= 0x7fff
  {
    Clamp(Sum(x, n, lags, taps, |taps|)) / 0x8000
  }

  /** Clamping before the shift is saturation of the shifted sum to sixteen bits. */
  lemma {:induction false} Saturates(x: seq<int>, n: int, lags: seq<nat>, taps: seq<int>)
    requires |lags| == |taps|
    ensures var q := Sum(x, n, lags, taps, |taps|) / 0x8000;
            Out(x, n, lags, taps) == if q > 0x7fff then 0x7fff else if q < -0x8000 then -0x8000 else q
  {
    hide Sum;
  }

  /** The output for block b after the stream x. */
  function Convolved(x: seq<int>, b: seq<int>, lags: seq<nat>, taps: seq<int>): (r: seq<int>)
    requires |lags| == |taps|
    ensures |r| == |b|
    decreases |b|
  {
    if b == [] then []
    else Convolved(x, b[..|b| - 1], lags, taps) + [Out(x + b, |x| + |b| - 1, lags, taps)]
  }

  /** Each tap one sample per channel further back than the one before. */
  function Direct(ch: nat, tapc: nat): (lags: seq<nat>)
    ensures |lags| == tapc
  {
    if tapc == 0 then [] else Direct(ch, tapc - 1) + [Lag(tapc - 1, ch)]
  }

  function Lag(i: nat, ch: nat): nat {
    i * ch
  }

  /** What the filter is for. */
  function Filtered(x: seq<int>, b: seq<int>, ch: nat, taps: seq<int>): (r: seq<int>)
    ensures |r| == |b|
  {
    Convolved(x, b, Direct(ch, |taps|), taps)
  }

  /** An output sample depends on no later input. */
  lemma {:induction false} SumPrefix(x: seq<int>, y: seq<int>, n: int, lags: seq<nat>, taps: seq<int>, k: nat)
    requires k <= |taps| == |lags| && n < |x|
    ensures Sum(x + y, n, lags, taps, k) == Sum(x, n, lags, taps, k)
  {
    if k > 0 {
      SumPrefix(x, y, n, lags, taps, k - 1);
      assert At(x + y, n - lags[k - 1]) == At(x, n - lags[k - 1]);
    }
  }

  lemma {:induction false} OutPrefix(x: seq<int>, y: seq<int>, n: int, lags: seq<nat>, taps: seq<int>)
    requires |taps| == |lags| && n < |x|
    ensures Out(x + y, n, lags, taps) == Out(x, n, lags, taps)
  {
    hide Sum;
    SumPrefix(x, y, n, lags, taps, |taps|);
  }

  lemma {:induction false} ConvolvedAt(x: seq<int>, b: seq<int>, lags: seq<nat>, taps: seq<int>, n: nat)
    requires n < |b| && |lags| == |taps|
    ensures Convolved(x, b, lags, taps)[n] == Out(x + b, |x| + n, lags, taps)
    decreases |b|
  {
    if n < |b| - 1 {
      var init := b[..|b| - 1];
      ConvolvedAt(x, init, lags, taps, n);
      assert x + b == x + init + [b[|b| - 1]];
      OutPrefix(x + init, [b[|b| - 1]], |x| + n, lags, taps);
    }
  }

  /** A sample's output, whichever block the sample is in. */
  lemma {:induction false} SampleOut(x: seq<int>, b: seq<int>, lags: seq<nat>, taps: seq<int>, i: nat, z: seq<int>)
    requires i < |b| && |lags| == |taps| && x + b <= z
    ensures Convolved(x, b, lags, taps)[i] == Out(z, |x| + i, lags, taps)
  {
    hide Convolved, Out;
    ConvolvedAt(x, b, lags, taps, i);
    var rest := z[|x| + |b|..];
    assert z == (x + b) + rest;
    OutPrefix(x + b, rest, |x| + i, lags, taps);
  }

  /** How the input is cut into blocks makes no difference. */
  lemma {:induction false} BlocksDoNotMatter(x: seq<int>, a: seq<int>, b: seq<int>, ch: nat, taps: seq<int>)
    ensures Filtered(x, a + b, ch, taps) == Filtered(x, a, ch, taps) + Filtered(x + a, b, ch, taps)
  {
    hide Convolved, Out;
    var lags, z := Direct(ch, |taps|), x + (a + b);
    assert x + a <= z && x + a + b <= z by { ConcatAssoc(x, a, b); }
    var l, r := Convolved(x, a + b, lags, taps), Convolved(x, a, lags, taps) + Convolved(x + a, b, lags, taps);
    forall n | 0 <= n < |l| ensures l[n] == r[n] {
      SampleOut(x, a + b, lags, taps, n, z);
      if n < |a| {
        SampleOut(x, a, lags, taps, n, z);
      } else {
        SampleOut(x + a, b, lags, taps, n - |a|, z);
      }
    }
  }

  // ---------------------------------------------------------------- the ring

  /** The last position before `len` that lands in slot k of a ring of n. */
  function Last(len: nat, k: nat, n: nat): (m: int)
    requires n > 0
  {
    len - 1 - (len - 1 - k) % n
  }

  /** Each slot of the ring holds the newest sample of its position, or silence. */
  predicate Ring(h: seq<int>, x: seq<int>, n: nat) {
    0 < n <= |h| && forall k :: 0 <= k < n ==> h[k] == At(x, Last(|x|, k, n))
  }

  lemma LastIs(len: nat, k: nat, n: nat, m: int)
    requires n > 0 && k < n && len - n <= m < len && (m - k) % n == 0
    ensures Last(len, k, n) == m
  {
    var q := (m - k) / n;
    assert len - 1 - k == q * n + (len - 1 - m);
    Bitwise.ModUnique(len - 1 - k, n, q, len - 1 - m);
  }

  /** The slot d back from the newest one. */
  lemma BackSlot(len: nat, d: nat, n: nat)
    requires n > 0 && len > 0 && d < n
    ensures var k := (len - 1 - d) % n; Last(len, k, n) == len - 1 - d
  {
    var k := (len - 1 - d) % n;
    var q := (len - 1 - d) / n;
    assert len - 1 - d - k == q * n + 0;
    Bitwise.ModUnique(len - 1 - d - k, n, q, 0);
    LastIs(len, k, n, len - 1 - d);
  }

  lemma RingRead(h: seq<int>, x: seq<int>, n: nat, d: nat)
    requires Ring(h, x, n) && x != [] && d < n
    ensures h[(|x| - 1 - d) % n] == At(x, |x| - 1 - d)
  {
    BackSlot(|x|, d, n);
  }

  /** A tap that reaches back further than the ring hears a newer sample in the same slot. */
  lemma RingHeard(h: seq<int>, x: seq<int>, n: nat, d: nat)
    requires Ring(h, x, n) && x != []
    ensures h[(|x| - 1 - d) % n] == At(x, |x| - 1 - d % n)
  {
    assert n > 0;
    hide Ring;
    var m := |x| - 1;
    var q, r := (m - d % n) / n, (m - d % n) % n;
    assert m - d == (q - d / n) * n + r by {
      assert d == d / n * n + d % n;
      assert (q - d / n) * n == q * n - d / n * n;
    }
    Bitwise.ModUnique(m - d, n, q - d / n, r);
    RingRead(h, x, n, d % n);
  }

  /** Putting the next sample in its slot. */
  lemma RingWrite(h: seq<int>, x: seq<int>, n: nat, v: int)
    requires Ring(h, x, n)
    ensures Ring(h[|x| % n := v], x + [v], n)
  {
    var h', x' := h[|x| % n := v], x + [v];
    forall k: nat | k < n ensures h'[k] == At(x', Last(|x'|, k, n)) {
      if k == |x| % n {
        BackSlot(|x'|, 0, n);
      } else {
        OtherSlot(|x|, k, n);
        assert At(x', Last(|x|, k, n)) == At(x, Last(|x|, k, n));
      }
    }
  }

  lemma OtherSlot(len: nat, k: nat, n: nat)
    requires n > 0 && k < n && k != len % n
    ensures Last(len + 1, k, n) == Last(len, k, n) && Last(len, k, n) < len
  {
    var r := (len - 1 - k) % n;
    var q := (len - 1 - k) / n;
    assert len - 1 - k == q * n + r;
    if r == n - 1 {
      assert len == (q + 1) * n + k by { assert len - k == q * n + n; }
      Bitwise.ModUnique(len, n, q + 1, k);
    } else {
      Bitwise.ModUnique(len - k, n, q, r + 1);
    }
  }

  lemma SilentRing(h: seq<int>, n: nat)
    requires 0 < n <= |h| && forall k :: 0 <= k < |h| ==> h[k] == 0
    ensures Ring(h, [], n)
  {
  }

  // ---------------------------------------------------------------- masks and wrapping

  /** Masking a wrapped index gives the slot of the unwrapped one. */
  lemma Slot(j: int, e: nat)
    requires Pow(2, e) <= HISTORY
    ensures Pow(2, e) >= 1 && Bitwise.And(j % WORD, Pow(2, e) - 1) == j % Pow(2, e)
  {
    Bitwise.MaskIsMod(j % WORD, e);
    var n := Pow(2, e);
    Divides(e);
    var w :| w * n == WORD;
    WrapMod(j, n, w);
  }

  lemma WrapMod(j: int, n: nat, w: int)
    requires n > 0 && w * n == WORD
    ensures j % WORD % n == j % n
  {
    var q, r := j / WORD, j % WORD;
    var q', r' := r / n, r % n;
    assert j == (q * w + q') * n + r' by {
      assert j == q * (w * n) + r;
      assert q * (w * n) == (q * w) * n;
      assert (q * w + q') * n == (q * w) * n + q' * n;
    }
    Bitwise.ModUnique(j, n, q * w + q', r');
  }

  lemma {:induction false} Divides(e: nat)
    requires Pow(2, e) <= HISTORY
    ensures exists w: int :: w * Pow(2, e) == WORD
  {
    if e <= 8 {
      SmallPowers();
      assert WORD == 0x100_0000 * 256 == 0x200_0000 * 128 == 0x400_0000 * 64 == 0x800_0000 * 32 == 0x1000_0000 * 16;
      assert WORD == 0x2000_0000 * 8 == 0x4000_0000 * 4 == 0x8000_0000 * 2 == WORD * 1;
    } else {
      PowAbove(e);
    }
  }

  lemma SmallPowers()
    ensures Pow(2, 0) == 1 && Pow(2, 1) == 2 && Pow(2, 2) == 4 && Pow(2, 3) == 8 && Pow(2, 4) == 16
    ensures Pow(2, 5) == 32 && Pow(2, 6) == 64 && Pow(2, 7) == 128 && Pow(2, 8) == 256
  {
  }

  lemma {:induction false} PowAbove(e: nat)
    requires e > 8
    ensures Pow(2, e) > 256
  {
    SmallPowers();
    if e > 9 { PowAbove(e - 1); }
  }

  // ---------------------------------------------------------------- the filter

  /** The size of the ring, which the source computes in 32 bits. */
  function Slots(ch: nat, tapc: nat): nat {
    ch * tapc % WORD
  }

  /** Channel and tap counts that are not turned down. */
  ghost predicate Usable(ch: nat, tapc: nat) {
    0 < Slots(ch, tapc) <= HISTORY && Bitwise.PowerOfTwo(Slots(ch, tapc))
  }

  /** How far back each tap reaches in a ring of n slots. */
  function Ringed(ch: nat, tapc: nat, n: nat): (lags: seq<nat>)
    requires n > 0
    ensures |lags| == tapc
  {
    if tapc == 0 then [] else Ringed(ch, tapc - 1, n) + [Lag(tapc - 1, ch) % n]
  }

  lemma {:induction false} RingedAt(ch: nat, tapc: nat, n: nat, i: nat)
    requires n > 0 && i < tapc
    ensures Ringed(ch, tapc, n)[i] == Lag(i, ch) % n < n
  {
    hide Lag;
    if i < tapc - 1 { RingedAt(ch, tapc - 1, n, i); }
  }

  lemma {:induction false} RingIsDirect(ch: nat, tapc: nat, k: nat, n: nat)
    requires n > 0 && k <= tapc && Lag(tapc, ch) == n
    ensures Ringed(ch, k, n) == Direct(ch, k)
  {
    hide Lag;
    if k > 0 {
      RingIsDirect(ch, tapc, k - 1, n);
      TapInRing(k - 1, ch, tapc);
      SmallMod(Lag(k - 1, ch), n);
    }
  }

  lemma SmallMod(a: nat, n: nat)
    requires a < n
    ensures a % n == a
  {
  }

  lemma {:induction false} DirectAt(ch: nat, tapc: nat, i: nat)
    requires i < tapc
    ensures Direct(ch, tapc)[i] == Lag(i, ch)
  {
    hide Lag;
    if i < tapc - 1 { DirectAt(ch, tapc - 1, i); }
  }

  lemma LastLag(ch: nat, tapc: nat)
    requires ch < WORD && Lag(tapc, ch) >= WORD
    ensures tapc >= 2 && Lag(tapc - 1, ch) > HISTORY
  {
    LagStep(0, ch);
    LagStep(1, ch);
    LagStep(tapc - 1, ch);
    MulMono(1, tapc - 1, ch);
  }

  /** The ring is the convolution exactly if its size is computed without wrapping. */
  lemma RingConvolves(ch: nat, tapc: nat)
    requires Usable(ch, tapc) && ch < WORD
    ensures Ringed(ch, tapc, Slots(ch, tapc)) == Direct(ch, tapc) <==> ch * tapc < WORD
  {
    hide Bitwise.PowerOfTwo, Ringed, Direct;
    var n := Slots(ch, tapc);
    assert Lag(tapc, ch) == ch * tapc;
    if ch * tapc < WORD {
      RingIsDirect(ch, tapc, tapc, n);
    } else {
      LastLag(ch, tapc);
      DirectAt(ch, tapc, tapc - 1);
      RingedAt(ch, tapc, n, tapc - 1);
    }
  }

  /** Taps that pick out the last one. */
  function LastTap(tapc: nat): (taps: seq<int>)
    requires tapc > 0
    ensures |taps| == tapc
  {
    seq(tapc, i => if i == tapc - 1 then 0x7fff else 0)
  }

  /** A short impulse and the n samples behind it. */
  function Impulse(n: nat): (b: seq<int>)
    ensures |b| == n + 1
  {
    seq(n + 1, i => if i == 0 then 2 else 0)
  }

  lemma {:induction false} SumZeros(x: seq<int>, n: int, lags: seq<nat>, taps: seq<int>, k: nat)
    requires k <= |taps| == |lags| && forall i :: 0 <= i < k ==> taps[i] == 0
    ensures Sum(x, n, lags, taps, k) == 0
  {
    if k > 0 { SumZeros(x, n, lags, taps, k - 1); }
  }

  /** The impulse comes out again exactly as late as the last tap reaches back. */
  lemma {:induction false} ImpulseHeard(lags: seq<nat>, n: nat)
    requires lags != []
    ensures Convolved([], Impulse(n), lags, LastTap(|lags|))[n] == if lags[|lags| - 1] == n then 1 else 0
  {
    hide Convolved, Sum;
    var taps, x, k := LastTap(|lags|), Impulse(n), |lags| - 1;
    assert [] + x == x;
    ConvolvedAt([], x, lags, taps, n);
    var heard := At(x, n - lags[k]);
    assert heard == if lags[k] == n then 2 else 0;
    assert Sum(x, n, lags, taps, |taps|) == 0 + heard * 0x7fff by {
      SumZeros(x, n, lags, taps, k);
      SumStep(x, n, lags, taps, k);
    }
  }

  /** For settings that are not turned down, what comes out is the convolution for all taps and all
      input if and only if channels times taps does not wrap. */
  lemma {:induction false} OutputConvolves(ch: nat, tapc: nat)
    requires Usable(ch, tapc) && ch < WORD
    ensures (forall x, b, taps: seq<int> :: |taps| == tapc ==>
               Convolved(x, b, Ringed(ch, tapc, Slots(ch, tapc)), taps) == Filtered(x, b, ch, taps))
            <==> ch * tapc < WORD
  {
    hide Bitwise.PowerOfTwo, Convolved, Ringed, Direct;
    var n := Slots(ch, tapc);
    var ring := Ringed(ch, tapc, n);
    if ch * tapc < WORD {
      RingConvolves(ch, tapc);
    } else {
      LastLag(ch, tapc);
      DirectAt(ch, tapc, tapc - 1);
      RingedAt(ch, tapc, n, tapc - 1);
      var d := ring[tapc - 1];
      ImpulseHeard(ring, d);
      ImpulseHeard(Direct(ch, tapc), d);
      assert Convolved([], Impulse(d), ring, LastTap(tapc))[d] != Filtered([], Impulse(d), ch, LastTap(tapc))[d];
    }
  }

  /** With this many channels and two taps the ring has two slots, and an impulse comes out one sample
      late instead of 0x80000001. */
  lemma WrappedRing()
    ensures var ch := 0x8000_0001;
            && Usable(ch, 2) && Slots(ch, 2) == 2
            && Ringed(ch, 2, 2) == [0, 1] && Direct(ch, 2) == [0, ch]
            && Convolved([], [2, 0], Ringed(ch, 2, 2), [0, 0x7fff])[1] == 1
            && Filtered([], [2, 0], ch, [0, 0x7fff])[1] == 0
  {
    var ch := 0x8000_0001;
    assert Impulse(1) == [2, 0] && LastTap(2) == [0, 0x7fff];
    ImpulseHeard([0, 1], 1);
    ImpulseHeard([0, ch], 1);
    hide Convolved;
    SmallPowers();
    assert Bitwise.PowerOfTwo(Pow(2, 1));
    assert Direct(ch, 1) == [0] && Ringed(ch, 1, 2) == [0];
  }

  class Filter {
    const history: array<int>
    var index: nat

    constructor ()
      ensures fresh(history) && index == 0 && history.Length == HISTORY
      ensures forall n: nat :: 0 < n <= HISTORY ==> Holds([], n)
    {
      history := new int[HISTORY](_ => 0);
      index := 0;
    }

    /** The state after the stream x, with a ring of n slots. */
    ghost predicate Holds(x: seq<int>, n: nat)
      reads this, history
    {
      history.Length == HISTORY && index == |x| % WORD && Ring(history[..], x, n)
    }

    method Reset()
      requires history.Length == HISTORY
      modifies this, history
      ensures forall n: nat :: 0 < n <= HISTORY ==> Holds([], n)
    {
      for i := 0 to history.Length
        invariant forall k :: 0 <= k < i ==> history[k] == 0
      {
        history[i] := 0;
      }
      index := 0;
      forall n: nat | 0 < n <= HISTORY ensures Holds([], n) { SilentRing(history[..], n); }
    }

    /** The taps over the ring, from the newest sample in slot j & hmask backwards. */
    method Taps(j0: int, ch: nat, taps: seq<int>, hmask: nat, ghost x: seq<int>) returns (acc: int)
      requires hmask < HISTORY && Bitwise.PowerOfTwo(hmask + 1)
      requires history.Length == HISTORY && x != [] && Ring(history[..], x, hmask + 1) && j0 == (|x| - 1) % WORD
      ensures acc == Sum(x, |x| - 1, Ringed(ch, |taps|, hmask + 1), taps, |taps|)
    {
      hide Ring, Pow, Bitwise.And, At, Sum, Ringed, Lag;
      ghost var e: nat :| hmask + 1 == Pow(2, e);
      ghost var lags := Ringed(ch, |taps|, hmask + 1);
      SumNone(x, |x| - 1, lags, taps);
      acc := 0;
      var i, j := 0, j0;
      LagStep(0, ch);
      while i < |taps|
        invariant 0 <= i <= |taps| && j == (|x| - 1 - Lag(i, ch)) % WORD
        invariant acc == Sum(x, |x| - 1, lags, taps, i)
      {
        Slot(|x| - 1 - Lag(i, ch), e);
        RingedAt(ch, |taps|, hmask + 1, i);
        RingHeard(history[..], x, hmask + 1, Lag(i, ch));
        SumStep(x, |x| - 1, lags, taps, i);
        acc := acc + history[Bitwise.And(j, hmask)] * taps[i];
        WrapBack(|x| - 1 - Lag(i, ch), ch);
        LagStep(i, ch);
        i, j := i + 1, (j - ch) % WORD;
      }
    }

    /** One sample: into the ring, then through the taps. */
    method One(v: int, ch: nat, taps: seq<int>, hmask: nat, ghost x: seq<int>) returns (out: int)
      requires hmask < HISTORY && Bitwise.PowerOfTwo(hmask + 1) && Holds(x, hmask + 1)
      modifies `index, history
      ensures Holds(x + [v], hmask + 1) && out == Out(x + [v], |x|, Ringed(ch, |taps|, hmask + 1), taps)
    {
      hide Ring, Pow, Bitwise.And, Sum, Ringed;
      ghost var e: nat :| hmask + 1 == Pow(2, e);
      Slot(|x|, e);
      RingWrite(history[..], x, hmask + 1, v);
      WrapNext(|x|);
      ghost var h := history[..][|x| % (hmask + 1) := v];
      history[Bitwise.And(index, hmask)] := v;
      assert history[..] == h;
      var acc := Taps(index, ch, taps, hmask, x + [v]);
      index := (index + 1) % WORD;
      if acc > 0x3fff_ffff {
        acc := 0x3fff_ffff;
      } else if acc < -0x4000_0000 {
        acc := -0x4000_0000;
      }
      out := acc / 0x8000;
    }

    method Block(outv: array<int>, inv: array<int>, inc: nat, ch: nat, taps: seq<int>, hmask: nat, ghost x: seq<int>)
      requires inc <= outv.Length && inc <= inv.Length && history != outv && history != inv
      requires hmask < HISTORY && Bitwise.PowerOfTwo(hmask + 1) && Holds(x, hmask + 1)
      modifies `index, history, outv
      ensures Holds(x + old(inv[..inc]), hmask + 1)
      ensures outv[..] == Convolved(x, old(inv[..inc]), Ringed(ch, |taps|, hmask + 1), taps) + old(outv[inc..])
    {
      hide Holds, Bitwise.PowerOfTwo, Convolved, Out, Ringed;
      ghost var b, lags := inv[..inc], Ringed(ch, |taps|, hmask + 1);
      ghost var c := Convolved(x, b, lags, taps);
      assert x + b[..0] == x;
      for k := 0 to inc
        invariant Holds(x + b[..k], hmask + 1)
        invariant forall i :: 0 <= i < k ==> outv[i] == c[i]
        invariant forall i :: inc <= i < outv.Length ==> outv[i] == old(outv[i])
        invariant forall i :: k <= i < inc ==> inv[i] == b[i]
      {
        var v := inv[k];
        NextSample(x, b, k, lags, taps);
        outv[k] := One(v, ch, taps, hmask, x + b[..k]);
      }
      assert b[..inc] == b;
      assert outv[..] == c + old(outv[inc..]);
    }

    /** Filters a block; outv may be the array inv itself. */
    method Run(outv: array<int>, inv: array<int>, inc: nat, ch: nat, taps: seq<int>, ghost x: seq<int>)
      requires inc <= outv.Length && inc <= inv.Length && history != outv && history != inv && ch < WORD
      requires Usable(ch, |taps|) ==> Holds(x, Slots(ch, |taps|))
      modifies `index, history, outv
      ensures !Usable(ch, |taps|) ==>
                index == old(index) && history[..] == old(history[..]) && outv[..] == old(outv[..])
      ensures Usable(ch, |taps|) ==>
                var n, b := Slots(ch, |taps|), old(inv[..inc]);
                && Holds(x + b, n)
                && outv[..] == Convolved(x, b, Ringed(ch, |taps|, n), taps) + old(outv[inc..])
                && (ch * |taps| < WORD ==> outv[..] == Filtered(x, b, ch, taps) + old(outv[inc..]))
    {
      hide Holds, Convolved, Ringed, Direct;
      var hmask := (ch * |taps| - 1) % WORD;
      MaskOrNone(ch, |taps|);
      if ch == 0 || |taps| == 0 {
        return;
      }
      if hmask >= HISTORY || Bitwise.And(hmask, hmask + 1) != 0 {
        return;
      }
      if ch * |taps| < WORD { RingConvolves(ch, |taps|); }
      hide Usable, Slots;
      Block(outv, inv, inc, ch, taps, hmask, x);
    }
  }

  /** The test on the mask is the one on the ring's size. */
  lemma MaskOrNone(ch: nat, tapc: nat)
    ensures ch == 0 || tapc == 0 ==> !Usable(ch, tapc)
    ensures var hmask := (ch * tapc - 1) % WORD;
            if hmask < HISTORY && Bitwise.And(hmask, hmask + 1) == 0
            then ch > 0 && tapc > 0 ==>
                   Usable(ch, tapc) && hmask + 1 == Slots(ch, tapc) && Bitwise.PowerOfTwo(hmask + 1)
            else !Usable(ch, tapc)
  {
    hide Bitwise.PowerOfTwo, Bitwise.And;
    var hmask := (ch * tapc - 1) % WORD;
    WrapLess(ch * tapc);
    Bitwise.AndSym(hmask, hmask + 1);
    Bitwise.PowerOfTwoTest(hmask + 1);
  }

  lemma WrapLess(p: nat)
    ensures (p - 1) % WORD == if p % WORD == 0 then WORD - 1 else p % WORD - 1
  {
  }

  lemma {:induction false} NextSample(x: seq<int>, b: seq<int>, k: nat, lags: seq<nat>, taps: seq<int>)
    requires k < |b| && |lags| == |taps|
    ensures x + b[..k + 1] == x + b[..k] + [b[k]]
    ensures Convolved(x, b, lags, taps)[k] == Out(x + b[..k] + [b[k]], |x + b[..k]|, lags, taps)
  {
    hide Convolved, Out;
    var y := x + b[..k] + [b[k]];
    assert x + b == y + b[k + 1..];
    ConvolvedAt(x, b, lags, taps, k);
    OutPrefix(y, b[k + 1..], |x| + k, lags, taps);
  }

  lemma TapInRing(i: nat, ch: nat, tapc: nat)
    requires i < tapc && Lag(tapc, ch) > 0
    ensures Lag(i, ch) < Lag(tapc, ch)
  {
    MulMono(i + 1, tapc, ch);
  }

  lemma {:induction false} MulMono(a: nat, b: nat, c: nat)
    requires a <= b
    ensures a * c <= b * c
  {
    if a < b {
      MulMono(a, b - 1, c);
      assert b * c == (b - 1) * c + c;
    }
  }

  lemma LagStep(i: nat, ch: nat)
    ensures Lag(i + 1, ch) == Lag(i, ch) + ch && Lag(0, ch) == 0
  {
  }

  lemma {:induction false} SumNone(x: seq<int>, n: int, lags: seq<nat>, taps: seq<int>)
    requires |lags| == |taps|
    ensures Sum(x, n, lags, taps, 0) == 0
  {
  }

  lemma {:induction false} SumStep(x: seq<int>, n: int, lags: seq<nat>, taps: seq<int>, i: nat)
    requires i < |taps| == |lags|
    ensures Sum(x, n, lags, taps, i + 1) == Sum(x, n, lags, taps, i) + At(x, n - lags[i]) * taps[i]
  {
  }

  lemma WrapNext(n: nat)
    ensures (n % WORD + 1) % WORD == (n + 1) % WORD
  {
  }

  lemma WrapBack(m: int, ch: nat)
    ensures (m % WORD - ch) % WORD == (m - ch) % WORD
  {
  }
}
