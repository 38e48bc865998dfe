/** The resampler: repeating or dropping sample frames around the FIR filter. */
module Resamp {
  import Bitwise
  import Fir

  datatype Mode = Mode(stereoIn: bool, stereoOut: bool)

  function Channels(stereo: bool): nat {
    if stereo then 2 else 1
  }

  /** Input samples per output frame when dropping. */
  function Stride(m: Mode, ratio: nat): (n: nat)
    ensures ratio > 0 ==> n >= Channels(m.stereoIn)
  {
    Channels(m.stereoIn) * ratio
  }

  /** Halving as the machine does it, towards zero. */
  function Half(v: int): int {
    if v < 0 then -(-v / 2) else v / 2
  }

  /** The output frame for the input frame at the front of s. */
  function Frame(m: Mode, s: seq<int>): (f: seq<int>)
    requires |s| >= Channels(m.stereoIn)
    ensures |f| == Channels(m.stereoOut)
  {
    if m.stereoIn && m.stereoOut then [s[0], s[1]]
    else if m.stereoIn then [Half(s[0]) + Half(s[1])]
    else if m.stereoOut then [s[0], s[0]]
    else [s[0]]
  }

  function Times(f: seq<int>, k: nat): (r: seq<int>)
    ensures |r| == k * |f|
  {
    if k == 0 then [] else Grow(|f|, k); Times(f, k - 1) + f
  }

  lemma Grow(n: nat, k: nat)
    requires k > 0
    ensures k * n == (k - 1) * n + n
  {
  }

  /** Each frame repeated `ratio` times. */
  function Up(m: Mode, s: seq<int>, ratio: nat): seq<int>
    decreases |s|
  {
    if |s| < Channels(m.stereoIn) then []
    else Times(Frame(m, s), ratio) + Up(m, s[Channels(m.stereoIn)..], ratio)
  }

  /** One frame out of every `ratio`. */
  function Down(m: Mode, s: seq<int>, ratio: nat): seq<int>
    requires ratio > 0
    decreases |s|
  {
    if |s| < Stride(m, ratio) then []
    else Frame(m, s) + Down(m, s[Stride(m, ratio)..], ratio)
  }

  /** The number of samples reported for repeating. */
  lemma {:induction false} UpLength(m: Mode, s: seq<int>, ratio: nat)
    ensures |Up(m, s, ratio)| == |s| / Channels(m.stereoIn) * ratio * Channels(m.stereoOut)
    decreases |s|
  {
    var ich, och := Channels(m.stereoIn), Channels(m.stereoOut);
    if |s| >= ich {
      UpLength(m, s[ich..], ratio);
      assert |s| / ich == |s[ich..]| / ich + 1;
      SplitOff(|s[ich..]| / ich, ratio, och);
    }
  }

  lemma SplitOff(k: nat, ratio: nat, och: nat)
    ensures (k + 1) * ratio * och == k * ratio * och + ratio * och
  {
    assert (k + 1) * ratio == k * ratio + ratio;
    assert (k * ratio + ratio) * och == k * ratio * och + ratio * och;
  }

  /** The number of samples reported for dropping. */
  lemma {:induction false} DownLength(m: Mode, s: seq<int>, ratio: nat)
    requires ratio > 0
    ensures |Down(m, s, ratio)| == |s| / Channels(m.stereoIn) / ratio * Channels(m.stereoOut)
    decreases |s|
  {
    var ich := Channels(m.stereoIn);
    var step := ich * ratio;
    FewFrames(|s|, ich, ratio);
    if |s| >= step {
      DownLength(m, s[step..], ratio);
    }
  }

  lemma FewFrames(n: nat, ich: nat, ratio: nat)
    requires 1 <= ich <= 2 && ratio > 0
    ensures n < ich * ratio ==> n / ich / ratio == 0
    ensures n >= ich * ratio ==> n / ich / ratio == (n - ich * ratio) / ich / ratio + 1
  {
    var k := n / ich;
    assert ich == 1 || ich == 2;
    assert n < ich * ratio <==> k < ratio;
    if k < ratio {
      SmallQuotient(k, ratio);
    } else {
      assert (n - ich * ratio) / ich == k - ratio;
      NextQuotient(k, ratio);
    }
  }

  lemma SmallQuotient(a: nat, d: nat)
    requires a < d
    ensures a / d == 0
  {
  }

  lemma NextQuotient(a: nat, d: nat)
    requires d > 0 && a >= d
    ensures a / d == (a - d) / d + 1
  {
    var q, r := (a - d) / d, (a - d) % d;
    Grow(d, q + 1);
    Bitwise.ModUnique(a, d, q + 1, r);
  }

  /** After f frames, what is written next is what the rest of the input gives: output frame f is made
      from input frame f * ratio. */
  lemma {:induction false} DownFrom(m: Mode, s: seq<int>, ratio: nat, f: nat)
    requires ratio > 0 && f * (Stride(m, ratio)) <= |s|
    ensures 0 <= f * (Stride(m, ratio)) && f * Channels(m.stereoOut) <= |Down(m, s, ratio)|
    ensures Down(m, s, ratio)[f * Channels(m.stereoOut)..] == Down(m, s[f * (Stride(m, ratio))..], ratio)
    decreases f
  {
    hide Down, Frame;
    var step, och := Stride(m, ratio), Channels(m.stereoOut);
    if f == 0 {
      assert s[0..] == s;
    } else {
      Grow(step, f);
      Grow(och, f);
      DownFrom(m, s, ratio, f - 1);
      DownOne(m, Down(m, s, ratio), s, ratio, (f - 1) * step, (f - 1) * och);
    }
  }

  lemma {:induction false} DownOne(m: Mode, d: seq<int>, s: seq<int>, ratio: nat, p: nat, o: nat)
    requires ratio > 0 && p + Stride(m, ratio) <= |s| && o <= |d| && d[o..] == Down(m, s[p..], ratio)
    ensures var step, och := Stride(m, ratio), Channels(m.stereoOut);
            o + och <= |d| && d[o..o + och] == Frame(m, s[p..]) && d[o + och..] == Down(m, s[p + step..], ratio)
  {
    var step, och := Stride(m, ratio), Channels(m.stereoOut);
    var t := s[p..];
    assert t[step..] == s[p + step..];
    var rest := Down(m, s[p + step..], ratio);
    assert d[o..] == Frame(m, t) + rest;
    assert d[o..][..och] == d[o..o + och] && d[o..][och..] == d[o + och..];
    assert (Frame(m, t) + rest)[..och] == Frame(m, t) && (Frame(m, t) + rest)[och..] == rest;
  }

  // ---------------------------------------------------------------- in arrays

  /** Writes the output frame for the input frame at rd, sample by sample; outv may be inv if the frame
      goes no further back than it came from. */
  method PutFrame(m: Mode, outv: array<int>, wr: nat, inv: array<int>, rd: nat)
    requires rd + Channels(m.stereoIn) <= inv.Length && wr + Channels(m.stereoOut) <= outv.Length
    requires outv == inv ==> wr <= rd
    modifies outv
    ensures outv[wr..wr + Channels(m.stereoOut)] == Frame(m, old(inv[rd..]))
    ensures forall k :: 0 <= k < outv.Length && !(wr <= k < wr + Channels(m.stereoOut)) ==> outv[k] == old(outv[k])
  {
    if m.stereoIn && m.stereoOut {
      outv[wr] := inv[rd];
      outv[wr + 1] := inv[rd + 1];
    } else if m.stereoIn {
      outv[wr] := Half(inv[rd]) + Half(inv[rd + 1]);
    } else if m.stereoOut {
      outv[wr] := inv[rd];
      outv[wr + 1] := inv[rd];
    } else {
      outv[wr] := inv[rd];
    }
  }

  /** Decimation; outv may be inv, as each frame is written at or before the place it is read from. */
  method Downsample(m: Mode, outv: array<int>, inv: array<int>, inc: nat, ratio: nat)
    requires ratio > 0 && inc <= inv.Length && |Down(m, inv[..inc], ratio)| <= outv.Length
    requires outv == inv ==> Channels(m.stereoOut) <= Stride(m, ratio)
    modifies outv
    ensures var d := Down(m, old(inv[..inc]), ratio);
            outv[..] == d + old(outv[|d|..])
  {
    hide Down, Frame, Stride;
    ghost var b, all := inv[..inc], Down(m, inv[..inc], ratio);
    var step := Stride(m, ratio);
    var rd, wr, n := 0, 0, inc;
    assert b[0..] == b && all[0..] == all;
    while n >= step
      invariant rd + n == inc && 0 <= n && 0 <= wr <= |all| && all[wr..] == Down(m, b[rd..], ratio)
      invariant outv == inv ==> wr <= rd
      invariant forall k :: 0 <= k < wr ==> outv[k] == all[k]
      invariant forall k :: |all| <= k < outv.Length ==> outv[k] == old(outv[k])
      invariant forall k :: rd <= k < inc ==> inv[k] == b[k]
      decreases n
    {
      DownOne(m, all, b, ratio, rd, wr);
      SameFront(m, inv[..], b, rd);
      PutFrame(m, outv, wr, inv, rd);
      Placed(all, outv[..], wr, Channels(m.stereoOut));
      wr := wr + Channels(m.stereoOut);
      rd, n := rd + step, n - step;
    }
    DownNone(m, b[rd..], ratio);
  }

  /** The frame at a position, wherever the samples up to it agree. */
  lemma SameFront(m: Mode, s: seq<int>, b: seq<int>, rd: nat)
    requires rd + Channels(m.stereoIn) <= |b| <= |s|
    requires forall k :: rd <= k < |b| ==> s[k] == b[k]
    ensures Frame(m, s[rd..]) == Frame(m, b[rd..])
  {
    assert s[rd..][0] == b[rd..][0];
    if m.stereoIn { assert s[rd..][1] == b[rd..][1]; }
  }

  lemma Placed(all: seq<int>, out: seq<int>, wr: nat, n: nat)
    requires wr + n <= |all| && wr + n <= |out| && out[wr..wr + n] == all[wr..wr + n]
    ensures forall k :: wr <= k < wr + n ==> out[k] == all[k]
  {
    forall k | wr <= k < wr + n ensures out[k] == all[k] {
      assert out[wr..wr + n][k - wr] == all[wr..wr + n][k - wr];
    }
  }

  lemma DownNone(m: Mode, s: seq<int>, ratio: nat)
    requires ratio > 0 && |s| < Stride(m, ratio)
    ensures Down(m, s, ratio) == []
  {
  }

  /** One frame, repeated. */
  method PutFrames(m: Mode, outv: array<int>, start: nat, inv: array<int>, rd: nat, ratio: nat) returns (wr: nat)
    requires rd + Channels(m.stereoIn) <= inv.Length && outv != inv
    requires start + |Times(Frame(m, inv[rd..]), ratio)| <= outv.Length
    modifies outv
    ensures var t := Times(Frame(m, inv[rd..]), ratio);
            && wr == start + |t| && outv[start..wr] == t
            && forall k :: 0 <= k < outv.Length && !(start <= k < wr) ==> outv[k] == old(outv[k])
  {
    hide Frame, Times;
    ghost var f := Frame(m, inv[rd..]);
    TimesNone(f);
    wr := start;
    for i := 0 to ratio
      invariant wr == start + |Times(f, i)| <= outv.Length && outv[start..wr] == Times(f, i)
      invariant forall k :: 0 <= k < outv.Length && !(start <= k < wr) ==> outv[k] == old(outv[k])
    {
      TimesGrow(f, i, ratio);
      ghost var was := outv[start..wr];
      PutFrame(m, outv, wr, inv, rd);
      wr := wr + Channels(m.stereoOut);
      assert outv[start..wr] == was + f;
    }
  }

  method Upsample(m: Mode, outv: array<int>, inv: array<int>, inc: nat, ratio: nat)
    requires inc <= inv.Length && |Up(m, inv[..inc], ratio)| <= outv.Length && outv != inv
    modifies outv
    ensures var u := Up(m, inv[..inc], ratio);
            outv[..] == u + old(outv[|u|..])
  {
    hide Up, Frame, Times;
    ghost var b, all := inv[..inc], Up(m, inv[..inc], ratio);
    var ich := Channels(m.stereoIn);
    var rd, wr, n := 0, 0, inc;
    assert b[0..] == b;
    while n >= ich
      invariant rd + n == inc && 0 <= n && 0 <= wr <= |all| && all[wr..] == Up(m, b[rd..], ratio)
      invariant forall k :: 0 <= k < wr ==> outv[k] == all[k]
      invariant forall k :: |all| <= k < outv.Length ==> outv[k] == old(outv[k])
      decreases n
    {
      UpOne(m, all, b, ratio, rd, wr);
      SameFront(m, inv[..], b, rd);
      ghost var start := wr;
      assert inv[..][rd..] == inv[rd..];
      wr := PutFrames(m, outv, wr, inv, rd, ratio);
      Placed(all, outv[..], start, wr - start);
      rd, n := rd + ich, n - ich;
    }
    UpNone(m, b[rd..], ratio);
  }

  lemma TimesNone(f: seq<int>)
    ensures Times(f, 0) == []
  {
  }

  lemma TimesGrow(f: seq<int>, i: nat, ratio: nat)
    requires i < ratio
    ensures Times(f, i + 1) == Times(f, i) + f && |Times(f, i)| + |f| <= |Times(f, ratio)|
  {
    Fir.MulMono(i + 1, ratio, |f|);
    Grow(|f|, i + 1);
  }

  lemma UpNone(m: Mode, s: seq<int>, ratio: nat)
    requires |s| < Channels(m.stereoIn)
    ensures Up(m, s, ratio) == []
  {
  }

  lemma {:induction false} UpOne(m: Mode, u: seq<int>, s: seq<int>, ratio: nat, p: nat, o: nat)
    requires p + Channels(m.stereoIn) <= |s| && o <= |u| && u[o..] == Up(m, s[p..], ratio)
    ensures var t := Times(Frame(m, s[p..]), ratio);
            && o + |t| <= |u| && u[o..o + |t|] == t
            && u[o + |t|..] == Up(m, s[p + Channels(m.stereoIn)..], ratio)
  {
    var ich := Channels(m.stereoIn);
    var t := Times(Frame(m, s[p..]), ratio);
    assert s[p..][ich..] == s[p + ich..];
    var rest := Up(m, s[p + ich..], ratio);
    assert u[o..] == t + rest;
    assert u[o..][..|t|] == u[o..o + |t|] && u[o..][|t|..] == u[o + |t|..];
    assert (t + rest)[..|t|] == t && (t + rest)[|t|..] == rest;
  }

  // ---------------------------------------------------------------- where output samples come from

  /** Input frame f fills the output from its own block of `ratio` frames on. */
  lemma {:induction false} UpFrom(m: Mode, s: seq<int>, ratio: nat, f: nat)
    requires f * Channels(m.stereoIn) <= |s|
    ensures var block := ratio * Channels(m.stereoOut);
            && 0 <= f * block <= |Up(m, s, ratio)|
            && Up(m, s, ratio)[f * block..] == Up(m, s[f * Channels(m.stereoIn)..], ratio)
    decreases f
  {
    hide Up, Frame, Times;
    var ich, block := Channels(m.stereoIn), ratio * Channels(m.stereoOut);
    if f == 0 {
      assert s[0..] == s;
    } else {
      Grow(ich, f);
      Grow(block, f);
      UpFrom(m, s, ratio, f - 1);
      UpOne(m, Up(m, s, ratio), s, ratio, (f - 1) * ich, (f - 1) * block);
    }
  }

  lemma {:induction false} TimesAt(f: seq<int>, k: nat, i: nat)
    requires i < k
    ensures 0 <= i * |f| && i * |f| + |f| <= k * |f| && Times(f, k)[i * |f|..i * |f| + |f|] == f
  {
    Grow(|f|, k);
    if i < k - 1 {
      TimesAt(f, k - 1, i);
      assert Times(f, k)[i * |f|..i * |f| + |f|] == Times(f, k - 1)[i * |f|..i * |f| + |f|];
    } else {
      assert Times(f, k)[i * |f|..i * |f| + |f|] == f;
    }
  }

  /** Each of the `ratio` output frames in block f is made from input frame f. */
  lemma {:induction false} UpAt(m: Mode, s: seq<int>, ratio: nat, f: nat, r: nat)
    requires f * Channels(m.stereoIn) + Channels(m.stereoIn) <= |s| && r < ratio
    ensures var ich, och := Channels(m.stereoIn), Channels(m.stereoOut);
            var o := f * (ratio * och) + r * och;
            && 0 <= f * ich && 0 <= o && o + och <= |Up(m, s, ratio)|
            && Up(m, s, ratio)[o..o + och] == Frame(m, s[f * ich..])
  {
    hide Up, Frame, Times;
    var ich, och := Channels(m.stereoIn), Channels(m.stereoOut);
    var u := Up(m, s, ratio);
    UpFrom(m, s, ratio, f);
    Fir.MulMono(0, f, ich);
    var p, b := f * ich, f * (ratio * och);
    UpOne(m, u, s, ratio, p, b);
    var frame := Frame(m, s[p..]);
    TimesAt(frame, ratio, r);
    PartOfPart(u, b, Times(frame, ratio), r * och, och);
  }

  lemma PartOfPart(u: seq<int>, b: nat, t: seq<int>, q: nat, n: nat)
    requires b + |t| <= |u| && u[b..b + |t|] == t && q + n <= |t|
    ensures b + q + n <= |u| && u[b + q..b + q + n] == t[q..q + n]
  {
    var x, y := u[b + q..b + q + n], t[q..q + n];
    forall k | 0 <= k < n ensures x[k] == y[k] {
      assert y[k] == u[b..b + |t|][q + k] && x[k] == u[b + (q + k)];
    }
    assert x == y;
  }

  /** Output frame f of a dropping resampler is made from input frame f * ratio. */
  lemma DownAt(m: Mode, s: seq<int>, ratio: nat, f: nat)
    requires ratio > 0 && f * Stride(m, ratio) + Stride(m, ratio) <= |s|
    ensures var p, o, och := f * Stride(m, ratio), f * Channels(m.stereoOut), Channels(m.stereoOut);
            0 <= p && o + och <= |Down(m, s, ratio)| && Down(m, s, ratio)[o..o + och] == Frame(m, s[p..])
  {
    hide Down, Frame;
    DownFrom(m, s, ratio, f);
    DownOne(m, Down(m, s, ratio), s, ratio, f * Stride(m, ratio), f * Channels(m.stereoOut));
  }

  /** Two channels mixed into one stay within sixteen bits and within one of their mean; one channel
      goes to both sides. */
  lemma FrameMixes(a: int, b: int)
    requires -0x8000 <= a <= 0x7fff && -0x8000 <= b <= 0x7fff
    ensures var v := Frame(Mode(true, false), [a, b])[0];
            -0x8000 <= v <= 0x7fff && -2 <= 2 * v - (a + b) <= 2
    ensures Frame(Mode(false, true), [a]) == [a, a] && Frame(Mode(true, true), [a, b]) == [a, b]
    ensures Frame(Mode(false, false), [a]) == [a]
  {
  }
}
