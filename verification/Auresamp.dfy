/** The resampler object: set up for a pair of rates and channel counts, then fed blocks. */
module Auresamp {
  import opened Bytes
  import Bitwise
  import Fir
  import opened Resamp

  const FIR_48_4: seq<int> := [
    62, -176, -329, -556, -802, -1005, -1090, -985, -636, -23, 826, 1837, 2894, 3859, 4595, 4994,
    4994, 4595, 3859, 2894, 1837, 826, -23, -636, -985, -1090, -1005, -802, -556, -329, -176, 62]

  const FIR_48_8: seq<int> := [
    238, 198, -123, -738, -1268, -1204, -380, 714, 1164, 376, -1220, -2206, -1105, 2395, 6909, 10069,
    10069, 6909, 2395, -1105, -2206, -1220, 376, 1164, 714, -380, -1204, -1268, -738, -123, 198, 238]

  const FIR_16_4: seq<int> := [
    22, 60, -41, -157, -9, 322, 195, -490, -613, 539, 1362, -229, -2657, -1101, 6031, 13167,
    13167, 6031, -1101, -2657, -229, 1362, 539, -613, -490, 195, 322, -9, -157, -41, 60, 22]

  const TAPC := 32

  /** The filter for a higher and a lower rate. */
  function TapsFor(high: nat, low: nat): (t: seq<int>)
    ensures |t| == TAPC
  {
    if high == 48000 && low == 16000 then FIR_48_8
    else if (high == 16000 && low == 8000) || (high == 32000 && low == 16000) then FIR_16_4
    else FIR_48_4
  }

  /** The cutoff that each table is made for, in twelfths of the higher rate. */
  function Cutoff(t: seq<int>): nat {
    if t == FIR_16_4 then 3 else if t == FIR_48_8 then 2 else 1
  }

  lemma TablesDiffer()
    ensures Cutoff(FIR_48_4) == 1 && Cutoff(FIR_48_8) == 2 && Cutoff(FIR_16_4) == 3
  {
    assert FIR_48_4[0] == 62 && FIR_48_8[0] == 238 && FIR_16_4[0] == 22;
  }

  /** The chosen filter cuts off at or below half the lower rate if and only if the rates are at most
      six to one, and just at half for the pairs of rates that the tables are made for. */
  lemma CutoffSuits(high: nat, low: nat)
    requires high > low > 0 && high % low == 0
    ensures Cutoff(TapsFor(high, low)) * high <= 6 * low <==> high <= 6 * low
    ensures (high, low) in {(48000, 16000), (48000, 8000), (32000, 16000), (16000, 8000)} ==>
              Cutoff(TapsFor(high, low)) * high == 6 * low
  {
    TablesDiffer();
    hide Cutoff;
  }

  lemma MonoAndStereoUsable()
    ensures Fir.Usable(1, TAPC) && Fir.Usable(2, TAPC) && Fir.Slots(1, TAPC) == 32 && Fir.Slots(2, TAPC) == 64
  {
    Fir.SmallPowers();
    assert Bitwise.PowerOfTwo(Pow(2, 5)) && Bitwise.PowerOfTwo(Pow(2, 6));
  }

  /** The settings for a pair of rates and channel counts. */
  predicate Configured(ich: nat, och: nat, ratio: nat, up: bool, irate: nat, orate: nat, tapv: seq<int>) {
    && ich in {1, 2} && och in {1, 2} && 1 <= ratio && (!up ==> 2 <= ratio && orate < irate)
    && irate > 0 && orate > 0 && (if up then Exact(orate, irate, ratio) else Exact(irate, orate, ratio))
    && tapv == if orate == irate then [] else if up then TapsFor(orate, irate) else TapsFor(irate, orate)
  }

  lemma UpConfigured(ich: nat, och: nat, irate: nat, orate: nat)
    requires ich in {1, 2} && och in {1, 2} && 0 < irate <= orate && Whole(orate, irate)
    ensures Configured(ich, och, Quotient(orate, irate), true, irate, orate,
                       if orate == irate then [] else TapsFor(orate, irate))
  {
    WholeRatio(orate, irate);
  }

  lemma DownConfigured(ich: nat, och: nat, irate: nat, orate: nat)
    requires ich in {1, 2} && och in {1, 2} && 0 < orate < irate && Whole(irate, orate)
    ensures Configured(ich, och, Quotient(irate, orate), false, irate, orate, TapsFor(irate, orate))
  {
    WholeRatio(irate, orate);
  }

  class Resampler {
    const fir: Fir.Filter
    var ready: bool              // a resample handler is chosen
    var tapv: seq<int>
    var orate: nat
    var irate: nat
    var och: nat
    var ich: nat
    var ratio: nat
    var up: bool
    ghost var x: seq<int>      // what the filter has seen since it was reset

    constructor ()
      ensures Valid() && !ready && fresh(fir) && fresh(fir.history) && x == []
    {
      fir := new Fir.Filter();
      ready, tapv, orate, irate, och, ich, ratio, up, x := false, [], 0, 0, 0, 0, 0, false, [];
    }

    function Mode(): Mode
      reads this
    {
      Resamp.Mode(ich == 2, och == 2)
    }

    /** The channels the filter works on: those of the higher rate. */
    function FilterChannels(): nat
      reads this
    {
      if up then och else ich
    }

    ghost predicate Valid()
      reads this, fir, fir.history
    {
      && fir.history.Length == Fir.HISTORY
      && (!ready ==> !up && irate == 0)
      && (ready ==>
            && Configured(ich, och, ratio, up, irate, orate, tapv)
            && fir.Holds(x, Fir.Slots(FilterChannels(), TAPC)))
    }

    method Init()
      requires Valid()
      modifies this, fir, fir.history
      ensures Valid() && !ready && x == []
    {
      fir.Reset();
      ready, tapv, orate, irate, och, ich, ratio, up, x := false, [], 0, 0, 0, 0, 0, false, [];
    }

    /** Forgets the filter's past unless it is to be kept. */
    method Restart(keep: bool, ch: nat)
      requires fir.history.Length == Fir.HISTORY && ch in {1, 2} && (keep ==> fir.Holds(x, Fir.Slots(ch, TAPC)))
      modifies `x, fir, fir.history
      ensures fir.Holds(x, Fir.Slots(ch, TAPC)) && x == if keep then old(x) else []
    {
      MonoAndStereoUsable();
      if !keep {
        fir.Reset();
        x := [];
      }
    }

    /** Chooses the handler, the ratio and the filter; the filter's past is kept only while the stream
        it filters keeps its rate and channels. */
    method Setup(irate': nat, ich': nat, orate': nat, och': nat) returns (err: Errno)
      requires Valid()
      modifies this, fir, fir.history
      ensures Valid()
      ensures err ==
                if irate' == 0 || ich' == 0 || orate' == 0 || och' == 0 then EINVAL
                else if orate' == irate' && och' == ich' then OK
                else if !Whole(Larger(orate', irate'), Smaller(orate', irate')) || ich' > 2 || och' > 2 then ENOTSUP
                else OK
      ensures err == OK ==> ready == !(orate' == irate' && och' == ich')
      ensures err == OK && ready ==>
                orate == orate' && irate == irate' && och == och' && ich == ich' && up == (orate' >= irate')
      ensures err != OK ==>
                ready == old(ready) && x == old(x) && ratio == old(ratio) && och == old(och) && ich == old(ich)
      ensures err == OK && ready ==>
                x == if orate' >= irate'
                     then if old(up) && orate' == old(orate) && och' == old(och) then old(x) else []
                     else if !old(up) && irate' == old(irate) && ich' == old(ich) then old(x) else []
    {
      if irate' == 0 || ich' == 0 || orate' == 0 || och' == 0 {
        return EINVAL;
      }
      if orate' == irate' && och' == ich' {
        Init();
        return OK;
      }
      hide Valid, Whole;
      if orate' >= irate' {
        if !Whole(orate', irate') || ich' > 2 || och' > 2 {
          return ENOTSUP;
        }
        SetUp(irate', ich', orate', och');
      } else {
        if !Whole(irate', orate') || ich' > 2 || och' > 2 {
          return ENOTSUP;
        }
        SetDown(irate', ich', orate', och');
      }
      err := OK;
    }

    method SetUp(irate': nat, ich': nat, orate': nat, och': nat)
      requires Valid() && ich' in {1, 2} && och' in {1, 2} && 0 < irate' <= orate' && Whole(orate', irate')
      modifies this, fir, fir.history
      ensures Valid() && ready && up && orate == orate' && irate == irate' && och == och' && ich == ich'
      ensures x == if old(up) && orate' == old(orate) && och' == old(och) then old(x) else []
    {
      hide TapsFor, Fir.Slots, Fir.Ring, Configured, Fir.Filter.Holds, Whole, Quotient;
      Restart(!(!up || orate' != orate || och' != och), och');
      UpConfigured(ich', och', irate', orate');
      ratio, up := Quotient(orate', irate'), true;
      tapv := if orate' == irate' then [] else TapsFor(orate', irate');
      ready, orate, och, irate, ich := true, orate', och', irate', ich';
    }

    method SetDown(irate': nat, ich': nat, orate': nat, och': nat)
      requires Valid() && ich' in {1, 2} && och' in {1, 2} && 0 < orate' < irate' && Whole(irate', orate')
      modifies this, fir, fir.history
      ensures Valid() && ready && !up && orate == orate' && irate == irate' && och == och' && ich == ich'
      ensures x == if !old(up) && irate' == old(irate) && ich' == old(ich) then old(x) else []
    {
      hide TapsFor, Fir.Slots, Fir.Ring, Configured, Fir.Filter.Holds, Whole, Quotient;
      Restart(!(up || irate' != irate || ich' != ich), ich');
      DownConfigured(ich', och', irate', orate');
      ratio, up := Quotient(irate', orate'), false;
      tapv := TapsFor(irate', orate');
      ready, orate, och, irate, ich := true, orate', och', irate', ich';
    }

    /** Repeats frames into outv and filters them there. */
    method UpBlock(outv: array<int>, outc: nat, inv: array<int>, inc: nat) returns (err: Errno, outc': nat)
      requires Valid() && ready && up && outc <= outv.Length && inc <= inv.Length && outv != inv
      requires outv != fir.history && inv != fir.history
      modifies `x, fir, fir.history, outv
      ensures Valid()
      ensures var u := Up(Mode(), inv[..inc], ratio);
              if |u| > outc then err == ENOMEM && outv[..] == old(outv[..]) && x == old(x)
              else
                && err == OK && outc' == |u|
                && outv[..] == (if tapv == [] then u else Fir.Filtered(old(x), u, och, tapv)) + old(outv[|u|..])
                && x == if tapv == [] then old(x) else old(x) + u
    {
      hide TapsFor, Fir.Slots, Fir.Usable, Fir.Ring, Fir.Convolved, Fir.Ringed, Exact, Up, Fir.Filtered;
      UpLength(Mode(), inv[..inc], ratio);
      var outcc := inc / ich * ratio;
      if outc < outcc * och {
        return ENOMEM, outc;
      }
      ghost var u := Up(Mode(), inv[..inc], ratio);
      Upsample(Mode(), outv, inv, inc, ratio);
      outc' := outcc * och;
      assert outv[..|u|] == u && outv[|u|..] == old(outv[|u|..]);
      if tapv != [] {
        MonoAndStereoUsable();
        fir.Run(outv, outv, outc', och, tapv, x);
        x := x + u;
      }
      err := OK;
    }

    /** Filters the block into outv, which may be inv, and drops frames there. */
    method DownBlock(outv: array<int>, outc: nat, inv: array<int>, inc: nat) returns (err: Errno, outc': nat)
      requires Valid() && ready && !up && outc <= outv.Length && inc <= inv.Length
      requires outv != fir.history && inv != fir.history
      modifies `x, fir, fir.history, outv
      ensures Valid()
      ensures var d := Down(Mode(), Fir.Filtered(old(x), old(inv[..inc]), ich, tapv), ratio);
              if |d| > outc || inc > outc then err == ENOMEM && outv[..] == old(outv[..]) && x == old(x)
              else err == OK && outc' == |d| <= outv.Length && outv[..|d|] == d && x == old(x) + old(inv[..inc])
    {
      hide TapsFor, Fir.Slots, Fir.Usable, Fir.Ring, Fir.Convolved, Fir.Ringed, Exact, Down, Fir.Filtered;
      ghost var b := inv[..inc];
      ghost var f := Fir.Filtered(x, b, ich, tapv);
      DownLength(Mode(), f, ratio);
      var outcc := inc / ich / ratio;
      if outc < outcc * och || outc < inc {
        return ENOMEM, outc;
      }
      MonoAndStereoUsable();
      fir.Run(outv, inv, inc, ich, tapv, x);
      x := x + b;
      assert outv[..inc] == f;
      Downsample(Mode(), outv, outv, inc, ratio);
      outc' := outcc * och;
      err := OK;
    }

    /** Resamples a block: the count reported is the number of samples written, and they are those of
        repeating then filtering, or filtering then dropping, over everything fed so far. */
    method Resample(outv: array<int>, outc: nat, inv: array<int>, inc: nat) returns (err: Errno, outc': nat)
      requires Valid() && outc <= outv.Length && inc <= inv.Length && (ready && up ==> outv != inv)
      requires outv != fir.history && inv != fir.history
      modifies `x, fir, fir.history, outv
      ensures Valid()
      ensures !ready ==> err == EINVAL && outv[..] == old(outv[..])
      ensures ready && up ==>
                var u := Up(Mode(), inv[..inc], ratio);
                if |u| > outc then err == ENOMEM && outv[..] == old(outv[..]) && x == old(x)
                else
                  && err == OK && outc' == |u|
                  && outv[..] == (if tapv == [] then u else Fir.Filtered(old(x), u, och, tapv)) + old(outv[|u|..])
                  && x == if tapv == [] then old(x) else old(x) + u
      ensures ready && !up ==>
                var d := Down(Mode(), Fir.Filtered(old(x), old(inv[..inc]), ich, tapv), ratio);
                if |d| > outc || inc > outc then err == ENOMEM && outv[..] == old(outv[..]) && x == old(x)
                else err == OK && outc' == |d| <= outv.Length && outv[..|d|] == d && x == old(x) + old(inv[..inc])
    {
      hide TapsFor, Fir.Slots, Fir.Ring, Exact, Up, Down, Fir.Filtered;
      if !ready {
        return EINVAL, outc;
      }
      if up {
        err, outc' := UpBlock(outv, outc, inv, inc);
      } else {
        err, outc' := DownBlock(outv, outc, inv, inc);
      }
    }
  }

  function Larger(a: nat, b: nat): nat {
    if a >= b then a else b
  }

  function Smaller(a: nat, b: nat): nat {
    if a >= b then b else a
  }

  predicate Whole(a: nat, b: nat)
    requires b > 0
  {
    a % b == 0
  }

  function Quotient(a: nat, b: nat): nat
    requires b > 0
  {
    a / b
  }

  predicate Exact(high: nat, low: nat, ratio: nat) {
    high == low * ratio
  }

  lemma WholeRatio(a: nat, b: nat)
    requires b > 0 && a >= b && a % b == 0
    ensures Exact(a, b, a / b) && a / b >= 1 && (a > b ==> a / b >= 2)
  {
    var q := a / b;
    assert a == b * q + a % b;
    assert q <= 0 ==> b * q <= 0;
    assert q <= 1 ==> b * q <= b;
  }
}
