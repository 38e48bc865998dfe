/** The audio buffer as it is updated in place. */
module AubufBuffer {
  import opened Bytes
  import opened Aubuf

  /** `out` written over the front of `base`. */
  function Laid(base: seq<byte>, out: seq<byte>): seq<byte>
    requires |out| <= |base|
  {
    out + base[|out|..]
  }

  function Silence(n: nat): (s: seq<byte>)
    ensures |s| == n
  {
    if n == 0 then [] else [0] + Silence(n - 1)
  }

  lemma {:induction false} SilenceIs(s: seq<byte>)
    requires forall i :: 0 <= i < |s| ==> s[i] == 0
    ensures s == Silence(|s|)
  {
    if s != [] {
      SilenceIs(s[1..]);
      assert s == [s[0]] + s[1..];
    }
  }

  lemma {:induction false} InsertAt(afl: seq<Frame>, f: Frame, i: nat)
    requires i <= |afl| && (forall j :: i <= j < |afl| ==> afl[j].ts > f.ts) && (i > 0 ==> afl[i - 1].ts <= f.ts)
    ensures Insert(afl, f) == afl[..i] + [f] + afl[i..]
    decreases |afl|
  {
    if i < |afl| {
      var init, last := afl[..|afl| - 1], afl[|afl| - 1];
      InsertAt(init, f, i);
      assert init[..i] == afl[..i] && init[i..] + [last] == afl[i..];
      ConcatAssoc(afl[..i] + [f], init[i..], [last]);
    } else {
      assert afl[..i] == afl && afl[i..] == [] && afl + [f] + [] == afl + [f];
      if afl == [] { assert [] + [f] == [f]; }
    }
  }

  lemma LaidNothing(base: seq<byte>)
    ensures Laid(base, []) == base
  {
  }

  class Buffer {
    var afl: seq<Frame>
    var wishSz: nat
    var curSz: nat
    var maxSz: nat
    var fillSz: nat
    var pktSz: nat
    var wrSz: nat
    var started: bool
    var live: bool
    var overruns: nat
    var underruns: nat

    constructor (wish: nat, max: nat)
      ensures Valid() && Abs() == New(wish, max)
    {
      afl, curSz, pktSz, wrSz, overruns, underruns := [], 0, 0, 0, 0, 0;
      wishSz, maxSz, fillSz, started, live := wish, max, wish, false, true;
    }

    ghost predicate Valid()
      reads this
    {
      curSz == |Contents(afl)|
    }

    ghost function Abs(): Ab
      reads this
    {
      Ab(afl, wishSz, curSz, maxSz, fillSz, pktSz, wrSz, started, live, overruns, underruns)
    }

    /** Searches from the tail for a frame that is not later. */
    method InsertSorted(f: Frame)
      modifies `afl
      ensures afl == Insert(old(afl), f)
    {
      var i := |afl|;
      while i > 0 && afl[i - 1].ts > f.ts
        invariant 0 <= i <= |afl| && forall j :: i <= j < |afl| ==> afl[j].ts > f.ts
      {
        i := i - 1;
      }
      InsertAt(afl, f, i);
      afl := afl[..i] + [f] + afl[i..];
    }

    method DropHead() returns (ghost lost: seq<byte>)
      requires Valid() && afl != []
      modifies `afl, `curSz
      ensures Valid() && afl == old(afl)[1..] && lost == old(afl)[0].data && curSz == old(curSz) - |lost|
    {
      lost := afl[0].data;
      curSz := curSz - |afl[0].data|;
      afl := afl[1..];
    }

    method CountPacket(sz: nat)
      modifies `pktSz, `fillSz
      ensures pktSz == sz && fillSz == if old(fillSz) >= sz then old(fillSz) - sz else old(fillSz)
    {
      pktSz := sz;
      if fillSz >= pktSz {
        fillSz := fillSz - pktSz;
      }
    }

    method StampFor(ts: nat, rate: nat) returns (stamp: nat)
      ensures stamp == Stamp(Abs(), ts, rate)
    {
      stamp := ts;
      if ts == 0 && rate > 0 {
        stamp := Dur(wrSz, rate);
      }
    }

    method AppendAuframe(ts: nat, rate: nat, data: seq<byte>)
      requires Valid()
      modifies this
      ensures Valid() && Abs() == Append(old(Abs()), ts, rate, data).0
    {
      hide Insert, Contents, Dur, Append;
      AppendParts(Abs(), ts, rate, data);
      var sz := |data|;
      CountPacket(sz);
      var stamp := StampFor(ts, rate);
      InsertSize(afl, Frame(stamp, rate, data));
      InsertSorted(Frame(stamp, rate, data));
      curSz := curSz + sz;
      wrSz := wrSz + sz;
      if maxSz > 0 && curSz > maxSz {
        overruns := overruns + 1;
        var _ := DropHead();
      }
    }

    /** Fills p from the front of the list, frame by frame. */
    method ReadFrames(p: array<byte>)
      requires Valid()
      modifies `afl, `curSz, p
      ensures Valid()
      ensures var t := Take(old(afl), p.Length);
              |t.1| <= p.Length && afl == t.0 && p[..] == Laid(old(p[..]), t.1)
    {
      hide TakeAs, Contents, Laid;
      LaidNothing(p[..]);
      var rated := afl != [] && afl[0].rate > 0;
      ghost var was, whole := p[..], TakeAs(afl, p.Length, rated);
      var off := 0;
      var sz := p.Length;
      ghost var got: seq<byte> := [];
      assert [] + whole.1 == whole.1;
      while afl != []
        invariant Valid() && off + sz == p.Length && |got| == off <= p.Length
        invariant p[..] == Laid(was, got)
        invariant whole == (TakeAs(afl, sz, rated).0, got + TakeAs(afl, sz, rated).1)
        decreases |afl|
      {
        TakeTurn(afl, sz, rated);
        var f := afl[0];
        var n := Min(|f.data|, sz);
        LaidMore(was, got, f.data[..n]);
        Copy(p, off, f.data[..n]);
        curSz := curSz - n;
        if n == |f.data| {
          afl := afl[1..];
        } else {
          afl := [Advance(f, n, rated)] + afl[1..];
        }
        ConcatAssoc(got, f.data[..n], TakeAs(afl, sz - n, rated).1);
        got := got + f.data[..n];
        if n == sz {
          return;
        }
        off := off + n;
        sz := sz - n;
      }
      TakeNothing(sz, rated);
      assert got + [] == got;
    }

    method Mute(p: array<byte>)
      modifies p
      ensures p[..] == Silence(p.Length)
    {
      for i := 0 to p.Length
        invariant forall j :: 0 <= j < i ==> p[j] == 0
      {
        p[i] := 0;
      }
      SilenceIs(p[..]);
    }

    /** Old frames go until the wished size is reached; there always is one while the size is over. */
    method DropOld()
      requires Valid()
      modifies `afl, `curSz
      ensures Valid() && afl == DropTo(old(afl), wishSz).0
    {
      while curSz > wishSz
        invariant Valid() && DropTo(old(afl), wishSz).0 == DropTo(afl, wishSz).0
        decreases |afl|
      {
        assert afl != [];
        var _ := DropHead();
      }
    }

    /** The part of a read that takes bytes off the list. */
    method ServeFrom(twice: bool, p: array<byte>)
      requires Valid()
      modifies `afl, `curSz, `started, p
      ensures Valid() && started
      ensures var v := Serve(old(afl), live && !old(started) && wishSz > 0, wishSz, p.Length, twice);
              && afl == v.afl && |v.out| <= p.Length && |v.again| <= p.Length
              && p[..] == Laid(Laid(old(p[..]), v.out), v.again)
    {
      hide Take, DropTo, Contents, Laid;
      if live && !started && wishSz > 0 {
        DropOld();
      }
      started := true;
      ReadFrames(p);
      if twice {
        ReadFrames(p);
      } else {
        LaidNothing(p[..]);
      }
    }

    method ReadAuframe(jitter: Jitter, p: array<byte>)
      requires Valid()
      modifies this, p
      ensures Valid()
      ensures var r := Read(old(Abs()), jitter, p.Length);
              && Abs() == r.ab && |r.out| <= p.Length && |r.again| <= p.Length
              && p[..] == Laid(Laid(if r.silence then Silence(p.Length) else old(p[..]), r.out), r.again)
    {
      hide Serve, Contents, Laid, Settle;
      LaidNothing(p[..]);
      LaidNothing(Silence(p.Length));
      var sz := p.Length;
      if jitter == Low {
        SettleFill(sz);
        return;
      }
      if fillSz > 0 || curSz < sz {
        var filling := fillSz > 0;
        if !filling {
          underruns := underruns + 1;
        }
        Mute(p);
        if filling {
          SettleFill(sz);
          return;
        }
        fillSz := wishSz;
      }
      ServeFrom(jitter == High, p);
      SettleFill(sz);
    }

    method SettleFill(sz: nat)
      modifies `fillSz
      ensures Abs() == Settle(old(Abs()), sz)
    {
      if fillSz > 0 && fillSz < pktSz {
        if fillSz >= sz {
          fillSz := fillSz - sz;
        } else {
          fillSz := 0;
        }
      }
    }

    method Clear()
      modifies this
      ensures Valid() && Abs() == Flush(old(Abs()))
    {
      afl, fillSz, curSz, wrSz := [], wishSz, 0, 0;
    }

    method Resize(wish: nat, max: nat)
      modifies this
      ensures Valid() && Abs() == Flush(old(Abs()).(wish := wish, max := max))
    {
      wishSz, maxSz := wish, max;
      Clear();
    }
  }

  lemma LaidMore(base: seq<byte>, got: seq<byte>, data: seq<byte>)
    requires |got| + |data| <= |base|
    ensures var p := Laid(base, got);
            |p| == |base| && p[..|got|] + data + p[|got| + |data|..] == Laid(base, got + data)
  {
  }

  method Copy(p: array<byte>, off: nat, data: seq<byte>)
    requires off + |data| <= p.Length
    modifies p
    ensures p[..] == old(p[..])[..off] + data + old(p[..])[off + |data|..]
  {
    ghost var was := p[..];
    for i := 0 to |data|
      invariant forall k :: 0 <= k < p.Length ==> p[k] == if off <= k < off + i then data[k - off] else was[k]
    {
      p[off + i] := data[i];
    }
    assert p[..] == was[..off] + data + was[off + |data|..];
  }

  lemma AppendParts(ab: Ab, ts: nat, rate: nat, data: seq<byte>)
    requires ab.cur == |Contents(ab.afl)|
    ensures var all, sz := Insert(ab.afl, Frame(Stamp(ab, ts, rate), rate, data)), |data|;
            var over := ab.max > 0 && ab.cur + sz > ab.max;
            var fill := if ab.fill >= sz then ab.fill - sz else ab.fill;
            && (over ==> |all[0].data| <= ab.cur + sz)
            && Append(ab, ts, rate, data).0 ==
                 Ab(if over then all[1..] else all, ab.wish, ab.cur + sz - if over then |all[0].data| else 0,
                    ab.max, fill, sz, ab.wr + sz, ab.started, ab.live,
                    ab.overruns + if over then 1 else 0, ab.underruns)
  {
    InsertSize(ab.afl, Frame(Stamp(ab, ts, rate), rate, data));
    hide Insert, Contents, Stamp;
  }

  lemma TakeNothing(sz: nat, rated: bool)
    ensures TakeAs([], sz, rated) == ([], [])
  {
  }

  lemma TakeTurn(afl: seq<Frame>, sz: nat, rated: bool)
    requires afl != []
    ensures var f, t := afl[0], TakeAs(afl, sz, rated);
            var n := Min(|f.data|, sz);
            && (n == |f.data| < sz ==>
                  var u := TakeAs(afl[1..], sz - n, rated); t == (u.0, f.data[..n] + u.1))
            && (n == |f.data| == sz ==> t == (afl[1..], f.data[..n]))
            && (n < |f.data| ==> t == ([Advance(f, n, rated)] + afl[1..], f.data[..n]))
    ensures |Contents(afl)| == |afl[0].data| + |Contents(afl[1..])|
    ensures forall g: Frame :: |Contents([g] + afl[1..])| == |g.data| + |Contents(afl[1..])|
  {
    forall g: Frame ensures |Contents([g] + afl[1..])| == |g.data| + |Contents(afl[1..])| {
      assert ([g] + afl[1..])[1..] == afl[1..];
    }
    assert |afl[0].data| <= sz ==> afl[0].data[..|afl[0].data|] == afl[0].data;
  }
}
