/** STAP-A aggregation packets (section 5.7.1 of RFC 6184). */
module Stap {
  import opened Bytes
  import opened AnnexB

  const STAP_A := 24

  /** Each NAL unit is preceded by its length in two bytes. */
  predicate Fit(ns: seq<seq<byte>>) {
    forall i :: 0 <= i < |ns| ==> |ns[i]| <= 65535
  }

  function U16(n: nat): seq<byte> {
    [n / 256 % 256, n % 256]
  }

  function Body(ns: seq<seq<byte>>): seq<byte> {
    if ns == [] then [] else U16(|ns[0]|) + ns[0] + Body(ns[1..])
  }

  /** The NRI of a unit's header; the byte behind an empty unit is a zero byte of a start code. */
  function Nri(n: seq<byte>): nat {
    if n == [] then 0 else n[0] / 32 % 4
  }

  /** The greatest NRI value of the units, 0 if there are none. */
  function NriMax(ns: seq<seq<byte>>): (m: nat)
    ensures m < 4
    ensures forall i :: 0 <= i < |ns| ==> Nri(ns[i]) <= m
    ensures if ns == [] then m == 0 else exists i :: 0 <= i < |ns| && Nri(ns[i]) == m
  {
    if ns == [] then 0
    else
      var rest := NriMax(ns[1..]);
      assert forall i :: 1 <= i < |ns| ==> ns[i] == ns[1..][i - 1];
      assert Nri(ns[0]) <= Max(Nri(ns[0]), rest);
      Max(Nri(ns[0]), rest)
  }

  lemma {:induction false} NriMaxAppend(ns: seq<seq<byte>>, n: seq<byte>)
    ensures NriMax(ns + [n]) == Max(NriMax(ns), Nri(n))
  {
    if ns != [] {
      NriMaxAppend(ns[1..], n);
      assert (ns + [n])[1..] == ns[1..] + [n];
    } else {
      assert ns + [n] == [n] && [n][1..] == [];
    }
  }

  lemma {:induction false} BodyAppend(ns: seq<seq<byte>>, n: seq<byte>)
    ensures Body(ns + [n]) == Body(ns) + U16(|n|) + n
  {
    if ns == [] {
      assert ns + [n] == [n];
      assert Body([n]) == U16(|n|) + n + Body([n][1..]);
    } else {
      var pre, mid := U16(|ns[0]|) + ns[0], Body(ns[1..]);
      calc {
        Body(ns + [n]);
        { assert (ns + [n])[0] == ns[0] && (ns + [n])[1..] == ns[1..] + [n]; }
        pre + Body(ns[1..] + [n]);
        { BodyAppend(ns[1..], n); }
        pre + (mid + U16(|n|) + n);
        (pre + mid) + U16(|n|) + n;
      }
    }
  }

  /** Appends an aggregation packet for all units of a frame; its header is patched at the end. */
  method Encode(mb: seq<byte>, frame: seq<byte>, base: nat) returns (err: Errno, out: seq<byte>)
    ensures frame == [] ==> err == EINVAL
    ensures frame != [] ==> err == if Fit(Split(frame, true)) then OK else ERANGE
    ensures err == OK ==> out == mb + [24 + NriMax(Split(frame, true)) * 32] + Body(Split(frame, true))
  {
    hide Find, SkipZeros, Body, NriMax, Nals, U16;
    out := mb;
    if frame == [] {
      return EINVAL, out;
    }
    ghost var all, k := Split(frame, true), 0;
    var nriMax: nat := 0;
    out := mb + [STAP_A];
    var r := FindCode(frame, 0, base, true);
    ghost var p: nat := 0;
    NothingYet();
    assert all[..0] == [];
    while r < |frame|
      invariant 0 <= k <= |all| && p <= |frame| && r == Find(frame, p, true) && Nals(frame, r, true) == all[k..]
      invariant Fit(all[..k])
      invariant out == mb + [STAP_A] + Body(all[..k]) && nriMax == NriMax(all[..k])
      decreases |frame| - r
    {
      NalsTurn(frame, r, true);
      BehindCode(frame, p);
      var q := SkipCode(frame, r);
      var r1 := FindCode(frame, q, base, true);
      assert all[k..] == [frame[q..r1]] + Nals(frame, r1, true);
      assert all[k] == frame[q..r1] && all[k + 1..] == Nals(frame, r1, true);
      var len := r1 - q;
      if len > 65535 {
        assert |all[k]| > 65535;
        return ERANGE, out;
      }
      assert all[..k + 1] == all[..k] + [all[k]];
      BodyAppend(all[..k], all[k]);
      NriMaxAppend(all[..k], all[k]);
      ConcatAssoc(mb + [STAP_A], Body(all[..k]), U16(len));
      ConcatAssoc(mb + [STAP_A], Body(all[..k]) + U16(len), frame[q..r1]);
      out := out + U16(len) + frame[q..r1];
      nriMax := Max(frame[q] / 32 % 4, nriMax);
      p, r, k := q, r1, k + 1;
    }
    NalsTurn(frame, r, true);
    assert all[..k] == all;
    Patch(mb, STAP_A, Body(all), STAP_A + nriMax * 32);
    out := out[|mb| := STAP_A + nriMax * 32];
    err := OK;
  }

  lemma Patch(pre: seq<byte>, b: byte, tail: seq<byte>, c: byte)
    ensures (pre + [b] + tail)[|pre| := c] == pre + [c] + tail
  {
  }

  lemma NothingYet()
    ensures Body([]) == [] && NriMax([]) == 0
  {
  }

  // ---------------------------------------------------------------- decoding

  /** The units of an aggregation payload; a single byte left over is ignored. */
  function Parse(s: seq<byte>): Option<seq<seq<byte>>>
    decreases |s|
  {
    if |s| < 2 then Some([])
    else
      var len := s[0] as nat * 256 + s[1];
      if len < 1 || len > |s| - 2 then None
      else match Parse(s[2 + len..])
        case None => None
        case Some(ns) => Some([s[2..2 + len]] + ns)
  }

  function Units(ns: seq<seq<byte>>, long: bool): seq<Unit> {
    if ns == [] then [] else [Unit(long, ns[0])] + Units(ns[1..], long)
  }

  /** Converts an aggregation payload to an Annex-B frame with uniform start codes. */
  method DecodeAnnexB(frame: seq<byte>, pkt: seq<byte>, long: bool) returns (err: Errno, out: seq<byte>)
    ensures err == if Parse(pkt).Some? then OK else EBADMSG
    ensures err == OK ==> out == frame + Stream(Units(Parse(pkt).value, long))
  {
    hide Parse, Units, Stream;
    out := frame;
    var pos: nat := 0;
    ghost var goal := Parse(pkt);
    assert pkt[0..] == pkt;
    while |pkt| - pos >= 2
      invariant pos <= |pkt|
      invariant goal.Some? == Parse(pkt[pos..]).Some?
      invariant goal.Some? ==>
                  out + Stream(Units(Parse(pkt[pos..]).value, long)) == frame + Stream(Units(goal.value, long))
    {
      var len := pkt[pos] as nat * 256 + pkt[pos + 1];
      ParseTurn(pkt, pos, len);
      if len < 1 || len > |pkt| - pos - 2 {
        return EBADMSG, out;
      }
      var nal := pkt[pos + 2..pos + 2 + len];
      ghost var rest := Parse(pkt[pos + 2 + len..]);
      if rest.Some? {
        UnitsStream(nal, rest.value, long);
        ghost var tail := Stream(Units(rest.value, long));
        ConcatAssoc(out, Code(long) + nal, tail);
        ConcatAssoc(out, Code(long), nal);
      }
      out := out + Code(long) + nal;
      pos := pos + 2 + len;
    }
    ParseEnd(pkt, pos, long);
    assert out + [] == out;
    err := OK;
  }

  lemma ParseTurn(pkt: seq<byte>, pos: nat, len: nat)
    requires pos + 2 <= |pkt| && len == pkt[pos] as nat * 256 + pkt[pos + 1]
    ensures var p := Parse(pkt[pos..]);
            if len < 1 || len > |pkt| - pos - 2 then p == None
            else
              var rest := Parse(pkt[pos + 2 + len..]);
              p == if rest.None? then None else Some([pkt[pos + 2..pos + 2 + len]] + rest.value)
  {
    var s := pkt[pos..];
    if 1 <= len <= |pkt| - pos - 2 {
      assert s[2..2 + len] == pkt[pos + 2..pos + 2 + len] && s[2 + len..] == pkt[pos + 2 + len..];
    }
  }

  lemma ParseEnd(pkt: seq<byte>, pos: nat, long: bool)
    requires pos <= |pkt| < pos + 2
    ensures Parse(pkt[pos..]) == Some([]) && Stream(Units([], long)) == []
  {
  }

  lemma UnitsStream(n: seq<byte>, ns: seq<seq<byte>>, long: bool)
    ensures Stream(Units([n] + ns, long)) == Code(long) + n + Stream(Units(ns, long))
  {
    assert ([n] + ns)[1..] == ns;
    assert Units([n] + ns, long)[1..] == Units(ns, long);
  }

  /** Parsing the body of non-empty units of at most 65535 bytes gives the units back. */
  lemma {:induction false} ParseOfBody(ns: seq<seq<byte>>)
    requires NonEmpty(ns) && Fit(ns)
    ensures Parse(Body(ns)) == Some(ns)
  {
    hide Parse;
    if ns == [] {
      ParseEnd([], 0, true);
    } else {
      var n, rest := ns[0], Body(ns[1..]);
      ParseOfBody(ns[1..]);
      var s := U16(|n|) + n + rest;
      assert s[0] == |n| / 256 && s[1] == |n| % 256;
      assert s[0..] == s;
      assert s[2..2 + |n|] == n && s[2 + |n|..] == rest;
      calc {
        Parse(s);
        { ParseTurn(s, 0, |n|); }
        Some([n] + ns[1..]);
        { assert [n] + ns[1..] == ns; }
        Some(ns);
      }
    }
  }

  /** What a payload is taken for: units that are not empty, each behind its length, and at most one byte
      after them. */
  predicate Holds(s: seq<byte>, ns: seq<seq<byte>>) {
    NonEmpty(ns) && Fit(ns) && Body(ns) <= s && |s| <= |Body(ns)| + 1
  }

  lemma {:induction false} LengthBytes(s: seq<byte>)
    requires |s| >= 2
    ensures var len := s[0] as nat * 256 + s[1]; len <= 65535 && U16(len) == s[..2]
  {
  }

  lemma {:induction false} HoldsMore(s: seq<byte>, len: nat, ns: seq<seq<byte>>)
    requires |s| >= 2 + len && 1 <= len <= 65535 && U16(len) == s[..2] && Holds(s[2 + len..], ns)
    ensures Holds(s, [s[2..2 + len]] + ns)
  {
    var n := s[2..2 + len];
    assert ([n] + ns)[1..] == ns;
    assert s == U16(len) + n + s[2 + len..];
    hide U16;
    var all := [n] + ns;
    forall i | 0 <= i < |all| ensures all[i] != [] && |all[i]| <= 65535 {
      if i > 0 { assert all[i] == ns[i - 1]; }
    }
  }

  /** A payload that is accepted holds the units it is taken for. */
  lemma {:induction false} AcceptedHolds(s: seq<byte>)
    ensures Parse(s).Some? ==> Holds(s, Parse(s).value)
    decreases |s|
  {
    hide Body, U16, Holds;
    if |s| < 2 {
      assert Holds(s, []) by { NothingHeld(s); }
    } else {
      var len := s[0] as nat * 256 + s[1];
      LengthBytes(s);
      if 1 <= len <= |s| - 2 {
        AcceptedHolds(s[2 + len..]);
        if Parse(s[2 + len..]).Some? { HoldsMore(s, len, Parse(s[2 + len..]).value); }
      }
    }
  }

  lemma NothingHeld(s: seq<byte>)
    requires |s| < 2
    ensures Holds(s, [])
  {
  }

  /** One byte after the units makes no difference. */
  lemma {:induction false} ParseHeld(s: seq<byte>, ns: seq<seq<byte>>)
    requires Holds(s, ns)
    ensures Parse(s) == Some(ns)
    decreases |ns|
  {
    hide Parse;
    if ns == [] {
      assert s[0..] == s;
      ParseEnd(s, 0, true);
    } else {
      var n, rest := ns[0], Body(ns[1..]);
      var tail := s[2 + |n|..];
      assert s[..|Body(ns)|] == U16(|n|) + n + rest;
      assert s[0] == |n| / 256 && s[1] == |n| % 256 by {
        assert s[0] == s[..|Body(ns)|][0] && s[1] == s[..|Body(ns)|][1];
      }
      assert s[2..2 + |n|] == n by { assert s[..|Body(ns)|][2..2 + |n|] == n; }
      assert rest <= tail by { assert s[..|Body(ns)|][2 + |n|..] == rest; }
      ParseHeld(tail, ns[1..]);
      assert s[0..] == s;
      ParseTurn(s, 0, |n|);
      assert [n] + ns[1..] == ns;
    }
  }

  /** A payload is accepted, and taken for a list of units, if and only if it holds that list. */
  lemma ParsedExactly(s: seq<byte>, ns: seq<seq<byte>>)
    ensures Parse(s) == Some(ns) <==> Holds(s, ns)
  {
    hide Parse, Holds;
    AcceptedHolds(s);
    if Holds(s, ns) { ParseHeld(s, ns); }
  }

  lemma {:induction false} UnitsNals(ns: seq<seq<byte>>, long: bool)
    ensures NalsOf(Units(ns, long)) == ns && |Units(ns, long)| == |ns|
    ensures forall i :: 0 <= i < |ns| ==> Units(ns, long)[i] == Unit(long, ns[i])
  {
    if ns != [] {
      UnitsNals(ns[1..], long);
      assert Units(ns, long)[1..] == Units(ns[1..], long);
    }
  }

  lemma {:induction false} LegalNals(us: seq<Unit>)
    requires LegalUnits(us)
    ensures NonEmpty(NalsOf(us)) && |NalsOf(us)| == |us|
    ensures forall i :: 0 <= i < |us| ==> NalsOf(us)[i] == us[i].nal
  {
    if us != [] { LegalNals(us[1..]); }
  }

  /** End to end: a frame of legal units of at most 65535 bytes, aggregated and converted back, is
      the same units in order, now with uniform start codes, and splits into them again. */
  lemma RoundTrip(us: seq<Unit>, long: bool)
    requires LegalUnits(us) && Fit(NalsOf(us))
    ensures Split(Stream(us), true) == NalsOf(us)
    ensures Parse(Body(NalsOf(us))) == Some(NalsOf(us))
    ensures Split(Stream(Units(NalsOf(us), long)), true) == NalsOf(us)
  {
    hide Split;
    LegalNals(us);
    SplitOfStream(us, true);
    FoundExactly(us, true);
    ParseOfBody(NalsOf(us));
    var vs := Units(NalsOf(us), long);
    UnitsNals(NalsOf(us), long);
    assert LegalUnits(vs);
    SplitOfStream(vs, true);
    FoundExactly(vs, true);
  }
}
