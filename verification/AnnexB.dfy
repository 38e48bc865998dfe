/** Annex-B byte streams: the start-code search and the split into NAL units. */
module AnnexB {
  import opened Bytes

  predicate StartAt(s: seq<byte>, i: nat) {
    i + 2 < |s| && s[i] == 0 && s[i + 1] == 0 && s[i + 2] == 1
  }

  /** The smallest position in [p, |s| - 3) with bytes 00 00 01, or |s|. */
  function FirstStart(s: seq<byte>, p: nat): (r: nat)
    requires p <= |s|
    ensures p <= r <= |s|
    ensures r < |s| ==> StartAt(s, r) && r + 3 < |s|
    ensures forall i :: p <= i < r && i + 3 < |s| ==> !StartAt(s, i)
    decreases |s| - p
  {
    if p + 3 >= |s| then |s| else if StartAt(s, p) then p else FirstStart(s, p + 1)
  }

  lemma {:induction false} SkipTo(s: seq<byte>, p: nat, q: nat)
    requires p <= q && q + 3 <= |s|
    requires forall i :: p <= i < q ==> !StartAt(s, i)
    ensures FirstStart(s, p) == FirstStart(s, q)
    decreases q - p
  {
    if p < q { SkipTo(s, p + 1, q); }
  }

  // ---------------------------------------------------------------- word-at-a-time search

  function Word(b0: byte, b1: byte, b2: byte, b3: byte): bv32 {
    (b0 as bv8 as bv32) | ((b1 as bv8 as bv32) << 8) | ((b2 as bv8 as bv32) << 16) | ((b3 as bv8 as bv32) << 24)
  }

  predicate ZeroFilter(x: bv32) {
    (x - 0x01010101) & !x & 0x80808080 != 0
  }

  lemma ZeroFilterBits(b0: bv8, b1: bv8, b2: bv8, b3: bv8)
    ensures ZeroFilter((b0 as bv32) | ((b1 as bv32) << 8) | ((b2 as bv32) << 16) | ((b3 as bv32) << 24))
       <==> b0 == 0 || b1 == 0 || b2 == 0 || b3 == 0
  {
  }

  lemma ByteIsZero(b: byte)
    ensures b as bv8 == 0 <==> b == 0
  {
  }

  /** The filter lets a word through exactly when one of its four bytes is zero. */
  lemma ZeroFilterExact(b0: byte, b1: byte, b2: byte, b3: byte)
    ensures ZeroFilter(Word(b0, b1, b2, b3)) <==> b0 == 0 || b1 == 0 || b2 == 0 || b3 == 0
  {
    hide ZeroFilter;
    ZeroFilterBits(b0 as bv8, b1 as bv8, b2 as bv8, b3 as bv8);
    ByteIsZero(b0);
    ByteIsZero(b1);
    ByteIsZero(b2);
    ByteIsZero(b3);
  }

  /** Looks at four bytes at once: only a word with a zero byte in it is looked at closely. */
  method CheckWord(s: seq<byte>, p: nat) returns (hit: Option<nat>)
    requires p + 6 < |s|
    ensures FirstStart(s, p) == if hit.Some? then hit.value else FirstStart(s, p + 4)
  {
    hide Word, ZeroFilter;
    var x := Word(s[p], s[p + 1], s[p + 2], s[p + 3]);
    ZeroFilterExact(s[p], s[p + 1], s[p + 2], s[p + 3]);
    if ZeroFilter(x) {
      if s[p + 1] == 0 {
        if s[p] == 0 && s[p + 2] == 1 {
          return Some(p);
        }
        if s[p + 2] == 0 && s[p + 3] == 1 {
          SkipTo(s, p, p + 1);
          return Some(p + 1);
        }
      }
      if s[p + 3] == 0 {
        if s[p + 2] == 0 && s[p + 4] == 1 {
          SkipTo(s, p, p + 2);
          return Some(p + 2);
        }
        if s[p + 4] == 0 && s[p + 5] == 1 {
          SkipTo(s, p, p + 3);
          return Some(p + 3);
        }
      }
    }
    SkipTo(s, p, p + 4);
    hit := None;
  }

  /** Searches from `p` on; `base` is the address of the buffer modulo 4. */
  method FindStartcode(s: seq<byte>, from: nat, base: nat) returns (r: nat)
    requires from <= |s|
    ensures r == FirstStart(s, from)
  {
    var p: nat := from;
    var a := p + 4 - (base + p) % 4;
    while p < a && p < |s| - 3
      invariant from <= p <= |s| && FirstStart(s, from) == FirstStart(s, p)
    {
      if s[p] == 0 && s[p + 1] == 0 && s[p + 2] == 1 {
        return p;
      }
      p := p + 1;
    }
    while p < |s| - 6
      invariant from <= p <= |s| && FirstStart(s, from) == FirstStart(s, p)
      decreases |s| - p
    {
      var hit := CheckWord(s, p);
      if hit.Some? {
        return hit.value;
      }
      p := p + 4;
    }
    while p < |s| - 3
      invariant from <= p <= |s| && FirstStart(s, from) == FirstStart(s, p)
    {
      if s[p] == 0 && s[p + 1] == 0 && s[p + 2] == 1 {
        return p;
      }
      p := p + 1;
    }
    r := |s|;
  }

  // ---------------------------------------------------------------- splitting a stream

  /** Start of the next start code; with `four` a zero byte before 00 00 01 belongs to it. */
  function Find(s: seq<byte>, p: nat, four: bool): (r: nat)
    requires p <= |s|
    ensures p <= r <= |s|
  {
    var out := FirstStart(s, p);
    if four && p < out < |s| && s[out - 1] == 0 then out - 1 else out
  }

  /** Position after the first non-zero byte from `r` on. */
  function SkipZeros(s: seq<byte>, r: nat): (q: nat)
    requires r < |s|
    ensures r < q <= |s|
    decreases |s| - r
  {
    if s[r] != 0 || r + 1 == |s| then r + 1 else SkipZeros(s, r + 1)
  }

  /** The NAL units from the start code at `r` on. */
  function Nals(s: seq<byte>, r: nat, four: bool): seq<seq<byte>>
    requires r <= |s|
    decreases |s| - r
  {
    if r == |s| then []
    else
      var q := SkipZeros(s, r);
      var r1 := Find(s, q, four);
      [s[q..r1]] + Nals(s, r1, four)
  }

  /** All NAL units of a stream. */
  function Split(s: seq<byte>, four: bool): seq<seq<byte>> {
    Nals(s, Find(s, 0, four), four)
  }

  method FindCode(s: seq<byte>, p: nat, base: nat, four: bool) returns (r: nat)
    requires p <= |s|
    ensures r == Find(s, p, four)
  {
    r := FindStartcode(s, p, base);
    if four && p < r < |s| && s[r - 1] == 0 {
      r := r - 1;
    }
  }

  method SkipCode(s: seq<byte>, r: nat) returns (q: nat)
    requires r < |s|
    ensures q == SkipZeros(s, r)
  {
    q := r;
    while q + 1 < |s| && s[q] == 0
      invariant r <= q < |s| && SkipZeros(s, q) == SkipZeros(s, r)
    {
      q := q + 1;
    }
    q := q + 1;
  }

  // ---------------------------------------------------------------- building a stream

  datatype Unit = Unit(long: bool, nal: seq<byte>)

  function Code(long: bool): seq<byte> {
    if long then [0, 0, 0, 1] else [0, 0, 1]
  }

  function Stream(us: seq<Unit>): seq<byte> {
    if us == [] then [] else Code(us[0].long) + us[0].nal + Stream(us[1..])
  }

  /** A NAL unit is not empty, does not end in a zero byte and contains no start code. */
  predicate Legal(n: seq<byte>) {
    n != [] && n[|n| - 1] != 0 && forall i :: 0 <= i < |n| ==> !StartAt(n, i)
  }

  predicate LegalUnits(us: seq<Unit>) {
    forall i :: 0 <= i < |us| ==> Legal(us[i].nal)
  }

  function NalsOf(us: seq<Unit>): seq<seq<byte>> {
    if us == [] then [] else [us[0].nal] + NalsOf(us[1..])
  }

  /** Bytes of the next start code that a search without the 4-byte rule leaves behind. */
  function Missed(us: seq<Unit>, four: bool): (r: seq<byte>)
    ensures |r| <= 1 && |r| <= |Stream(us)|
  {
    if us != [] && us[0].long && !four then [0] else []
  }

  /** The NAL units that come out: a missed zero byte sticks to the unit before it. */
  function Found(us: seq<Unit>, four: bool): seq<seq<byte>> {
    if us == [] then [] else [us[0].nal + Missed(us[1..], four)] + Found(us[1..], four)
  }

  lemma CodeSlice(s: seq<byte>, pre: seq<byte>, code: seq<byte>, tail: seq<byte>)
    requires s == pre + code + tail
    ensures s[|pre|..|pre + code|] == code
  {
  }

  /** A start code begins at its last three bytes and, if long, not before. */
  lemma CodeStarts(s: seq<byte>, r: nat, long: bool)
    requires r + |Code(long)| < |s| && s[r..r + |Code(long)|] == Code(long)
    ensures StartAt(s, r + |Code(long)| - 3) && s[r] == 0 && (long ==> !StartAt(s, r))
  {
    var t := s[r..r + |Code(long)|];
    assert s[r] == t[0] && s[r + 1] == t[1] && s[r + 2] == t[2];
    if long { assert s[r + 3] == t[3]; }
  }

  /** The search stops at the first start code, with or without its leading zero byte. */
  lemma {:induction false} FindStops(s: seq<byte>, r: nat, long: bool, p: nat, four: bool)
    requires p <= r && r + |Code(long)| < |s| && s[r..r + |Code(long)|] == Code(long)
    requires (forall i :: p <= i < r ==> !StartAt(s, i)) && (p < r ==> s[r - 1] != 0)
    ensures Find(s, p, four) == if long && !four then r + 1 else r
  {
    CodeStarts(s, r, long);
    var at := if long then r + 1 else r;
    hide StartAt;
    SkipTo(s, p, at);
    assert FirstStart(s, at) == at;
  }

  lemma {:induction false} FindAtCode(s: seq<byte>, pre: seq<byte>, us: seq<Unit>, p: nat, four: bool)
    requires s == pre + Stream(us) && p <= |pre| && LegalUnits(us)
    requires forall i :: p <= i < |pre| ==> !StartAt(s, i)
    requires p < |pre| ==> pre[|pre| - 1] != 0
    ensures Find(s, p, four) == |pre| + |Missed(us, four)|
  {
    if us != [] {
      var u := us[0];
      assert u.nal != [];
      ConcatAssoc(pre, Code(u.long) + u.nal, Stream(us[1..]));
      ConcatAssoc(pre, Code(u.long), u.nal);
      ConcatAssoc(pre + Code(u.long), u.nal, Stream(us[1..]));
      CodeSlice(s, pre, Code(u.long), u.nal + Stream(us[1..]));
      hide Stream, LegalUnits, Find, StartAt;
      FindStops(s, |pre|, u.long, p, four);
    } else if p + 3 < |s| {
      SkipTo(s, p, |s| - 3);
    }
  }

  lemma NoStartInside(pre: seq<byte>, nal: seq<byte>, rest: seq<byte>)
    requires Legal(nal)
    ensures forall i :: |pre| <= i < |pre| + |nal| ==> !StartAt(pre + nal + rest, i)
  {
    var s := pre + nal + rest;
    assert forall k :: 0 <= k < |nal| ==> s[|pre| + k] == nal[k];
    forall i | |pre| <= i < |pre| + |nal| ensures !StartAt(s, i) {
      assert !StartAt(nal, i - |pre|);
    }
  }

  lemma {:induction false} SkipCodeAt(s: seq<byte>, r: nat, long: bool, k: nat)
    requires r + |Code(long)| <= |s| && s[r..r + |Code(long)|] == Code(long) && k <= 1
    ensures SkipZeros(s, r + k) == r + |Code(long)|
  {
    var t := s[r..r + |Code(long)|];
    assert s[r] == t[0] && s[r + 1] == t[1] && s[r + 2] == t[2];
    if long {
      assert s[r + 3] == t[3];
      SkipEnds(s, r + 3);
      SkipOne(s, r + 2);
    } else {
      SkipEnds(s, r + 2);
    }
    SkipOne(s, r + 1);
    SkipOne(s, r);
  }

  lemma {:induction false} SkipOne(s: seq<byte>, r: nat)
    requires r + 1 < |s| && s[r] == 0
    ensures SkipZeros(s, r) == SkipZeros(s, r + 1)
  {
  }

  lemma {:induction false} SkipEnds(s: seq<byte>, r: nat)
    requires r < |s| && s[r] != 0
    ensures SkipZeros(s, r) == r + 1
  {
  }

  lemma {:induction false} NalsTurn(s: seq<byte>, r: nat, four: bool)
    requires r <= |s|
    ensures Nals(s, |s|, four) == []
    ensures r < |s| ==>
              var q := SkipZeros(s, r);
              Nals(s, r, four) == [s[q..Find(s, q, four)]] + Nals(s, Find(s, q, four), four)
  {
    hide Find, SkipZeros;
  }

  lemma {:induction false} FirstCode(s: seq<byte>, pre: seq<byte>, us: seq<Unit>)
    requires s == pre + Stream(us) && us != []
    ensures var u, rest := us[0], Stream(us[1..]);
            && s == pre + Code(u.long) + u.nal + rest
            && |pre| + |Code(u.long)| <= |s| && s[|pre|..|pre| + |Code(u.long)|] == Code(u.long)
  {
    var u, rest := us[0], Stream(us[1..]);
    ConcatAssoc(pre, Code(u.long) + u.nal, rest);
    ConcatAssoc(pre, Code(u.long), u.nal);
    ConcatAssoc(pre + Code(u.long), u.nal, rest);
    hide Stream;
    CodeSlice(s, pre, Code(u.long), u.nal + rest);
  }

  /** The first unit of a stream runs from after its start code to where the next one is found. */
  lemma {:induction false} FirstUnit(s: seq<byte>, pre: seq<byte>, us: seq<Unit>, four: bool)
    requires s == pre + Stream(us) && LegalUnits(us) && us != []
    ensures var head := pre + Code(us[0].long);
            var pre' := head + us[0].nal;
            && s == pre' + Stream(us[1..])
            && |pre| + |Missed(us, four)| < |s|
            && SkipZeros(s, |pre| + |Missed(us, four)|) == |head|
            && Find(s, |head|, four) == |pre'| + |Missed(us[1..], four)|
  {
    hide Find, SkipZeros, StartAt, Legal, Missed, Stream, LegalUnits, Code;
    LegalFirst(us);
    FirstCode(s, pre, us);
    var u, head, k := us[0], pre + Code(us[0].long), |Missed(us, four)|;
    assert SkipZeros(s, |pre| + k) == |head| && |pre| + k < |s| by {
      LongEnough(s, pre, u, Stream(us[1..]));
      SkipCodeAt(s, |pre|, u.long, k);
    }
    UnitEnds(s, head, u.nal, us[1..], four);
  }

  lemma {:induction false} LegalFirst(us: seq<Unit>)
    requires LegalUnits(us) && us != []
    ensures Legal(us[0].nal) && LegalUnits(us[1..]) && us[0].nal != []
  {
  }

  lemma LongEnough(s: seq<byte>, pre: seq<byte>, u: Unit, rest: seq<byte>)
    requires s == pre + Code(u.long) + u.nal + rest
    ensures |s| >= |pre| + 3
  {
  }

  /** From inside a unit the search finds the start code behind it. */
  lemma {:induction false} UnitEnds(s: seq<byte>, head: seq<byte>, nal: seq<byte>, us: seq<Unit>, four: bool)
    requires s == head + nal + Stream(us) && Legal(nal) && LegalUnits(us)
    ensures Find(s, |head|, four) == |head + nal| + |Missed(us, four)|
  {
    hide Find, StartAt, Legal, Missed;
    var pre := head + nal;
    NoStartInside(head, nal, Stream(us));
    assert pre[|pre| - 1] != 0 && nal != [] by { LastByte(head, nal); }
    FindAtCode(s, pre, us, |head|, four);
  }

  lemma {:induction false} NalsOfStream(s: seq<byte>, pre: seq<byte>, us: seq<Unit>, four: bool)
    requires s == pre + Stream(us) && LegalUnits(us)
    ensures Nals(s, |pre| + |Missed(us, four)|, four) == Found(us, four)
    decreases |us|
  {
    hide Find, SkipZeros, Nals, Missed;
    var r := |pre| + |Missed(us, four)|;
    NalsTurn(s, r, four);
    if us != [] {
      var head := pre + Code(us[0].long);
      var pre' := head + us[0].nal;
      var r1 := |pre'| + |Missed(us[1..], four)|;
      FirstUnit(s, pre, us, four);
      calc {
        Nals(s, r, four);
        [s[|head|..r1]] + Nals(s, r1, four);
        { MissedSlice(s, head, us, four); NalsOfStream(s, pre', us[1..], four); }
        Found(us, four);
      }
    }
  }

  lemma LastByte(head: seq<byte>, nal: seq<byte>)
    requires Legal(nal)
    ensures nal != [] && (head + nal)[|head| + |nal| - 1] != 0
  {
  }

  lemma {:induction false} MissedSlice(s: seq<byte>, head: seq<byte>, us: seq<Unit>, four: bool)
    requires us != [] && s == head + us[0].nal + Stream(us[1..])
    ensures var end, extra := |head| + |us[0].nal|, Missed(us[1..], four);
            end + |extra| <= |s| && s[|head|..end + |extra|] == us[0].nal + extra
  {
    var nal, rest := us[0].nal, us[1..];
    var extra := Missed(rest, four);
    if extra != [] {
      assert s[|head| + |nal|] == Stream(rest)[0] == 0;
    }
    assert s[|head|..|head| + |nal| + |extra|] == nal + extra;
  }

  /** Splitting a stream of legal NAL units gives them back, except for zero bytes of start codes
      that the search misses. */
  lemma SplitOfStream(us: seq<Unit>, four: bool)
    requires LegalUnits(us)
    ensures Split(Stream(us), four) == Found(us, four)
  {
    var s := Stream(us);
    assert s == [] + s;
    FindAtCode(s, [], us, 0, four);
    NalsOfStream(s, [], us, four);
  }

  /** The split is exact if and only if the 4-byte rule is on or no unit after the first has a
      4-byte start code. */
  lemma {:induction false} FoundExactly(us: seq<Unit>, four: bool)
    ensures Found(us, four) == NalsOf(us) <==> four || forall i :: 1 <= i < |us| ==> !us[i].long
    decreases |us|
  {
    if us != [] {
      var rest := us[1..];
      FoundExactly(rest, four);
      var k := |Missed(rest, four)|;
      assert |Found(us, four)[0]| == |us[0].nal| + k;
      assert Found(us, four)[1..] == Found(rest, four) && NalsOf(us)[1..] == NalsOf(rest);
      if k == 0 {
        assert us[0].nal + [] == us[0].nal;
      }
      assert forall i :: 1 <= i < |rest| ==> rest[i] == us[i + 1];
      if |rest| > 0 { assert rest[0] == us[1]; }
      if !four && forall i :: 1 <= i < |us| ==> !us[i].long {
        assert forall i :: 1 <= i < |rest| ==> !rest[i].long;
      }
      if !four && k == 0 && forall i :: 1 <= i < |rest| ==> !rest[i].long {
        forall i | 1 <= i < |us| ensures !us[i].long {
          assert us[i] == rest[i - 1];
        }
      }
    }
  }

  // ---------------------------------------------------------------- start codes that meet

  predicate NonEmpty(ns: seq<seq<byte>>) {
    forall i :: 0 <= i < |ns| ==> ns[i] != []
  }

  /** A start code, of three bytes or four, with something behind it. */
  predicate CodeAt(s: seq<byte>, q: nat) {
    (q + 3 < |s| && StartAt(s, q)) || (q + 4 < |s| && s[q] == 0 && StartAt(s, q + 1))
  }

  /** A start code right behind the one at i. */
  predicate MeetAt(s: seq<byte>, i: nat) {
    StartAt(s, i) && CodeAt(s, i + 3)
  }

  /** Two start codes with nothing in between. */
  predicate CodesMeet(s: seq<byte>) {
    exists i: nat :: i < |s| && MeetAt(s, i)
  }

  lemma FindsAtOnce(s: seq<byte>, q: nat)
    requires q < |s|
    ensures Find(s, q, true) == q <==> CodeAt(s, q)
  {
    hide StartAt;
    if q + 4 < |s| && s[q] == 0 && StartAt(s, q + 1) && !StartAt(s, q) {
      assert FirstStart(s, q) == FirstStart(s, q + 1) == q + 1;
    }
  }

  /** Where a search stops, and the start code proper that it found. */
  predicate StopsAt(s: seq<byte>, r: nat, c: nat) {
    c + 3 < |s| && StartAt(s, c) && (r == c || (r + 1 == c && s[r] == 0))
  }

  lemma FindStopsAt(s: seq<byte>, p: nat) returns (c: nat)
    requires p <= |s| && Find(s, p, true) < |s|
    ensures p <= c && StopsAt(s, Find(s, p, true), c)
    ensures forall i :: p <= i < c ==> !StartAt(s, i)
  {
    hide StartAt;
    c := FirstStart(s, p);
  }

  lemma CodeEnds(s: seq<byte>, r: nat, c: nat)
    requires StopsAt(s, r, c)
    ensures r < |s| && SkipZeros(s, r) == c + 3 && !StartAt(s, c + 1) && !StartAt(s, c + 2)
  {
    SkipEnds(s, c + 2);
    SkipOne(s, c + 1);
    SkipOne(s, c);
    if r + 1 == c { SkipOne(s, r); }
    hide SkipZeros;
  }

  /** Something follows every start code that is found; if that is a start code, it begins with zero. */
  lemma BehindCode(s: seq<byte>, p: nat)
    requires p <= |s| && Find(s, p, true) < |s|
    ensures var q := SkipZeros(s, Find(s, p, true));
            q < |s| && (Find(s, q, true) == q ==> s[q] == 0)
  {
    hide Find, SkipZeros;
    var c := FindStopsAt(s, p);
    CodeEnds(s, Find(s, p, true), c);
    FindsAtOnce(s, c + 3);
  }

  lemma {:induction false} EmptyWhereCodesMeet(s: seq<byte>, r: nat, c: nat)
    requires StopsAt(s, r, c)
    ensures r < |s| && (NonEmpty(Nals(s, r, true)) <==> forall i: nat :: c <= i < |s| ==> !MeetAt(s, i))
    decreases |s| - r
  {
    CodeEnds(s, r, c);
    hide Find, SkipZeros, Nals, StopsAt, StartAt, CodeAt;
    var q := c + 3;
    assert q < |s| by { StopRoom(s, r, c); }
    var r1 := Find(s, q, true);
    NalsTurn(s, r, true);
    FindsAtOnce(s, q);
    var rest := Nals(s, r1, true);
    FirstAndRest(s[q..r1], rest);
    assert MeetAt(s, c) <==> r1 == q by { StopRoom(s, r, c); }
    assert s[q..r1] == [] <==> r1 == q;
    assert NonEmpty(rest) <==> forall i: nat :: q <= i < |s| ==> !MeetAt(s, i) by {
      if r1 == |s| {
        NalsTurn(s, r1, true);
        NoMoreCodes(s, q);
      } else {
        var c1 := FindStopsAt(s, q);
        EmptyWhereCodesMeet(s, r1, c1);
        assert forall i: nat :: q <= i < c1 ==> !MeetAt(s, i);
      }
    }
    assert !MeetAt(s, c + 1) && !MeetAt(s, c + 2);
  }

  lemma StopRoom(s: seq<byte>, r: nat, c: nat)
    requires StopsAt(s, r, c)
    ensures c + 3 < |s| && StartAt(s, c)
  {
  }

  lemma FirstAndRest(n: seq<byte>, rest: seq<seq<byte>>)
    ensures NonEmpty([n] + rest) <==> n != [] && NonEmpty(rest)
  {
    var all := [n] + rest;
    assert all[0] == n && forall i :: 0 <= i < |rest| ==> rest[i] == all[i + 1];
  }

  lemma NoMoreCodes(s: seq<byte>, q: nat)
    requires q <= |s| && Find(s, q, true) == |s|
    ensures forall i: nat :: q <= i < |s| ==> !MeetAt(s, i)
  {
    hide StartAt;
    assert FirstStart(s, q) == |s|;
  }

  /** A stream has an empty unit exactly if two start codes meet in it; the source then computes a
      length of minus one. */
  lemma EmptyExactly(s: seq<byte>)
    ensures NonEmpty(Split(s, true)) <==> !CodesMeet(s)
  {
    hide Nals, StopsAt, StartAt, CodeAt;
    var r := Find(s, 0, true);
    if r == |s| {
      NalsTurn(s, r, true);
      NoMoreCodes(s, 0);
    } else {
      var c := FindStopsAt(s, 0);
      EmptyWhereCodesMeet(s, r, c);
    }
  }

  /** A stream of seven bytes in which two start codes meet. */
  lemma MeetingCodes(b: byte)
    ensures var s := [0, 0, 1, 0, 0, 1, b]; CodesMeet(s) && !NonEmpty(Split(s, true))
  {
    var s := [0, 0, 1, 0, 0, 1, b];
    assert StartAt(s, 0) && StartAt(s, 3);
    assert MeetAt(s, 0);
    hide Split;
    EmptyExactly(s);
  }
}
