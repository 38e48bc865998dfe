/** LEB128, the variable-length integer code of section 4.10.5 of the AV1 bitstream specification. */
module Leb128 {
  import opened Bytes

  function Encode(v: nat): (s: seq<byte>)
    ensures 1 <= |s| <= v + 1
    ensures v > 0 ==> |s| <= v
  {
    if v < 128 then [v] else [128 + v % 128] + Encode(v / 128)
  }

  datatype Read = Short | Value(v: nat, len: nat)

  /** What a reader that accepts at most `groups` bytes makes of `s`. */
  function Decode(s: seq<byte>, groups: nat): (r: Read)
    ensures r.Value? ==> r.len <= |s| && r.len <= groups
  {
    if groups == 0 then Value(0, 0)
    else if s == [] then Short
    else if s[0] < 128 then Value(s[0], 1)
    else match Decode(s[1..], groups - 1)
      case Short => Short
      case Value(v, n) => Value(s[0] - 128 + 128 * v, n + 1)
  }

  lemma {:induction false} PowPositive(e: nat)
    ensures Pow(128, e) >= 1
  {
    if e > 0 { PowPositive(e - 1); }
  }

  /** A code word read back from any context gives its value and its length. */
  lemma {:induction false} RoundTrip(v: nat, rest: seq<byte>, groups: nat)
    requires groups >= 1 && v < Pow(128, groups)
    ensures Decode(Encode(v) + rest, groups) == Value(v, |Encode(v)|)
  {
    var s := Encode(v) + rest;
    if v < 128 {
      assert s[0] == v;
    } else {
      assert groups > 1 by { assert Pow(128, 1) == 128 * Pow(128, 0); }
      RoundTrip(v / 128, rest, groups - 1);
      assert s[1..] == Encode(v / 128) + rest;
    }
  }

  /** A code word that breaks off is not taken for another one. */
  lemma {:induction false} CutShort(v: nat, k: nat, groups: nat)
    requires groups >= 1 && v < Pow(128, groups) && k < |Encode(v)|
    ensures Decode(Encode(v)[..k], groups) == Short
  {
    if k > 0 {
      assert v >= 128;
      assert groups > 1 by { assert Pow(128, 1) == 128 * Pow(128, 0); }
      CutShort(v / 128, k - 1, groups - 1);
      assert Encode(v)[..k][1..] == Encode(v / 128)[..k - 1];
    }
  }

  lemma {:induction false} DecodeBound(s: seq<byte>, groups: nat)
    requires Decode(s, groups).Value?
    ensures Decode(s, groups).v < Pow(128, groups)
  {
    if groups > 0 {
      PowPositive(groups - 1);
      if s[0] >= 128 { DecodeBound(s[1..], groups - 1); }
    }
  }

  /** The eight-group reader inverts the writer exactly below 2^56. */
  lemma {:induction false} RoundTripExactly(v: nat, rest: seq<byte>)
    ensures Decode(Encode(v) + rest, 8) == Value(v, |Encode(v)|) <==> v < Pow(128, 8)
  {
    var s := Encode(v) + rest;
    if v < Pow(128, 8) {
      RoundTrip(v, rest, 8);
    } else if Decode(s, 8).Value? {
      DecodeBound(s, 8);
    }
  }

  /** The number of bytes written counts the base-128 digits. */
  lemma {:induction false} SizeBound(v: nat, k: nat)
    requires k >= 1
    ensures |Encode(v)| <= k <==> v < Pow(128, k)
  {
    PowPositive(k - 1);
    if v >= 128 {
      if k == 1 {
        assert Pow(128, 1) == 128 * Pow(128, 0);
      } else {
        SizeBound(v / 128, k - 1);
      }
    }
  }

  lemma {:induction false} SizeMonotone(a: nat, b: nat)
    requires a <= b
    ensures |Encode(a)| <= |Encode(b)|
  {
    SizeBound(b, |Encode(b)|);
    SizeBound(a, |Encode(b)|);
  }

  method CalcSize(value: nat) returns (bytes: nat)
    ensures bytes == |Encode(value)|
  {
    bytes := 1;
    var v := value;
    while v >= 0x80
      invariant bytes + |Encode(v)| == |Encode(value)| + 1
    {
      bytes := bytes + 1;
      v := v / 128;
    }
  }

  /** Appends the code word of `value` to `mb`. */
  method Write(mb: seq<byte>, value: nat) returns (out: seq<byte>)
    ensures out == mb + Encode(value)
  {
    out := mb;
    var v := value;
    while v >= 0x80
      invariant out + Encode(v) == mb + Encode(value)
    {
      ghost var before := out;
      out := out + [0x80 + v % 128];
      assert out + Encode(v / 128) == before + Encode(v);
      v := v / 128;
    }
    out := out + [v];
  }

  /** A reader that has consumed i groups worth `ret` continues with the rest. */
  function Resume(ret: nat, weight: nat, i: nat, r: Read): Read {
    match r
    case Short => Short
    case Value(v, n) => Value(ret + weight * v, i + n)
  }

  /** Consuming one more continued group keeps the meaning of a half-done read. */
  lemma {:induction false} ResumeStep(ret: nat, weight: nat, i: nat, s: seq<byte>, groups: nat)
    requires groups >= 1 && s != [] && s[0] >= 128
    ensures Resume(ret, weight, i, Decode(s, groups))
         == Resume(ret + weight * (s[0] - 128), weight * 128, i + 1, Decode(s[1..], groups - 1))
  {
    var tail := Decode(s[1..], groups - 1);
    if tail.Value? {
      assert weight * (s[0] - 128 + 128 * tail.v) == weight * (s[0] - 128) + weight * 128 * tail.v;
    }
  }

  lemma {:induction false} ResumeEnds(ret: nat, weight: nat, i: nat, s: seq<byte>, groups: nat)
    ensures groups == 0 ==> Resume(ret, weight, i, Decode(s, groups)) == Value(ret, i)
    ensures groups > 0 && s == [] ==> Resume(ret, weight, i, Decode(s, groups)) == Short
    ensures groups > 0 && s != [] && s[0] < 128 ==>
              Resume(ret, weight, i, Decode(s, groups)) == Value(ret + weight * s[0], i + 1)
  {
  }

  lemma {:induction false} ResumeStart(s: seq<byte>, groups: nat)
    ensures Resume(0, 1, 0, Decode(s, groups)) == Decode(s, groups)
  {
  }

  method ReadFrom(buf: seq<byte>, pos: nat, groups: nat := 8) returns (r: Read)
    requires pos <= |buf|
    ensures r == Decode(buf[pos..], groups)
  {
    hide Decode, Resume;
    var ret: nat, weight: nat, i: nat := 0, 1, 0;
    ghost var whole := Decode(buf[pos..], groups);
    ResumeStart(buf[pos..], groups);
    while i < groups
      invariant i <= groups && pos + i <= |buf|
      invariant whole == Resume(ret, weight, i, Decode(buf[pos + i..], groups - i))
    {
      ghost var s := buf[pos + i..];
      ResumeEnds(ret, weight, i, s, groups - i);
      if |buf| - (pos + i) < 1 {
        return Short;
      }
      var b := buf[pos + i];
      if b < 0x80 {
        return Value(ret + weight * b, i + 1);
      }
      ResumeStep(ret, weight, i, s, groups - i);
      assert s[1..] == buf[pos + i + 1..];
      var group: nat := b % 128;
      assert group == s[0] - 128;
      ret, weight, i := ret + weight * group, weight * 128, i + 1;
    }
    ResumeEnds(ret, weight, i, buf[pos + i..], 0);
    r := Value(ret, groups);
  }
}
