/** Bit strings: fixed-width numbers and the non-symmetric code ns(n) of section 4.10.7 of the AV1
    bitstream specification. */
module Bits {
  import opened Bytes
  import Bitwise

  type bits = seq<bool>

  /** `w` bits of `v`, most significant first. */
  function Enc(w: nat, v: nat): (r: bits)
    ensures |r| == w
  {
    if w == 0 then [] else Enc(w - 1, v / 2) + [v % 2 == 1]
  }

  function Value(b: bits): nat {
    if b == [] then 0 else 2 * Value(b[..|b| - 1]) + Bit(b[|b| - 1])
  }

  /** The i-th bit written is the one a shift by w - 1 - i brings down. */
  lemma {:induction false} EncBit(w: nat, v: nat, i: nat)
    requires i < w
    ensures Pow(2, w - 1 - i) > 0 && Enc(w, v)[i] == (v / Pow(2, w - 1 - i) % 2 == 1)
    decreases w
  {
    PowTwo(w - 1 - i);
    if i < w - 1 {
      EncBit(w - 1, v / 2, i);
      PowTwo(w - 2 - i);
      DivDiv(v, Pow(2, w - 2 - i));
    }
  }

  lemma {:induction false} PowTwo(k: nat)
    ensures Pow(2, k) >= 1
  {
    if k > 0 { PowTwo(k - 1); }
  }

  lemma DivDiv(v: nat, p: nat)
    requires p >= 1
    ensures v / (2 * p) == v / 2 / p
  {
    var q, r := v / 2 / p, v / 2 % p;
    assert v / 2 == q * p + r;
    assert v == q * (2 * p) + (2 * r + v % 2);
    Bitwise.ModUnique(v, 2 * p, q, 2 * r + v % 2);
  }

  lemma {:induction false} ValueOfEnc(w: nat, v: nat)
    requires v < Pow(2, w)
    ensures Value(Enc(w, v)) == v
  {
    if w > 0 {
      ValueOfEnc(w - 1, v / 2);
      assert Enc(w, v)[..w - 1] == Enc(w - 1, v / 2);
    }
  }

  // ---------------------------------------------------------------- reading

  /** Reading `w` bits; nothing is consumed and 0 is read when there are not enough. */
  function Get(b: bits, w: nat): (r: (nat, bits))
    ensures |r.1| == if |b| < w then |b| else |b| - w
  {
    if |b| < w then (0, b) else (Value(b[..w]), b[w..])
  }

  lemma GetEnc(w: nat, v: nat, rest: bits)
    requires v < Pow(2, w)
    ensures Get(Enc(w, v) + rest, w) == (v, rest)
  {
    ValueOfEnc(w, v);
    assert (Enc(w, v) + rest)[..w] == Enc(w, v) && (Enc(w, v) + rest)[w..] == rest;
  }

  // ---------------------------------------------------------------- ns(n)

  /** Number of bits of n, as the shifting loop counts them. */
  function BitLen(n: nat): (w: nat)
    ensures n > 0 ==> w >= 1
  {
    if n == 0 then 0 else 1 + BitLen(n / 2)
  }

  lemma {:induction false} BitLenBounds(n: nat)
    requires n >= 1
    ensures BitLen(n) >= 1 && Pow(2, BitLen(n) - 1) <= n < Pow(2, BitLen(n))
  {
    hide Pow, BitLen;
    BitLenStep(n);
    if n > 1 {
      BitLenBounds(n / 2);
      var w := BitLen(n / 2);
      PowStep(w + 1);
      PowStep(w);
      HalvedBounds(n, Pow(2, w - 1), Pow(2, w));
    } else {
      PowStep(1);
      Bitwise.PowZero();
    }
  }

  lemma {:induction false} BitLenStep(n: nat)
    requires n >= 1
    ensures BitLen(n) == 1 + BitLen(n / 2) && BitLen(0) == 0
  {
  }

  lemma HalvedBounds(n: nat, p: nat, q: nat)
    requires p <= n / 2 < q
    ensures 2 * p <= n < 2 * q
  {
  }

  /** The values of ns(n) that take a bit less than the others. */
  function Short(n: nat): (m: nat)
    requires n >= 1
  {
    BitLenBounds(n);
    Pow(2, BitLen(n)) - n
  }

  lemma ShortIs(n: nat)
    requires n >= 1
    ensures var w := BitLen(n);
            w >= 1 && n + Short(n) == Pow(2, w) == 2 * Pow(2, w - 1) && Pow(2, w - 1) <= n
  {
    BitLenBounds(n);
    PowStep(BitLen(n));
  }

  lemma ShortWidth(n: nat)
    requires n >= 1
    ensures BitLen(n) >= 1 && Pow(2, BitLen(n)) - n == Short(n)
  {
  }

  function EncNs(n: nat, v: nat): bits
    requires n >= 1
  {
    var w := BitLen(n);
    if v < Short(n) then Enc(w - 1, v) else Enc(w, v + Short(n))
  }

  /** A long value from its first bits and its last one. */
  function LongValue(v: nat, m: nat, last: nat): nat
    requires v >= m
  {
    v * 2 - m + last
  }

  function GetNs(b: bits, n: nat): (nat, bits)
    requires n >= 1
  {
    var g := Get(b, BitLen(n) - 1);
    if g.0 < Short(n) then g
    else
      var h := Get(g.1, 1);
      (LongValue(g.0, Short(n), h.0), h.1)
  }

  lemma ShortRead(b: bits, n: nat)
    requires n >= 1 && Get(b, BitLen(n) - 1).0 < Short(n)
    ensures GetNs(b, n) == Get(b, BitLen(n) - 1)
  {
  }

  lemma LongRead(b: bits, n: nat)
    requires n >= 1 && Get(b, BitLen(n) - 1).0 >= Short(n)
    ensures var g := Get(b, BitLen(n) - 1);
            var h := Get(g.1, 1);
            GetNs(b, n) == (LongValue(g.0, Short(n), h.0), h.1)
  {
    hide Get, Short, BitLen, LongValue;
  }

  /** ns(n) reads back every v < n from any context, so no code word is a prefix of another. */
  lemma NsRoundTrip(n: nat, v: nat, rest: bits)
    requires n >= 1 && v < n
    ensures GetNs(EncNs(n, v) + rest, n) == (v, rest)
  {
    if v < Short(n) { ShortTrip(n, v, rest); } else { LongTrip(n, v, rest); }
  }

  lemma ShortTrip(n: nat, v: nat, rest: bits)
    requires n >= 1 && v < n && v < Short(n)
    ensures GetNs(EncNs(n, v) + rest, n) == (v, rest)
  {
    hide Pow, Get, Enc, BitLen, Short;
    ShortIs(n);
    GetEnc(BitLen(n) - 1, v, rest);
  }

  lemma LongTrip(n: nat, v: nat, rest: bits)
    requires n >= 1 && v < n && v >= Short(n)
    ensures GetNs(EncNs(n, v) + rest, n) == (v, rest)
  {
    hide Pow, Get, Enc, BitLen, Short, GetNs;
    ShortIs(n);
    LongNs(BitLen(n), v + Short(n), rest);
    LongRead(EncNs(n, v) + rest, n);
  }

  lemma PowStep(w: nat)
    requires w >= 1
    ensures Pow(2, w) == 2 * Pow(2, w - 1)
  {
  }

  /** A number of w bits read as its first w - 1 bits and its last one. */
  lemma LongNs(w: nat, u: nat, rest: bits)
    requires w >= 1 && u < Pow(2, w)
    ensures var x := [u % 2 == 1] + rest;
            && Get(Enc(w, u) + rest, w - 1) == (u / 2, x)
            && Get(x, 1) == (u % 2, rest)
  {
    hide Pow, Enc, Get;
    EncLast(w, u);
    PowStep(w);
    ConcatAssoc(Enc(w - 1, u / 2), [u % 2 == 1], rest);
    GetEnc(w - 1, u / 2, [u % 2 == 1] + rest);
    OneBit(u % 2 == 1, rest);
  }

  lemma EncLast(w: nat, u: nat)
    requires w >= 1
    ensures Enc(w, u) == Enc(w - 1, u / 2) + [u % 2 == 1]
  {
  }

  lemma OneBit(x: bool, rest: bits)
    ensures Get([x] + rest, 1) == (Bit(x), rest)
  {
    var b := [x] + rest;
    assert b[..1] == [x] && b[1..] == rest;
    assert Value([x]) == 2 * Value([x][..0]) + Bit(x);
  }
}
