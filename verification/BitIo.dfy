/** Writing and reading bits one by one in a byte buffer. */
module BitIo {
  import opened Bytes
  import opened Bits

  function Mask(k: nat): bv8
    requires k < 8
  {
    [128, 64, 32, 16, 8, 4, 2, 1][k]
  }

  /** Bit k of a byte, the most significant one being bit 0. */
  function BitAt(b: bv8, k: nat): bool
    requires k < 8
  {
    b & Mask(k) != 0
  }

  function SetBit(b: bv8, k: nat, x: bool): bv8
    requires k < 8
  {
    if x then b | Mask(k) else b & !Mask(k)
  }

  lemma SetBitAt(b: bv8, k: nat, x: bool, j: nat)
    requires k < 8 && j < 8
    ensures BitAt(SetBit(b, k, x), j) == if j == k then x else BitAt(b, j)
  {
    MaskDistinct(b, k, j);
  }

  predicate SingleBit(m: bv8) {
    m == 128 || m == 64 || m == 32 || m == 16 || m == 8 || m == 4 || m == 2 || m == 1
  }

  lemma MaskDistinct(b: bv8, k: nat, j: nat)
    requires k < 8 && j < 8
    ensures (b | Mask(k)) & Mask(j) != 0 <==> j == k || b & Mask(j) != 0
    ensures (b & !Mask(k)) & Mask(j) != 0 <==> j != k && b & Mask(j) != 0
  {
    assert SingleBit(Mask(k)) && SingleBit(Mask(j));
    assert Mask(k) == Mask(j) <==> k == j;
  }

  function BitsOf(buf: seq<bv8>): (b: bits)
    ensures |b| == 8 * |buf|
  {
    seq(8 * |buf|, i requires 0 <= i < 8 * |buf| => BitAt(buf[i / 8], i % 8))
  }

  /** The shifting loop that counts the bits of n. */
  method Width(n: nat) returns (w: nat)
    ensures w == BitLen(n)
  {
    var x := n;
    w := 0;
    while x != 0
      invariant w + BitLen(x) == BitLen(n)
    {
      x := x / 2;
      w := w + 1;
    }
  }

  class PutBit {
    var buf: seq<bv8>        // the whole buffer, at least one byte
    var bitPos: nat

    constructor (size: nat)
      requires size >= 1
      ensures Valid() && Written() == []
    {
      buf := seq(size, _ => 0);
      bitPos := 0;
    }

    ghost predicate Valid()
      reads this
    {
      buf != [] && bitPos <= 8 * |buf|
    }

    /** The bits written so far. */
    ghost function Written(): (b: bits)
      requires Valid()
      reads this
    {
      BitsOf(buf)[..bitPos]
    }

    /** The bytes a receiver gets; the last one may be padded. */
    function Output(): seq<bv8>
      requires Valid()
      reads this
    {
      buf[..(bitPos + 7) / 8]
    }

    lemma OutputBits()
      requires Valid()
      ensures Written() <= BitsOf(Output()) && |BitsOf(Output())| < |Written()| + 8
    {
    }

    method One(bit: bool)
      requires Valid()
      modifies this
      ensures Valid() && Written() == old(Written()) + [bit]
    {
      ghost var was := Written();
      var p, k := bitPos / 8, bitPos % 8;
      if p >= |buf| {
        var more: seq<bv8> :| |more| == |buf|;
        buf := buf + more;
      }
      buf := buf[p := SetBit(buf[p], k, bit)];
      bitPos := bitPos + 1;
      ghost var now := Written();
      assert now == was + [bit] by {
        forall i | 0 <= i < bitPos ensures now[i] == (was + [bit])[i] {
          if i / 8 == p { SetBitAt(old(if p < |buf| then buf[p] else 0), k, bit, i % 8); }
        }
      }
    }

    method Write(count: nat, val: nat) returns (err: Errno)
      requires Valid()
      modifies this
      ensures Valid() && err == if count > 32 then EINVAL else OK
      ensures Written() == old(Written()) + if err == OK then Enc(count, val) else []
    {
      if count > 32 {
        return EINVAL;
      }
      ghost var b := Enc(count, val);
      for i := 0 to count
        invariant Valid() && Written() == old(Written()) + b[..i]
      {
        EncBit(count, val, i);
        One(val / Pow(2, count - i - 1) % 2 == 1);
        assert b[..i + 1] == b[..i] + [b[i]];
      }
      assert b[..count] == b;
      err := OK;
    }

    /** Writes v in ns(n); the number of bits is found by shifting n out. */
    method WriteNs(n: nat, v: nat) returns (err: Errno)
      requires Valid() && n < 0x1_0000_0000
      modifies this
      ensures Valid() && err == if n == 0 && v == 0 then EINVAL else OK
      ensures Written() == old(Written()) + if n == 0 then [] else EncNs(n, v)
    {
      var w := Width(n);
      if n == 0 {
        return if v < 1 then EINVAL else OK;
      }
      hide Pow, BitLen, Enc, Short;
      ShortIs(n);
      WordBits(n);
      var m := Pow(2, w) - n;
      if v < m {
        err := Write(w - 1, v);
      } else {
        err := Write(w, v + m);
      }
    }
  }

  lemma {:induction false} WordBits(n: nat)
    requires n < 0x1_0000_0000
    ensures BitLen(n) <= 32
  {
    assert 0x1_0000_0000 == Pow(2, 32) by {
      PowSum(16, 16);
      PowSum(8, 8);
      assert Pow(2, 4) == 16;
      PowSum(4, 4);
    }
    BitLenWithin(n, 32);
  }

  lemma {:induction false} BitLenWithin(n: nat, w: nat)
    requires n < Pow(2, w)
    ensures BitLen(n) <= w
  {
    if w > 0 { BitLenWithin(n / 2, w - 1); }
  }

  lemma {:induction false} PowSum(a: nat, b: nat)
    ensures Pow(2, a + b) == Pow(2, a) * Pow(2, b)
  {
    if a > 0 {
      PowSum(a - 1, b);
    }
  }

  class GetBit {
    const buf: seq<bv8>
    var pos: nat

    constructor (buf: seq<bv8>)
      ensures Valid() && this.buf == buf && Left() == BitsOf(buf)
    {
      this.buf := buf;
      pos := 0;
    }

    ghost predicate Valid()
      reads this
    {
      pos <= 8 * |buf|
    }

    /** The bits not read yet. */
    ghost function Left(): (b: bits)
      requires Valid()
      ensures |b| == 8 * |buf| - pos
      reads this
    {
      BitsOf(buf)[pos..]
    }

    function GetLeft(): nat
      requires Valid()
      reads this
    {
      8 * |buf| - pos
    }

    /** One bit; past the end a 0 that consumes nothing. */
    method Read1() returns (x: nat)
      requires Valid()
      modifies this
      ensures Valid() && (x, Left()) == Get(old(Left()), 1)
    {
      if pos >= 8 * |buf| {
        return 0;
      }
      x := if BitAt(buf[pos / 8], pos % 8) then 1 else 0;
      ghost var b := Left();
      assert b[..1][..0] == [] && Value([]) == 0;
      pos := pos + 1;
    }

    method Read(n: nat) returns (x: nat)
      requires Valid()
      modifies this
      ensures Valid() && (x, Left()) == Get(old(Left()), n)
    {
      x := 0;
      if GetLeft() < n {
        return;
      }
      ghost var b := Left();
      for i := 0 to n
        invariant Valid() && Left() == b[i..] && x == Value(b[..i])
      {
        ghost var was := Left();
        var bit := Read1();
        assert was[..1][..0] == [] && was[..1][0] == b[i];
        assert b[..i + 1][..i] == b[..i] && b[..i + 1][i] == b[i];
        x := 2 * x + bit;
      }
    }

    method ReadNs(n: nat) returns (r: nat)
      requires Valid()
      modifies this
      ensures Valid() && (r, Left()) == if n == 0 then (0, old(Left())) else GetNs(old(Left()), n)
    {
      hide Pow, BitLen, Get, Short, GetNs, LongValue, Left, BitsOf;
      var w := Width(n);
      if n == 0 {
        return 0;
      }
      ShortWidth(n);
      var m := Pow(2, w) - n;
      var v := Read(w - 1);
      if v < m {
        ShortRead(old(Left()), n);
        return v;
      }
      LongRead(old(Left()), n);
      var extra := Read(1);
      r := LongValue(v, m, extra);
    }
  }
}
