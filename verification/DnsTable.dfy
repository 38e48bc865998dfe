/** The hash table that indexes names already written, bucket lists and all. */
module DnsTable {
  import opened Bytes
  import opened Bitwise
  import opened DnsName

  datatype Entry = Entry(name: seq<byte>, pos: nat)

  /** One round of the Jenkins one-at-a-time hash, and its final avalanche. */
  function Round(h: bv32, c: byte): bv32 {
    var a := h + (c as bv32);
    var b := a + (a << 10);
    b ^ (b >> 6)
  }

  function Finish(h: bv32): nat {
    var a := h + (h << 3);
    var b := a ^ (a >> 11);
    (b + (b << 15)) as nat
  }

  /** The hash state over the lower-cased characters, from state `h` on. */
  function Mix(s: seq<byte>, h: bv32): bv32 {
    if s == [] then h else Mix(s[1..], Round(h, Lower(s[0])))
  }

  function HashCI(s: seq<byte>): nat {
    Finish(Mix(s, 0))
  }

  method HashJoaatStrCi(str: seq<byte>) returns (key: nat)
    ensures key == HashCI(str)
  {
    hide Round, Finish;
    var hash: bv32 := 0;
    var i := 0;
    while i < |str|
      invariant 0 <= i <= |str| && Mix(str[i..], hash) == Mix(str, 0)
    {
      assert str[i..][1..] == str[i + 1..];
      hash := Round(hash, Lower(str[i]));
      i := i + 1;
    }
    key := Finish(hash);
  }

  lemma {:induction false} MixIgnoresCase(a: seq<byte>, b: seq<byte>, h: bv32)
    requires SameCI(a, b)
    ensures Mix(a, h) == Mix(b, h)
  {
    hide Round;
    if a != [] {
      assert Lower(a[0]) == Lower(b[0]);
      MixIgnoresCase(a[1..], b[1..], Round(h, Lower(a[0])));
    }
  }

  /** The published hash of the one-letter string "a", in either case. */
  lemma HashOfA()
    ensures HashCI([97]) == HashCI([65]) == 0xca2e9442
  {
    assert Mix([97][1..], Round(0, 97)) == Round(0, 97);
    assert Mix([65][1..], Round(0, 97)) == Round(0, 97);
    assert Round(0, 97) == 0x18270;
  }

  /** Position of the first entry, in insertion order, whose name equals `name` up to case. */
  function Find(es: seq<Entry>, name: seq<byte>): (r: Option<nat>)
    ensures r.Some? <==> exists i :: 0 <= i < |es| && SameCI(es[i].name, name)
    ensures r.Some? ==> exists i :: 0 <= i < |es| && SameCI(es[i].name, name) && es[i].pos == r.value
  {
    if es == [] then None
    else if SameCI(es[0].name, name) then Some(es[0].pos)
    else
      var r := Find(es[1..], name);
      assert forall i :: 1 <= i < |es| ==> es[i] == es[1..][i - 1];
      r
  }

  function Slot(name: seq<byte>, bsize: nat): nat
    requires bsize >= 1
  {
    And(HashCI(name), bsize - 1)
  }

  /** The entries that fall into bucket `i`. */
  function InBucket(es: seq<Entry>, i: nat, bsize: nat): seq<Entry>
    requires bsize >= 1
  {
    if es == [] then []
    else (if Slot(es[0].name, bsize) == i then [es[0]] else []) + InBucket(es[1..], i, bsize)
  }

  lemma {:induction false} InBucketAppend(es: seq<Entry>, e: Entry, i: nat, bsize: nat)
    requires bsize >= 1
    ensures InBucket(es + [e], i, bsize)
         == InBucket(es, i, bsize) + if Slot(e.name, bsize) == i then [e] else []
  {
    hide Slot;
    if es == [] {
      assert es + [e] == [e];
      assert InBucket([e], i, bsize) == (if Slot(e.name, bsize) == i then [e] else []) + InBucket([], i, bsize);
    } else {
      var first := if Slot(es[0].name, bsize) == i then [es[0]] else [];
      var last := if Slot(e.name, bsize) == i then [e] else [];
      calc {
        InBucket(es + [e], i, bsize);
        { assert (es + [e])[0] == es[0] && (es + [e])[1..] == es[1..] + [e]; }
        first + InBucket(es[1..] + [e], i, bsize);
        { InBucketAppend(es[1..], e, i, bsize); }
        first + (InBucket(es[1..], i, bsize) + last);
        { ConcatAssoc(first, InBucket(es[1..], i, bsize), last); }
        InBucket(es, i, bsize) + last;
      }
    }
  }

  lemma SlotIgnoresCase(a: seq<byte>, b: seq<byte>, bsize: nat)
    requires SameCI(a, b) && bsize >= 1
    ensures Slot(a, bsize) == Slot(b, bsize)
  {
    hide Mix, Finish;
    MixIgnoresCase(a, b, 0);
  }

  /** Looking only into the name's own bucket finds what a scan of all entries finds. */
  lemma {:induction false} BucketFind(es: seq<Entry>, name: seq<byte>, bsize: nat)
    requires bsize >= 1
    ensures Find(InBucket(es, Slot(name, bsize), bsize), name) == Find(es, name)
  {
    hide Slot;
    if es != [] {
      var i := Slot(name, bsize);
      var rest := InBucket(es[1..], i, bsize);
      BucketFind(es[1..], name, bsize);
      if SameCI(es[0].name, name) { SlotIgnoresCase(es[0].name, name, bsize); }
      if Slot(es[0].name, bsize) == i {
        assert ([es[0]] + rest)[1..] == rest;
      } else {
        assert [] + rest == rest;
      }
    }
  }

  lemma SlotInRange(name: seq<byte>, bsize: nat)
    requires bsize >= 1 && PowerOfTwo(bsize)
    ensures Slot(name, bsize) == HashCI(name) % bsize < bsize
  {
    hide HashCI;
    var k: nat :| bsize == Pow(2, k);
    MaskIsMod(HashCI(name), k);
  }

  class Table {
    const bsize: nat
    var buckets: seq<seq<Entry>>
    ghost var entries: seq<Entry>    // in insertion order

    ghost predicate Valid()
      reads this
    {
      && bsize >= 1 && PowerOfTwo(bsize) && |buckets| == bsize
      && forall i :: 0 <= i < bsize ==> buckets[i] == InBucket(entries, i, bsize)
    }

    constructor (bsize: nat)
      requires bsize >= 1 && PowerOfTwo(bsize)
      ensures Valid() && entries == [] && this.bsize == bsize
    {
      this.bsize := bsize;
      buckets := seq(bsize, _ => []);
      entries := [];
    }

    method Append(name: seq<byte>, pos: nat)
      requires Valid()
      modifies this
      ensures Valid() && entries == old(entries) + [Entry(name, pos)]
    {
      hide HashCI, InBucket;
      var key := HashJoaatStrCi(name);
      var i := And(key, bsize - 1);
      SlotInRange(name, bsize);
      forall j | 0 <= j < bsize
        ensures InBucket(entries + [Entry(name, pos)], j, bsize)
             == buckets[j] + if i == j then [Entry(name, pos)] else []
      {
        InBucketAppend(entries, Entry(name, pos), j, bsize);
      }
      buckets := buckets[i := buckets[i] + [Entry(name, pos)]];
      entries := entries + [Entry(name, pos)];
    }

    method Lookup(name: seq<byte>) returns (r: Option<nat>)
      requires Valid()
      ensures r == Find(entries, name)
    {
      hide HashCI, InBucket, And;
      var key := HashJoaatStrCi(name);
      SlotInRange(name, bsize);
      BucketFind(entries, name, bsize);
      var list := buckets[And(key, bsize - 1)];
      var k := 0;
      while k < |list|
        invariant 0 <= k <= |list| && Find(list[k..], name) == Find(entries, name)
      {
        if SameCI(list[k].name, name) {
          return Some(list[k].pos);
        }
        assert list[k..][1..] == list[k + 1..];
        k := k + 1;
      }
      r := None;
    }
  }

  /** Allocates a table when the size is a power of two, and none otherwise. */
  method Alloc(bsize: nat) returns (t: Table?)
    ensures t != null <==> bsize >= 1 && PowerOfTwo(bsize)
    ensures t != null ==> fresh(t) && t.Valid() && t.entries == [] && t.bsize == bsize
  {
    if bsize == 0 {
      return null;
    }
    PowerOfTwoTest(bsize);
    if And(bsize, bsize - 1) != 0 {
      return null;
    }
    t := new Table(bsize);
  }
}
