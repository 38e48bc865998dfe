/** How the AV1 packetizer chooses the next OBU element and whether a length prefix goes before it. */
module Av1Fragment {
  import opened Bytes
  import Leb128

  const MAX_OBUS := 3

  function PrefixLen(n: nat): nat {
    |Leb128.Encode(n)|
  }

  /** Length of a prefixed element and of its prefix, when `left` bytes of the OBU wait and
      `room` bytes of the packet are free. */
  function WithPrefix(left: nat, room: nat): (r: (nat, nat))
    requires room >= 1
    ensures r.0 <= left && r.0 + r.1 <= room && r.1 == PrefixLen(r.0)
  {
    var len := Min(left, room - 1);
    var plen := PrefixLen(len);
    if len + plen > room then
      Leb128.SizeMonotone(room - plen, len);
      (room - plen, PrefixLen(room - plen))
    else (len, plen)
  }

  /** (prefixed, length) of the count-th element of a packet; length 0 means the packet is full. */
  function FragmentLen(room: nat, left: nat, last: bool, count: nat): (r: (bool, nat))
    requires left >= 1
  {
    if room < 1 then (false, 0)
    else if count > MAX_OBUS then
      if room < 2 then (false, 0) else (true, WithPrefix(left, room).0)
    else if !last && room > left && (
              var (len, plen) := WithPrefix(left, room);
              len + plen <= room - (if count > 2 then 2 else 1)) then
      (true, WithPrefix(left, room).0)
    else (false, Min(left, room))
  }

  /** Bytes of the packet that an element takes. */
  function Taken(r: (bool, nat)): nat {
    (if r.0 then PrefixLen(r.1) else 0) + r.1
  }

  /** The element fits; the first three elements are never empty; and after a prefixed element
      the look-ahead leaves room for the next one: 1 byte, or 2 when the next needs a prefix. */
  predicate Fits(r: (bool, nat), room: nat, left: nat, count: nat) {
    && r.1 <= left && Taken(r) <= room
    && (1 <= room && count <= 3 ==> r.1 >= 1)
    && (r.1 == 0 ==> !r.0)
    && (count > 3 && r.1 > 0 ==> r.0)
    && (count > 3 && room >= 2 ==> r.1 > 0)
    && (r.0 && count <= 2 ==> room - Taken(r) >= 1)
    && (r.0 && count == 3 ==> room - Taken(r) >= 2)
    && (!r.0 && 0 < r.1 < left ==> r.1 == room)
    && (r.0 && r.1 < left && count > 3 ==> room - Taken(r) <= 1)
  }

  lemma FragmentFits(room: nat, left: nat, last: bool, count: nat)
    requires left >= 1 && count >= 1
    ensures Fits(FragmentLen(room, left, last, count), room, left, count)
  {
    if room >= 2 { ShortenedFills(left, room); }
  }

  /** A shortened prefixed element wastes at most one byte of the packet. */
  lemma ShortenedFills(left: nat, room: nat)
    requires left >= 1 && room >= 2
    ensures var r := WithPrefix(left, room);
            r.0 >= 1 && (r.0 < left ==> room - (r.0 + r.1) <= 1)
  {
    var len := Min(left, room - 1);
    var p := PrefixLen(len);
    if len + p > room && p >= 3 {
      Leb128.SizeBound(len, p - 1);
      Leb128.SizeBound(room - p, p - 2);
      PowGap(p - 1);
    }
  }

  /** The window of free space just above a digit boundary 128^k in which the prefix of the whole
      rest of the OBU does not fit while the shortened element needs one prefix byte less. */
  predicate Trap(room: nat, left: nat, last: bool, count: nat) {
    var k := PrefixLen(left) - 1;
    count <= 2 && !last && k >= 1 && left < room <= Pow(128, k) + k
  }

  /** Whole-OBU element: its prefix fits before the rest of the packet. */
  lemma WithPrefixWhole(left: nat, room: nat)
    requires left >= 1 && room > left
    ensures left + PrefixLen(left) <= room ==> WithPrefix(left, room) == (left, PrefixLen(left))
    ensures left + PrefixLen(left) > room ==>
              && PrefixLen(left) >= 2
              && WithPrefix(left, room).0 == room - PrefixLen(left) < left
              && WithPrefix(left, room).1 == PrefixLen(room - PrefixLen(left))
  {
  }

  /** When an OBU with its prefix is too long for the room, and how long the shortened prefix is. */
  lemma {:induction false} TrapPrefix(left: nat, room: nat)
    requires 1 <= left < room
    ensures var p := PrefixLen(left);
            && p >= 1
            && (left + p > room ==> p >= 2 && PrefixLen(room - p) > p - 2)
            && (left + p > room ==> (PrefixLen(room - p) <= p - 1 <==> room <= Pow(128, p - 1) + p - 1))
            && (p >= 2 && room <= Pow(128, p - 1) + p - 1 ==> left + p > room)
  {
    hide Pow;
    var p := PrefixLen(left);
    if p >= 2 {
      Leb128.SizeBound(left, p - 1);
      if left + p > room {
        Leb128.SizeBound(room - p, p - 1);
        if p >= 3 {
          Leb128.SizeBound(room - p, p - 2);
          PowGap(p - 1);
        }
      }
    }
  }

  /** An element that another one may follow leaves its OBU unfinished exactly in the trap. */
  lemma SplitIffTrap(room: nat, left: nat, last: bool, count: nat)
    requires left >= 1 && 1 <= count <= 3
    ensures var r := FragmentLen(room, left, last, count);
            r.0 && r.1 < left <==> Trap(room, left, last, count)
  {
    hide Pow, PrefixLen, WithPrefix;
    if !last && room > left {
      WithPrefixWhole(left, room);
      TrapPrefix(left, room);
    }
  }

  lemma {:induction false} PowGap(k: nat)
    requires k >= 2
    ensures Pow(128, k) >= Pow(128, k - 1) + k + 2
  {
    if k == 2 {
      assert Pow(128, 2) == 128 * Pow(128, 1) && Pow(128, 1) == 128 * Pow(128, 0);
    } else {
      PowGap(k - 1);
      assert Pow(128, k) == 128 * Pow(128, k - 1);
    }
  }
}
