/** Bytes and bits of each wire format, spelled out for one value each. */
module WireExamples {
  import opened Bytes
  import opened Bits
  import Leb128
  import Av1Packets
  import DnsMessage
  import DnsCompress
  import BfcpMessage
  import DdCodec

  /** LEB128: least significant group first. */
  lemma LebOf300()
    ensures Leb128.Encode(300) == [0xac, 0x02]
  {
    assert Leb128.Encode(2) == [2];
  }

  /** The aggregation header: Z, Y, two bits of W, N. */
  lemma AggregationHeaders()
    ensures Av1Packets.AggrHdr(true, false, 2, true) == 0xa8
    ensures Av1Packets.AggrHdr(false, true, 3, false) == 0x70
  {
  }

  /** A name and a copy of it: one label, then a pointer to the start of the message. */
  lemma NameTwice()
    ensures var ops := [DnsMessage.Put([97], true), DnsMessage.Put([97], true)];
            DnsCompress.After([], ops, 2).buf == [1, 97, 0, 0xc0, 0]
  {
  }

  /** A BFCP header, all numbers most significant byte first. */
  lemma MessageHeader()
    ensures BfcpMessage.HeaderBytes(BfcpMessage.Header(1, false, 2, 0x01020304, 0x0506, 0x0708), 9)
         == [0x20, 2, 0, 9, 1, 2, 3, 4, 5, 6, 7, 8]
  {
  }

  /** ns(5): two bits for 0 to 2, three for 3 and 4. */
  lemma NsOfFive()
    ensures EncNs(5, 0) == [false, false] && EncNs(5, 2) == [true, false]
    ensures EncNs(5, 3) == [true, true, false] && EncNs(5, 4) == [true, true, true]
  {
  }

  lemma TwoBits(x: bool, y: bool, rest: bits)
    ensures Get([x, y] + rest, 2) == (2 * Bit(x) + Bit(y), rest)
  {
    assert ([x, y] + rest)[..2] == [x, y] && ([x, y] + rest)[2..] == rest;
    assert [x, y][..1] == [x] && [x][..0] == [];
    assert Value([x, y]) == 2 * Value([x]) + Bit(y);
  }

  /** Layer steps: 00 is the same layer, 01 the next temporal one, 10 the next spatial one, 11 the end. */
  lemma LayerCodes(x: bool, y: bool, rest: bits, sp: seq<nat>, tp: seq<nat>, s: nat, t: nat)
    requires |sp| == |tp| < 8
    ensures DdCodec.DecLayers([x, y] + rest, sp, tp, s, t) ==
              if x && y then DdCodec.Got((sp + [s], tp + [t]), rest)
              else DdCodec.DecLayers(rest, sp + [s], tp + [t], if x then s + 1 else s,
                                     if x then 0 else if y then t + 1 else t)
  {
    TwoBits(x, y, rest);
    hide Get;
  }
}
