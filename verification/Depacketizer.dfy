/** Packets handed out by a packetizer, and a receiver that takes them one by one. */
module Depacketizer {
  import opened Bytes

  /** What is handed to the packet handler; header and payload go on the wire one after the other. */
  datatype Packet = Packet(marker: bool, hdr: seq<byte>, payload: seq<byte>)

  function Wire(p: Packet): seq<byte> {
    p.hdr + p.payload
  }

  /** NAL units complete so far and the one being put together from fragments. */
  datatype Rx = Rx(done: seq<seq<byte>>, part: Option<seq<byte>>)

  /** A receiver takes the bytes of one packet, or refuses it. */
  type Receiver = (Rx, seq<byte>) -> Option<Rx>

  function AbsorbAll(take: Receiver, rx: Rx, ps: seq<Packet>): Option<Rx>
    decreases |ps|
  {
    if ps == [] then Some(rx)
    else match take(rx, Wire(ps[0]))
      case None => None
      case Some(next) => AbsorbAll(take, next, ps[1..])
  }

  lemma {:induction false} AbsorbConcat(take: Receiver, rx: Rx, ps: seq<Packet>, qs: seq<Packet>)
    ensures AbsorbAll(take, rx, ps + qs) ==
              match AbsorbAll(take, rx, ps) case None => None case Some(next) => AbsorbAll(take, next, qs)
    decreases |ps|
  {
    if ps == [] {
      assert ps + qs == qs;
    } else {
      assert (ps + qs)[0] == ps[0] && (ps + qs)[1..] == ps[1..] + qs;
      var next := take(rx, Wire(ps[0]));
      if next.Some? { AbsorbConcat(take, next.value, ps[1..], qs); }
    }
  }

  lemma AbsorbOne(take: Receiver, rx: Rx, p: Packet)
    ensures AbsorbAll(take, rx, [p]) == take(rx, Wire(p))
  {
    var next := take(rx, Wire(p));
    assert [p][1..] == [];
    if next.Some? { assert AbsorbAll(take, next.value, []) == Some(next.value); }
  }

  // ---------------------------------------------------------------- cutting into equal pieces

  function Mul(a: nat, b: nat): nat {
    a * b
  }

  /** The i-th piece of sz bytes; the last one may be shorter. */
  function Piece(body: seq<byte>, sz: nat, i: nat): seq<byte> {
    MulNext(i, sz);
    body[Min(Mul(i, sz), |body|)..Min(Mul(i + 1, sz), |body|)]
  }

  lemma MulNext(i: nat, sz: nat)
    ensures Mul(i + 1, sz) == Mul(i, sz) + sz && Mul(0, sz) == 0
  {
  }

  /** c pieces of sz bytes are just enough for n bytes; at least one is always cut. */
  predicate Enough(n: nat, sz: nat, c: nat) {
    c >= 1 && n <= Mul(c, sz) && (c > 1 ==> Mul(c - 1, sz) < n)
  }

  lemma {:induction false} NextPiece(body: seq<byte>, sz: nat, i: nat)
    requires sz < |body|
    ensures Piece(body[sz..], sz, i) == Piece(body, sz, i + 1)
  {
    MulNext(i, sz);
    MulNext(i + 1, sz);
    hide Mul;
  }

  lemma {:induction false} FirstPiece(body: seq<byte>, sz: nat)
    ensures Piece(body, sz, 0) == body[..Min(sz, |body|)]
  {
    MulNext(0, sz);
    hide Mul;
  }

  lemma {:induction false} OneMorePiece(n: nat, sz: nat, c: nat)
    requires sz < n && Enough(n - sz, sz, c)
    ensures Enough(n, sz, c + 1)
  {
    MulNext(c, sz);
    MulNext(c - 1, sz);
    hide Mul;
  }

  lemma OnePiece(n: nat, sz: nat)
    requires n <= sz
    ensures Enough(n, sz, 1)
  {
  }
}
