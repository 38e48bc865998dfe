/** The resumable decoder as it runs: whole segments at a time, chunk bytes copied in blocks. */
module HttpRecv {
  import opened Bytes
  import opened HttpChunk
  import opened HttpLimit

  lemma ReceiveNext(s: Rx, data: seq<byte>, p: nat, max: nat)
    requires p < |data| && s.verdict == More && s.rx == 0
    ensures Receive(s, data[p..], max) == Receive(Step(s, data[p]), data[p + 1..], max)
  {
    assert data[p..][1..] == data[p + 1..];
  }

  lemma BlockNext(s: Rx, data: seq<byte>, p: nat, max: nat)
    requires p < |data| && s.verdict == More && s.rx > 0
    ensures var n := Min(|data| - p, s.rx);
            Receive(s, data[p..], max) ==
              if |s.body| + n > max then s.(verdict := Failed(EOVERFLOW))
              else Receive(s.(rx := s.rx - n, body := s.body + data[p..p + n]), data[p + n..], max)
  {
    hide Receive;
    var n := Min(|data| - p, s.rx);
    ReceiveBlock(s, data[p..], max);
    assert data[p..][..n] == data[p..p + n] && data[p..][n..] == data[p + n..];
  }

  /** What the caller of the size decoder makes of a complete size line. */
  function LineDone(s: Rx): Rx {
    if s.chunk.size == 0 then s.(chunk := s.chunk.(trailer := true, lf := 1))
    else s.(chunk := s.chunk.(size := 0), rx := s.chunk.size)
  }

  class Request {
    var size: nat
    var lf: nat
    var trailer: bool
    var digit: bool
    var param: bool
    var rxLen: nat
    var body: seq<byte>
    const max: nat

    constructor (max: nat)
      ensures State(More) == START && Valid() && this.max == max
    {
      size, lf, trailer, digit, param := 0, 0, false, false, false;
      rxLen, body := 0, [];
      this.max := max;
    }

    ghost predicate Valid()
      reads this
    {
      size < WORD && |body| <= max
    }

    ghost function State(v: Verdict): Rx
      reads this
    {
      Rx(Chunk(size, lf, trailer, digit, param), rxLen, body, v)
    }

    method DecodeChunkSize(data: seq<byte>, start: nat) returns (err: Errno, pos: nat)
      requires Valid() && start <= |data| && rxLen == 0 && !trailer
      modifies `size, `digit, `param
      ensures Valid() && start <= pos <= |data|
      ensures var r := Receive(old(State(More)), data[start..], max);
              match err
              case OK => r == Receive(LineDone(State(More)), data[pos..], max)
              case ENODATA => pos == |data| && r == State(More)
              case EPROTO => r.verdict == Failed(EPROTO) && r.body == body
              case _ => false
    {
      hide Receive;
      ghost var r := Receive(State(More), data[start..], max);
      pos := start;
      while pos < |data|
        invariant Valid() && start <= pos <= |data| && r == Receive(State(More), data[pos..], max)
      {
        var ch := data[pos];
        var c;
        ReceiveNext(State(More), data, pos, max);
        pos := pos + 1;
        if ch == LF {
          if digit {
            digit := false;
            param := false;
            return OK, pos;
          }
          continue;
        }
        if param {
          continue;
        }
        if 48 <= ch <= 57 {
          c := ch as nat - 48;
        } else if 65 <= ch <= 70 {
          c := ch as nat - 65 + 10;
        } else if 97 <= ch <= 102 {
          c := ch as nat - 97 + 10;
        } else if ch == CR || ch == 32 || ch == 9 {
          continue;
        } else if ch == SEMICOLON && digit {
          param := true;
          continue;
        } else {
          ReceiveStopped(State(Failed(EPROTO)), data[pos..], max);
          return EPROTO, pos;
        }
        digit := true;
        size := (size * 16 + c) % WORD;
      }
      ReceiveNothing(State(More), max);
      assert data[pos..] == [];
      err := ENODATA;
    }

    method DecodeTrailer(data: seq<byte>, start: nat) returns (err: Errno, pos: nat)
      requires Valid() && start <= |data| && rxLen == 0 && trailer
      modifies `lf
      ensures Valid() && start <= pos <= |data|
      ensures var r := Receive(old(State(More)), data[start..], max);
              match err
              case OK => r.verdict == Last && r.body == body
              case ENODATA => pos == |data| && r == State(More)
              case _ => false
    {
      hide Receive;
      ghost var r := Receive(State(More), data[start..], max);
      pos := start;
      while pos < |data|
        invariant Valid() && start <= pos <= |data| && r == Receive(State(More), data[pos..], max)
      {
        var ch := data[pos];
        ReceiveNext(State(More), data, pos, max);
        pos := pos + 1;
        if ch == LF {
          lf := lf + 1;
          if lf >= 2 {
            ReceiveStopped(State(Last), data[pos..], max);
            return OK, pos;
          }
        } else if ch != CR {
          lf := 0;
        }
      }
      ReceiveNothing(State(More), max);
      assert data[pos..] == [];
      err := ENODATA;
    }

    /** Sets `rxLen` to the size of the next chunk, or to 0 at the end of the body. */
    method ChunkDecode(data: seq<byte>, start: nat) returns (err: Errno, pos: nat)
      requires Valid() && start <= |data| && rxLen == 0
      modifies `size, `digit, `param, `lf, `trailer, `rxLen
      ensures Valid() && start <= pos <= |data|
      ensures var r := Receive(old(State(More)), data[start..], max);
              match err
              case OK =>
                if rxLen == 0 then r.verdict == Last && r.body == body
                else r == Receive(State(More), data[pos..], max)
              case ENODATA => pos == |data| && r == State(More)
              case EPROTO => r.verdict == Failed(EPROTO) && r.body == body
              case _ => false
    {
      hide Receive;
      if trailer {
        err, pos := DecodeTrailer(data, start);
        return;
      }
      err, pos := DecodeChunkSize(data, start);
      if err != OK {
        return;
      }
      if size == 0 {
        trailer := true;
        lf := 1;
        err, pos := DecodeTrailer(data, pos);
        if err != OK {
          return;
        }
      }
      rxLen := size;
      size := 0;
    }

    /** Copies what the segment holds of the current chunk. */
    method WriteBody(data: seq<byte>, start: nat) returns (err: Errno, pos: nat)
      requires Valid() && start <= |data|
      modifies `rxLen, `body
      ensures Valid() && start <= pos <= |data|
      ensures var n := Min(|data| - start, old(rxLen));
              match err
              case OK =>
                && |old(body)| + n <= max && pos == start + n && rxLen == old(rxLen) - n
                && body == old(body) + data[start..pos]
              case EOVERFLOW => |body| + n > max && rxLen == old(rxLen) && body == old(body)
              case _ => false
      ensures Receive(old(State(More)), data[start..], max) ==
                if err == OK then Receive(State(More), data[pos..], max) else State(Failed(EOVERFLOW))
    {
      hide Receive;
      var n := Min(|data| - start, rxLen);
      pos := start;
      if n == 0 {
        assert body + data[start..start] == body;
        return OK, pos;
      }
      BlockNext(State(More), data, start, max);
      if |body| + n > max {
        return EOVERFLOW, pos;
      }
      body := body + data[start..start + n];
      rxLen := rxLen - n;
      pos := start + n;
      err := OK;
    }

    /** What the caller is told, and the body that is left. */
    ghost predicate Reports(r: Rx, err: Errno, last: bool)
      reads this
    {
      && body == r.body
      && match r.verdict
         case More => err == OK && !last && State(More) == r
         case Last => err == OK && last
         case Failed(e) => err == e && e in {EPROTO, EOVERFLOW} && !last
    }

    /** One segment of a chunked body. */
    method Recv(data: seq<byte>) returns (err: Errno, last: bool)
      requires Valid()
      modifies this
      ensures Valid()
      ensures Reports(Receive(old(State(More)), data, max), err, last)
    {
      hide Receive;
      ghost var r := Receive(State(More), data, max);
      var pos: nat := 0;
      last := false;
      assert data[0..] == data;
      while pos < |data|
        invariant Valid() && pos <= |data| && !last && r == Receive(State(More), data[pos..], max)
        decreases |data| - pos, if rxLen == 0 then 1 else 0
      {
        if rxLen == 0 {
          err, pos := ChunkDecode(data, pos);
          if err == ENODATA {
            return OK, false;
          } else if err != OK {
            return;
          } else if rxLen == 0 {
            last := true;
            return;
          }
        }
        err, pos := WriteBody(data, pos);
        if err != OK {
          return;
        }
      }
      ReceiveNothing(State(More), max);
      assert data[pos..] == [];
      err := OK;
    }

    /** Segments in turn, until one ends the body or is refused. Error and end depend only on the
        stream, and so does the body if it is within the limit; if it is not, the longest body that
        ends with a block and is within the limit is left. */
    method RecvAll(segs: seq<seq<byte>>) returns (err: Errno, last: bool)
      requires Valid()
      modifies this
      ensures Valid()
      ensures var s, f := old(State(More)), Feed(old(State(More)), Flatten(segs));
              if |f.body| <= max then Reports(f, err, last)
              else err == EOVERFLOW && !last && body <= f.body && LongestWithin(s, segs, max, body)
    {
      hide Receive, Feed, LongestWithin;
      ghost var s := State(More);
      SegmentsDoNotMatter(s, segs, max);
      if |Feed(s, Flatten(segs)).body| > max { OverflowLeaves(s, segs, max); }
      ghost var r := ReceiveAll(s, segs, max);
      err, last := OK, false;
      var i := 0;
      while i < |segs|
        invariant i <= |segs| && Valid() && err == OK && !last && r == ReceiveAll(State(More), segs[i..], max)
      {
        ghost var t := Receive(State(More), segs[i], max);
        assert segs[i..][1..] == segs[i + 1..];
        err, last := Recv(segs[i]);
        i := i + 1;
        if err != OK || last {
          StoppedAll(t, segs[i..], max);
          return;
        }
      }
      assert segs[i..] == [];
    }

    /** A body that is not chunked: complete once its announced length has arrived. */
    method RecvPlain(data: seq<byte>) returns (err: Errno, last: bool)
      requires Valid()
      modifies this
      ensures var n := Min(|data|, old(rxLen));
              if |old(body)| + n <= max then
                err == OK && body == old(body) + data[..n] && rxLen == old(rxLen) - n && last == (rxLen == 0)
              else err == EOVERFLOW && body == old(body) && !last
    {
      var pos;
      err, pos := WriteBody(data, 0);
      last := err == OK && rxLen == 0;
    }
  }
}
