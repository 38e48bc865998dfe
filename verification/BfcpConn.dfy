/** The BFCP client as it runs: queue, counters and timer updated by events. Sending is the caller's:
    each call is given the results of the sendings it may attempt. */
module BfcpConn {
  import opened Bytes
  import opened BfcpClient

  class Connection {
    var queue: seq<Trans>
    var txc: nat
    var due: Option<nat>        // when the timer fires, if it is running
    var tid: nat
    // what went out and who was told
    var issued: nat
    var accepted: seq<nat>
    var sends: seq<Sending>
    var calls: seq<Call>

    constructor ()
      ensures Abs() == START
    {
      queue, txc, due, tid := [], 0, None, 0;
      issued, accepted, sends, calls := 0, [], [], [];
    }

    ghost function Abs(): Conn
      reads this
    {
      Conn(queue, txc, due, tid, issued, accepted, sends, calls)
    }

    method Complete(o: Outcome, at: nat)
      requires queue != []
      modifies `queue, `calls
      ensures Abs() == Finish(old(Abs()), o, at)
    {
      calls := calls + [Call(queue[0].id, o, at)];
      queue := queue[1..];
    }

    method Send(timeout: nat, at: nat)
      requires queue != []
      modifies `sends, `due
      ensures Abs() == Transmit(old(Abs()), timeout, txc, at)
    {
      sends := sends + [Sending(queue[0].id, at)];
      due := Some(at + timeout);
    }

    method DispatchNext(results: seq<Errno>, at: nat)
      modifies this
      ensures Abs() == Dispatch(old(Abs()), results, at)
    {
      ghost var all := Dispatch(Abs(), results, at);
      var rs := results;
      while queue != []
        invariant Dispatch(Abs(), rs, at) == all
        decreases |queue|
      {
        var err := Result(rs);
        rs := Rest(rs);
        if err != OK {
          Complete(SendError(err), at);
          continue;
        }
        txc := 1;
        Send(T1, at);
        return;
      }
    }

    method HandleTimer(results: seq<Errno>, at: nat)
      modifies this
      ensures Abs() == OnTimer(old(Abs()), results, at)
    {
      due := None;
      if queue == [] {
        return;
      }
      var timeout := T1 * Pow(2, txc);
      txc := txc + 1;
      if txc > TXC {
        Complete(TimedOut, at);
        DispatchNext(results, at);
        return;
      }
      var err := Result(results);
      if err != OK {
        Complete(SendError(err), at);
        DispatchNext(Rest(results), at);
        return;
      }
      Send(timeout, at);
    }

    method HandleResponse(confid: nat, userid: nat, mtid: nat, results: seq<Errno>, at: nat) returns (handled: bool)
      modifies this
      ensures (Abs(), handled) == OnResponse(old(Abs()), confid, userid, mtid, results, at)
    {
      if queue == [] {
        return false;
      }
      var ct := queue[0];
      if mtid != ct.tid {
        return false;
      }
      if confid != ct.confid {
        return false;
      }
      if userid != ct.userid {
        return false;
      }
      due := None;
      Complete(Answered, at);
      DispatchNext(results, at);
      handled := true;
    }

    method MakeRequest(confid: nat, userid: nat, encoded: Errno, sent: Errno, at: nat) returns (err: Errno)
      modifies this
      ensures (Abs(), err) == OnRequest(old(Abs()), confid, userid, encoded, sent, at)
    {
      if tid == 0 {
        tid := 1;
      }
      var ct := Trans(issued, confid, userid, tid);
      tid := (tid + 1) % 65536;
      issued := issued + 1;
      if encoded != OK {
        return encoded;
      }
      if queue == [] {
        if sent != OK {
          return sent;
        }
        sends := sends + [Sending(ct.id, at)];
        due := Some(at + T1);
        txc := 1;
      }
      queue := queue + [ct];
      accepted := accepted + [ct.id];
      err := OK;
    }
  }
}
