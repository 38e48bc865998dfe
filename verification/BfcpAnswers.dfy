/** Which BFCP request is answered by which response, and which are accepted at all. */
module BfcpAnswers {
  import opened Bytes
  import opened BfcpClient

  // ---------------------------------------------------------------- the event that issued a request

  function Requests(es: seq<Event>): nat {
    if es == [] then 0 else Requests(es[..|es| - 1]) + Bit(es[|es| - 1].Request?)
  }

  /** Event `i` is the request numbered `id`. */
  predicate RequestAt(es: seq<Event>, i: nat, id: nat) {
    i < |es| && es[i].Request? && Requests(es[..i]) == id
  }

  lemma RequestStays(es: seq<Event>, n: nat, i: nat, id: nat)
    requires n <= |es| && RequestAt(es[..n], i, id)
    ensures i < n && RequestAt(es, i, id) && es[i] == es[..n][i]
  {
    assert es[..n][..i] == es[..i];
  }

  /** A run without its last event is a run, and the last event can happen after it. */
  lemma {:induction false} LastEvent(c: Conn, es: seq<Event>)
    requires es != [] && IsRun(c, es, false)
    ensures var n := |es| - 1;
            && IsRun(c, es[..n], false) && Possible(Run(c, es[..n]), es[n], false)
            && Run(c, es) == Step(Run(c, es[..n]), es[n])
    decreases |es|
  {
    hide Step;
    var n := |es| - 1;
    if n == 0 {
      assert es[1..] == [];
    } else {
      LastEvent(Step(c, es[0]), es[1..]);
      assert es[1..][..n - 1] == es[..n][1..];
    }
  }

  // ---------------------------------------------------------------- one event

  /** How many of the first n sendings fail before one succeeds. */
  function Fails(results: seq<Errno>, n: nat): (d: nat)
    ensures d <= n && d <= |results|
    ensures forall k :: 0 <= k < d ==> results[k] != OK
    ensures d == n || d == |results| || results[d] == OK
  {
    if n == 0 || Result(results) == OK then 0 else 1 + Fails(Rest(results), n - 1)
  }

  /** Requests complete from the front of the queue, told of the errors of their own sendings. */
  predicate Completed(c: Conn, r: Conn, results: seq<Errno>, at: nat, d: nat) {
    && d <= |c.queue| && d <= |results| && r.queue == c.queue[d..] && |r.calls| == |c.calls| + d
    && c.calls <= r.calls
    && (forall k :: 0 <= k < d ==> r.calls[|c.calls| + k] == Call(c.queue[k].id, SendError(results[k]), at))
    && r.accepted == c.accepted && r.issued == c.issued && r.tid == c.tid
  }

  lemma {:induction false} CompletedTurn(c: Conn, r: Conn, results: seq<Errno>, at: nat, d: nat)
    requires c.queue != [] && results != []
    requires Completed(Finish(c, SendError(results[0]), at), r, results[1..], at, d)
    ensures Completed(c, r, results, at, d + 1)
  {
    var b := Finish(c, SendError(results[0]), at);
    forall k | 0 <= k < d + 1
      ensures r.calls[|c.calls| + k] == Call(c.queue[k].id, SendError(results[k]), at)
    {
      if k > 0 {
        assert r.calls[|b.calls| + (k - 1)] == Call(b.queue[k - 1].id, SendError(results[1..][k - 1]), at);
      } else {
        assert r.calls[|c.calls|] == b.calls[|c.calls|];
      }
    }
  }

  /** Dispatching tells each request that cannot be sent of its own error, and sends the first that can. */
  lemma {:induction false} DispatchExactly(c: Conn, results: seq<Errno>, at: nat)
    ensures var d, r := Fails(results, |c.queue|), Dispatch(c, results, at);
            && Completed(c, r, results, at, d)
            && r.sends == c.sends + (if d < |c.queue| then [Sending(c.queue[d].id, at)] else [])
    decreases |c.queue|
  {
    if c.queue != [] && Result(results) != OK {
      hide Completed;
      var b := Finish(c, SendError(results[0]), at);
      DispatchExactly(b, results[1..], at);
      CompletedTurn(c, Dispatch(c, results, at), results, at, Fails(results[1..], |b.queue|));
    } else {
      NoneCompleted(c, results, at);
    }
  }

  lemma NoneCompleted(c: Conn, results: seq<Errno>, at: nat)
    requires c.queue == [] || Result(results) == OK
    ensures Completed(c, Dispatch(c, results, at), results, at, 0)
  {
  }

  /** The head is called, and after it those that cannot be sent. */
  predicate Called(c: Conn, r: Conn, o: Outcome, at: nat) {
    && c.queue != [] && c.calls + [Call(c.queue[0].id, o, at)] <= r.calls
    && (forall k :: |c.calls| < k < |r.calls| ==> r.calls[k].outcome.SendError?)
    && (exists d :: 1 <= d <= |c.queue| && r.queue == c.queue[d..])
    && r.accepted == c.accepted && r.issued == c.issued
  }

  lemma {:induction false} FinishCalls(c: Conn, o: Outcome, results: seq<Errno>, at: nat)
    requires c.queue != []
    ensures Called(c, Dispatch(Finish(c, o, at), results, at), o, at)
  {
    hide Dispatch, Fails;
    var b := Finish(c, o, at);
    DispatchExactly(b, results, at);
    var d, r := Fails(results, |b.queue|), Dispatch(b, results, at);
    forall k | |c.calls| < k < |r.calls| ensures r.calls[k].outcome.SendError? {
      LaterErrors(b, r, results, at, d, k);
    }
    assert r.queue == c.queue[1 + d..];
  }

  lemma LaterErrors(b: Conn, r: Conn, results: seq<Errno>, at: nat, d: nat, k: nat)
    requires Completed(b, r, results, at, d) && |b.calls| <= k < |r.calls|
    ensures r.calls[k].outcome.SendError?
  {
    var i := k - |b.calls|;
    assert r.calls[|b.calls| + i] == Call(b.queue[i].id, SendError(results[i]), at);
  }

  /** A response to the head is handed to its handler, whoever else is told of errors after it. */
  lemma ResponseExactly(c: Conn, confid: nat, userid: nat, tid: nat, results: seq<Errno>, at: nat)
    requires c.queue != []
    ensures var r := OnResponse(c, confid, userid, tid, results, at);
            if tid == c.queue[0].tid && confid == c.queue[0].confid && userid == c.queue[0].userid then
              r.1 && Called(c, r.0, Answered, at)
            else r == (c, false)
  {
    hide Dispatch, Called;
    if Matches(c, confid, userid, tid) {
      FinishCalls(c.(due := None), Answered, results, at);
      CalledAlike(c, c.(due := None), OnResponse(c, confid, userid, tid, results, at).0, Answered, at);
    }
  }

  lemma CalledAlike(c: Conn, c0: Conn, r: Conn, o: Outcome, at: nat)
    requires Called(c0, r, o, at) && c0 == c.(due := c0.due, txc := c0.txc)
    ensures Called(c, r, o, at)
  {
  }

  /** The timer answers nothing: it sends the head again, or takes requests off the front for other
      reasons. */
  lemma TimerExactly(c: Conn, results: seq<Errno>, at: nat)
    ensures var r := OnTimer(c, results, at);
            if c.queue != [] && c.txc >= TXC then Called(c, r, TimedOut, at)
            else if c.queue != [] && Result(results) != OK then Called(c, r, SendError(Result(results)), at)
            else r.queue == c.queue && r.calls == c.calls && r.accepted == c.accepted && r.issued == c.issued
  {
    hide Dispatch, Called, Pow;
    var c0 := c.(due := None, txc := c.txc + 1);
    if c.queue != [] && c.txc >= TXC {
      FinishCalls(c0, TimedOut, results, at);
      CalledAlike(c, c0, OnTimer(c, results, at), TimedOut, at);
    } else if c.queue != [] && Result(results) != OK {
      var o := SendError(Result(results));
      FinishCalls(c0, o, Rest(results), at);
      CalledAlike(c, c0, OnTimer(c, results, at), o, at);
    }
  }

  /** Whether a request is accepted: it can be encoded, and sent unless it has to wait. */
  predicate Acceptable(c: Conn, e: Event) {
    e.Request? && e.encoded == OK && (c.queue != [] || e.sent == OK)
  }

  lemma RequestExactly(c: Conn, e: Event)
    requires e.Request?
    ensures var (r, err) := OnRequest(c, e.confid, e.userid, e.encoded, e.sent, e.at);
            && r.issued == c.issued + 1 && r.calls == c.calls
            && (err == OK <==> Acceptable(c, e))
            && r.accepted == c.accepted + (if err == OK then [c.issued] else [])
            && |r.queue| == |c.queue| + Bit(err == OK) && c.queue <= r.queue
            && (err == OK ==>
                  var t := r.queue[|c.queue|]; t.id == c.issued && t.confid == e.confid && t.userid == e.userid)
  {
  }

  // ---------------------------------------------------------------- runs

  lemma {:induction false} IssuedCount(es: seq<Event>)
    requires IsRun(START, es, false)
    ensures Run(START, es).issued == Requests(es)
    decreases |es|
  {
    hide IsRun, Run, Step;
    if es == [] {
      NothingYet(es);
    } else {
      var n := |es| - 1;
      LastEvent(START, es);
      IssuedCount(es[..n]);
      StepIssues(Run(START, es[..n]), es[n]);
    }
  }

  lemma NothingYet(es: seq<Event>)
    requires es == []
    ensures Run(START, es) == START && Requests(es) == 0
  {
  }

  lemma StepIssues(c: Conn, e: Event)
    ensures Step(c, e).issued == c.issued + Bit(e.Request?)
  {
    match e
    case Request(_, _, _, _, _) => RequestExactly(c, e);
    case Response(confid, userid, tid, results, at) =>
      if c.queue != [] { ResponseExactly(c, confid, userid, tid, results, at); }
    case Timer(results, at) => TimerExactly(c, results, at);
  }

  /** A response or the timer takes requests off the front of the queue only. */
  lemma QueueShrinks(c: Conn, e: Event) returns (d: nat)
    requires !e.Request?
    ensures d <= |c.queue| && Step(c, e).queue == c.queue[d..]
  {
    if e.Timer? {
      TimerExactly(c, e.results, e.at);
      if c.queue != [] && (c.txc >= TXC || Result(e.results) != OK) {
        d :| 1 <= d <= |c.queue| && Step(c, e).queue == c.queue[d..];
      } else {
        d := 0;
      }
    } else if c.queue == [] {
      d := 0;
    } else {
      ResponseExactly(c, e.confid, e.userid, e.tid, e.results, e.at);
      if Matches(c, e.confid, e.userid, e.tid) {
        d :| 1 <= d <= |c.queue| && Step(c, e).queue == c.queue[d..];
      } else {
        d := 0;
      }
    }
  }

  /** Every waiting request carries the conference and user of the event that issued it. */
  lemma {:induction false} IssuedBy(es: seq<Event>, m: nat) returns (i: nat)
    requires IsRun(START, es, false) && m < |Run(START, es).queue|
    ensures var t := Run(START, es).queue[m];
            RequestAt(es, i, t.id) && t.confid == es[i].confid && t.userid == es[i].userid
    decreases |es|
  {
    hide IsRun, Run, Step, Requests;
    if es == [] {
      NothingYet(es);
      assert false;
    } else {
      var n := |es| - 1;
      var c := Run(START, es[..n]);
      LastEvent(START, es);
      IssuedCount(es[..n]);
      if es[n].Request? {
        StepRequests(c, es[n]);
        if m < |c.queue| {
          i := IssuedBy(es[..n], m);
          RequestStays(es, n, i, c.queue[m].id);
        } else {
          i := n;
        }
      } else {
        var d := QueueShrinks(c, es[n]);
        i := IssuedBy(es[..n], m + d);
        RequestStays(es, n, i, c.queue[m + d].id);
      }
    }
  }

  lemma StepRequests(c: Conn, e: Event)
    requires e.Request?
    ensures var r := Step(c, e);
            && c.queue <= r.queue && |r.queue| <= |c.queue| + 1 && r.calls == c.calls
            && r.accepted == c.accepted + (if Acceptable(c, e) then [c.issued] else [])
            && (|r.queue| > |c.queue| ==>
                  var t := r.queue[|c.queue|]; t.id == c.issued && t.confid == e.confid && t.userid == e.userid)
  {
    RequestExactly(c, e);
  }

  /** What an event adds to the calls: an answer is added only by a response that names the head's own
      ids. */
  lemma AnswerStep(c: Conn, e: Event, k: nat)
    requires k < |Step(c, e).calls| && (k >= |c.calls| ==> Step(c, e).calls[k].outcome == Answered)
    ensures c.calls <= Step(c, e).calls
    ensures k >= |c.calls| ==>
              && k == |c.calls| && e.Response? && c.queue != []
              && e.tid == c.queue[0].tid && e.confid == c.queue[0].confid && e.userid == c.queue[0].userid
              && Step(c, e).calls[k] == Call(c.queue[0].id, Answered, e.at)
  {
    match e
    case Request(_, _, _, _, _) => StepRequests(c, e);
    case Response(confid, userid, tid, results, at) =>
      if c.queue != [] { ResponseExactly(c, confid, userid, tid, results, at); }
    case Timer(results, at) => TimerExactly(c, results, at);
  }

  /** Event `j` answers the request that event `i` issued with number `id`: it names the conference and
      the user of that request and the transaction id that goes with its number. */
  predicate Answers(es: seq<Event>, i: nat, j: nat, id: nat) {
    && RequestAt(es, i, id) && i < j < |es| && es[j].Response?
    && es[j].confid == es[i].confid && es[j].userid == es[i].userid && es[j].tid == TidOf(id)
  }

  /** In every run, a handler is called with an answer only for a response to its own request. */
  lemma {:induction false} AnsweredByOwn(es: seq<Event>, k: nat) returns (i: nat, j: nat)
    requires IsRun(START, es, false)
    requires k < |Run(START, es).calls| && Run(START, es).calls[k].outcome == Answered
    ensures Answers(es, i, j, Run(START, es).calls[k].id) && es[j].at == Run(START, es).calls[k].at
    decreases |es|
  {
    hide IsRun, Run, Step, Requests, TidOf;
    if es == [] {
      NothingYet(es);
      assert false;
    } else {
      var n := |es| - 1;
      var c := Run(START, es[..n]);
      LastEvent(START, es);
      AnswerStep(c, es[n], k);
      if k < |c.calls| {
        i, j := AnsweredByOwn(es[..n], k);
        RequestStays(es, n, i, c.calls[k].id);
      } else {
        i := IssuedBy(es[..n], 0);
        RequestStays(es, n, i, c.queue[0].id);
        j := n;
        HeadTid(es[..n]);
      }
    }
  }

  lemma HeadTid(es: seq<Event>)
    requires IsRun(START, es, false) && Run(START, es).queue != []
    ensures var t := Run(START, es).queue[0]; t.tid == TidOf(t.id)
  {
    hide IsRun, Run, TidOf, Order, CallsOk, OnWire, Unsent;
    RunInv(es, false);
  }

  /** Two request events with the same number are the same event. */
  lemma {:induction false} RequestOnce(es: seq<Event>, i: nat, j: nat, id: nat)
    requires RequestAt(es, i, id) && RequestAt(es, j, id)
    ensures i == j
  {
    if i < j { MoreRequests(es, i, j); } else if j < i { MoreRequests(es, j, i); }
  }

  lemma {:induction false} MoreRequests(es: seq<Event>, i: nat, j: nat)
    requires i < j <= |es| && es[i].Request?
    ensures Requests(es[..j]) > Requests(es[..i])
    decreases j
  {
    assert es[..j][..j - 1] == es[..j - 1];
    if i < j - 1 { MoreRequests(es, i, j - 1); }
  }

  /** Conversely, a response to the request at the head of the queue calls its handler, once; and one
      that does not answer it changes nothing at all. */
  lemma HeadIsAnswered(es: seq<Event>, e: Event, i: nat)
    requires IsRun(START, es, false) && e.Response? && Run(START, es).queue != []
    requires RequestAt(es, i, Run(START, es).queue[0].id)
    ensures var c := Run(START, es);
            var r := Step(c, e);
            if Answers(es + [e], i, |es|, c.queue[0].id) then Called(c, r, Answered, e.at) else r == c
  {
    hide IsRun, Run, Requests, TidOf, Matches, Finish, Dispatch;
    var c := Run(START, es);
    var l := IssuedBy(es, 0);
    RequestOnce(es, i, l, c.queue[0].id);
    assert (es + [e])[..|es|] == es;
    RequestStays(es + [e], |es|, i, c.queue[0].id);
    HeadTid(es);
    ResponseExactly(c, e.confid, e.userid, e.tid, e.results, e.at);
  }

  /** In every run, the requests accepted are those that could be encoded and that either could be sent
      or found others waiting. */
  lemma {:induction false} AcceptedExactly(es: seq<Event>, id: nat)
    requires IsRun(START, es, false)
    ensures id in Run(START, es).accepted <==>
              exists i :: 0 <= i < |es| && RequestAt(es, i, id) && Acceptable(Run(START, es[..i]), es[i])
    decreases |es|
  {
    hide IsRun, Run, Step, Requests, Acceptable;
    if es == [] {
      NothingYet(es);
    } else {
      var n := |es| - 1;
      var c := Run(START, es[..n]);
      LastEvent(START, es);
      AcceptedExactly(es[..n], id);
      IssuedCount(es[..n]);
      StepAccepts(c, es[n]);
      forall i | 0 <= i < n ensures es[..n][..i] == es[..i] && es[..n][i] == es[i] { }
      if id in Run(START, es).accepted && id !in c.accepted { assert RequestAt(es, n, id); }
      if id in c.accepted {
        var i :| 0 <= i < n && RequestAt(es[..n], i, id) && Acceptable(Run(START, es[..n][..i]), es[..n][i]);
        assert RequestAt(es, i, id) && Acceptable(Run(START, es[..i]), es[i]);
      }
      if i :| 0 <= i < |es| && RequestAt(es, i, id) && Acceptable(Run(START, es[..i]), es[i]) {
        if i < n { assert RequestAt(es[..n], i, id) && Acceptable(Run(START, es[..n][..i]), es[..n][i]); }
      }
    }
  }

  lemma StepAccepts(c: Conn, e: Event)
    ensures Step(c, e).accepted == c.accepted + (if Acceptable(c, e) then [c.issued] else [])
    ensures Acceptable(c, e) ==> e.Request?
  {
    match e
    case Request(_, _, _, _, _) => StepRequests(c, e);
    case Response(confid, userid, tid, results, at) =>
      if c.queue != [] { ResponseExactly(c, confid, userid, tid, results, at); }
    case Timer(results, at) => TimerExactly(c, results, at);
  }
}
