/** BFCP client transactions: a queue of which only the head is on the wire, retransmitted on a timer.
    The outcomes of sending are given with each event, and so is the time. */
module BfcpClient {
  import opened Bytes

  const T1 := 500
  const TXC := 4

  datatype Trans = Trans(id: nat, confid: nat, userid: nat, tid: nat)

  datatype Outcome = Answered | SendError(err: Errno) | TimedOut

  /** A response handler call. */
  datatype Call = Call(id: nat, outcome: Outcome, at: nat)

  datatype Sending = Sending(id: nat, at: nat)

  /** The connection, and the record of what it did: requests accepted, sendings, handler calls. */
  datatype Conn = Conn(queue: seq<Trans>, txc: nat, due: Option<nat>, tid: nat,
                       issued: nat, accepted: seq<nat>, sends: seq<Sending>, calls: seq<Call>)

  const START := Conn([], 0, None, 0, 0, [], [], [])

  datatype Event =
    | Request(confid: nat, userid: nat, encoded: Errno, sent: Errno, at: nat)
    | Response(confid: nat, userid: nat, tid: nat, results: seq<Errno>, at: nat)
    | Timer(results: seq<Errno>, at: nat)

  // ---------------------------------------------------------------- the client

  function Result(results: seq<Errno>): Errno {
    if results == [] then OK else results[0]
  }

  function Rest(results: seq<Errno>): seq<Errno> {
    if results == [] then [] else results[1..]
  }

  /** The handler of the head is called and the head leaves the queue. */
  function Finish(c: Conn, o: Outcome, at: nat): Conn
    requires c.queue != []
  {
    c.(queue := c.queue[1..], calls := c.calls + [Call(c.queue[0].id, o, at)])
  }

  function Transmit(c: Conn, timeout: nat, txc: nat, at: nat): Conn
    requires c.queue != []
  {
    c.(sends := c.sends + [Sending(c.queue[0].id, at)], due := Some(at + timeout), txc := txc)
  }

  /** Sends the first request that can be sent; the handlers of those that cannot are told. */
  function Dispatch(c: Conn, results: seq<Errno>, at: nat): Conn
    decreases |c.queue|
  {
    if c.queue == [] then c
    else if Result(results) != OK then Dispatch(Finish(c, SendError(Result(results)), at), Rest(results), at)
    else Transmit(c, T1, 1, at)
  }

  function OnTimer(c: Conn, results: seq<Errno>, at: nat): Conn {
    var c0 := c.(due := None);
    if c.queue == [] then c0
    else if c.txc + 1 > TXC then Dispatch(Finish(c0.(txc := c.txc + 1), TimedOut, at), results, at)
    else if Result(results) != OK then
      Dispatch(Finish(c0.(txc := c.txc + 1), SendError(Result(results)), at), Rest(results), at)
    else Transmit(c0, T1 * Pow(2, c.txc), c.txc + 1, at)
  }

  predicate Matches(c: Conn, confid: nat, userid: nat, tid: nat) {
    && c.queue != []
    && tid == c.queue[0].tid && confid == c.queue[0].confid && userid == c.queue[0].userid
  }

  function OnResponse(c: Conn, confid: nat, userid: nat, tid: nat, results: seq<Errno>, at: nat): (Conn, bool) {
    if !Matches(c, confid, userid, tid) then (c, false)
    else (Dispatch(Finish(c.(due := None), Answered, at), results, at), true)
  }

  function OnRequest(c: Conn, confid: nat, userid: nat, encoded: Errno, sent: Errno, at: nat): (Conn, Errno) {
    var tid := if c.tid == 0 then 1 else c.tid;
    var t := Trans(c.issued, confid, userid, tid);
    var c0 := c.(tid := (tid + 1) % 65536, issued := c.issued + 1);
    if encoded != OK then (c0, encoded)
    else if c.queue == [] && sent != OK then (c0, sent)
    else
      var c1 := c0.(queue := c.queue + [t], accepted := c.accepted + [t.id]);
      (if c.queue == [] then Transmit(c1, T1, 1, at) else c1, OK)
  }

  function Step(c: Conn, e: Event): Conn {
    match e
    case Request(confid, userid, encoded, sent, at) => OnRequest(c, confid, userid, encoded, sent, at).0
    case Response(confid, userid, tid, results, at) => OnResponse(c, confid, userid, tid, results, at).0
    case Timer(results, at) => OnTimer(c, results, at)
  }

  // ---------------------------------------------------------------- what holds

  function TransIds(q: seq<Trans>): (r: seq<nat>)
    ensures |r| == |q| && forall i :: 0 <= i < |q| ==> r[i] == q[i].id
  {
    if q == [] then [] else [q[0].id] + TransIds(q[1..])
  }

  function CallIds(q: seq<Call>): (r: seq<nat>)
    ensures |r| == |q| && forall i :: 0 <= i < |q| ==> r[i] == q[i].id
  {
    if q == [] then [] else [q[0].id] + CallIds(q[1..])
  }

  /** When a request was sent. */
  function TimesOf(s: seq<Sending>, id: nat): seq<nat> {
    if s == [] then []
    else TimesOf(s[..|s| - 1], id) + if s[|s| - 1].id == id then [s[|s| - 1].at] else []
  }

  lemma TimesAppend(s: seq<Sending>, x: Sending, id: nat)
    ensures TimesOf(s + [x], id) == TimesOf(s, id) + if x.id == id then [x.at] else []
  {
    assert (s + [x])[..|s|] == s;
  }

  /** d milliseconds pass from a to b: exactly if timers are punctual, else at least. */
  predicate Apart(a: nat, b: nat, d: nat, punctual: bool) {
    if punctual then b == a + d else b >= a + d
  }

  /** Sendings 500, 1000, 2000 ... milliseconds apart. */
  predicate Spaced(ts: seq<nat>, punctual: bool) {
    forall i :: 0 <= i < |ts| - 1 ==> Apart(ts[i], ts[i + 1], T1 * Pow(2, i), punctual)
  }

  function TidOf(k: nat): nat {
    k % 65535 + 1
  }

  predicate Increasing(s: seq<nat>) {
    forall i, j :: 0 <= i < j < |s| ==> s[i] < s[j]
  }

  /** A completed request was sent at most four times; one that timed out exactly four times, and its
      handler was told 500 + 1000 + 2000 + 4000 milliseconds after the first. */
  predicate CallOk(c: Call, s: seq<Sending>, punctual: bool) {
    var ts := TimesOf(s, c.id);
    && |ts| <= TXC && Spaced(ts, punctual)
    && (c.outcome == Answered ==> |ts| >= 1)
    && (c.outcome == TimedOut ==> |ts| == TXC && Apart(ts[3], c.at, T1 * Pow(2, 3), punctual))
  }

  /** Requests complete in the order accepted and each handler is called once. */
  predicate Order(calls: seq<Call>, queue: seq<Trans>, accepted: seq<nat>, issued: nat) {
    && CallIds(calls) + TransIds(queue) == accepted
    && Increasing(accepted) && forall i :: 0 <= i < |accepted| ==> accepted[i] < issued
  }

  predicate CallsOk(calls: seq<Call>, sends: seq<Sending>, punctual: bool) {
    forall k :: 0 <= k < |calls| ==> CallOk(calls[k], sends, punctual)
  }

  predicate TidsOk(tid: nat, issued: nat, queue: seq<Trans>) {
    && tid < 65536 && (if tid == 0 then 1 else tid) == TidOf(issued)
    && forall i :: 0 <= i < |queue| ==> queue[i].tid == TidOf(queue[i].id)
  }

  predicate Core(c: Conn, punctual: bool) {
    && Order(c.calls, c.queue, c.accepted, c.issued)
    && CallsOk(c.calls, c.sends, punctual)
    && TidsOk(c.tid, c.issued, c.queue)
  }

  /** Requests from number `from` on have not been sent. */
  ghost predicate Unsent(c: Conn, from: nat) {
    forall id: nat :: id >= from ==> TimesOf(c.sends, id) == []
  }

  function Head(c: Conn): nat {
    if c.queue == [] then c.issued else c.queue[0].id
  }

  /** The head has been sent txc times, between one and four, and its timer is running. */
  ghost predicate OnWire(c: Conn, punctual: bool) {
    var ts := TimesOf(c.sends, Head(c));
    && 1 <= c.txc <= TXC && |ts| == c.txc && Spaced(ts, punctual)
    && c.due == Some(ts[c.txc - 1] + T1 * Pow(2, c.txc - 1))
  }

  ghost predicate Inv(c: Conn, punctual: bool) {
    && Core(c, punctual)
    && (if c.queue == [] then c.due == None && Unsent(c, c.issued)
        else OnWire(c, punctual) && Unsent(c, c.queue[0].id + 1))
  }

  /** Between two heads: nothing is on the wire. */
  ghost predicate Idle(c: Conn, punctual: bool) {
    Core(c, punctual) && c.due == None && Unsent(c, Head(c))
  }

  // ---------------------------------------------------------------- every step keeps it

  lemma {:induction false} CallIdsAppend(q: seq<Call>, x: Call)
    ensures CallIds(q + [x]) == CallIds(q) + [x.id]
  {
    if q == [] {
      assert q + [x] == [x];
    } else {
      assert (q + [x])[1..] == q[1..] + [x];
      CallIdsAppend(q[1..], x);
    }
  }

  lemma {:induction false} TransIdsAppend(q: seq<Trans>, x: Trans)
    ensures TransIds(q + [x]) == TransIds(q) + [x.id]
  {
    if q == [] {
      assert q + [x] == [x];
    } else {
      assert (q + [x])[1..] == q[1..] + [x];
      TransIdsAppend(q[1..], x);
    }
  }

  /** The head is the oldest request not completed, and older than all behind it. */
  lemma HeadIsNext(c: Conn, punctual: bool)
    requires Core(c, punctual) && c.queue != []
    ensures c.queue[0].id < c.issued
    ensures forall k :: 0 <= k < |c.calls| ==> c.calls[k].id < c.queue[0].id
    ensures |c.queue| > 1 ==> c.queue[0].id < c.queue[1].id
  {
    var n := |c.calls|;
    assert c.accepted[n] == c.queue[0].id;
    forall k | 0 <= k < n ensures c.calls[k].id < c.queue[0].id {
      assert c.accepted[k] == c.calls[k].id;
    }
    if |c.queue| > 1 { assert c.accepted[n + 1] == c.queue[1].id; }
  }

  lemma FinishOrder(calls: seq<Call>, queue: seq<Trans>, accepted: seq<nat>, issued: nat, x: Call)
    requires Order(calls, queue, accepted, issued) && queue != [] && x.id == queue[0].id
    ensures Order(calls + [x], queue[1..], accepted, issued)
  {
    CallIdsAppend(calls, x);
    ConcatAssoc(CallIds(calls), [x.id], TransIds(queue[1..]));
    hide CallIds, Increasing;
  }

  lemma FinishIdle(c: Conn, o: Outcome, at: nat, punctual: bool)
    requires Core(c, punctual) && c.queue != [] && c.due == None && Unsent(c, c.queue[0].id + 1)
    requires CallOk(Call(c.queue[0].id, o, at), c.sends, punctual)
    ensures Idle(Finish(c, o, at), punctual)
  {
    HeadIsNext(c, punctual);
    FinishOrder(c.calls, c.queue, c.accepted, c.issued, Call(c.queue[0].id, o, at));
    hide CallOk, Order, TidOf;
  }

  lemma SentCalls(calls: seq<Call>, sends: seq<Sending>, x: Sending, punctual: bool)
    requires CallsOk(calls, sends, punctual) && forall k :: 0 <= k < |calls| ==> calls[k].id != x.id
    ensures CallsOk(calls, sends + [x], punctual)
  {
    forall k | 0 <= k < |calls| ensures CallOk(calls[k], sends + [x], punctual) {
      TimesAppend(sends, x, calls[k].id);
      assert CallOk(calls[k], sends, punctual);
      assert TimesOf(sends + [x], calls[k].id) == TimesOf(sends, calls[k].id);
    }
  }

  lemma TransmitKeeps(c: Conn, timeout: nat, txc: nat, at: nat, punctual: bool)
    requires Core(c, punctual) && c.queue != [] && Unsent(c, c.queue[0].id + 1)
    requires var ts := TimesOf(c.sends, c.queue[0].id);
             && 1 <= txc <= TXC && |ts| == txc - 1 && Spaced(ts + [at], punctual) && timeout == T1 * Pow(2, txc - 1)
    ensures Inv(Transmit(c, timeout, txc, at), punctual)
  {
    HeadIsNext(c, punctual);
    var x := Sending(c.queue[0].id, at);
    TimesAppend(c.sends, x, x.id);
    SentCalls(c.calls, c.sends, x, punctual);
    forall id: nat | id > x.id ensures TimesOf(c.sends + [x], id) == [] { TimesAppend(c.sends, x, id); }
    hide Spaced, Order, CallsOk, TidsOk, TimesOf, Pow;
  }

  lemma {:induction false} DispatchKeeps(c: Conn, results: seq<Errno>, at: nat, punctual: bool)
    requires Idle(c, punctual)
    ensures Inv(Dispatch(c, results, at), punctual)
    decreases |c.queue|
  {
    if c.queue != [] {
      assert TimesOf(c.sends, c.queue[0].id) == [];
      if Result(results) != OK {
        var o := SendError(Result(results));
        FinishIdle(c, o, at, punctual);
        DispatchKeeps(Finish(c, o, at), Rest(results), at, punctual);
      } else {
        assert [] + [at] == [at] && Pow(2, 0) == 1;
        TransmitKeeps(c, T1, 1, at, punctual);
      }
    }
  }

  lemma TimerKeeps(c: Conn, results: seq<Errno>, at: nat, punctual: bool)
    requires Inv(c, punctual) && c.due.Some? && at >= c.due.value && (punctual ==> at == c.due.value)
    ensures Inv(OnTimer(c, results, at), punctual)
  {
    var c0 := c.(due := None, txc := c.txc + 1);
    var ts := TimesOf(c.sends, c.queue[0].id);
    if c.txc + 1 > TXC {
      FinishIdle(c0, TimedOut, at, punctual);
      DispatchKeeps(Finish(c0, TimedOut, at), results, at, punctual);
    } else if Result(results) != OK {
      var o := SendError(Result(results));
      FinishIdle(c0, o, at, punctual);
      DispatchKeeps(Finish(c0, o, at), Rest(results), at, punctual);
    } else {
      assert Spaced(ts + [at], punctual);
      TransmitKeeps(c.(due := None), T1 * Pow(2, c.txc), c.txc + 1, at, punctual);
    }
  }

  lemma ResponseKeeps(c: Conn, confid: nat, userid: nat, tid: nat, results: seq<Errno>, at: nat, punctual: bool)
    requires Inv(c, punctual)
    ensures Inv(OnResponse(c, confid, userid, tid, results, at).0, punctual)
  {
    if Matches(c, confid, userid, tid) {
      var c0 := c.(due := None);
      FinishIdle(c0, Answered, at, punctual);
      DispatchKeeps(Finish(c0, Answered, at), results, at, punctual);
    }
  }

  lemma NextTid(k: nat)
    ensures var t := (TidOf(k) + 1) % 65536; t < 65536 && (if t == 0 then 1 else t) == TidOf(k + 1)
  {
  }

  function Issued(c: Conn): Conn {
    c.(tid := (TidOf(c.issued) + 1) % 65536, issued := c.issued + 1)
  }

  lemma IssueKeeps(c: Conn, punctual: bool)
    requires Inv(c, punctual)
    ensures Inv(Issued(c), punctual)
  {
    AppendTids(c.tid, c.issued, c.queue, Trans(c.issued, 0, 0, TidOf(c.issued)));
    AppendOrder(c.calls, c.queue, c.accepted, c.issued, Trans(c.issued, 0, 0, 1));
    if c.queue != [] { HeadIsNext(c, punctual); }
    hide TidsOk, TidOf, Order, CallsOk, Pow, TimesOf, Spaced;
  }

  lemma AcceptKeeps(c: Conn, t: Trans, at: nat, punctual: bool)
    requires Inv(c, punctual) && t.id == c.issued && t.tid == TidOf(c.issued)
    ensures var c1 := Issued(c).(queue := c.queue + [t], accepted := c.accepted + [t.id]);
            Inv(if c.queue == [] then Transmit(c1, T1, 1, at) else c1, punctual)
  {
    AppendTids(c.tid, c.issued, c.queue, t);
    AppendOrder(c.calls, c.queue, c.accepted, c.issued, t);
    hide TidsOk, TidOf, Order, CallsOk, Pow, TimesOf, Spaced;
    var c1 := Issued(c).(queue := c.queue + [t], accepted := c.accepted + [t.id]);
    if c.queue == [] {
      assert c1.queue[0] == t && TimesOf(c.sends, t.id) == [];
      FirstSpaced(at, punctual);
      TransmitKeeps(c1, T1, 1, at, punctual);
    } else {
      assert c1.queue[0] == c.queue[0];
    }
  }

  lemma RequestKeeps(c: Conn, confid: nat, userid: nat, encoded: Errno, sent: Errno, at: nat, punctual: bool)
    requires Inv(c, punctual)
    ensures Inv(OnRequest(c, confid, userid, encoded, sent, at).0, punctual)
  {
    var t := Trans(c.issued, confid, userid, TidOf(c.issued));
    AppendTids(c.tid, c.issued, c.queue, t);
    IssueKeeps(c, punctual);
    AcceptKeeps(c, t, at, punctual);
    hide Inv, TidOf, TidsOk;
  }

  lemma FirstSpaced(at: nat, punctual: bool)
    ensures Spaced([] + [at], punctual) && T1 == T1 * Pow(2, 0)
  {
    assert [] + [at] == [at];
  }

  /** The next id in use, and the request that takes it. */
  lemma AppendTids(tid: nat, issued: nat, queue: seq<Trans>, t: Trans)
    requires TidsOk(tid, issued, queue) && t.id == issued && t.tid == TidOf(issued)
    ensures t.tid == (if tid == 0 then 1 else tid)
    ensures TidsOk((t.tid + 1) % 65536, issued + 1, queue) && TidsOk((t.tid + 1) % 65536, issued + 1, queue + [t])
  {
    NextTid(issued);
    hide TidOf;
  }

  lemma AppendOrder(calls: seq<Call>, queue: seq<Trans>, accepted: seq<nat>, issued: nat, t: Trans)
    requires Order(calls, queue, accepted, issued) && t.id == issued
    ensures Order(calls, queue, accepted, issued + 1)
    ensures Order(calls, queue + [t], accepted + [t.id], issued + 1)
  {
    TransIdsAppend(queue, t);
    ConcatAssoc(CallIds(calls), TransIds(queue), [t.id]);
    hide CallIds, TransIds;
  }

  // ---------------------------------------------------------------- runs

  /** A timer event is one that the timer can fire: it is running and its time has come. */
  predicate Possible(c: Conn, e: Event, punctual: bool) {
    e.Timer? ==> c.due.Some? && c.due.value <= e.at && (punctual ==> e.at == c.due.value)
  }

  lemma StepKeeps(c: Conn, e: Event, punctual: bool)
    requires Inv(c, punctual) && Possible(c, e, punctual)
    ensures Inv(Step(c, e), punctual)
  {
    match e
    case Request(confid, userid, encoded, sent, at) => RequestKeeps(c, confid, userid, encoded, sent, at, punctual);
    case Response(confid, userid, tid, results, at) => ResponseKeeps(c, confid, userid, tid, results, at, punctual);
    case Timer(results, at) => TimerKeeps(c, results, at, punctual);
  }

  predicate IsRun(c: Conn, es: seq<Event>, punctual: bool)
    decreases |es|
  {
    es != [] ==> Possible(c, es[0], punctual) && IsRun(Step(c, es[0]), es[1..], punctual)
  }

  function Run(c: Conn, es: seq<Event>): Conn
    decreases |es|
  {
    if es == [] then c else Run(Step(c, es[0]), es[1..])
  }

  lemma {:induction false} RunKeeps(c: Conn, es: seq<Event>, punctual: bool)
    requires Inv(c, punctual) && IsRun(c, es, punctual)
    ensures Inv(Run(c, es), punctual)
    decreases |es|
  {
    hide Inv, Step;
    if es != [] {
      StepKeeps(c, es[0], punctual);
      RunKeeps(Step(c, es[0]), es[1..], punctual);
    }
  }

  lemma StartInv(punctual: bool)
    ensures Inv(START, punctual)
  {
  }

  lemma RunInv(es: seq<Event>, punctual: bool)
    requires IsRun(START, es, punctual)
    ensures Inv(Run(START, es), punctual)
  {
    hide Inv;
    StartInv(punctual);
    RunKeeps(START, es, punctual);
  }

  /** Numbers of completed and waiting requests, by position. */
  lemma Positions(c: Conn, i: nat, j: nat)
    requires Order(c.calls, c.queue, c.accepted, c.issued)
    ensures i < |c.calls| ==> c.accepted[i] == c.calls[i].id
    ensures j < |c.queue| ==> c.accepted[|c.calls| + j] == c.queue[j].id
  {
    hide Increasing;
  }

  lemma LaterIsLarger(c: Conn, i: nat, j: nat)
    requires Order(c.calls, c.queue, c.accepted, c.issued)
    ensures i < j < |c.calls| ==> c.calls[i].id < c.calls[j].id
    ensures i < j < |c.queue| ==> c.queue[i].id < c.queue[j].id
    ensures i < |c.calls| && j < |c.queue| ==> c.calls[i].id < c.queue[j].id
  {
    Positions(c, i, j);
    Positions(c, j, i);
    hide CallIds, TransIds;
  }

  /** In every run a request waiting means a timer running and a head sent one to four times. */
  lemma HeadIsTimed(es: seq<Event>)
    requires IsRun(START, es, false)
    ensures var c := Run(START, es);
            && (c.queue == [] <==> c.due == None)
            && (c.queue != [] ==> 1 <= c.txc <= TXC && |TimesOf(c.sends, c.queue[0].id)| == c.txc)
            && forall i :: 0 < i < |c.queue| ==> TimesOf(c.sends, c.queue[i].id) == []
  {
    RunInv(es, false);
    var c := Run(START, es);
    hide IsRun, Run, Order, CallsOk, TidsOk, TimesOf, Spaced;
    forall i | 0 < i < |c.queue| ensures TimesOf(c.sends, c.queue[i].id) == [] { LaterIsLarger(c, 0, i); }
  }

  /** In every run handlers are called in the order the requests were accepted, once for each, and
      never for a request still waiting. */
  lemma OneCallEach(es: seq<Event>)
    requires IsRun(START, es, false)
    ensures var c := Run(START, es);
            && CallIds(c.calls) + TransIds(c.queue) == c.accepted
            && (forall i, j :: 0 <= i < j < |c.calls| ==> c.calls[i].id != c.calls[j].id)
            && forall i, j :: 0 <= i < |c.calls| && 0 <= j < |c.queue| ==> c.calls[i].id != c.queue[j].id
  {
    RunInv(es, false);
    var c := Run(START, es);
    assert CallIds(c.calls) + TransIds(c.queue) == c.accepted;
    hide IsRun, Run, Order, CallsOk, TidsOk, TimesOf, CallIds, TransIds;
    forall i, j | 0 <= i < j < |c.calls| ensures c.calls[i].id != c.calls[j].id { LaterIsLarger(c, i, j); }
    forall i, j | 0 <= i < |c.calls| && 0 <= j < |c.queue| ensures c.calls[i].id != c.queue[j].id {
      LaterIsLarger(c, i, j);
    }
  }

  /** A request that times out has been sent four times, and 7500 milliseconds have passed since the
      first: exactly that with punctual timers, never less. */
  lemma TimeoutAfter(es: seq<Event>, k: nat, punctual: bool)
    requires IsRun(START, es, punctual)
    requires k < |Run(START, es).calls| && Run(START, es).calls[k].outcome == TimedOut
    ensures var c := Run(START, es);
            var ts := TimesOf(c.sends, c.calls[k].id);
            |ts| == 4 && Apart(ts[0], c.calls[k].at, 7500, punctual)
  {
    RunInv(es, punctual);
    var c := Run(START, es);
    assert CallOk(c.calls[k], c.sends, punctual);
    var ts := TimesOf(c.sends, c.calls[k].id);
    assert Pow(2, 1) == 2 && Pow(2, 2) == 4 && Pow(2, 3) == 8;
    assert Apart(ts[0], ts[1], T1 * Pow(2, 0), punctual);
    assert Apart(ts[1], ts[2], T1 * Pow(2, 1), punctual);
    assert Apart(ts[2], ts[3], T1 * Pow(2, 2), punctual);
  }

  /** Transaction ids are never zero. */
  lemma TidsNeverZero(es: seq<Event>, i: nat)
    requires IsRun(START, es, false) && i < |Run(START, es).queue|
    ensures 1 <= Run(START, es).queue[i].tid <= 65535
  {
    RunInv(es, false);
    var c := Run(START, es);
    assert c.queue[i].tid == TidOf(c.queue[i].id);
    hide IsRun, Run, Order, CallsOk, TidsOk, TimesOf, OnWire, Unsent;
  }

  /** Two waiting requests share a transaction id only 65535 requests apart. */
  lemma TidsRepeatLate(es: seq<Event>, i: nat, j: nat)
    requires IsRun(START, es, false) && i < j < |Run(START, es).queue|
    ensures var q := Run(START, es).queue;
            q[i].tid == q[j].tid ==> q[j].id - q[i].id >= 65535
  {
    RunInv(es, false);
    var c := Run(START, es);
    LaterIsLarger(c, i, j);
    assert c.queue[i].tid == TidOf(c.queue[i].id) && c.queue[j].tid == TidOf(c.queue[j].id);
    hide IsRun, Run, Order, CallsOk, TidsOk, TimesOf, OnWire, Unsent, TidOf;
    TidsRepeat(c.queue[i].id, c.queue[j].id);
  }

  lemma TidsRepeat(a: nat, b: nat)
    requires a < b
    ensures TidOf(a) == TidOf(b) ==> b - a >= 65535
  {
  }

  lemma {:induction false} DispatchCalls(c: Conn, results: seq<Errno>, at: nat)
    ensures c.calls <= Dispatch(c, results, at).calls
    decreases |c.queue|
  {
    if c.queue != [] && Result(results) != OK {
      DispatchCalls(Finish(c, SendError(Result(results)), at), Rest(results), at);
    }
  }

  /** Each firing of the timer either completes the head or uses up one of its four sendings, so no
      request waits for ever. */
  lemma TimerProgress(c: Conn, results: seq<Errno>, at: nat)
    requires Inv(c, false) && c.due.Some?
    ensures var r := OnTimer(c, results, at);
            || (r.queue == c.queue && r.txc == c.txc + 1 <= TXC && r.calls == c.calls)
            || c.calls + [Call(c.queue[0].id, TimedOut, at)] <= r.calls
            || c.calls + [Call(c.queue[0].id, SendError(Result(results)), at)] <= r.calls
  {
    var c0 := c.(due := None, txc := c.txc + 1);
    DispatchCalls(Finish(c0, TimedOut, at), results, at);
    DispatchCalls(Finish(c0, SendError(Result(results)), at), Rest(results), at);
  }
}
