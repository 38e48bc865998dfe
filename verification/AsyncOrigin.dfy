/** Where the record of a submission comes from: which call made it, which cancel dropped it, which
    work handler's result it carries. */
module AsyncOrigin {
  import opened Bytes
  import opened Async
  import opened AsyncInv
  import opened AsyncRuns
  import opened AsyncProgress

  /** Step `m` is the submission numbered `s`. */
  predicate Makes(ss: seq<State>, steps: seq<Step>, m: nat, s: nat) {
    m < |steps| && m < |ss| && steps[m].Submit? && |ss[m].subs| == s
  }

  lemma OnlySubmitsAdd(st: State, step: Step)
    requires InRange(st) && Enabled(st, step)
    ensures |Apply(st, step).subs| == |st.subs| + Bit(step.Submit?)
  {
    hide Remove, Matching, Below, Locked, LeftOver;
  }

  lemma {:induction false} SubsGrow(n: nat, ss: seq<State>, steps: seq<Step>, j: nat, k: nat)
    requires IsRun(n, ss, steps) && j <= k < |ss|
    ensures |ss[j].subs| <= |ss[k].subs|
    decreases k - j
  {
    hide Apply, Enabled, InRange;
    if j < k {
      SubsGrow(n, ss, steps, j, k - 1);
      assert Steps(ss[k - 1], steps[k - 1], ss[k]);
      OnlySubmitsAdd(ss[k - 1], steps[k - 1]);
    }
  }

  /** No two steps make the same submission. */
  lemma MadeOnce(n: nat, ss: seq<State>, steps: seq<Step>, l: nat, m: nat, s: nat)
    requires IsRun(n, ss, steps) && l < m && Makes(ss, steps, l, s)
    ensures !Makes(ss, steps, m, s)
  {
    hide Apply, Enabled, InRange;
    if Makes(ss, steps, m, s) {
      assert Steps(ss[l], steps[l], ss[l + 1]);
      OnlySubmitsAdd(ss[l], steps[l]);
      SubsGrow(n, ss, steps, l + 1, m);
    }
  }

  /** Every submission on record was made by one Submit step, and carries what that step gave. */
  lemma {:induction false} MadeBy(n: nat, ss: seq<State>, steps: seq<Step>, k: nat, s: nat) returns (m: nat)
    requires IsRun(n, ss, steps) && k < |ss| && s < |ss[k].subs|
    ensures m < k && Makes(ss, steps, m, s)
    ensures var h := ss[k].subs[s];
            h.id == steps[m].id && h.hasWork == steps[m].hasWork && h.hasCb == steps[m].hasCb
  {
    hide Apply, Enabled, InRange;
    assert k > 0;
    var st := ss[k - 1];
    assert Steps(st, steps[k - 1], ss[k]);
    OnlySubmitsAdd(st, steps[k - 1]);
    if s < |st.subs| {
      m := MadeBy(n, ss, steps, k - 1, s);
      StepKeepsMade(st, steps[k - 1], s);
    } else {
      m := k - 1;
      SubmitRecords(st, steps[m]);
    }
  }

  lemma SubmitRecords(st: State, step: Step)
    requires InRange(st) && Enabled(st, step) && step.Submit?
    ensures var t := Apply(st, step);
            && |t.subs| == |st.subs| + 1
            && var h := t.subs[|st.subs|];
            h.id == step.id && h.hasWork == step.hasWork && h.hasCb == step.hasCb && !h.dropped && h.ended == 0
  {
    hide LeftOver;
  }

  // ---------------------------------------------------------------- cancels

  /** What a canceller still has to visit carries its id. */
  predicate ScanIds(st: State) {
    st.scan.Some? ==>
      forall k :: 0 <= k < |st.scan.value.todo| ==>
        st.scan.value.todo[k] < |st.items| && st.items[st.scan.value.todo[k]].id == st.scan.value.id
  }

  lemma {:induction false} MatchingIds(l: seq<nat>, items: seq<Item>, id: int)
    requires Below(l, |items|)
    ensures forall k :: 0 <= k < |Matching(l, items, id)| ==>
              Matching(l, items, id)[k] < |items| && items[Matching(l, items, id)[k]].id == id
  {
    if l != [] { MatchingIds(l[1..], items, id); }
  }

  lemma CancelStartsWithIds(st: State, id: int)
    requires InRange(st)
    ensures ScanIds(DoCancelStart(st, id))
  {
    MatchingIds(st.workl, st.items, id);
    MatchingIds(st.curl, st.items, id);
    hide Matching;
  }

  lemma CancelKeepsIds(st: State)
    requires Inv(st) && InRange(st) && Enabled(st, CancelOne) && ScanIds(st)
    ensures ScanIds(DoCancelOne(st))
  {
    hide ItemOk, SubOk, Lists, MainOk, Holders, Remove;
    var todo := st.scan.value.todo;
    forall k | 0 <= k < |todo[1..]| ensures todo[1..][k] == todo[k + 1] != todo[0] { }
  }

  /** The other steps that may happen during a cancel leave ids alone. */
  lemma OthersKeepIds(st: State, step: Step)
    requires Inv(st) && InRange(st) && Enabled(st, step) && !step.CancelStart? && !step.CancelOne? && !step.CancelDone?
    requires st.scan.Some?
    ensures var t := Apply(st, step);
            && t.scan == st.scan && |t.items| == |st.items|
            && forall w :: 0 <= w < |st.items| ==> t.items[w].id == st.items[w].id
  {
    hide ItemsOk, SubsOk, Lists, Holders, Remove, Matching, LeftOver;
  }

  lemma StepKeepsIds(st: State, step: Step)
    requires Inv(st) && InRange(st) && Enabled(st, step) && ScanIds(st)
    ensures ScanIds(Apply(st, step))
  {
    if step.CancelStart? {
      CancelStartsWithIds(st, step.id);
    } else if step.CancelOne? {
      CancelKeepsIds(st);
    } else if st.scan.Some? && !step.CancelDone? {
      OthersKeepIds(st, step);
    } else {
      NoScan(st, step);
    }
  }

  lemma NoScan(st: State, step: Step)
    requires InRange(st) && Enabled(st, step) && !step.CancelStart? && (st.scan == None || step.CancelDone?)
    ensures Apply(st, step).scan == None
  {
    hide Remove, Matching, LeftOver;
  }

  lemma {:induction false} RunScanIds(n: nat, ss: seq<State>, steps: seq<Step>, k: nat)
    requires IsRun(n, ss, steps) && k < |ss|
    ensures ScanIds(ss[k])
  {
    hide Apply, Enabled, Inv, InRange, ScanIds;
    if k == 0 {
      assert ScanIds(Init(n)) by { NothingScanned(n); }
    } else {
      RunScanIds(n, ss, steps, k - 1);
      RunInv(n, ss, steps, k - 1);
      assert Steps(ss[k - 1], steps[k - 1], ss[k]);
      StepKeepsIds(ss[k - 1], steps[k - 1]);
    }
  }

  lemma NothingScanned(n: nat)
    ensures ScanIds(Init(n))
  {
  }

  /** A canceller at work began with a CancelStart of its id, and nothing was submitted since. */
  lemma {:induction false} ScanBegan(n: nat, ss: seq<State>, steps: seq<Step>, k: nat) returns (j: nat)
    requires IsRun(n, ss, steps) && k < |ss| && ss[k].scan.Some?
    ensures j < k && steps[j] == CancelStart(ss[k].scan.value.id) && |ss[j].subs| == |ss[k].subs|
  {
    hide Apply, Enabled, InRange;
    assert k > 0;
    var st := ss[k - 1];
    assert Steps(st, steps[k - 1], ss[k]);
    OnlySubmitsAdd(st, steps[k - 1]);
    ScanStep(st, steps[k - 1]);
    if steps[k - 1].CancelStart? {
      j := k - 1;
    } else {
      j := ScanBegan(n, ss, steps, k - 1);
    }
  }

  lemma ScanStep(st: State, step: Step)
    requires InRange(st) && Enabled(st, step) && Apply(st, step).scan.Some?
    ensures if step.CancelStart? then Apply(st, step).scan.value.id == step.id
            else st.scan.Some? && !step.Submit? && Apply(st, step).scan.value.id == st.scan.value.id
  {
    hide Remove, Matching, LeftOver;
  }

  /** Only a cancel drops a submission, and only one with its id. */
  lemma DropStep(st: State, step: Step, s: nat)
    requires Inv(st) && InRange(st) && Enabled(st, step) && ScanIds(st) && s < |st.subs|
    ensures var t := Apply(st, step);
            && s < |t.subs|
            && (t.subs[s].dropped && !st.subs[s].dropped ==> st.scan.Some? && st.scan.value.id == st.subs[s].id)
  {
    hide Apply, Enabled, Inv, InRange;
    if step.CancelOne? { CancelDrops(st, s); } else { OthersDropNone(st, step, s); }
  }

  lemma CancelDrops(st: State, s: nat)
    requires Inv(st) && InRange(st) && Enabled(st, CancelOne) && ScanIds(st) && s < |st.subs|
    ensures var t := Apply(st, CancelOne);
            && s < |t.subs|
            && (t.subs[s].dropped && !st.subs[s].dropped ==> st.scan.Some? && st.scan.value.id == st.subs[s].id)
  {
    hide SubOk, Lists, MainOk, Holders, Remove, StageOk, Distinct;
    assert ItemOk(st, st.scan.value.todo[0]);
  }

  lemma OthersDropNone(st: State, step: Step, s: nat)
    requires InRange(st) && Enabled(st, step) && !step.CancelOne? && s < |st.subs|
    ensures var t := Apply(st, step); s < |t.subs| && t.subs[s].dropped == st.subs[s].dropped
  {
    hide Remove, Matching, LeftOver, Locked;
  }

  /** A submission is dropped only by a cancel that was called after it was made and named the very id
      it was submitted with: cancelling leaves all others alone. */
  lemma {:induction false} DroppedByCancel(n: nat, ss: seq<State>, steps: seq<Step>, k: nat, s: nat)
    returns (m: nat, j: nat)
    requires IsRun(n, ss, steps) && k < |ss| && s < |ss[k].subs| && ss[k].subs[s].dropped
    ensures m < j < k && Makes(ss, steps, m, s) && steps[j] == CancelStart(steps[m].id)
  {
    hide Apply, Enabled, InRange, Inv, ScanIds;
    assert k > 0;
    var st := ss[k - 1];
    assert Steps(st, steps[k - 1], ss[k]);
    OnlySubmitsAdd(st, steps[k - 1]);
    RunInv(n, ss, steps, k - 1);
    RunScanIds(n, ss, steps, k - 1);
    if s == |st.subs| {
      SubmitRecords(st, steps[k - 1]);
      assert false;
    } else if st.subs[s].dropped {
      m, j := DroppedByCancel(n, ss, steps, k - 1, s);
    } else {
      DropStep(st, steps[k - 1], s);
      j := ScanBegan(n, ss, steps, k - 1);
      m := MadeBy(n, ss, steps, k - 1, s);
      if m >= j { SubsGrow(n, ss, steps, j, m); }
    }
  }

  /** When a pool with workers rests, a submission whose id was not cancelled since has had the work
      handler and the callback that it was submitted with run exactly once each. */
  lemma UncancelledServed(n: nat, ss: seq<State>, steps: seq<Step>, k: nat, m: nat, s: nat)
    requires IsRun(n, ss, steps) && n > 0 && k < |ss| && AtRest(ss[k]) && m < k && Makes(ss, steps, m, s)
    requires forall j :: m < j < k ==> steps[j] != CancelStart(steps[m].id)
    ensures s < |ss[k].subs|
    ensures var h := ss[k].subs[s];
            if ShuttingDown(ss[k].main) then h.called + h.noticed == Bit(steps[m].hasCb)
            else h.begun == h.ended == Bit(steps[m].hasWork) && h.called == h.answered == Bit(steps[m].hasCb)
  {
    hide AtRest, Apply, Enabled, InRange;
    assert Steps(ss[m], steps[m], ss[m + 1]);
    OnlySubmitsAdd(ss[m], steps[m]);
    SubsGrow(n, ss, steps, m + 1, k);
    var l := MadeBy(n, ss, steps, k, s);
    if l < m { MadeOnce(n, ss, steps, l, m, s); } else if m < l { MadeOnce(n, ss, steps, m, l, s); }
    if ss[k].subs[s].dropped {
      var l', j := DroppedByCancel(n, ss, steps, k, s);
      if l' < m { MadeOnce(n, ss, steps, l', m, s); } else if m < l' { MadeOnce(n, ss, steps, m, l', s); }
    }
    EverySubmissionServed(n, ss, steps, k, s);
  }

  // ---------------------------------------------------------------- results

  /** Step `j` is the return of the work handler of submission `s`. */
  predicate Returns(ss: seq<State>, steps: seq<Step>, j: nat, s: nat) {
    && j < |steps| && j < |ss| && steps[j].End?
    && var st, i := ss[j], steps[j].i;
    i < |st.workers| && st.workers[i].Running? && st.workers[i].w < |st.items| && st.items[st.workers[i].w].sub == s
  }

  /** A result appears only when a work handler returns. */
  predicate Unanswered(st: State, t: State, s: nat) {
    s < |st.subs| && s < |t.subs| && t.subs[s].ended == st.subs[s].ended && t.subs[s].ret == st.subs[s].ret
  }

  lemma EndRecords(st: State, step: Step, s: nat)
    requires InRange(st) && Enabled(st, step) && step.End? && s < |st.subs|
    ensures var t := Apply(st, step);
            && s < |t.subs|
            && (Unanswered(st, t, s) || (st.items[st.workers[step.i].w].sub == s && t.subs[s].ret == step.ret))
  {
    hide Locked;
  }

  lemma OthersRecordNone(st: State, step: Step, s: nat)
    requires InRange(st) && Enabled(st, step) && !step.End? && s < |st.subs|
    ensures Unanswered(st, Apply(st, step), s)
  {
    hide Remove, Matching, LeftOver, Locked;
    if step.Submit? { assert Apply(st, step).subs[s] == st.subs[s]; }
  }

  lemma EndRuns(st: State, step: Step)
    requires InRange(st) && Enabled(st, step) && step.End?
    ensures step.i < |st.workers| && st.workers[step.i].Running? && st.workers[step.i].w < |st.items|
  {
    hide Locked;
  }

  /** The result on record for a submission is what its own work handler returned. */
  lemma {:induction false} ResultReturned(n: nat, ss: seq<State>, steps: seq<Step>, k: nat, s: nat) returns (j: nat)
    requires IsRun(n, ss, steps) && k < |ss| && s < |ss[k].subs| && ss[k].subs[s].ended > 0
    ensures j < k && Returns(ss, steps, j, s) && ss[k].subs[s].ret == steps[j].ret
  {
    hide Apply, Enabled;
    assert k > 0;
    var st := ss[k - 1];
    assert Steps(st, steps[k - 1], ss[k]);
    OnlySubmitsAdd(st, steps[k - 1]);
    if s == |st.subs| {
      SubmitRecords(st, steps[k - 1]);
      assert false;
    } else {
      if steps[k - 1].End? { EndRecords(st, steps[k - 1], s); } else { OthersRecordNone(st, steps[k - 1], s); }
      if Unanswered(st, ss[k], s) {
        j := ResultReturned(n, ss, steps, k - 1, s);
      } else {
        j := k - 1;
        EndRuns(st, steps[j]);
      }
    }
  }

  /** A callback is given what the work handler of the same submission returned. */
  lemma CallbackGetsResult(n: nat, ss: seq<State>, steps: seq<Step>, k: nat, s: nat) returns (j: nat)
    requires IsRun(n, ss, steps) && k < |ss| && s < |ss[k].subs|
    requires ss[k].subs[s].called > 0 && ss[k].subs[s].hasWork
    ensures j < k && Returns(ss, steps, j, s) && ss[k].subs[s].got == steps[j].ret
  {
    hide Apply, Enabled;
    HandlersRunOnce(n, ss, steps, k, s);
    j := ResultReturned(n, ss, steps, k, s);
  }
}
