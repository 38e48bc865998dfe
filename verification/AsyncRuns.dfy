/** What holds of the work pool in every interleaving. */
module AsyncRuns {
  import opened Bytes
  import opened Async
  import opened AsyncInv

  ghost predicate IsRun(n: nat, ss: seq<State>, steps: seq<Step>) {
    && |ss| == |steps| + 1 && ss[0] == Init(n)
    && forall k :: 0 <= k < |steps| ==> Steps(ss[k], steps[k], ss[k + 1])
  }

  ghost predicate Steps(st: State, step: Step, t: State) {
    InRange(st) && Enabled(st, step) && t == Apply(st, step)
  }

  /** Every state of a run keeps the invariant, and its lists name only existing items, so that each
      enabled step continues the run. */
  lemma {:induction false} RunInv(n: nat, ss: seq<State>, steps: seq<Step>, k: nat)
    requires IsRun(n, ss, steps) && k < |ss|
    ensures Inv(ss[k]) && InRange(ss[k])
  {
    hide Inv;
    if k == 0 {
      InitInv(n);
    } else {
      RunInv(n, ss, steps, k - 1);
      assert Steps(ss[k - 1], steps[k - 1], ss[k]);
      StepKeeps(ss[k - 1], steps[k - 1]);
    }
    InvInRange(ss[k]);
  }

  // ---------------------------------------------------------------- where items are

  predicate Held(st: State, i: nat, w: nat) {
    i < |st.workers| && Holding(st.workers[i]) && st.workers[i].w == w
  }

  predicate HeldByMain(st: State, w: nat) {
    MainHolding(st.main) && st.main.w == w
  }

  /** Every item is in exactly one list, once; and the current list is the disjoint union of what
      the workers hold, what is in the message queue and what the main loop is handling. */
  ghost predicate Partitioned(st: State) {
    && Distinct(st.freel) && Distinct(st.workl) && Distinct(st.curl) && Distinct(st.queue)
    && (forall w: nat :: Bit(w in st.freel) + Bit(w in st.workl) + Bit(w in st.curl) == Bit(w < |st.items|))
    && (forall i, j, w :: Held(st, i, w) && Held(st, j, w) ==> i == j)
    && (forall i, w :: Held(st, i, w) ==> w in st.curl && w !in st.queue && !HeldByMain(st, w))
    && (forall w: nat :: HeldByMain(st, w) ==> w in st.curl && w !in st.queue)
    && (forall w: nat :: w in st.queue ==> w in st.curl)
    && (forall w: nat :: w in st.curl && w !in st.queue && !HeldByMain(st, w) ==> exists i :: Held(st, i, w))
  }

  lemma EveryItemInOnePlace(n: nat, ss: seq<State>, steps: seq<Step>, k: nat)
    requires IsRun(n, ss, steps) && k < |ss|
    ensures Partitioned(ss[k])
  {
    hide Apply, Enabled;
    RunInv(n, ss, steps, k);
    var st := ss[k];
    forall w: nat | w in st.curl && w !in st.queue && !HeldByMain(st, w) ensures exists i :: Held(st, i, w) {
      assert ItemOk(st, w);
      assert Held(st, st.items[w].at.i, w);
    }
  }

  // ---------------------------------------------------------------- how often handlers run

  /** Each submission's work handler runs at most once, and its callback or its shutdown notice at
      most once between them; the callback comes after the work handler and is given its result.
      A submission whose item was recycled without a cancel had both run exactly once. */
  predicate OnceEach(h: Sub) {
    && h.ended <= h.begun <= 1 && h.answered <= h.called && h.called + h.noticed <= 1
    && (h.called > 0 ==> h.ended == Bit(h.hasWork) && h.got == (if h.hasWork then h.ret else h.came))
    && (h.owner.None? && !h.dropped ==>
          h.begun == h.ended == Bit(h.hasWork) && h.called == h.answered == Bit(h.hasCb) && h.noticed == 0)
  }

  lemma HandlersRunOnce(n: nat, ss: seq<State>, steps: seq<Step>, k: nat, s: nat)
    requires IsRun(n, ss, steps) && k < |ss| && s < |ss[k].subs|
    ensures OnceEach(ss[k].subs[s])
  {
    hide Apply, Enabled;
    RunInv(n, ss, steps, k);
    assert SubOk(ss[k], s);
  }

  // ---------------------------------------------------------------- left over errors

  /** What a submission was made with. */
  function Made(h: Sub): (int, bool, bool, int) {
    (h.id, h.hasWork, h.hasCb, h.came)
  }

  predicate SameMade(st: State, t: State, s: nat) {
    s < |st.subs| ==> s < |t.subs| && Made(t.subs[s]) == Made(st.subs[s])
  }

  lemma WorkersKeepMade(st: State, step: Step, s: nat)
    requires InRange(st) && Enabled(st, step) && (step.Begin? || step.End?)
    ensures SameMade(st, Apply(st, step), s)
  {
  }

  lemma MainKeepsMade(st: State, step: Step, s: nat)
    requires InRange(st) && Enabled(st, step) && (step.Call? || step.Return? || step.Recycle?)
    ensures SameMade(st, Apply(st, step), s)
  {
    hide Remove;
  }

  lemma NoticeKeepsMade(st: State, step: Step, s: nat)
    requires InRange(st) && Enabled(st, step) && (step.Notify? || step.CancelOne?)
    ensures SameMade(st, Apply(st, step), s)
  {
    hide Remove;
  }

  lemma StepKeepsMade(st: State, step: Step, s: nat)
    requires InRange(st) && Enabled(st, step)
    ensures SameMade(st, Apply(st, step), s)
  {
    if step.Begin? || step.End? {
      WorkersKeepMade(st, step, s);
    } else if step.Call? || step.Return? || step.Recycle? {
      MainKeepsMade(st, step, s);
    } else if step.Notify? || step.CancelOne? {
      NoticeKeepsMade(st, step, s);
    } else {
      hide LeftOver, Matching;
    }
  }

  /** What a submission was made with stays with it. */
  lemma {:induction false} MadeWith(n: nat, ss: seq<State>, steps: seq<Step>, j: nat, k: nat, s: nat)
    requires IsRun(n, ss, steps) && j <= k < |ss| && s < |ss[j].subs|
    ensures s < |ss[k].subs| && Made(ss[k].subs[s]) == Made(ss[j].subs[s])
    decreases k - j
  {
    hide Apply, Enabled, InRange;
    if j < k {
      MadeWith(n, ss, steps, j, k - 1, s);
      assert Steps(ss[k - 1], steps[k - 1], ss[k]);
      StepKeepsMade(ss[k - 1], steps[k - 1], s);
    }
  }

  /** A submission without a work handler hands its callback the error that was left in its item,
      so its callback is told of no error if and only if nothing was left there. */
  lemma LeftOverReported(n: nat, ss: seq<State>, steps: seq<Step>, j: nat, k: nat)
    requires IsRun(n, ss, steps) && j < k < |ss| && steps[j].Submit? && !steps[j].hasWork
    requires |ss[j].subs| < |ss[k].subs| && ss[k].subs[|ss[j].subs|].called > 0
    ensures InRange(ss[j])
    ensures ss[k].subs[|ss[j].subs|].got == LeftOver(ss[j])
    ensures ss[k].subs[|ss[j].subs|].got == 0 <==>
            ss[j].freel == [] || ss[j].items[ss[j].freel[0]].err == 0
  {
    assert Steps(ss[j], steps[j], ss[j + 1]);
    var s := |ss[j].subs|;
    assert ss[j + 1].subs[s].came == LeftOver(ss[j]) && !ss[j + 1].subs[s].hasWork;
    MadeWith(n, ss, steps, j + 1, k, s);
    HandlersRunOnce(n, ss, steps, k, s);
  }

  // ---------------------------------------------------------------- cancelling

  /** Nothing of this submission can run any more. */
  predicate Frozen(h: Sub) {
    h.owner.None? || h.dropped
  }

  predicate SameHistory(h: Sub, g: Sub) {
    && g.id == h.id && g.begun == h.begun && g.ended == h.ended
    && g.called == h.called && g.answered == h.answered && g.noticed == h.noticed
  }

  lemma WorkersKeepFrozen(st: State, step: Step, s: nat)
    requires Inv(st) && InRange(st) && Enabled(st, step) && s < |st.subs| && (step.Begin? || step.End?)
    ensures var t := Apply(st, step);
            && s < |t.subs| && t.subs[s].id == st.subs[s].id
            && (Frozen(st.subs[s]) ==> Frozen(t.subs[s]) && SameHistory(st.subs[s], t.subs[s]))
  {
    hide SubOk, Distinct;
    assert ItemOk(st, st.workers[step.i].w);
  }

  lemma MainKeepsFrozen(st: State, step: Step, s: nat)
    requires Inv(st) && InRange(st) && Enabled(st, step) && s < |st.subs|
    requires step.Call? || step.Return? || step.Recycle?
    ensures var t := Apply(st, step);
            && s < |t.subs| && t.subs[s].id == st.subs[s].id
            && (Frozen(st.subs[s]) ==> Frozen(t.subs[s]) && SameHistory(st.subs[s], t.subs[s]))
  {
    hide SubOk, Distinct;
    assert ItemOk(st, st.main.w);
  }

  lemma NoticeKeepsFrozen(st: State, step: Step, s: nat)
    requires Inv(st) && InRange(st) && Enabled(st, step) && s < |st.subs| && (step.Notify? || step.CancelOne?)
    ensures var t := Apply(st, step);
            && s < |t.subs| && t.subs[s].id == st.subs[s].id
            && (Frozen(st.subs[s]) ==> Frozen(t.subs[s]) && SameHistory(st.subs[s], t.subs[s]))
  {
    hide SubOk, Distinct;
    assert ItemOk(st, if step.Notify? then st.main.todo[0] else st.scan.value.todo[0]);
  }

  lemma StepKeepsFrozen(st: State, step: Step, s: nat)
    requires Inv(st) && InRange(st) && Enabled(st, step) && s < |st.subs|
    ensures var t := Apply(st, step);
            && s < |t.subs| && t.subs[s].id == st.subs[s].id
            && (Frozen(st.subs[s]) ==> Frozen(t.subs[s]) && SameHistory(st.subs[s], t.subs[s]))
  {
    if step.Begin? || step.End? {
      WorkersKeepFrozen(st, step, s);
    } else if step.Call? || step.Return? || step.Recycle? {
      MainKeepsFrozen(st, step, s);
    } else if step.Notify? || step.CancelOne? {
      NoticeKeepsFrozen(st, step, s);
    } else {
      hide Inv;
    }
  }

  lemma {:induction false} FrozenForGood(n: nat, ss: seq<State>, steps: seq<Step>, j: nat, k: nat, s: nat)
    requires IsRun(n, ss, steps) && j <= k < |ss| && s < |ss[j].subs| && Frozen(ss[j].subs[s])
    ensures s < |ss[k].subs| && Frozen(ss[k].subs[s]) && SameHistory(ss[j].subs[s], ss[k].subs[s])
    decreases k - j
  {
    hide Inv, Apply, Enabled, InRange;
    if j < k {
      FrozenForGood(n, ss, steps, j, k - 1, s);
      RunInv(n, ss, steps, k - 1);
      assert Steps(ss[k - 1], steps[k - 1], ss[k]);
      StepKeepsFrozen(ss[k - 1], steps[k - 1], s);
    }
  }

  /** When a cancel of `id` returns, no earlier submission with that id is in a handler, and in no
      later state has one of its handlers or callbacks started or been notified. */
  lemma CancelIsFinal(n: nat, ss: seq<State>, steps: seq<Step>, j: nat, k: nat, s: nat)
    requires IsRun(n, ss, steps) && j < k < |ss|
    requires steps[j] == CancelDone && ss[j].scan.Some?
    requires s < |ss[j].subs| && ss[j].subs[s].id == ss[j].scan.value.id
    ensures s < |ss[k].subs| && SameHistory(ss[j].subs[s], ss[k].subs[s])
    ensures ss[k].subs[s].begun == ss[k].subs[s].ended && ss[k].subs[s].called == ss[k].subs[s].answered
  {
    hide Apply;
    RunInv(n, ss, steps, j);
    var st := ss[j];
    assert Steps(st, steps[j], ss[j + 1]);
    assert SubOk(st, s);
    if st.subs[s].owner.Some? {
      assert ItemOk(st, st.subs[s].owner.value);
      assert !Wanted(st, st.subs[s].owner.value, st.scan.value.id);
    }
    FrozenForGood(n, ss, steps, j, k, s);
  }

  // ---------------------------------------------------------------- shutdown

  /** Once the pool is closed, every submission that was not cancelled has had its callback run
      or been notified exactly once, and a cancelled one has not been notified at all. */
  lemma ShutdownNotifiesAll(n: nat, ss: seq<State>, steps: seq<Step>, k: nat, s: nat)
    requires IsRun(n, ss, steps) && k < |ss| && ss[k].main == Gone && s < |ss[k].subs|
    ensures var h := ss[k].subs[s];
            if h.dropped then h.noticed == 0 else h.called + h.noticed == Bit(h.hasCb)
  {
    hide Apply, Enabled;
    RunInv(n, ss, steps, k);
    var st := ss[k];
    assert SubOk(st, s);
    if st.subs[s].owner.Some? {
      assert ItemOk(st, st.subs[s].owner.value);
    }
  }
}
