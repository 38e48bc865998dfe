/** The order in which the work pool takes submissions and calls them back. */
module AsyncOrder {
  import opened Bytes
  import opened Async
  import opened AsyncInv
  import opened AsyncRuns

  // ---------------------------------------------------------------- taken in the order submitted

  /** The submission in the k-th place of a list. */
  function SubAt(st: State, l: seq<nat>, k: nat): int {
    if k < |l| && l[k] < |st.items| then st.items[l[k]].sub else -1
  }

  /** Waiting work is in the order of submission, all of it later than `x`. */
  predicate Waits(st: State, x: int) {
    && x < |st.subs|
    && (forall a :: 0 <= a < |st.workl| ==> x < SubAt(st, st.workl, a) < |st.subs|)
    && forall a, b :: 0 <= a < b < |st.workl| ==> SubAt(st, st.workl, a) < SubAt(st, st.workl, b)
  }

  lemma {:induction false} RemoveIs(l: seq<nat>, w: nat) returns (p: nat)
    ensures p <= |l|
    ensures Remove(l, w) == if p < |l| then l[..p] + l[p + 1..] else l
  {
    if l == [] || l[0] == w {
      p := 0;
    } else {
      p := RemoveIs(l[1..], w);
      p := p + 1;
    }
  }

  lemma WaitsFewer(st: State, t: State, x: int, p: nat)
    requires Waits(st, x) && p < |st.workl| && t.workl == st.workl[..p] + st.workl[p + 1..]
    requires |t.subs| == |st.subs| && |t.items| == |st.items|
    requires forall w :: 0 <= w < |st.items| ==> t.items[w].sub == st.items[w].sub
    ensures Waits(t, x)
  {
    forall a | 0 <= a < |t.workl|
      ensures SubAt(t, t.workl, a) == SubAt(st, st.workl, if a < p then a else a + 1)
    {
      assert t.workl[a] == st.workl[if a < p then a else a + 1];
    }
    hide SubAt;
  }

  lemma SubmitWaits(st: State, step: Step, x: int)
    requires Inv(st) && InRange(st) && Enabled(st, step) && step.Submit? && Waits(st, x)
    ensures Waits(Apply(st, step), x)
  {
    hide ItemOk, SubOk, Holders, ScanOk, MainOk, Distinct;
    var t := Apply(st, step);
    var w := if st.freel == [] then |st.items| else st.freel[0];
    if st.freel != [] { assert w in st.freel; }
    forall a | 0 <= a < |st.workl| ensures t.workl[a] == st.workl[a] && SubAt(t, t.workl, a) == SubAt(st, st.workl, a) {
      assert st.workl[a] in st.workl;
    }
    assert SubAt(t, t.workl, |st.workl|) == |st.subs|;
    hide SubAt;
  }

  /** The items carry what they did, and the waiting list changes only if `moved`. */
  predicate Carried(st: State, t: State, moved: bool) {
    && |t.items| == |st.items| && |t.subs| == |st.subs|
    && (forall w :: 0 <= w < |st.items| ==> t.items[w].sub == st.items[w].sub)
    && (!moved ==> t.workl == st.workl)
  }

  predicate ByWorkers(step: Step) {
    step.Take? || step.Begin? || step.End? || step.Push? || step.Exit?
  }

  lemma WorkersCarry(st: State, step: Step)
    requires InRange(st) && Enabled(st, step) && ByWorkers(step)
    ensures Carried(st, Apply(st, step), step.Take?)
  {
    hide Locked;
  }

  lemma OthersCarry(st: State, step: Step)
    requires InRange(st) && Enabled(st, step) && !step.Submit? && !ByWorkers(step)
    ensures Carried(st, Apply(st, step), step.CancelOne?)
  {
    hide Remove, Matching, LeftOver, Locked;
  }

  /** A step that is not a submission leaves alone what the items carry. */
  lemma ItemsCarry(st: State, step: Step)
    requires InRange(st) && Enabled(st, step) && !step.Submit?
    ensures Carried(st, Apply(st, step), step.Take? || step.CancelOne?)
  {
    hide Apply, Enabled, InRange, Carried;
    if ByWorkers(step) { WorkersCarry(st, step); } else { OthersCarry(st, step); }
  }

  lemma StepWaits(st: State, step: Step, x: int)
    requires Inv(st) && InRange(st) && Enabled(st, step) && Waits(st, x)
    ensures Waits(Apply(st, step), x)
    ensures step.Take? ==> Waits(Apply(st, step), SubAt(st, st.workl, 0))
  {
    if step.Submit? {
      SubmitWaits(st, step, x);
    } else {
      ItemsCarry(st, step);
      OthersWait(st, step, x);
    }
  }

  lemma OthersWait(st: State, step: Step, x: int)
    requires InRange(st) && Enabled(st, step) && !step.Submit? && Waits(st, x)
    requires Carried(st, Apply(st, step), step.Take? || step.CancelOne?)
    ensures Waits(Apply(st, step), x)
    ensures step.Take? ==> Waits(Apply(st, step), SubAt(st, st.workl, 0))
  {
    var t := Apply(st, step);
    if step.Take? {
      assert t.workl == st.workl[..0] + st.workl[1..];
      hide Apply, InRange, Enabled;
      WaitsFewer(st, t, x, 0);
      forall a | 0 <= a < |t.workl| ensures SubAt(t, t.workl, a) > SubAt(st, st.workl, 0) {
        assert SubAt(t, t.workl, a) == SubAt(st, st.workl, a + 1);
      }
    } else if step.CancelOne? {
      var w := st.scan.value.todo[0];
      var p := RemoveIs(st.workl, w);
      assert t.workl == st.workl || t.workl == Remove(st.workl, w);
      hide Apply, InRange, Enabled, Remove;
      if t.workl != st.workl { WaitsFewer(st, t, x, p); } else { WaitsSame(st, t, x); }
    } else {
      WaitsSame(st, t, x);
    }
  }

  lemma WaitsSame(st: State, t: State, x: int)
    requires Waits(st, x) && t.workl == st.workl && |t.subs| == |st.subs| && |t.items| == |st.items|
    requires forall w :: 0 <= w < |st.items| ==> t.items[w].sub == st.items[w].sub
    ensures Waits(t, x)
  {
    forall a | 0 <= a < |t.workl| ensures SubAt(t, t.workl, a) == SubAt(st, st.workl, a) { }
    hide SubAt;
  }

  lemma {:induction false} RunWaits(n: nat, ss: seq<State>, steps: seq<Step>, j: nat, k: nat, x: int)
    requires IsRun(n, ss, steps) && j <= k < |ss| && Waits(ss[j], x)
    ensures Waits(ss[k], x)
    decreases k - j
  {
    hide Apply, Enabled, InRange, Inv, Waits;
    if j < k {
      RunWaits(n, ss, steps, j, k - 1, x);
      RunInv(n, ss, steps, k - 1);
      assert Steps(ss[k - 1], steps[k - 1], ss[k]);
      StepWaits(ss[k - 1], steps[k - 1], x);
    }
  }

  lemma StartWaits(n: nat)
    ensures Waits(Init(n), -1)
  {
  }

  /** The submission that step `j` takes from the work list, if it takes one. */
  function Taken(ss: seq<State>, steps: seq<Step>, j: nat): int {
    if j < |steps| && j < |ss| && steps[j].Take? then SubAt(ss[j], ss[j].workl, 0) else -1
  }

  /** Whatever is cancelled in between, workers take submissions in the order in which they were made. */
  lemma TakenInOrder(n: nat, ss: seq<State>, steps: seq<Step>, j: nat, k: nat)
    requires IsRun(n, ss, steps) && j < k < |steps| && steps[j].Take? && steps[k].Take?
    ensures 0 <= Taken(ss, steps, j) < Taken(ss, steps, k) < |ss[k].subs|
  {
    hide Apply, InRange, Inv;
    StartWaits(n);
    RunWaits(n, ss, steps, 0, j, -1);
    RunInv(n, ss, steps, j);
    assert Steps(ss[j], steps[j], ss[j + 1]);
    assert Steps(ss[k], steps[k], ss[k + 1]);
    StepWaits(ss[j], steps[j], -1);
    RunWaits(n, ss, steps, j + 1, k, Taken(ss, steps, j));
  }

  // ---------------------------------------------------------------- called back in the order pushed

  /** What the first k steps put into the message queue, and what they took out of it. */
  function Pushed(ss: seq<State>, steps: seq<Step>, k: nat): seq<nat>
    requires k <= |steps| && |ss| == |steps| + 1
  {
    if k == 0 then []
    else
      Pushed(ss, steps, k - 1) +
      (match steps[k - 1]
       case Push(i) => if i < |ss[k - 1].workers| && Holding(ss[k - 1].workers[i]) then [ss[k - 1].workers[i].w] else []
       case _ => [])
  }

  function Popped(ss: seq<State>, steps: seq<Step>, k: nat): seq<nat>
    requires k <= |steps| && |ss| == |steps| + 1
  {
    if k == 0 then []
    else
      Popped(ss, steps, k - 1) +
      (if steps[k - 1].Pop? && MainHolding(ss[k].main) then [ss[k].main.w] else [])
  }

  lemma QueueStep(st: State, step: Step)
    requires InRange(st) && Enabled(st, step)
    ensures var t := Apply(st, step);
            if step.Push? then Holding(st.workers[step.i]) && t.queue == st.queue + [st.workers[step.i].w]
            else if step.Pop? then MainHolding(t.main) && st.queue == [t.main.w] + t.queue
            else t.queue == st.queue
  {
    hide Remove, Matching, LeftOver, Locked;
  }

  /** What is in the message queue is what was pushed and not popped yet, in the order pushed; so the
      main loop handles items in that order, each as often as it was pushed. */
  lemma {:induction false} PoppedInOrder(n: nat, ss: seq<State>, steps: seq<Step>, k: nat)
    requires IsRun(n, ss, steps) && k <= |steps|
    ensures Pushed(ss, steps, k) == Popped(ss, steps, k) + ss[k].queue
  {
    hide Apply, Enabled, InRange;
    if k > 0 {
      PoppedInOrder(n, ss, steps, k - 1);
      var st, step, t := ss[k - 1], steps[k - 1], ss[k];
      assert Steps(st, step, t);
      QueueStep(st, step);
      assert step.Push? ==> step.i < |st.workers| by { PushRuns(st, step); }
      var was := Popped(ss, steps, k - 1);
      if step.Push? {
        ConcatAssoc(was, st.queue, [st.workers[step.i].w]);
      } else if step.Pop? {
        ConcatAssoc(was, [t.main.w], t.queue);
      }
    }
  }

  lemma PushRuns(st: State, step: Step)
    requires Enabled(st, step)
    ensures step.Push? ==> step.i < |st.workers|
  {
    hide Locked;
  }

  // ---------------------------------------------------------------- reused in the order freed

  /** What step k - 1 puts onto the free list: an item that is done, or one that is cancelled while it
      waits. */
  function FreedBy(st: State, step: Step): seq<nat> {
    if step.Recycle? && MainHolding(st.main) then [st.main.w]
    else if step.CancelOne? && st.scan.Some? && st.scan.value.todo != [] then
      var w := st.scan.value.todo[0];
      if w < |st.items| && st.items[w].at == AtWork then [w] else []
    else []
  }

  /** The items on the free list so far, from the n that it starts with. */
  function Freed(n: nat, ss: seq<State>, steps: seq<Step>, k: nat): seq<nat>
    requires k <= |steps| && |ss| == |steps| + 1
  {
    if k == 0 then seq(n, i => i) else Freed(n, ss, steps, k - 1) + FreedBy(ss[k - 1], steps[k - 1])
  }

  /** The items that submissions took from it. */
  function Reused(ss: seq<State>, steps: seq<Step>, k: nat): seq<nat>
    requires k <= |steps| && |ss| == |steps| + 1
  {
    if k == 0 then []
    else
      var l := ss[k].workl;
      Reused(ss, steps, k - 1)
      + (if steps[k - 1].Submit? && ss[k - 1].freel != [] && l != [] then [l[|l| - 1]] else [])
  }

  lemma FreeStep(st: State, step: Step)
    requires InRange(st) && Enabled(st, step)
    ensures var t := Apply(st, step);
            if step.Submit? then
              && t.workl != []
              && (if st.freel == [] then t.freel == [] else st.freel == [t.workl[|t.workl| - 1]] + t.freel)
            else t.freel == st.freel + FreedBy(st, step)
  {
    hide Remove, Matching, LeftOver, Locked;
    if !step.Submit? && !step.Recycle? && !step.CancelOne? { assert st.freel + [] == st.freel; }
  }

  /** Items are used again in the order in which they became free, so that a submission gets the one that
      has been free for longest, with the error left in it. */
  lemma {:induction false} ReusedInOrder(n: nat, ss: seq<State>, steps: seq<Step>, k: nat)
    requires IsRun(n, ss, steps) && k <= |steps|
    ensures Freed(n, ss, steps, k) == Reused(ss, steps, k) + ss[k].freel
  {
    hide Apply, Enabled, InRange, FreedBy;
    if k > 0 {
      ReusedInOrder(n, ss, steps, k - 1);
      var st, step, t := ss[k - 1], steps[k - 1], ss[k];
      assert Steps(st, step, t);
      FreeStep(st, step);
      SubmitFreesNone(st, step);
      var was := Reused(ss, steps, k - 1);
      if !step.Submit? {
        ConcatAssoc(was, st.freel, FreedBy(st, step));
      } else if st.freel != [] {
        ConcatAssoc(was, [t.workl[|t.workl| - 1]], t.freel);
      }
    }
  }

  lemma SubmitFreesNone(st: State, step: Step)
    ensures step.Submit? ==> FreedBy(st, step) == []
  {
  }
}
