/** The work pool comes to rest by itself, and only when nothing is left to do. */
module AsyncProgress {
  import opened Bytes
  import opened Async
  import opened AsyncInv
  import opened AsyncRuns

  /** Steps the pool takes by itself, without new calls from outside. */
  predicate Internal(step: Step) {
    !step.Submit? && !step.CancelStart? && !step.Stop?
  }

  ghost predicate AtRest(st: State) {
    forall step :: Internal(step) ==> !Enabled(st, step)
  }

  // ---------------------------------------------------------------- a bound on the steps to come

  function WorkerLoad(k: Worker): nat {
    match k
    case Exited => 0
    case Idle => 1
    case Ran(_) => 6
    case Running(_) => 7
    case Took(_) => 8
  }

  function WorkersLoad(ks: seq<Worker>): nat {
    if ks == [] then 0 else WorkerLoad(ks[0]) + WorkersLoad(ks[1..])
  }

  function MainLoad(st: State): nat {
    match st.main
    case Waiting => 0
    case Called(_) => 1
    case InCallback(_) => 2
    case Popped(_) => 3
    case Joining => 2 + |st.workl| + |st.curl|
    case Notifying(todo) => 1 + |todo|
    case Gone => 0
  }

  function ScanLoad(st: State): nat {
    if st.scan.Some? then 1 + |st.scan.value.todo| else 0
  }

  function Load(st: State): nat {
    8 * |st.workl| + WorkersLoad(st.workers) + 4 * |st.queue| + MainLoad(st) + ScanLoad(st)
  }

  lemma {:induction false} LoadSet(ks: seq<Worker>, i: nat, k: Worker)
    requires i < |ks|
    ensures WorkersLoad(ks[i := k]) + WorkerLoad(ks[i]) == WorkersLoad(ks) + WorkerLoad(k)
  {
    hide WorkerLoad;
    var t := ks[i := k];
    if i == 0 {
      assert t[1..] == ks[1..];
    } else {
      LoadSet(ks[1..], i - 1, k);
      assert t[1..] == ks[1..][i - 1 := k];
    }
  }

  lemma {:induction false} RemoveShortens(l: seq<nat>, w: nat)
    ensures |Remove(l, w)| <= |l|
  {
    if l != [] { RemoveShortens(l[1..], w); }
  }

  lemma TakeOrPushLowers(st: State, step: Step)
    requires InRange(st) && Enabled(st, step) && (step.Take? || step.Push?)
    ensures Load(Apply(st, step)) < Load(st)
  {
    hide WorkersLoad;
    LoadSet(st.workers, step.i, Apply(st, step).workers[step.i]);
  }

  lemma HandlerLowers(st: State, step: Step)
    requires InRange(st) && Enabled(st, step) && (step.Begin? || step.End?)
    ensures Load(Apply(st, step)) < Load(st)
  {
    hide WorkersLoad;
    LoadSet(st.workers, step.i, Apply(st, step).workers[step.i]);
  }

  lemma ExitLowers(st: State, step: Step)
    requires InRange(st) && Enabled(st, step) && step.Exit?
    ensures Load(Apply(st, step)) < Load(st)
  {
    hide WorkersLoad;
    LoadSet(st.workers, step.i, Exited);
  }

  lemma MainLowers(st: State, step: Step)
    requires InRange(st) && Enabled(st, step) && (step.Pop? || step.Call? || step.Return? || step.Recycle?)
    ensures Load(Apply(st, step)) < Load(st)
  {
    hide WorkersLoad, Remove, Locked;
  }

  lemma CancelLowers(st: State, step: Step)
    requires InRange(st) && Enabled(st, step) && (step.CancelOne? || step.CancelDone?)
    ensures Load(Apply(st, step)) < Load(st)
  {
    hide WorkersLoad, Remove, Locked;
    if step.CancelOne? { RemoveShortens(st.workl, st.scan.value.todo[0]); }
  }

  lemma ShutdownLowers(st: State, step: Step)
    requires InRange(st) && Enabled(st, step) && (step.Joined? || step.Notify? || step.Close?)
    ensures Load(Apply(st, step)) < Load(st)
  {
    hide WorkersLoad;
  }

  /** Every step that the pool takes by itself brings it nearer to rest. */
  lemma LoadFalls(st: State, step: Step)
    requires InRange(st) && Enabled(st, step) && Internal(step)
    ensures Load(Apply(st, step)) < Load(st)
  {
    hide Load, Apply, Enabled, InRange;
    if step.Take? || step.Push? {
      TakeOrPushLowers(st, step);
    } else if step.Begin? || step.End? {
      HandlerLowers(st, step);
    } else if step.Exit? {
      ExitLowers(st, step);
    } else if step.CancelOne? || step.CancelDone? {
      CancelLowers(st, step);
    } else if step.Joined? || step.Notify? || step.Close? {
      ShutdownLowers(st, step);
    } else {
      MainLowers(st, step);
    }
  }

  /** A pool that is left alone takes at most as many steps as its load says. */
  lemma {:induction false} RunsOut(n: nat, ss: seq<State>, steps: seq<Step>, j: nat, k: nat)
    requires IsRun(n, ss, steps) && j <= k < |ss|
    requires forall x :: j <= x < k ==> Internal(steps[x])
    ensures Load(ss[k]) + (k - j) <= Load(ss[j])
    decreases k - j
  {
    hide Load, Apply, Enabled, InRange;
    if j < k {
      RunsOut(n, ss, steps, j, k - 1);
      assert Steps(ss[k - 1], steps[k - 1], ss[k]);
      LoadFalls(ss[k - 1], steps[k - 1]);
    }
  }

  // ---------------------------------------------------------------- where it comes to rest

  /** A canceller at an item can go on, or that very item is in a handler that can return. */
  lemma CancellerNeverDeadlocks(st: State)
    requires st.scan.Some?
    ensures var todo := st.scan.value.todo;
            || (todo == [] && Enabled(st, CancelDone))
            || (todo != [] && Enabled(st, CancelOne))
            || (todo != [] && st.main == InCallback(todo[0]) && Enabled(st, Return))
            || (todo != [] && exists i: nat :: i < |st.workers| && st.workers[i] == Running(todo[0])
                                          && forall ret :: Enabled(st, End(i, ret)))
  {
    var todo := st.scan.value.todo;
    if todo != [] && Locked(st, todo[0]) && st.main != InCallback(todo[0]) {
      var i :| 0 <= i < |st.workers| && st.workers[i] == Running(todo[0]);
      assert forall ret :: Enabled(st, End(i, ret));
    }
  }

  lemma CancellerNotAtRest(st: State)
    requires st.scan.Some?
    ensures !AtRest(st)
  {
    hide Locked;
    CancellerNeverDeadlocks(st);
    var todo := st.scan.value.todo;
    if todo != [] && (exists i: nat :: i < |st.workers| && st.workers[i] == Running(todo[0])
                                  && forall ret :: Enabled(st, End(i, ret))) {
      var i: nat :| i < |st.workers| && st.workers[i] == Running(todo[0]) && forall ret :: Enabled(st, End(i, ret));
      assert Enabled(st, End(i, 0));
    } else {
      assert Enabled(st, CancelDone) || Enabled(st, CancelOne) || Enabled(st, Return);
    }
  }

  /** A worker that holds an item can always make its next step with it. */
  lemma WorkerNeverStuck(st: State, i: nat)
    requires Inv(st) && st.scan == None && i < |st.workers| && Holding(st.workers[i])
    ensures st.workers[i].Took? ==> Enabled(st, Begin(i))
    ensures st.workers[i].Running? ==> forall ret :: Enabled(st, End(i, ret))
    ensures st.workers[i].Ran? ==> Enabled(st, Push(i))
  {
    hide SubOk, ScanOk, MainOk, Lists;
    var w := st.workers[i].w;
    assert ItemOk(st, w);
    if st.workers[i].Took? {
      assert !Locked(st, w);
    }
  }

  lemma HolderNotAtRest(st: State, i: nat)
    requires Inv(st) && st.scan == None && i < |st.workers| && Holding(st.workers[i])
    ensures !AtRest(st)
  {
    WorkerNeverStuck(st, i);
    assert Enabled(st, Begin(i)) || Enabled(st, End(i, 0)) || Enabled(st, Push(i));
  }

  /** The main loop can always go on with the item that it is handling. */
  lemma MainNeverStuck(st: State)
    requires Inv(st) && st.scan == None && MainHolding(st.main)
    ensures match st.main
            case Popped(_) => Enabled(st, Call)
            case InCallback(_) => Enabled(st, Return)
            case _ => Enabled(st, Recycle)
  {
    hide SubOk, ScanOk, MainOk, Lists;
    assert ItemOk(st, st.main.w);
  }

  lemma MainNotAtRest(st: State)
    requires Inv(st) && st.scan == None && MainHolding(st.main)
    ensures !AtRest(st)
  {
    MainNeverStuck(st);
    assert Enabled(st, Call) || Enabled(st, Return) || Enabled(st, Recycle);
  }

  lemma NothingQueued(st: State)
    requires Inv(st) && |st.workers| > 0 && st.main == Waiting && st.scan == None && AtRest(st)
    requires forall i :: 0 <= i < |st.workers| ==> !Holding(st.workers[i])
    ensures st.queue == [] && st.workl == []
  {
    hide ItemOk, SubOk, Lists, Holders;
    assert !Enabled(st, Pop) && !Enabled(st, Take(0));
    assert st.run && st.workers[0] == Idle;
  }

  /** An item of the current list is in the message queue or in a thread's hands. */
  lemma CurrentIsHeld(st: State, w: nat)
    requires Inv(st) && w in st.curl
    ensures w in st.queue || MainHolding(st.main) || exists i :: 0 <= i < |st.workers| && Holding(st.workers[i])
  {
    hide SubOk, ScanOk, MainOk, Distinct;
    assert ItemOk(st, w);
  }

  lemma NobodyHolds(st: State)
    requires Inv(st) && AtRest(st)
    ensures st.scan == None && !MainHolding(st.main)
    ensures forall i :: 0 <= i < |st.workers| ==> !Holding(st.workers[i])
  {
    hide AtRest, Inv;
    if st.scan.Some? { CancellerNotAtRest(st); }
    if MainHolding(st.main) { MainNotAtRest(st); }
    forall i | 0 <= i < |st.workers| ensures !Holding(st.workers[i]) {
      if Holding(st.workers[i]) { HolderNotAtRest(st, i); }
    }
  }

  /** A pool in service that rests has nothing queued, nothing in hand and no canceller waiting. */
  lemma RestsWhenDone(st: State)
    requires Inv(st) && |st.workers| > 0 && !ShuttingDown(st.main) && AtRest(st)
    ensures st.workl == [] && st.curl == [] && st.scan == None && st.main == Waiting
  {
    hide AtRest, Inv;
    NobodyHolds(st);
    NothingQueued(st);
    if st.curl != [] { CurrentIsHeld(st, st.curl[0]); }
  }

  lemma JoiningNotAtRest(st: State)
    requires st.main == Joining && st.scan == None && !st.run
    requires forall i :: 0 <= i < |st.workers| ==> !Holding(st.workers[i])
    ensures !AtRest(st)
  {
    if i :| 0 <= i < |st.workers| && st.workers[i] != Exited {
      assert Enabled(st, Exit(i));
    } else {
      assert Enabled(st, Joined);
    }
  }

  lemma NotifyingNotAtRest(st: State)
    requires st.main.Notifying?
    ensures !AtRest(st)
  {
    assert Enabled(st, Notify) || Enabled(st, Close);
  }

  /** A pool that is being shut down rests only when it is closed. */
  lemma RestsWhenClosed(st: State)
    requires Inv(st) && ShuttingDown(st.main) && AtRest(st)
    ensures st.main == Gone
  {
    hide AtRest, ItemOk, SubOk, Lists, Holders;
    NobodyHolds(st);
    if st.main == Joining {
      JoiningNotAtRest(st);
    } else if st.main.Notifying? {
      NotifyingNotAtRest(st);
    }
  }

  lemma {:induction false} WorkersStay(n: nat, ss: seq<State>, steps: seq<Step>, k: nat)
    requires IsRun(n, ss, steps) && k < |ss|
    ensures |ss[k].workers| == n
  {
    hide Apply, Enabled, InRange;
    if k > 0 {
      WorkersStay(n, ss, steps, k - 1);
      assert Steps(ss[k - 1], steps[k - 1], ss[k]);
      StepKeepsWorkers(ss[k - 1], steps[k - 1]);
    }
  }

  lemma StepKeepsWorkers(st: State, step: Step)
    requires InRange(st) && Enabled(st, step)
    ensures |Apply(st, step).workers| == |st.workers|
  {
    hide Remove, Matching, Below, Locked, LeftOver;
  }

  lemma OwnedIsListed(st: State, s: nat)
    requires Inv(st) && s < |st.subs| && st.subs[s].owner.Some?
    ensures st.subs[s].owner.value in st.workl || st.subs[s].owner.value in st.curl
  {
    hide ItemOk, ScanOk, MainOk, Holders;
    assert SubOk(st, s);
  }

  /** When a pool with workers rests, as it does once it is left alone, each submission that no cancel
      hit has had its work handler and its callback run exactly once; after a shutdown its callback
      ran or was notified. */
  lemma EverySubmissionServed(n: nat, ss: seq<State>, steps: seq<Step>, k: nat, s: nat)
    requires IsRun(n, ss, steps) && n > 0 && k < |ss| && AtRest(ss[k]) && s < |ss[k].subs|
    ensures var h := ss[k].subs[s];
            h.dropped
            || (if ShuttingDown(ss[k].main) then h.called + h.noticed == Bit(h.hasCb)
                else h.begun == h.ended == Bit(h.hasWork) && h.called == h.answered == Bit(h.hasCb))
  {
    hide AtRest, Steps;
    RunInv(n, ss, steps, k);
    WorkersStay(n, ss, steps, k);
    if ShuttingDown(ss[k].main) {
      RestsWhenClosed(ss[k]);
      ShutdownNotifiesAll(n, ss, steps, k, s);
    } else {
      RestsWhenDone(ss[k]);
      HandlersRunOnce(n, ss, steps, k, s);
      if ss[k].subs[s].owner.Some? { OwnedIsListed(ss[k], s); }
    }
  }
}
