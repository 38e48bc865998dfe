/** The asynchronous work pool as a transition system. Each step is one critical section, or the
    stretch between two of them; submitters, cancellers, workers and the main loop interleave freely. */
module Async {
  import opened Bytes

  /** Where a work item is: in one of the lists, in the message queue, or in a thread's hands. */
  datatype Place = AtFree | AtWork | ByWorker(i: nat) | AtQueue | ByMain

  /** A work item. `sub` numbers the submission that filled it last (it stands for `arg`). */
  datatype Item = Item(at: Place, sub: nat, workh: bool, cb: bool, err: int, id: int)

  datatype Worker = Idle | Took(w: nat) | Running(w: nat) | Ran(w: nat) | Exited

  datatype Loop =
    | Waiting
    | Popped(w: nat) | InCallback(w: nat) | Called(w: nat)
    | Joining | Notifying(todo: seq<nat>) | Gone

  /** A canceller inside its critical section: it holds the pool's lock and goes through `todo`. */
  datatype Scan = Scan(id: int, todo: seq<nat>)

  /** History of one submission: its arguments, its item while it has one, whether a cancel hit it,
      how often its handlers started and returned, and three error values: the one its item came
      with, the one its work handler returned, and the one its callback was given. */
  datatype Sub = Sub(id: int, hasWork: bool, hasCb: bool, owner: Option<nat>, dropped: bool,
                     begun: nat, ended: nat, called: nat, answered: nat, noticed: nat,
                     came: int, ret: int, got: int)

  datatype State = State(items: seq<Item>, subs: seq<Sub>,
                         freel: seq<nat>, workl: seq<nat>, curl: seq<nat>, queue: seq<nat>,
                         workers: seq<Worker>, main: Loop, scan: Option<Scan>, run: bool)

  datatype Step =
    | Submit(id: int, hasWork: bool, hasCb: bool)
    | Take(i: nat) | Begin(i: nat) | End(i: nat, ret: int) | Push(i: nat) | Exit(i: nat)
    | Pop | Call | Return | Recycle
    | CancelStart(id: int) | CancelOne | CancelDone
    | Stop | Joined | Notify | Close

  // ---------------------------------------------------------------- lists

  predicate Distinct(l: seq<nat>) {
    forall i, j :: 0 <= i < j < |l| ==> l[i] != l[j]
  }

  predicate Below(l: seq<nat>, n: nat) {
    forall k :: 0 <= k < |l| ==> l[k] < n
  }

  lemma DistinctCons(l: seq<nat>)
    requires l != []
    ensures Distinct(l) <==> Distinct(l[1..]) && l[0] !in l[1..]
    ensures forall x :: x in l <==> x == l[0] || x in l[1..]
  {
    if Distinct(l[1..]) && l[0] !in l[1..] {
      forall i, j | 0 <= i < j < |l| ensures l[i] != l[j] {
        assert l[j] == l[1..][j - 1];
        if i > 0 { assert l[i] == l[1..][i - 1]; }
      }
    }
  }

  lemma DistinctAppend(l: seq<nat>, w: nat)
    requires Distinct(l) && w !in l
    ensures Distinct(l + [w]) && forall x :: x in l + [w] <==> x in l || x == w
  {
  }

  function Remove(l: seq<nat>, w: nat): seq<nat> {
    if l == [] then [] else if l[0] == w then l[1..] else [l[0]] + Remove(l[1..], w)
  }

  lemma {:induction false} RemoveKeeps(l: seq<nat>, w: nat)
    requires Distinct(l)
    ensures Distinct(Remove(l, w))
    ensures forall x :: x in Remove(l, w) <==> x in l && x != w
  {
    if l != [] {
      DistinctCons(l);
      RemoveKeeps(l[1..], w);
      if l[0] != w {
        var r := [l[0]] + Remove(l[1..], w);
        assert r[1..] == Remove(l[1..], w);
        DistinctCons(r);
      }
    }
  }

  /** Items of a list that carry a given id, in list order. */
  function Matching(l: seq<nat>, items: seq<Item>, id: int): seq<nat>
    requires Below(l, |items|)
  {
    if l == [] then []
    else (if items[l[0]].id == id then [l[0]] else []) + Matching(l[1..], items, id)
  }

  lemma {:induction false} MatchingKeeps(l: seq<nat>, items: seq<Item>, id: int)
    requires Below(l, |items|) && Distinct(l)
    ensures Distinct(Matching(l, items, id))
    ensures forall x :: x in Matching(l, items, id) <==> x in l && items[x].id == id
  {
    if l != [] {
      DistinctCons(l);
      MatchingKeeps(l[1..], items, id);
      var m := Matching(l[1..], items, id);
      if items[l[0]].id == id {
        assert ([l[0]] + m)[1..] == m;
        DistinctCons([l[0]] + m);
      } else {
        assert [] + m == m;
      }
    }
  }

  // ---------------------------------------------------------------- steps

  function Init(n: nat): State {
    State(seq(n, _ => Item(AtFree, 0, false, false, 0, 0)), [], seq(n, i => i), [], [], [],
          seq(n, _ => Idle), Waiting, None, true)
  }

  predicate Holding(k: Worker) {
    k.Took? || k.Running? || k.Ran?
  }

  predicate MainHolding(m: Loop) {
    m.Popped? || m.InCallback? || m.Called?
  }

  predicate ShuttingDown(m: Loop) {
    m.Joining? || m.Notifying? || m.Gone?
  }

  /** The item's own mutex is held while its work handler or its callback runs. */
  predicate Locked(st: State, w: nat) {
    (exists i :: 0 <= i < |st.workers| && st.workers[i] == Running(w)) || st.main == InCallback(w)
  }

  predicate Enabled(st: State, step: Step) {
    match step
    case Submit(_, _, _) => st.scan == None && !ShuttingDown(st.main)
    case Take(i) => i < |st.workers| && st.workers[i] == Idle && st.scan == None && st.run && st.workl != []
    case Begin(i) => i < |st.workers| && st.workers[i].Took? && !Locked(st, st.workers[i].w)
    case End(i, _) => i < |st.workers| && st.workers[i].Running?
    case Push(i) => i < |st.workers| && st.workers[i].Ran? && st.scan == None
    case Exit(i) => i < |st.workers| && st.workers[i] == Idle && st.scan == None && !st.run
    case Pop => st.main == Waiting && st.queue != []
    case Call => st.main.Popped? && !Locked(st, st.main.w)
    case Return => st.main.InCallback?
    case Recycle => st.main.Called? && st.scan == None
    case CancelStart(_) => st.scan == None && !ShuttingDown(st.main)
    case CancelOne => st.scan.Some? && st.scan.value.todo != [] && !Locked(st, st.scan.value.todo[0])
    case CancelDone => st.scan.Some? && st.scan.value.todo == []
    case Stop => st.main == Waiting && st.scan == None
    case Joined => st.main == Joining && forall i :: 0 <= i < |st.workers| ==> st.workers[i] == Exited
    case Notify => st.main.Notifying? && st.main.todo != []
    case Close => st.main.Notifying? && st.main.todo == []
  }

  function SetItem(st: State, w: nat, it: Item): State
    requires w < |st.items|
  {
    st.(items := st.items[w := it])
  }

  function SetSub(st: State, s: nat, h: Sub): State
    requires s < |st.subs|
  {
    st.(subs := st.subs[s := h])
  }

  function SetWorker(st: State, i: nat, k: Worker): State
    requires i < |st.workers|
  {
    st.(workers := st.workers[i := k])
  }

  /** A list of items that are in use. */
  predicate InUse(st: State, l: seq<nat>) {
    forall k :: 0 <= k < |l| ==> l[k] < |st.items| && st.items[l[k]].at != AtFree
  }

  /** Item and submission numbers in range, as far as the steps read them. */
  ghost predicate InRange(st: State) {
    && Below(st.freel, |st.items|) && Below(st.workl, |st.items|) && Below(st.curl, |st.items|)
    && Below(st.queue, |st.items|)
    && (forall w :: 0 <= w < |st.items| && st.items[w].at != AtFree ==> st.items[w].sub < |st.subs|)
    && (forall i :: 0 <= i < |st.workers| && Holding(st.workers[i]) ==>
          st.workers[i].w < |st.items| && st.items[st.workers[i].w].at != AtFree)
    && (MainHolding(st.main) ==> st.main.w < |st.items| && st.items[st.main.w].at != AtFree)
    && (st.main.Notifying? ==> InUse(st, st.main.todo))
    && (st.scan.Some? ==> InUse(st, st.scan.value.todo))
  }

  /** The error that the next submission's item comes with: what its last work handler left in it. */
  function LeftOver(st: State): int
    requires InRange(st)
  {
    if st.freel == [] then 0 else st.items[st.freel[0]].err
  }

  function DoSubmit(st: State, id: int, hasWork: bool, hasCb: bool): State
    requires InRange(st)
  {
    var s := |st.subs|;
    var w := if st.freel == [] then |st.items| else st.freel[0];
    var it := Item(AtWork, s, hasWork, hasCb, LeftOver(st), id);
    st.(items := if st.freel == [] then st.items + [it] else st.items[w := it],
        freel := if st.freel == [] then [] else st.freel[1..],
        workl := st.workl + [w],
        subs := st.subs + [Sub(id, hasWork, hasCb, Some(w), false, 0, 0, 0, 0, 0, LeftOver(st), 0, 0)])
  }

  function DoTake(st: State, i: nat): State
    requires InRange(st) && Enabled(st, Take(i))
  {
    var w := st.workl[0];
    SetWorker(SetItem(st, w, st.items[w].(at := ByWorker(i))), i, Took(w))
      .(workl := st.workl[1..], curl := st.curl + [w])
  }

  function DoBegin(st: State, i: nat): State
    requires InRange(st) && Enabled(st, Begin(i))
  {
    var w := st.workers[i].w;
    var s := st.items[w].sub;
    if st.items[w].workh
    then SetWorker(SetSub(st, s, st.subs[s].(begun := st.subs[s].begun + 1)), i, Running(w))
    else SetWorker(st, i, Ran(w))
  }

  function DoEnd(st: State, i: nat, ret: int): State
    requires InRange(st) && Enabled(st, End(i, ret))
  {
    var w := st.workers[i].w;
    var s := st.items[w].sub;
    SetWorker(SetSub(SetItem(st, w, st.items[w].(workh := false, err := ret)),
                     s, st.subs[s].(ended := st.subs[s].ended + 1, ret := ret)), i, Ran(w))
  }

  function DoPush(st: State, i: nat): State
    requires InRange(st) && Enabled(st, Push(i))
  {
    var w := st.workers[i].w;
    SetWorker(SetItem(st, w, st.items[w].(at := AtQueue)), i, Idle).(queue := st.queue + [w])
  }

  function DoPop(st: State): State
    requires InRange(st) && Enabled(st, Pop)
  {
    var w := st.queue[0];
    SetItem(st, w, st.items[w].(at := ByMain)).(queue := st.queue[1..], main := Popped(w))
  }

  function DoCall(st: State): State
    requires InRange(st) && Enabled(st, Call)
  {
    var w := st.main.w;
    var s := st.items[w].sub;
    if st.items[w].cb
    then SetSub(st, s, st.subs[s].(called := st.subs[s].called + 1, got := st.items[w].err)).(main := InCallback(w))
    else st.(main := Called(w))
  }

  function DoReturn(st: State): State
    requires InRange(st) && Enabled(st, Return)
  {
    var w := st.main.w;
    var s := st.items[w].sub;
    SetSub(SetItem(st, w, st.items[w].(cb := false)), s, st.subs[s].(answered := st.subs[s].answered + 1))
      .(main := Called(w))
  }

  function DoRecycle(st: State): State
    requires InRange(st) && Enabled(st, Recycle)
  {
    var w := st.main.w;
    var s := st.items[w].sub;
    SetSub(SetItem(st, w, st.items[w].(at := AtFree)), s, st.subs[s].(owner := None))
      .(curl := Remove(st.curl, w), freel := st.freel + [w], main := Waiting)
  }

  function DoCancelStart(st: State, id: int): State
    requires InRange(st)
  {
    st.(scan := Some(Scan(id, Matching(st.workl, st.items, id) + Matching(st.curl, st.items, id))))
  }

  function DoCancelOne(st: State): State
    requires InRange(st) && Enabled(st, CancelOne)
  {
    var w := st.scan.value.todo[0];
    var s := st.items[w].sub;
    var queued := st.items[w].at == AtWork;
    var it := st.items[w].(workh := false, cb := false, id := 0,
                           at := if queued then AtFree else st.items[w].at);
    SetSub(SetItem(st, w, it), s,
           st.subs[s].(dropped := true, owner := if queued then None else st.subs[s].owner))
      .(workl := if queued then Remove(st.workl, w) else st.workl,
        freel := if queued then st.freel + [w] else st.freel,
        scan := Some(st.scan.value.(todo := st.scan.value.todo[1..])))
  }

  function DoNotify(st: State): State
    requires InRange(st) && Enabled(st, Notify)
  {
    var w := st.main.todo[0];
    var s := st.items[w].sub;
    var next := st.(main := Notifying(st.main.todo[1..]));
    if st.items[w].cb
    then SetSub(SetItem(next, w, st.items[w].(cb := false)), s, st.subs[s].(noticed := st.subs[s].noticed + 1))
    else next
  }

  function Apply(st: State, step: Step): State
    requires InRange(st) && Enabled(st, step)
  {
    match step
    case Submit(id, hasWork, hasCb) => DoSubmit(st, id, hasWork, hasCb)
    case Take(i) => DoTake(st, i)
    case Begin(i) => DoBegin(st, i)
    case End(i, ret) => DoEnd(st, i, ret)
    case Push(i) => DoPush(st, i)
    case Exit(i) => SetWorker(st, i, Exited)
    case Pop => DoPop(st)
    case Call => DoCall(st)
    case Return => DoReturn(st)
    case Recycle => DoRecycle(st)
    case CancelStart(id) => DoCancelStart(st, id)
    case CancelOne => DoCancelOne(st)
    case CancelDone => st.(scan := None)
    case Stop => st.(run := false, main := Joining)
    case Joined => st.(main := Notifying(st.workl + st.curl))
    case Notify => DoNotify(st)
    case Close => st.(main := Gone)
  }
}
