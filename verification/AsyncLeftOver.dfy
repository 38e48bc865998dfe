/** A run in which a callback is given the error of an earlier submission. */
module AsyncLeftOver {
  import opened Bytes
  import opened Async
  import opened AsyncRuns

  /** A pool with one worker and one item. */
  function Single(it: Item, subs: seq<Sub>, at: Place, k: Worker, m: Loop): State {
    State([it.(at := at)], subs, if at == AtFree then [0] else [], if at == AtWork then [0] else [],
          if at == AtFree || at == AtWork then [] else [0], if at == AtQueue then [0] else [],
          [k], m, None, true)
  }

  function Filled(it: Item, s: nat, hasWork: bool, hasCb: bool): Item {
    it.(sub := s, workh := hasWork, cb := hasCb, id := 7)
  }

  function Fresh(hasWork: bool, hasCb: bool, came: int): Sub {
    Sub(7, hasWork, hasCb, Some(0), false, 0, 0, 0, 0, 0, came, 0, 0)
  }

  lemma Submits(it: Item, subs: seq<Sub>, hasWork: bool, hasCb: bool)
    ensures Steps(Single(it, subs, AtFree, Idle, Waiting), Submit(7, hasWork, hasCb),
                  Single(Filled(it, |subs|, hasWork, hasCb), subs + [Fresh(hasWork, hasCb, it.err)],
                         AtWork, Idle, Waiting))
  {
    var st := Single(it, subs, AtFree, Idle, Waiting);
    assert Below(st.freel, 1) && LeftOver(st) == it.err;
    assert st.freel[1..] == [];
  }

  lemma Takes(it: Item, subs: seq<Sub>)
    requires it.sub < |subs|
    ensures Steps(Single(it, subs, AtWork, Idle, Waiting), Take(0),
                  Single(it, subs, ByWorker(0), Took(0), Waiting))
  {
    var st := Single(it, subs, AtWork, Idle, Waiting);
    assert st.workl[1..] == [];
  }

  lemma Begins(it: Item, subs: seq<Sub>)
    requires it.sub < |subs|
    ensures var h := subs[it.sub];
            Steps(Single(it, subs, ByWorker(0), Took(0), Waiting), Begin(0),
                  if it.workh then
                    Single(it, subs[it.sub := h.(begun := h.begun + 1)], ByWorker(0), Running(0), Waiting)
                  else Single(it, subs, ByWorker(0), Ran(0), Waiting))
  {
    var st := Single(it, subs, ByWorker(0), Took(0), Waiting);
    assert Below(st.curl, 1) && InRange(st);
    assert !Locked(st, 0);
  }

  lemma Ends(it: Item, subs: seq<Sub>, ret: int)
    requires it.sub < |subs|
    ensures var h := subs[it.sub];
            Steps(Single(it, subs, ByWorker(0), Running(0), Waiting), End(0, ret),
                  Single(it.(workh := false, err := ret), subs[it.sub := h.(ended := h.ended + 1, ret := ret)],
                         ByWorker(0), Ran(0), Waiting))
  {
    assert InRange(Single(it, subs, ByWorker(0), Running(0), Waiting));
  }

  lemma Pushes(it: Item, subs: seq<Sub>)
    requires it.sub < |subs|
    ensures Steps(Single(it, subs, ByWorker(0), Ran(0), Waiting), Push(0), Single(it, subs, AtQueue, Idle, Waiting))
  {
    assert InRange(Single(it, subs, ByWorker(0), Ran(0), Waiting));
  }

  lemma Pops(it: Item, subs: seq<Sub>)
    requires it.sub < |subs|
    ensures Steps(Single(it, subs, AtQueue, Idle, Waiting), Pop, Single(it, subs, ByMain, Idle, Popped(0)))
  {
    var st := Single(it, subs, AtQueue, Idle, Waiting);
    assert InRange(st) && st.queue[1..] == [];
  }

  lemma Calls(it: Item, subs: seq<Sub>)
    requires it.sub < |subs|
    ensures var h := subs[it.sub];
            Steps(Single(it, subs, ByMain, Idle, Popped(0)), Call,
                  if it.cb then
                    Single(it, subs[it.sub := h.(called := h.called + 1, got := it.err)], ByMain, Idle, InCallback(0))
                  else Single(it, subs, ByMain, Idle, Called(0)))
  {
    var st := Single(it, subs, ByMain, Idle, Popped(0));
    assert InRange(st) && !Locked(st, 0);
  }

  lemma Recycles(it: Item, subs: seq<Sub>)
    requires it.sub < |subs|
    ensures Steps(Single(it, subs, ByMain, Idle, Called(0)), Recycle,
                  Single(it, subs[it.sub := subs[it.sub].(owner := None)], AtFree, Idle, Waiting))
  {
    var st := Single(it, subs, ByMain, Idle, Called(0));
    assert InRange(st) && Remove([0], 0) == [];
  }

  lemma First(it: Item)
    requires it == Item(AtFree, 0, false, false, 0, 0)
    ensures IsRun(1, [Single(it, [], AtFree, Idle, Waiting)], [])
  {
    var st := Init(1);
    assert st.items == [it] && st.freel == [0] && st.workers == [Idle];
  }

  lemma Next(ss: seq<State>, steps: seq<Step>, step: Step, t: State) returns (tt: seq<State>, next: seq<Step>)
    requires IsRun(1, ss, steps) && Steps(ss[|ss| - 1], step, t)
    ensures IsRun(1, tt, next) && tt[|tt| - 1] == t
  {
    hide Steps;
    tt, next := ss + [t], steps + [step];
    forall k | 0 <= k < |next| ensures Steps(tt[k], next[k], tt[k + 1]) {
      if k < |steps| { assert Steps(ss[k], steps[k], ss[k + 1]); }
    }
  }

  /** A submission with a work handler that returns 5, and no callback, up to its recycling. */
  lemma FirstPasses() returns (ss: seq<State>, steps: seq<Step>, it: Item, h: Sub)
    ensures IsRun(1, ss, steps) && ss[|ss| - 1] == Single(it, [h], AtFree, Idle, Waiting)
    ensures it.err == 5 && h.hasWork && h.ret == 5
  {
    hide Steps, Single, IsRun;
    var i0 := Item(AtFree, 0, false, false, 0, 0);
    var i1 := Filled(i0, 0, true, false);
    it := i1.(workh := false, err := 5);
    var h1 := Fresh(true, false, 0);
    var h3 := h1.(begun := 1);
    var h4 := h3.(ended := 1, ret := 5);
    h := h4.(owner := None);
    assert [] + [h1] == [h1] && [h1][0 := h3] == [h3] && [h3][0 := h4] == [h4] && [h4][0 := h] == [h];
    First(i0);
    ss, steps := [Single(i0, [], AtFree, Idle, Waiting)], [];
    Submits(i0, [], true, false);
    ss, steps := Next(ss, steps, Submit(7, true, false), Single(i1, [h1], AtWork, Idle, Waiting));
    Takes(i1, [h1]);
    ss, steps := Next(ss, steps, Take(0), Single(i1, [h1], ByWorker(0), Took(0), Waiting));
    Begins(i1, [h1]);
    ss, steps := Next(ss, steps, Begin(0), Single(i1, [h3], ByWorker(0), Running(0), Waiting));
    Ends(i1, [h3], 5);
    ss, steps := Next(ss, steps, End(0, 5), Single(it, [h4], ByWorker(0), Ran(0), Waiting));
    ss, steps := Answered(ss, steps, it, [h4]);
    ss, steps := Next(ss, steps, Call, Single(it, [h4], ByMain, Idle, Called(0)));
    Recycles(it, [h4]);
    ss, steps := Next(ss, steps, Recycle, Single(it, [h], AtFree, Idle, Waiting));
  }

  /** From the worker that is through with an item to the call of its callback. */
  lemma Answered(ss: seq<State>, steps: seq<Step>, it: Item, subs: seq<Sub>)
    returns (tt: seq<State>, next: seq<Step>)
    requires IsRun(1, ss, steps) && ss[|ss| - 1] == Single(it, subs, ByWorker(0), Ran(0), Waiting)
    requires it.sub < |subs|
    ensures IsRun(1, tt, next) && tt[|tt| - 1] == Single(it, subs, ByMain, Idle, Popped(0))
    ensures var h := subs[it.sub];
            Steps(tt[|tt| - 1], Call,
                  if it.cb then
                    Single(it, subs[it.sub := h.(called := h.called + 1, got := it.err)], ByMain, Idle, InCallback(0))
                  else Single(it, subs, ByMain, Idle, Called(0)))
  {
    hide Steps, Single, IsRun;
    Pushes(it, subs);
    tt, next := Next(ss, steps, Push(0), Single(it, subs, AtQueue, Idle, Waiting));
    Pops(it, subs);
    tt, next := Next(tt, next, Pop, Single(it, subs, ByMain, Idle, Popped(0)));
    Calls(it, subs);
  }

  /** One pool, two submissions: the first has a work handler that returns 5 and no callback, the
      second no work handler. The second's callback is called with 5. */
  lemma CallbackGetsLeftOver() returns (ss: seq<State>, steps: seq<Step>)
    ensures IsRun(1, ss, steps)
    ensures var subs := ss[|ss| - 1].subs;
            && |subs| == 2 && subs[0].hasWork && subs[0].ret == 5
            && !subs[1].hasWork && subs[1].called == 1 && subs[1].got == 5
  {
    hide Steps, IsRun;
    var it, h;
    ss, steps, it, h := FirstPasses();
    var g := Fresh(false, true, 5);
    var subs := [h, g];
    var i9 := Filled(it, 1, false, true);
    assert [h] + [g] == subs;
    Submits(it, [h], false, true);
    ss, steps := Next(ss, steps, Submit(7, false, true), Single(i9, subs, AtWork, Idle, Waiting));
    Takes(i9, subs);
    ss, steps := Next(ss, steps, Take(0), Single(i9, subs, ByWorker(0), Took(0), Waiting));
    Begins(i9, subs);
    ss, steps := Next(ss, steps, Begin(0), Single(i9, subs, ByWorker(0), Ran(0), Waiting));
    ss, steps := Answered(ss, steps, i9, subs);
    ss, steps := Next(ss, steps, Call,
                      Single(i9, subs[1 := g.(called := 1, got := 5)], ByMain, Idle, InCallback(0)));
  }
}
