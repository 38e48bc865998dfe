/** The invariant of the work pool, kept by every step. */
module AsyncInv {
  import opened Bytes
  import opened Async

  // ---------------------------------------------------------------- invariant

  /** Each list holds exactly the items whose place says so, each of them once. */
  ghost predicate Lists(st: State) {
    && Distinct(st.freel) && Distinct(st.workl) && Distinct(st.curl) && Distinct(st.queue)
    && (forall w: nat :: w in st.freel <==> w < |st.items| && st.items[w].at == AtFree)
    && (forall w: nat :: w in st.workl <==> w < |st.items| && st.items[w].at == AtWork)
    && (forall w: nat :: w in st.curl <==> w < |st.items| && st.items[w].at != AtFree && st.items[w].at != AtWork)
    && (forall w: nat :: w in st.queue <==> w < |st.items| && st.items[w].at == AtQueue)
  }

  ghost predicate Holders(st: State) {
    && (forall i :: 0 <= i < |st.workers| && Holding(st.workers[i]) ==>
          st.workers[i].w < |st.items| && st.items[st.workers[i].w].at == ByWorker(i))
    && (MainHolding(st.main) ==> st.main.w < |st.items| && st.items[st.main.w].at == ByMain)
  }

  predicate Working(st: State, w: nat)
    requires w < |st.items|
  {
    var at := st.items[w].at;
    at.ByWorker? && at.i < |st.workers| && st.workers[at.i] == Running(w)
  }

  /** What an item's place says about its handlers and its submission. */
  predicate StageOk(st: State, w: nat, it: Item, h: Sub) {
    match it.at
    case AtFree => true
    case AtWork => !h.dropped && h.begun == 0 && h.called == 0
    case ByWorker(i) =>
      && i < |st.workers|
      && Holding(st.workers[i]) && st.workers[i].w == w
      && h.called == 0
      && (match st.workers[i]
          case Took(_) => h.begun == 0
          case Running(_) => it.workh && !h.dropped
          case _ => !it.workh)
    case AtQueue => !it.workh && h.called == 0
    case ByMain =>
      && !it.workh
      && MainHolding(st.main) && st.main.w == w
      && (match st.main
          case Popped(_) => h.called == 0
          case InCallback(_) => it.cb && !h.dropped
          case _ => !it.cb)
  }

  predicate ItemOk(st: State, w: nat)
    requires w < |st.items|
  {
    var it := st.items[w];
    if it.at == AtFree then !it.workh && !it.cb
    else
      && it.sub < |st.subs|
      && var h := st.subs[it.sub];
      && h.owner == Some(w)
      && (if h.dropped then !it.workh && !it.cb
          else
            && it.id == h.id
            && Bit(it.workh) + h.ended == Bit(h.hasWork)
            && Bit(it.cb) + h.answered + h.noticed == Bit(h.hasCb)
            && it.err == (if h.ended > 0 then h.ret else h.came))
      && h.begun == h.ended + Bit(Working(st, w))
      && h.called == h.answered + Bit(st.main == InCallback(w))
      && StageOk(st, w, it, h)
  }

  predicate SubOk(st: State, s: nat)
    requires s < |st.subs|
  {
    var h := st.subs[s];
    && h.ended <= h.begun <= 1 && h.answered <= h.called && h.called + h.noticed <= 1
    && (h.called > 0 ==> h.ended == Bit(h.hasWork) && h.got == (if h.hasWork then h.ret else h.came))
    && (h.noticed > 0 ==> !h.dropped && (st.main.Notifying? || st.main.Gone?))
    && match h.owner
       case Some(w) => w < |st.items| && st.items[w].at != AtFree && st.items[w].sub == s
       case None =>
         && h.begun == h.ended && h.called == h.answered
         && (!h.dropped ==> h.ended == Bit(h.hasWork) && h.answered == Bit(h.hasCb) && h.noticed == 0)
  }

  /** An item in use by a submission that a cancel of `id` has to drop. */
  predicate Wanted(st: State, w: nat, id: int)
    requires w < |st.items|
  {
    var it := st.items[w];
    it.at != AtFree && it.id == id && it.sub < |st.subs| && !st.subs[it.sub].dropped
  }

  /** A canceller has not yet passed any in-use item with its id that is not dropped. */
  ghost predicate ScanOk(st: State) {
    st.scan.Some? ==>
      var sc := st.scan.value;
      && !ShuttingDown(st.main)
      && Distinct(sc.todo) && InUse(st, sc.todo)
      && forall w :: 0 <= w < |st.items| && Wanted(st, w, sc.id) ==> w in sc.todo
  }

  /** Shutdown: workers leave only then, are gone before callbacks are notified, and no callback is
      forgotten. */
  ghost predicate MainOk(st: State) {
    && st.run == !ShuttingDown(st.main)
    && (st.run ==> forall i :: 0 <= i < |st.workers| ==> st.workers[i] != Exited)
    && (st.main.Notifying? || st.main.Gone? ==> forall i :: 0 <= i < |st.workers| ==> st.workers[i] == Exited)
    && (st.main.Notifying? ==>
          && Distinct(st.main.todo) && InUse(st, st.main.todo)
          && forall w :: 0 <= w < |st.items| && st.items[w].cb ==> w in st.main.todo)
    && (st.main.Gone? ==> forall w :: 0 <= w < |st.items| ==> !st.items[w].cb)
  }

  ghost predicate ItemsOk(st: State) {
    forall w :: 0 <= w < |st.items| ==> ItemOk(st, w)
  }

  ghost predicate SubsOk(st: State) {
    forall s :: 0 <= s < |st.subs| ==> SubOk(st, s)
  }

  ghost predicate Inv(st: State) {
    Lists(st) && Holders(st) && ItemsOk(st) && SubsOk(st) && ScanOk(st) && MainOk(st)
  }

  lemma InvInRange(st: State)
    requires Inv(st)
    ensures InRange(st)
  {
    forall l | l in [st.freel, st.workl, st.curl, st.queue] ensures Below(l, |st.items|) {
      forall k | 0 <= k < |l| ensures l[k] < |st.items| {
        assert l[k] in l;
      }
    }
    forall w | 0 <= w < |st.items| && st.items[w].at != AtFree ensures st.items[w].sub < |st.subs| {
      assert ItemOk(st, w);
    }
  }

  lemma InitInv(n: nat)
    ensures Inv(Init(n))
  {
    var st := Init(n);
    forall w: nat ensures w in st.freel <==> w < |st.items| && st.items[w].at == AtFree {
      if w < |st.items| { assert st.freel[w] == w; }
    }
    assert forall w: nat :: w in st.workl <==> w < |st.items| && st.items[w].at == AtWork;
  }

  // ---------------------------------------------------------------- what a step leaves alone

  /** An item stays as it should be if nothing that its condition reads has changed. */
  lemma ItemFrame(st: State, t: State, w: nat)
    requires w < |st.items| && w < |t.items| && ItemOk(st, w) && Holders(st) && Holders(t)
    requires t.items[w] == st.items[w]
    requires var it := st.items[w];
             it.at != AtFree ==>
               && it.sub < |t.subs| && it.sub < |st.subs| && t.subs[it.sub] == st.subs[it.sub]
               && (it.at.ByWorker? && it.at.i < |st.workers| ==>
                     it.at.i < |t.workers| && t.workers[it.at.i] == st.workers[it.at.i])
               && (it.at == ByMain ==> t.main == st.main)
    ensures ItemOk(t, w)
  {
  }

  /** A submission stays as it should be if it is unchanged and its item still belongs to it. */
  lemma SubFrame(st: State, t: State, s: nat)
    requires s < |st.subs| && s < |t.subs| && SubOk(st, s) && t.subs[s] == st.subs[s]
    requires st.subs[s].noticed > 0 && (st.main.Notifying? || st.main.Gone?) ==> t.main.Notifying? || t.main.Gone?
    requires var o := st.subs[s].owner;
             o.Some? && o.value < |st.items| ==>
               && o.value < |t.items|
               && t.items[o.value].sub == st.items[o.value].sub
               && (st.items[o.value].at != AtFree ==> t.items[o.value].at != AtFree)
    ensures SubOk(t, s)
  {
  }

  /** The two states differ only in item `w`, its submission `u`, and the threads that may hold it. */
  predicate SameBut(st: State, t: State, w: nat, u: nat) {
    && |t.items| == |st.items| && |t.subs| == |st.subs| && |t.workers| == |st.workers|
    && (forall v :: 0 <= v < |st.items| && v != w ==> t.items[v] == st.items[v])
    && (forall s :: 0 <= s < |st.subs| && s != u ==> t.subs[s] == st.subs[s])
    && (forall i :: 0 <= i < |st.workers| && Holding(st.workers[i]) && st.workers[i].w != w ==>
          t.workers[i] == st.workers[i])
    && (MainHolding(st.main) && st.main.w != w ==> t.main == st.main)
    && (st.main.Notifying? || st.main.Gone? ==> t.main.Notifying? || t.main.Gone?)
  }

  /** Item `w` and its submission are as they should be, and the rest is unchanged. */
  predicate OneOk(st: State, t: State, w: nat) {
    && w < |st.items| == |t.items| && st.items[w].at != AtFree && st.items[w].sub < |t.subs|
    && ItemOk(t, w) && SubOk(t, st.items[w].sub) && SameBut(st, t, w, st.items[w].sub)
  }

  lemma RestKeeps(st: State, t: State, w: nat)
    requires Inv(st) && Holders(t) && OneOk(st, t, w)
    ensures ItemsOk(t) && SubsOk(t)
  {
    hide Lists, ScanOk, MainOk;
    assert ItemOk(st, w);
    forall v | 0 <= v < |t.items| ensures ItemOk(t, v) {
      assert ItemOk(st, v);
      if v != w { ItemFrame(st, t, v); }
    }
    forall s | 0 <= s < |t.subs| ensures SubOk(t, s) {
      assert SubOk(st, s);
      if s != st.items[w].sub { SubFrame(st, t, s); }
    }
  }

  // ---------------------------------------------------------------- submitters

  lemma SubmitLists(st: State, id: int, hasWork: bool, hasCb: bool)
    requires Inv(st) && InRange(st) && Enabled(st, Submit(id, hasWork, hasCb))
    ensures Lists(DoSubmit(st, id, hasWork, hasCb))
  {
    hide ItemOk, SubOk, Holders, ScanOk, MainOk;
    var w := if st.freel == [] then |st.items| else st.freel[0];
    if st.freel != [] { DistinctCons(st.freel); }
    DistinctAppend(st.workl, w);
  }

  lemma SubmitMain(st: State, id: int, hasWork: bool, hasCb: bool)
    requires Inv(st) && InRange(st) && Enabled(st, Submit(id, hasWork, hasCb))
    ensures var t := DoSubmit(st, id, hasWork, hasCb); ScanOk(t) && MainOk(t)
  {
    hide ItemOk, SubOk, Distinct;
  }

  lemma SubmitHolders(st: State, id: int, hasWork: bool, hasCb: bool)
    requires Inv(st) && InRange(st) && Enabled(st, Submit(id, hasWork, hasCb))
    ensures Holders(DoSubmit(st, id, hasWork, hasCb))
  {
    hide ItemOk, SubOk, ScanOk, MainOk, Distinct;
    var t := DoSubmit(st, id, hasWork, hasCb);
    var w := if st.freel == [] then |st.items| else st.freel[0];
    assert w in t.workl;
  }

  lemma SubmitItems(st: State, id: int, hasWork: bool, hasCb: bool)
    requires Inv(st) && InRange(st) && Enabled(st, Submit(id, hasWork, hasCb))
    requires Holders(DoSubmit(st, id, hasWork, hasCb))
    ensures ItemsOk(DoSubmit(st, id, hasWork, hasCb))
  {
    var t := DoSubmit(st, id, hasWork, hasCb);
    var w := if st.freel == [] then |st.items| else st.freel[0];
    hide Holders, ScanOk, MainOk, SubOk;
    assert ItemOk(t, w);
    forall v | 0 <= v < |t.items| ensures ItemOk(t, v) {
      if v != w { assert ItemOk(st, v); ItemFrame(st, t, v); }
    }
  }

  lemma SubmitSubs(st: State, id: int, hasWork: bool, hasCb: bool)
    requires Inv(st) && InRange(st) && Enabled(st, Submit(id, hasWork, hasCb))
    ensures SubsOk(DoSubmit(st, id, hasWork, hasCb))
  {
    var t := DoSubmit(st, id, hasWork, hasCb);
    hide Holders, ScanOk, MainOk, ItemOk;
    forall s | 0 <= s < |t.subs| ensures SubOk(t, s) {
      if s < |st.subs| { assert SubOk(st, s); SubFrame(st, t, s); }
    }
  }

  lemma SubmitKeeps(st: State, id: int, hasWork: bool, hasCb: bool)
    requires Inv(st) && InRange(st) && Enabled(st, Submit(id, hasWork, hasCb))
    ensures Inv(DoSubmit(st, id, hasWork, hasCb))
  {
    hide DoSubmit, Lists, Holders, ItemsOk, SubsOk, ScanOk, MainOk;
    SubmitLists(st, id, hasWork, hasCb);
    SubmitMain(st, id, hasWork, hasCb);
    SubmitHolders(st, id, hasWork, hasCb);
    SubmitItems(st, id, hasWork, hasCb);
    SubmitSubs(st, id, hasWork, hasCb);
  }

  // ---------------------------------------------------------------- workers

  lemma TakeHolds(st: State, i: nat)
    requires Inv(st) && InRange(st) && Enabled(st, Take(i))
    ensures var t := DoTake(st, i); Lists(t) && Holders(t) && ScanOk(t) && MainOk(t)
  {
    var w := st.workl[0];
    assert w in st.workl;
    assert ItemOk(st, w);
    hide SubOk, StageOk;
    DistinctCons(st.workl);
    DistinctAppend(st.curl, w);
  }

  lemma TakeOne(st: State, i: nat)
    requires Inv(st) && InRange(st) && Enabled(st, Take(i))
    ensures OneOk(st, DoTake(st, i), st.workl[0])
  {
    assert st.workl[0] in st.workl;
    assert st.items[st.workl[0]].at == AtWork;
    hide Lists, ScanOk, MainOk, Distinct;
    assert ItemOk(st, st.workl[0]);
    assert SubOk(st, st.items[st.workl[0]].sub);
  }

  lemma TakeKeeps(st: State, i: nat)
    requires Inv(st) && InRange(st) && Enabled(st, Take(i))
    ensures Inv(DoTake(st, i))
  {
    hide ItemOk, SubOk, SameBut, Lists, Holders, ScanOk, MainOk;
    TakeHolds(st, i);
    TakeOne(st, i);
    RestKeeps(st, DoTake(st, i), st.workl[0]);
  }

  lemma BeginHolds(st: State, i: nat)
    requires Inv(st) && InRange(st) && Enabled(st, Begin(i))
    ensures Holders(DoBegin(st, i))
  {
    hide SubOk, ScanOk, MainOk;
    assert ItemOk(st, st.workers[i].w);
  }

  lemma BeginMain(st: State, i: nat)
    requires Inv(st) && InRange(st) && Enabled(st, Begin(i))
    ensures var t := DoBegin(st, i); Lists(t) && ScanOk(t) && MainOk(t)
  {
    hide SubOk, Distinct;
    assert ItemOk(st, st.workers[i].w);
  }

  lemma BeginRuns(st: State, i: nat)
    requires Inv(st) && InRange(st) && Enabled(st, Begin(i)) && st.items[st.workers[i].w].workh
    ensures OneOk(st, DoBegin(st, i), st.workers[i].w)
  {
    hide Lists, ScanOk, MainOk, Distinct;
    assert ItemOk(st, st.workers[i].w);
    assert SubOk(st, st.items[st.workers[i].w].sub);
  }

  lemma BeginSkips(st: State, i: nat)
    requires Inv(st) && InRange(st) && Enabled(st, Begin(i)) && !st.items[st.workers[i].w].workh
    ensures OneOk(st, DoBegin(st, i), st.workers[i].w)
  {
    hide Lists, ScanOk, MainOk, Distinct;
    assert ItemOk(st, st.workers[i].w);
    assert SubOk(st, st.items[st.workers[i].w].sub);
  }

  lemma BeginKeeps(st: State, i: nat)
    requires Inv(st) && InRange(st) && Enabled(st, Begin(i))
    ensures Inv(DoBegin(st, i))
  {
    hide ItemOk, SubOk, SameBut, Lists, Holders, ScanOk, MainOk;
    BeginHolds(st, i);
    BeginMain(st, i);
    if st.items[st.workers[i].w].workh { BeginRuns(st, i); } else { BeginSkips(st, i); }
    RestKeeps(st, DoBegin(st, i), st.workers[i].w);
  }

  lemma EndHolds(st: State, i: nat, ret: int)
    requires Inv(st) && InRange(st) && Enabled(st, End(i, ret))
    ensures var t := DoEnd(st, i, ret); Lists(t) && Holders(t) && ScanOk(t) && MainOk(t)
  {
    assert ItemOk(st, st.workers[i].w);
    hide SubOk, Distinct;
  }

  lemma EndOne(st: State, i: nat, ret: int)
    requires Inv(st) && InRange(st) && Enabled(st, End(i, ret))
    ensures OneOk(st, DoEnd(st, i, ret), st.workers[i].w)
  {
    hide Lists, ScanOk, MainOk, Distinct;
    assert ItemOk(st, st.workers[i].w);
    assert SubOk(st, st.items[st.workers[i].w].sub);
  }

  lemma EndKeeps(st: State, i: nat, ret: int)
    requires Inv(st) && InRange(st) && Enabled(st, End(i, ret))
    ensures Inv(DoEnd(st, i, ret))
  {
    hide ItemOk, SubOk, SameBut, Lists, Holders, ScanOk, MainOk;
    EndHolds(st, i, ret);
    EndOne(st, i, ret);
    RestKeeps(st, DoEnd(st, i, ret), st.workers[i].w);
  }

  lemma PushHolds(st: State, i: nat)
    requires Inv(st) && InRange(st) && Enabled(st, Push(i))
    ensures var t := DoPush(st, i); Lists(t) && Holders(t) && ScanOk(t) && MainOk(t)
  {
    var w := st.workers[i].w;
    assert ItemOk(st, w);
    hide SubOk;
    DistinctAppend(st.queue, w);
  }

  lemma PushOne(st: State, i: nat)
    requires Inv(st) && InRange(st) && Enabled(st, Push(i))
    ensures OneOk(st, DoPush(st, i), st.workers[i].w)
  {
    hide Lists, ScanOk, MainOk, Distinct;
    assert ItemOk(st, st.workers[i].w);
    assert SubOk(st, st.items[st.workers[i].w].sub);
  }

  lemma PushKeeps(st: State, i: nat)
    requires Inv(st) && InRange(st) && Enabled(st, Push(i))
    ensures Inv(DoPush(st, i))
  {
    hide ItemOk, SubOk, SameBut, Lists, Holders, ScanOk, MainOk;
    PushHolds(st, i);
    PushOne(st, i);
    RestKeeps(st, DoPush(st, i), st.workers[i].w);
  }

  lemma ExitKeeps(st: State, i: nat)
    requires Inv(st) && InRange(st) && Enabled(st, Exit(i))
    ensures Inv(SetWorker(st, i, Exited))
  {
    var t := SetWorker(st, i, Exited);
    assert Holders(t);
    forall v | 0 <= v < |t.items| ensures ItemOk(t, v) {
      assert ItemOk(st, v); ItemFrame(st, t, v);
    }
    forall s | 0 <= s < |t.subs| ensures SubOk(t, s) {
      assert SubOk(st, s); SubFrame(st, t, s);
    }
  }

  // ---------------------------------------------------------------- main loop

  lemma PopHolds(st: State)
    requires Inv(st) && InRange(st) && Enabled(st, Pop)
    ensures var t := DoPop(st); Lists(t) && Holders(t) && ScanOk(t) && MainOk(t)
  {
    var w := st.queue[0];
    assert w in st.queue;
    assert ItemOk(st, w);
    hide SubOk;
    DistinctCons(st.queue);
  }

  lemma PopOne(st: State)
    requires Inv(st) && InRange(st) && Enabled(st, Pop)
    ensures OneOk(st, DoPop(st), st.queue[0])
  {
    assert st.queue[0] in st.queue;
    assert st.items[st.queue[0]].at == AtQueue;
    hide Lists, ScanOk, MainOk, Distinct;
    assert ItemOk(st, st.queue[0]);
    assert SubOk(st, st.items[st.queue[0]].sub);
  }

  lemma PopKeeps(st: State)
    requires Inv(st) && InRange(st) && Enabled(st, Pop)
    ensures Inv(DoPop(st))
  {
    hide ItemOk, SubOk, SameBut, Lists, Holders, ScanOk, MainOk;
    PopHolds(st);
    PopOne(st);
    RestKeeps(st, DoPop(st), st.queue[0]);
  }

  lemma CallHolds(st: State)
    requires Inv(st) && InRange(st) && Enabled(st, Call)
    ensures var t := DoCall(st); Lists(t) && Holders(t) && ScanOk(t) && MainOk(t)
  {
    assert ItemOk(st, st.main.w);
    hide SubOk, Distinct;
  }

  lemma CallOne(st: State)
    requires Inv(st) && InRange(st) && Enabled(st, Call)
    ensures OneOk(st, DoCall(st), st.main.w)
  {
    hide Lists, ScanOk, MainOk, Distinct;
    assert ItemOk(st, st.main.w);
    assert SubOk(st, st.items[st.main.w].sub);
  }

  lemma CallKeeps(st: State)
    requires Inv(st) && InRange(st) && Enabled(st, Call)
    ensures Inv(DoCall(st))
  {
    hide ItemOk, SubOk, SameBut, Lists, Holders, ScanOk, MainOk;
    CallHolds(st);
    CallOne(st);
    RestKeeps(st, DoCall(st), st.main.w);
  }

  lemma ReturnHolds(st: State)
    requires Inv(st) && InRange(st) && Enabled(st, Return)
    ensures var t := DoReturn(st); Lists(t) && Holders(t) && ScanOk(t) && MainOk(t)
  {
    assert ItemOk(st, st.main.w);
    hide SubOk, Distinct;
  }

  lemma ReturnOne(st: State)
    requires Inv(st) && InRange(st) && Enabled(st, Return)
    ensures OneOk(st, DoReturn(st), st.main.w)
  {
    hide Lists, ScanOk, MainOk, Distinct;
    assert ItemOk(st, st.main.w);
    assert SubOk(st, st.items[st.main.w].sub);
  }

  lemma ReturnKeeps(st: State)
    requires Inv(st) && InRange(st) && Enabled(st, Return)
    ensures Inv(DoReturn(st))
  {
    hide ItemOk, SubOk, SameBut, Lists, Holders, ScanOk, MainOk;
    ReturnHolds(st);
    ReturnOne(st);
    RestKeeps(st, DoReturn(st), st.main.w);
  }

  lemma RecycleLists(st: State)
    requires Inv(st) && InRange(st) && Enabled(st, Recycle)
    ensures Lists(DoRecycle(st))
  {
    var w := st.main.w;
    assert ItemOk(st, w);
    hide SubOk, Remove, ScanOk, MainOk;
    RemoveKeeps(st.curl, w);
    DistinctAppend(st.freel, w);
  }

  lemma RecycleHolds(st: State)
    requires Inv(st) && InRange(st) && Enabled(st, Recycle)
    ensures var t := DoRecycle(st); Lists(t) && Holders(t) && ScanOk(t) && MainOk(t)
  {
    RecycleLists(st);
    assert ItemOk(st, st.main.w);
    hide SubOk, Remove, Lists, Distinct;
  }

  lemma RecycleOne(st: State)
    requires Inv(st) && InRange(st) && Enabled(st, Recycle)
    ensures OneOk(st, DoRecycle(st), st.main.w)
  {
    hide Lists, ScanOk, MainOk, Distinct;
    assert ItemOk(st, st.main.w);
    assert SubOk(st, st.items[st.main.w].sub);
  }

  lemma RecycleKeeps(st: State)
    requires Inv(st) && InRange(st) && Enabled(st, Recycle)
    ensures Inv(DoRecycle(st))
  {
    hide ItemOk, SubOk, SameBut, Lists, Holders, ScanOk, MainOk;
    RecycleHolds(st);
    RecycleOne(st);
    RestKeeps(st, DoRecycle(st), st.main.w);
  }

  // ---------------------------------------------------------------- cancellers

  lemma ScanOnlyKeeps(st: State, t: State)
    requires Inv(st) && t == st.(scan := t.scan) && ScanOk(t)
    ensures Inv(t)
  {
    forall v | 0 <= v < |t.items| ensures ItemOk(t, v) {
      assert ItemOk(st, v); ItemFrame(st, t, v);
    }
    forall s | 0 <= s < |t.subs| ensures SubOk(t, s) {
      assert SubOk(st, s); SubFrame(st, t, s);
    }
  }

  lemma CancelStartKeeps(st: State, id: int)
    requires Inv(st) && InRange(st) && Enabled(st, CancelStart(id))
    ensures Inv(DoCancelStart(st, id))
  {
    var t := DoCancelStart(st, id);
    MatchingKeeps(st.workl, st.items, id);
    MatchingKeeps(st.curl, st.items, id);
    var a, b := Matching(st.workl, st.items, id), Matching(st.curl, st.items, id);
    assert forall x :: x in a ==> x in st.workl && x !in st.curl;
    DistinctConcat(a, b);
    forall k | 0 <= k < |a + b| ensures (a + b)[k] < |t.items| && t.items[(a + b)[k]].at != AtFree {
      assert (a + b)[k] in a || (a + b)[k] in b;
    }
    ScanOnlyKeeps(st, t);
  }

  lemma DistinctConcat(a: seq<nat>, b: seq<nat>)
    requires Distinct(a) && Distinct(b) && forall x :: x in a ==> x !in b
    ensures Distinct(a + b)
  {
    forall i, j | 0 <= i < j < |a + b| ensures (a + b)[i] != (a + b)[j] {
      if i < |a| <= j { assert a[i] in a && b[j - |a|] in b; }
    }
  }

  lemma CancelOneLists(st: State)
    requires Inv(st) && InRange(st) && Enabled(st, CancelOne)
    ensures Lists(DoCancelOne(st))
  {
    var w := st.scan.value.todo[0];
    assert ItemOk(st, w);
    hide SubOk, Remove, MainOk, Holders;
    RemoveKeeps(st.workl, w);
    if st.items[w].at == AtWork { DistinctAppend(st.freel, w); }
  }

  lemma CancelOneHolds(st: State)
    requires Inv(st) && InRange(st) && Enabled(st, CancelOne)
    ensures var t := DoCancelOne(st); Lists(t) && Holders(t) && ScanOk(t) && MainOk(t)
  {
    CancelOneLists(st);
    assert ItemOk(st, st.scan.value.todo[0]);
    hide SubOk, Remove, Lists;
    DistinctCons(st.scan.value.todo);
  }

  lemma CancelOneOne(st: State)
    requires Inv(st) && InRange(st) && Enabled(st, CancelOne)
    ensures OneOk(st, DoCancelOne(st), st.scan.value.todo[0])
  {
    hide Lists, Distinct;
    assert ItemOk(st, st.scan.value.todo[0]);
    assert SubOk(st, st.items[st.scan.value.todo[0]].sub);
  }

  lemma CancelOneKeeps(st: State)
    requires Inv(st) && InRange(st) && Enabled(st, CancelOne)
    ensures Inv(DoCancelOne(st))
  {
    hide ItemOk, SubOk, SameBut, Lists, Holders, ScanOk, MainOk;
    CancelOneHolds(st);
    CancelOneOne(st);
    RestKeeps(st, DoCancelOne(st), st.scan.value.todo[0]);
  }

  // ---------------------------------------------------------------- shutdown

  lemma MainOnlyKeeps(st: State, t: State)
    requires Inv(st) && t == st.(main := t.main, run := t.run) && MainOk(t) && ScanOk(t)
    requires !MainHolding(st.main) && !MainHolding(t.main)
    requires st.main.Notifying? || st.main.Gone? ==> t.main.Notifying? || t.main.Gone?
    ensures Inv(t)
  {
    forall v | 0 <= v < |t.items| ensures ItemOk(t, v) {
      assert ItemOk(st, v); ItemFrame(st, t, v);
    }
    forall s | 0 <= s < |t.subs| ensures SubOk(t, s) {
      assert SubOk(st, s); SubFrame(st, t, s);
    }
  }

  lemma JoinedKeeps(st: State)
    requires Inv(st) && InRange(st) && Enabled(st, Joined)
    ensures Inv(Apply(st, Joined))
  {
    var t := Apply(st, Joined);
    DistinctConcat(st.workl, st.curl);
    var l := st.workl + st.curl;
    forall k | 0 <= k < |l| ensures l[k] < |t.items| && t.items[l[k]].at != AtFree {
      assert l[k] in st.workl || l[k] in st.curl;
    }
    forall w: nat | 0 <= w < |st.items| && st.items[w].cb ensures w in l {
      assert ItemOk(st, w);
      assert w in st.workl || w in st.curl;
    }
    MainOnlyKeeps(st, t);
  }

  lemma NotifyHolds(st: State)
    requires Inv(st) && InRange(st) && Enabled(st, Notify)
    ensures var t := DoNotify(st); Lists(t) && ScanOk(t) && MainOk(t) && Holders(t)
  {
    DistinctCons(st.main.todo);
    assert ItemOk(st, st.main.todo[0]);
    hide SubOk;
  }

  lemma NotifyOne(st: State)
    requires Inv(st) && InRange(st) && Enabled(st, Notify)
    ensures OneOk(st, DoNotify(st), st.main.todo[0])
  {
    hide Lists, ScanOk;
    var w := st.main.todo[0];
    assert ItemOk(st, w);
    assert SubOk(st, st.items[w].sub);
  }

  lemma NotifyKeeps(st: State)
    requires Inv(st) && InRange(st) && Enabled(st, Notify)
    ensures Inv(DoNotify(st))
  {
    hide ItemOk, SubOk, SameBut, Lists, Holders, ScanOk, MainOk;
    NotifyHolds(st);
    NotifyOne(st);
    RestKeeps(st, DoNotify(st), st.main.todo[0]);
  }

  /** Every step keeps the invariant. */
  lemma StepKeeps(st: State, step: Step)
    requires Inv(st) && InRange(st) && Enabled(st, step)
    ensures Inv(Apply(st, step))
  {
    hide Inv, InRange, Enabled, DoSubmit, DoTake, DoBegin, DoEnd, DoPush, DoPop, DoCall, DoReturn, DoRecycle;
    hide DoCancelStart, DoCancelOne, DoNotify, SetWorker;
    match step
    case Submit(id, hasWork, hasCb) => SubmitKeeps(st, id, hasWork, hasCb);
    case Take(i) => TakeKeeps(st, i);
    case Begin(i) => BeginKeeps(st, i);
    case End(i, ret) => EndKeeps(st, i, ret);
    case Push(i) => PushKeeps(st, i);
    case Exit(i) => ExitKeeps(st, i);
    case Pop => PopKeeps(st);
    case Call => CallKeeps(st);
    case Return => ReturnKeeps(st);
    case Recycle => RecycleKeeps(st);
    case CancelStart(id) => CancelStartKeeps(st, id);
    case CancelOne => CancelOneKeeps(st);
    case CancelDone => CancelDoneKeeps(st);
    case Stop => StopKeeps(st);
    case Joined => JoinedKeeps(st);
    case Notify => NotifyKeeps(st);
    case Close => CloseKeeps(st);
  }

  lemma CancelDoneKeeps(st: State)
    requires Inv(st) && InRange(st) && Enabled(st, CancelDone)
    ensures Inv(Apply(st, CancelDone))
  {
    ScanOnlyKeeps(st, Apply(st, CancelDone));
  }

  lemma StopKeeps(st: State)
    requires Inv(st) && InRange(st) && Enabled(st, Stop)
    ensures Inv(Apply(st, Stop))
  {
    MainOnlyKeeps(st, Apply(st, Stop));
  }

  lemma CloseKeeps(st: State)
    requires Inv(st) && InRange(st) && Enabled(st, Close)
    ensures Inv(Apply(st, Close))
  {
    MainOnlyKeeps(st, Apply(st, Close));
  }
}
