/** The event loop itself: reference counts, the array of pending events, and the dispatcher. */
module Eloop {
  import opened EloopModel

  class EvLoop {
    var alive: bool
    var ref: nat
    var fds: map<nat, Fd>
    var sigs: seq<Signal>
    var chlds: seq<nat>
    var dispatching: bool
    var curFds: array<Slot>
    var cnt: nat

    /** The references that code outside the loop holds. */
    var owners: nat
    var held: multiset<nat>
    ghost var phase: Phase
    ghost var log: seq<Event>

    ghost predicate Valid()
      reads this
    {
      cnt <= curFds.Length
    }

    ghost function Abs(): Loop
      requires Valid()
      reads this, curFds
    {
      Loop(alive, ref, fds, sigs, chlds, dispatching, curFds[..cnt], curFds.Length, owners, held, phase, log)
    }

    constructor ()
      ensures Valid() && Abs() == FRESH && fresh(curFds)
    {
      alive, ref, fds, sigs, chlds, dispatching, cnt := true, 1, map[], [], [], false, 0;
      curFds := new Slot[32](_ => Cleared);
      owners, held, phase, log := 1, multiset{}, Outside, [];
    }

    // -------------------------------------------------------------- sources

    method RefFd(a: nat)
      requires Valid() && a in fds
      modifies this`fds
      ensures Abs() == FdRef(old(Abs()), a)
    {
      if fds[a].ref == 0 { return; }
      fds := fds[a := fds[a].(ref := fds[a].ref + 1)];
    }

    method UnrefFd(a: nat)
      requires Valid() && a in fds
      modifies this`fds
      ensures Abs() == FdUnref(old(Abs()), a)
    {
      if fds[a].ref == 0 { return; }
      if fds[a].ref > 1 {
        fds := fds[a := fds[a].(ref := fds[a].ref - 1)];
      } else {
        fds := fds - {a};
      }
    }

    /** Clears the pending events of a source. */
    method FlushEvents(a: nat)
      requires Valid()
      modifies curFds
      ensures Abs() == EloopModel.FlushFd(old(Abs()), a)
    {
      if !dispatching { return; }
      var i := 0;
      while i < cnt
        invariant i <= cnt
        invariant forall k :: 0 <= k < i ==>
          curFds[k] == if old(curFds[k]) == Source(a) then Cleared else old(curFds[k])
        invariant forall k :: i <= k < cnt ==> curFds[k] == old(curFds[k])
      {
        if curFds[i] == Source(a) { curFds[i] := Cleared; }
        i := i + 1;
      }
      assert curFds[..cnt] == Flush(old(curFds[..cnt]), a);
    }

    method AddFd(a: nat)
      requires Valid() && a in fds
      modifies this`fds, this`ref
      ensures Valid() && Abs() == EloopModel.AddFd(old(Abs()), a)
    {
      if fds[a].bound { return; }
      fds := fds[a := fds[a].(bound := true)];
      RefFd(a);
      ref := ref + 1;
    }

    method RmFd(a: nat)
      requires Valid() && a in fds && SigsLive(sigs, fds) && !Internal(Abs(), a)
      modifies this, curFds
      ensures Valid() && curFds == old(curFds) && SigsLive(sigs, fds)
      ensures Abs() == EloopModel.RmFd(old(Abs()), a)
      decreases ref, 1
    {
      if !fds[a].bound { return; }
      FlushEvents(a);
      fds := fds[a := fds[a].(bound := false)];
      log := log + [Removed(a)];
      UnrefFd(a);
      Unref();
    }

    // -------------------------------------------------------------- the loop's references

    method Unref()
      requires Valid() && SigsLive(sigs, fds)
      modifies this, curFds
      ensures Valid() && curFds == old(curFds) && SigsLive(sigs, fds)
      ensures Abs() == EloopModel.Unref(old(Abs()))
      decreases ref, 0
    {
      if ref == 0 { return; }
      ref := ref - 1;
      if ref > 0 { return; }
      Destroy();
    }

    method Destroy()
      requires Valid() && SigsLive(sigs, fds) && ref == 0
      modifies this, curFds
      ensures Valid() && curFds == old(curFds) && SigsLive(sigs, fds)
      ensures Abs() == EloopModel.Destroy(old(Abs()))
      decreases ref, 5
    {
      if chlds != [] { UnregisterSignal(SIGCHLD, REAPER); }
      ghost var l := Abs();
      while sigs != []
        invariant Valid() && curFds == old(curFds) && SigsLive(sigs, fds)
        invariant ref <= old(ref) && FreeAll(l) == FreeAll(Abs())
        decreases |sigs|
      {
        SignalFreeUnlinks(Abs());
        SignalFree(0);
      }
      alive := false;
    }

    // -------------------------------------------------------------- shared signals and children

    method FindSignal(signum: nat) returns (i: nat)
      requires Valid()
      ensures i == FindSig(sigs, signum)
    {
      i := 0;
      while i < |sigs| && sigs[i].signum != signum
        invariant i <= |sigs| && forall k :: 0 <= k < i ==> sigs[k].signum != signum
      {
        i := i + 1;
      }
    }

    method SignalFree(i: nat)
      requires Valid() && SigsLive(sigs, fds) && i < |sigs|
      modifies this, curFds
      ensures Valid() && curFds == old(curFds) && SigsLive(sigs, fds)
      ensures Abs() == EloopModel.SignalFree(old(Abs()), i)
      decreases ref, 2
    {
      var a := sigs[i].fd;
      DroppedLive(sigs, i, fds);
      sigs := sigs[..i] + sigs[i + 1..];
      RmFd(a);
    }

    method SignalNew(signum: nat, a: nat)
      requires Valid() && a !in fds && SigsLive(sigs, fds)
      modifies this`fds, this`ref, this`sigs
      ensures Valid() && Abs() == EloopModel.SignalNew(old(Abs()), signum, a)
    {
      fds := fds[a := Fd(1, true, true, false)];
      AddFd(a);
      UnrefFd(a);
      sigs := [Signal(signum, a, [])] + sigs;
    }

    method RegisterSignal(signum: nat, cb: nat, a: nat)
      requires Valid() && a !in fds && SigsLive(sigs, fds)
      modifies this`fds, this`ref, this`sigs
      ensures Valid() && Abs() == EloopModel.RegisterSignal(old(Abs()), signum, cb, a)
    {
      if cb == 0 { return; }
      var i := FindSignal(signum);
      if i == |sigs| {
        SignalNew(signum, a);
        i := 0;
      }
      sigs := sigs[i := sigs[i].(cbs := sigs[i].cbs + [cb])];
    }

    /** Removes one callback, looking from the back. */
    method UnregisterSignal(signum: nat, cb: nat)
      requires Valid() && SigsLive(sigs, fds)
      modifies this, curFds
      ensures Valid() && curFds == old(curFds) && SigsLive(sigs, fds)
      ensures Abs() == EloopModel.UnregisterSignal(old(Abs()), signum, cb)
      decreases ref, 3
    {
      hide EloopModel.SignalFree, RemoveLast, FindSig, SigsLive;
      var i := FindSignal(signum);
      if i == |sigs| { return; }
      var cbs := RemoveLast(sigs[i].cbs, cb);
      UpdatedLive(sigs, i, cbs, fds);
      sigs := sigs[i := sigs[i].(cbs := cbs)];
      if cbs == [] { SignalFree(i); }
    }

    method RegisterChild(cb: nat, a: nat)
      requires Valid() && a !in fds && SigsLive(sigs, fds)
      modifies this`fds, this`ref, this`sigs, this`chlds
      ensures Valid() && Abs() == EloopModel.RegisterChild(old(Abs()), cb, a)
    {
      if cb == 0 { return; }
      var empty := chlds == [];
      chlds := chlds + [cb];
      if empty { RegisterSignal(SIGCHLD, REAPER, a); }
    }

    method UnregisterChild(cb: nat)
      requires Valid() && SigsLive(sigs, fds)
      modifies this, curFds
      ensures Valid() && curFds == old(curFds)
      ensures Abs() == EloopModel.UnregisterChild(old(Abs()), cb)
    {
      if chlds == [] { return; }
      chlds := RemoveLast(chlds, cb);
      if chlds == [] { UnregisterSignal(SIGCHLD, REAPER); }
    }

    // -------------------------------------------------------------- users

    /** What users may do does not depend on the dispatcher's history. */
    function Visible(): (l: Loop)
      reads this
    {
      Loop(alive, ref, fds, sigs, chlds, dispatching, [], 0, owners, held, Outside, [])
    }

    method Perform(op: Op)
      requires Valid() && Inv(Abs()) && alive && Allowed(Abs(), op)
      modifies this, curFds
      ensures Valid() && curFds == old(curFds)
      ensures Abs() == Apply(old(Abs()), op)
    {
      InvLive(Abs());
      hide Inv, SigsLive;
      match op
      case RefLoop =>
        owners := owners + 1;
        ref := ref + 1;
      case UnrefLoop =>
        owners := owners - 1;
        Unref();
      case Fds(sop) => PerformOnSource(sop);
      case Add(a) => AddFd(a);
      case Rm(a) => RmFd(a);
      case FlushOp(a) => FlushEvents(a);
      case _ => PerformOnSignals(op);
    }

    method PerformOnSignals(op: Op)
      requires Valid() && SigsLive(sigs, fds) && Allowed(Abs(), op)
      requires op.RegSignal? || op.UnregSignal? || op.RegChild? || op.UnregChild?
      modifies this, curFds
      ensures Valid() && curFds == old(curFds)
      ensures Abs() == Apply(old(Abs()), op)
    {
      hide SigsLive, EloopModel.UnregisterSignal, EloopModel.RegisterSignal, EloopModel.RegisterChild;
      hide EloopModel.UnregisterChild;
      match op
      case RegSignal(signum, cb, a) => RegisterSignal(signum, cb, a);
      case UnregSignal(signum, cb) => UnregisterSignal(signum, cb);
      case RegChild(cb, a) => RegisterChild(cb, a);
      case UnregChild(cb) => UnregisterChild(cb);
    }

    method PerformOnSource(op: SourceOp)
      requires Valid() && FdsSound(fds, held) && Allowed(Abs(), Fds(op))
      modifies this`fds, this`held
      ensures Valid() && Abs() == ApplySource(old(Abs()), op)
    {
      assert op.a in held ==> op.a in fds && fds[op.a].ref > 0;
      hide FdsSound;
      match op
      case New(a, hasCb) =>
        fds := fds[a := Fd(1, true, hasCb, false)];
        held := held + multiset{a};
      case RefFd(a) =>
        RefFd(a);
        held := held + multiset{a};
      case UnrefFd(a) =>
        assert a in held;
        UnrefFd(a);
        held := held - multiset{a};
      case SetEnabled(a, on) => fds := fds[a := fds[a].(enabled := on)];
      case SetCb(a, hasCb) => fds := fds[a := fds[a].(hasCb := hasCb)];
    }

    /** The body of one callback: any list of operations.  It ends early when an operation frees the loop,
        and when one is none that a user may do. */
    method RunCallback(ops: seq<Op>) returns (fate: Fate)
      requires Valid() && Inv(Abs()) && alive && dispatching && !phase.Serving?
      modifies this, curFds
      ensures Valid() && Inv(Abs()) && curFds == old(curFds) && SameRound(old(Abs()), Abs())
      ensures Callees(log) == Callees(old(log))
      ensures Ended(Abs(), fate) == PerformAll(old(Abs()), ops) && (fate.Freed? <==> !alive)
    {
      hide Inv, Apply, Allowed;
      var i := 0;
      assert ops[0..] == ops;
      while i < |ops|
        invariant i <= |ops| && Valid() && Inv(Abs()) && alive && curFds == old(curFds) && SameRound(old(Abs()), Abs())
        invariant PerformAll(Abs(), ops[i..]) == PerformAll(old(Abs()), ops) && Callees(log) == Callees(old(log))
      {
        AllowedIsVisible(Abs(), Visible(), ops[i]);
        if !Allowed(Visible(), ops[i]) { return Misused; }
        assert ops[i..][1..] == ops[i + 1..];
        OpKeeps(Abs(), ops[i]);
        OpStaysInRound(Abs(), ops[i]);
        OpCallsNobody(Abs(), ops[i]);
        Perform(ops[i]);
        if !alive { return Freed; }
        i := i + 1;
      }
      fate := Fine;
    }

    // -------------------------------------------------------------- the dispatcher

    /** The kernel fills the array with sources that are ready, registered and enabled. */
    method EpollWait(ready: seq<Slot>) returns (count: nat)
      requires Valid() && cnt == 0
      modifies curFds
      ensures count <= curFds.Length && Reportable(Abs(), curFds[..count])
      ensures curFds[..count] == Reported(fds, curFds.Length, ready)
    {
      var i := 0;
      count := 0;
      while i < |ready| && count < curFds.Length
        invariant i <= |ready| && count <= curFds.Length && Abs() == old(Abs()) &&
          Reportable(old(Abs()), curFds[..count])
        invariant curFds[..count] == Reported(fds, curFds.Length, ready[..i])
      {
        var slot := ready[i];
        assert ready[..i + 1][..i] == ready[..i];
        if slot !in curFds[..count] && Ready(fds, slot) {
          ReportableExtends(Abs(), curFds[..count], slot);
          ghost var events := curFds[..count];
          curFds[count] := slot;
          assert curFds[..count + 1] == events + [slot];
          count := count + 1;
        }
        i := i + 1;
      }
      FullStays(fds, curFds.Length, ready, i);
    }

    /** Calls the sources of the pending slots.  `script[n]` is what the n-th callback does. */
    method ServeSlots(script: seq<seq<Op>>) returns (fate: Fate, served: seq<nat>)
      requires Valid() && Inv(Abs()) && alive && phase == Serving(0) && dispatching
      modifies this, curFds
      ensures Valid() && Inv(Abs()) && dispatching && curFds == old(curFds) && cnt == old(cnt)
      ensures (fate.Freed? <==> !alive) && (fate.Fine? ==> phase == Serving(cnt))
      ensures Callees(log) == Callees(old(log)) + served
      ensures Quiet(script) ==> fate.Fine? && served == WithCallback(old(fds), old(curFds[..cnt]))
    {
      hide Inv, Enabled, Next, Callees, WithCallback;
      fate, served := Fine, [];
      var i, n := 0, 0;
      NobodyYet(fds);
      while i < cnt
        invariant i <= cnt == old(cnt) && Valid() && Inv(Abs()) && alive && dispatching && phase == Serving(i)
        invariant fate.Fine? && curFds == old(curFds)
        invariant Callees(log) == Callees(old(log)) + served
        invariant Quiet(script) ==>
          && fds == old(fds) && curFds[..cnt] == old(curFds[..cnt])
          && served == WithCallback(old(fds), old(curFds[..cnt])[..i])
      {
        ghost var was := served;
        var slot := curFds[i];
        var called;
        fate, called := ServeSlot(i, if n < |script| then script[n] else []);
        if called {
          n := n + 1;
          if slot.Source? { served := served + [slot.a]; }
        }
        assert slot.Source? ==> Callees(old(log)) + was + [slot.a] == Callees(old(log)) + (was + [slot.a]);
        if Quiet(script) { OneMoreSlot(old(fds), old(curFds[..cnt]), i); }
        if !fate.Fine? { return; }
        i := i + 1;
      }
      assert old(curFds[..cnt])[..cnt] == old(curFds[..cnt]);
    }

    method ServeSlot(i: nat, ops: seq<Op>) returns (fate: Fate, called: bool)
      requires Valid() && Inv(Abs()) && alive && phase == Serving(i) && i < cnt && dispatching
      modifies this, curFds
      ensures Valid() && Inv(Abs()) && dispatching && curFds == old(curFds) && cnt == old(cnt)
      ensures (fate.Freed? <==> !alive) && (fate.Fine? ==> phase == Serving(i + 1))
      ensures old(curFds[i]).Source? ==> old(curFds[i]).a in old(fds)
      ensures called <==>
        || old(curFds[i]).Self?
        || (old(curFds[i]).Source? && old(fds)[old(curFds[i]).a].hasCb && old(fds)[old(curFds[i]).a].enabled)
      ensures Callees(log) ==
        Callees(old(log)) + if called && old(curFds[i]).Source? then [old(curFds[i]).a] else []
      ensures ops == [] ==> fate.Fine? && fds == old(fds) && curFds[..cnt] == old(curFds[..cnt])
    {
      hide Inv, PerformAll;
      var slot := curFds[i];
      ghost var before := Abs();
      StepKeepsInv(before, Serve);
      SlotIsPending(before);
      fate := Fine;
      called := slot.Self? || (slot.Source? && fds[slot.a].hasCb && fds[slot.a].enabled);
      if !called {
        phase := Serving(i + 1);
        return;
      }
      phase := Calling(i);
      if slot.Source? {
        CalleesNext(log, Served(slot.a));
        log := log + [Served(slot.a)];
      }
      assert Abs() == Next(before, Serve);
      fate := CallBack(i, ops);
    }

    /** The callback of slot `i`. */
    method CallBack(i: nat, ops: seq<Op>) returns (fate: Fate)
      requires Valid() && Inv(Abs()) && alive && phase == Calling(i) && i < cnt && dispatching
      modifies this, curFds
      ensures Valid() && Inv(Abs()) && dispatching && curFds == old(curFds) && cnt == old(cnt)
      ensures (fate.Freed? <==> !alive) && (fate.Fine? ==> phase == Serving(i + 1))
      ensures Callees(log) == Callees(old(log))
      ensures ops == [] ==> fate.Fine? && fds == old(fds) && curFds[..cnt] == old(curFds[..cnt])
    {
      hide Inv, PerformAll, Callees;
      ghost var before := Abs();
      fate := RunCallback(ops);
      if ops == [] { NothingPerformed(before, Abs(), fate); }
      if !fate.Fine? { return; }
      StepKeepsInv(Abs(), Return);
      phase := Serving(i + 1);
    }

    /** One round.  A nested call is refused.  After every callback the code goes on reading the loop; a
        round that loses it is broken off here, and says so. */
    method Dispatch(pre: seq<Op>, ready: seq<Slot>, interrupted: bool, script: seq<seq<Op>>, posts: seq<Op>)
      returns (ok: bool, fate: Fate, served: seq<nat>)
      requires Valid() && Inv(Abs()) && alive
      modifies this, curFds
      ensures Valid() && Inv(Abs()) && ok == !old(dispatching)
      ensures !ok ==> Abs() == old(Abs()) && served == [] && fate.Fine?
      ensures ok ==> (fate.Freed? <==> !alive) && (fate.Fine? <==> phase.Outside?) && LogSound(log)
      ensures ok && interrupted ==> served == []
      ensures ok && !interrupted ==>
        var p := PerformAll(Begun(old(Abs())), pre);
        && (p.fate.Fine? ==> served == Callees(log))
        && (p.fate.Fine? && Quiet(script) ==> served == WithCallback(p.l.fds, Reported(p.l.fds, p.l.size, ready)))
    {
      hide Inv, Enabled, Next, PerformAll, Callees, WithCallback, Reported;
      served, fate := [], Fine;
      if dispatching { return false, Fine, []; }
      ok := true;
      LogIsSound(Abs());
      Begin();
      fate := RunCallback(pre);
      LogIsSound(Abs());
      if !fate.Fine? { return; }
      if interrupted {
        Interrupt();
      } else {
        fate, served := Round(ready, script);
        LogIsSound(Abs());
        if !fate.Fine? { return; }
      }
      fate := RunCallback(posts);
      LogIsSound(Abs());
      if !fate.Fine? { return; }
      Finish();
    }

    method Begin()
      requires Valid() && Inv(Abs()) && alive && !dispatching
      modifies this`dispatching, this`phase
      ensures Valid() && Inv(Abs()) && dispatching && phase.Pre? && Abs() == Begun(old(Abs()))
    {
      hide Inv;
      LogIsSound(Abs());
      StepKeepsInv(Abs(), BeginRound);
      dispatching, phase := true, Pre;
    }

    method Interrupt()
      requires Valid() && Inv(Abs()) && alive && phase.Pre?
      modifies this`phase
      ensures Valid() && Inv(Abs()) && phase.Post?
    {
      hide Inv;
      StepKeepsInv(Abs(), WaitFailed);
      phase := Post;
    }

    method Finish()
      requires Valid() && Inv(Abs()) && alive && phase.Post?
      modifies this`dispatching, this`phase
      ensures Valid() && Inv(Abs()) && !dispatching && phase.Outside?
    {
      hide Inv;
      StepKeepsInv(Abs(), EndRound);
      dispatching, phase := false, Outside;
    }

    /** Waits, serves, and doubles the array if and only if it was filled. */
    method Round(ready: seq<Slot>, script: seq<seq<Op>>) returns (fate: Fate, served: seq<nat>)
      requires Valid() && Inv(Abs()) && alive && dispatching && phase.Pre?
      modifies this, curFds
      ensures Valid() && Inv(Abs()) && dispatching && (curFds == old(curFds) || fresh(curFds))
      ensures (fate.Freed? <==> !alive) && (if fate.Fine? then phase.Post? else !phase.Outside?)
      ensures fate.Fine? ==>
        curFds.Length == if cnt == old(curFds.Length) then 2 * old(curFds.Length) else old(curFds.Length)
      ensures served == Callees(log)
      ensures Quiet(script) ==>
        served == WithCallback(old(fds), Reported(old(fds), old(curFds.Length), ready))
    {
      hide Inv, Reportable, Callees, WithCallback, Reported;
      ghost var before := Abs();
      cnt := 0;
      var count := EpollWait(ready);
      assert Reportable(before, curFds[..count]) by { ReportableIsVisible(Abs(), before, curFds[..count]); }
      cnt := count;
      StepKeepsInv(before, Wait(curFds[..cnt]));
      phase, log := Serving(0), [];
      NobodyYet(fds);
      fate, served := ServeSlots(script);
      LogIsSound(Abs());
      if fate.Fine? { LeaveSlots(); }
    }

    /** All slots are served. */
    method LeaveSlots()
      requires Valid() && Inv(Abs()) && alive && dispatching && phase == Serving(cnt)
      modifies this`phase, this`curFds
      ensures Valid() && Inv(Abs()) && phase.Post? && (curFds == old(curFds) || fresh(curFds))
      ensures curFds.Length == if cnt == old(curFds.Length) then 2 * old(curFds.Length) else old(curFds.Length)
    {
      hide Inv;
      ghost var last := Abs();
      StepKeepsInv(last, Leave);
      phase := Post;
      if cnt == curFds.Length { Grow(); }
      assert Abs() == Next(last, Leave);
    }

    method Grow()
      requires Valid()
      modifies this`curFds
      ensures Valid() && fresh(curFds) && curFds.Length == 2 * old(curFds.Length) && curFds[..cnt] == old(curFds[..cnt])
    {
      var slots := curFds;
      var bigger := new Slot[2 * slots.Length](_ => Cleared);
      var i := 0;
      while i < slots.Length
        invariant i <= slots.Length && bigger[..i] == slots[..i] && slots[..] == old(curFds[..])
      {
        bigger[i] := slots[i];
        i := i + 1;
      }
      assert bigger[..cnt] == bigger[..i][..cnt];
      curFds := bigger;
    }
  }

  lemma InvLive(l: Loop)
    requires Inv(l)
    ensures SigsLive(l.sigs, l.fds) && FdsSound(l.fds, l.held)
  {
    forall i | 0 <= i < |l.sigs| ensures l.sigs[i].fd in l.fds { SignalIsPrivate(l, i); }
  }

  /** How a callback or a round went: to its end, until it freed the loop, or until it did what no user
      may do. */
  datatype Fate = Fine | Freed | Misused

  datatype End = Ended(l: Loop, fate: Fate)

  /** What a list of operations does to the loop. */
  ghost function PerformAll(l: Loop, ops: seq<Op>): End
    decreases |ops|
  {
    if ops == [] then Ended(l, Fine)
    else if !Allowed(l, ops[0]) then Ended(l, Misused)
    else if !Apply(l, ops[0]).alive then Ended(Apply(l, ops[0]), Freed)
    else PerformAll(Apply(l, ops[0]), ops[1..])
  }

  /** The loop when a round has begun. */
  function Begun(l: Loop): Loop {
    l.(phase := Pre, dispatching := true)
  }

  // ---------------------------------------------------------------- who is called

  /** The sources that were called, in this order. */
  function Callees(log: seq<Event>): seq<nat> {
    if log == [] then []
    else
      var e := log[|log| - 1];
      Callees(log[..|log| - 1]) + if e.Served? then [e.a] else []
  }

  /** The enabled sources among the slots that have a callback, in this order. */
  function WithCallback(fds: map<nat, Fd>, slots: seq<Slot>): seq<nat> {
    if slots == [] then []
    else
      var slot := slots[|slots| - 1];
      WithCallback(fds, slots[..|slots| - 1])
        + if slot.Source? && slot.a in fds && fds[slot.a].hasCb && fds[slot.a].enabled then [slot.a] else []
  }

  /** No callback does anything. */
  ghost predicate Quiet(script: seq<seq<Op>>) {
    forall n :: 0 <= n < |script| ==> script[n] == []
  }

  predicate Ready(fds: map<nat, Fd>, slot: Slot) {
    slot.Self? || (slot.Source? && slot.a in fds && fds[slot.a].bound && fds[slot.a].enabled)
  }

  /** What the kernel reports when `ready` is ready: each registered and enabled source once, as many as fit. */
  function Reported(fds: map<nat, Fd>, size: nat, ready: seq<Slot>): seq<Slot> {
    if ready == [] then []
    else
      var events, slot := Reported(fds, size, ready[..|ready| - 1]), ready[|ready| - 1];
      if |events| < size && slot !in events && Ready(fds, slot) then events + [slot] else events
  }

  lemma {:induction false} FullStays(fds: map<nat, Fd>, size: nat, ready: seq<Slot>, i: nat)
    requires i <= |ready| && (i < |ready| ==> |Reported(fds, size, ready[..i])| >= size)
    ensures Reported(fds, size, ready) == Reported(fds, size, ready[..i])
  {
    if i < |ready| {
      assert ready[..|ready| - 1][..i] == ready[..i];
      FullStays(fds, size, ready[..|ready| - 1], i);
    } else {
      assert ready[..i] == ready;
    }
  }

  lemma CalleesNext(log: seq<Event>, e: Event)
    ensures Callees(log + [e]) == Callees(log) + if e.Served? then [e.a] else []
  {
    assert (log + [e])[..|log|] == log;
  }

  lemma {:induction false} CalleesStay(was: seq<Event>, now: seq<Event>)
    requires was <= now && forall k :: |was| <= k < |now| ==> now[k].Removed?
    ensures Callees(now) == Callees(was)
  {
    if |was| < |now| { CalleesStay(was, now[..|now| - 1]); } else { assert was == now; }
  }

  lemma OpCallsNobody(l: Loop, op: Op)
    ensures Callees(Apply(l, op).log) == Callees(l.log)
  {
    OpClears(l, op);
    hide Apply, Callees;
    CalleesStay(l.log, Apply(l, op).log);
  }

  lemma NobodyYet(fds: map<nat, Fd>)
    ensures WithCallback(fds, []) == [] && Callees([]) == []
  {
  }

  lemma OneMoreSlot(fds: map<nat, Fd>, slots: seq<Slot>, i: nat)
    requires i < |slots|
    ensures
      var slot := slots[i];
      WithCallback(fds, slots[..i + 1]) == WithCallback(fds, slots[..i])
        + if slot.Source? && slot.a in fds && fds[slot.a].hasCb && fds[slot.a].enabled then [slot.a] else []
  {
    assert slots[..i + 1][..i] == slots[..i];
  }

  lemma NothingPerformed(was: Loop, now: Loop, fate: Fate)
    requires Ended(now, fate) == PerformAll(was, [])
    ensures now == was && fate.Fine?
  {
  }

  lemma LogIsSound(l: Loop)
    requires Inv(l)
    ensures LogSound(l.log) && (l.dispatching <==> !l.phase.Outside?)
  {
  }

  lemma AllowedIsVisible(l: Loop, v: Loop, op: Op)
    requires l.fds == v.fds && l.sigs == v.sigs && l.held == v.held && l.owners == v.owners &&
      l.dispatching == v.dispatching
    ensures Allowed(l, op) <==> Allowed(v, op)
  {
    assert forall a :: Internal(l, a) <==> Internal(v, a);
  }

  lemma ReportableIsVisible(l: Loop, v: Loop, events: seq<Slot>)
    requires l.fds == v.fds && l.size == v.size && Reportable(l, events)
    ensures Reportable(v, events)
  {
  }

  /** The sources of all signals are there, and each signal has its own. */
  ghost predicate SigsLive(sigs: seq<Signal>, fds: map<nat, Fd>) {
    && (forall i :: 0 <= i < |sigs| ==> sigs[i].fd in fds)
    && (forall i, j :: 0 <= i < j < |sigs| ==> sigs[i].fd != sigs[j].fd)
  }

  lemma DroppedLive(sigs: seq<Signal>, i: nat, fds: map<nat, Fd>)
    requires SigsLive(sigs, fds) && i < |sigs|
    ensures SigsLive(Dropped(sigs, i), fds)
    ensures forall k :: 0 <= k < |sigs| - 1 ==> Dropped(sigs, i)[k].fd != sigs[i].fd
  {
    DroppedAt(sigs, i);
  }

  lemma UpdatedLive(sigs: seq<Signal>, i: nat, cbs: seq<nat>, fds: map<nat, Fd>)
    requires SigsLive(sigs, fds) && i < |sigs|
    ensures SigsLive(sigs[i := sigs[i].(cbs := cbs)], fds)
  {
  }

  lemma ReportableExtends(l: Loop, events: seq<Slot>, slot: Slot)
    requires Reportable(l, events) && |events| < l.size && slot !in events && !slot.Cleared?
    requires slot.Source? ==> slot.a in l.fds && l.fds[slot.a].bound && l.fds[slot.a].enabled
    ensures Reportable(l, events + [slot])
  {
  }

  lemma SignalFreeUnlinks(l: Loop)
    requires l.sigs != [] && l.ref == 0
    ensures SignalFree(l, 0).sigs == l.sigs[1..]
  {
    var m := l.(sigs := l.sigs[..0] + l.sigs[1..]);
    assert m.sigs == l.sigs[1..];
    var a := l.sigs[0].fd;
    if a in m.fds && m.fds[a].bound { assert Unref(Detach(m, a)) == Detach(m, a); }
  }
}
