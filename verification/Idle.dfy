/** Idle sources: a hook whose callbacks run as long as an event counter is positive.  Registering
    raises the counter, a dispatch reads it back to zero and raises it again if sources remain. */
module IdleSources {
  import opened HookModel

  /** A counter of the kernel refuses an increase beyond this value. */
  const MAX: nat := 0xffff_ffff_ffff_fffe

  datatype Idle = Idlers(s: State, counter: nat)

  const NO_IDLERS: Idle := Idlers(INITIAL, 0)

  datatype IdleStep =
    | Register(cb: nat, data: nat, single: bool, oneshot: bool)
    | Unregister(cb: nat, data: nat, single: bool)
    | ReadCounter   // the counter fires: it is read, and the call of the hook begins
    | CallNext
    | CallReturns
    | CallEnds

  function Write(counter: nat): nat {
    if counter < MAX then counter + 1 else counter
  }

  predicate Full(counter: nat) { counter >= MAX }

  ghost predicate EnabledIdle(i: Idle, step: IdleStep) {
    match step
    case Register(_, _, _, _) => i.s.at.Outside? || i.s.at.InCallback?
    case Unregister(_, _, _) => i.s.at.Outside? || i.s.at.InCallback?
    case ReadCounter => i.s.at.Outside? && i.counter > 0
    case CallNext => Enabled(i.s, FetchStep)
    case CallReturns => Enabled(i.s, ReturnStep)
    case CallEnds => Enabled(i.s, FinishStep)
  }

  /** The operation of the hook by which a source is added; a null callback is refused before the counter
      is touched. */
  function AddingOp(cb: nat, data: nat, single: bool, oneshot: bool): Op {
    if single then AddSingleOp(cb, data, oneshot) else AddOp(cb, data, oneshot)
  }

  ghost predicate Live(s: State) {
    s.h.releases == 0 && !s.h.dead
  }

  /** The hook is not freed as long as the loop is there. */
  ghost function NextIdle(i: Idle, step: IdleStep): Idle
    requires EnabledIdle(i, step) && Live(i.s)
  {
    match step
    case Register(cb, data, single, oneshot) =>
      var added := Next(i.s, Do(AddingOp(cb, data, single, oneshot)));
      if cb == 0 then i
      else if Full(i.counter) then Idlers(added.(h := Rm(added.h, cb, data)), i.counter)
      else Idlers(added, Write(i.counter))
    case Unregister(cb, data, single) =>
      i.(s := Next(i.s, Do(if single then RmAllOp(cb, data) else RmOp(cb, data))))
    case ReadCounter => Idlers(Next(i.s, BeginStep), 0)
    case CallNext => i.(s := Next(i.s, FetchStep))
    case CallReturns => i.(s := Next(i.s, ReturnStep))
    case CallEnds =>
      var s := Next(i.s, FinishStep);
      Idlers(s, if s.h.num > 0 then Write(i.counter) else i.counter)
  }

  ghost predicate IdleInv(i: Idle) {
    && HookModel.Inv(i.s) && Live(i.s) && i.counter <= MAX
    && (i.s.at.Outside? && i.s.h.entries != [] ==> i.counter > 0)
  }

  lemma RegisterStaysLive(s: State, cb: nat, data: nat, single: bool, oneshot: bool)
    requires HookModel.Inv(s) && Live(s) && !s.at.InLoop?
    ensures var r := Next(s, Do(AddingOp(cb, data, single, oneshot)));
      && HookModel.Inv(r) && Live(r) && r.at == s.at && r == r.(h := r.h)
      && HookModel.Inv(r.(h := Rm(r.h, cb, data))) && Live(r.(h := Rm(r.h, cb, data)))
  {
    var op := AddingOp(cb, data, single, oneshot);
    StepKeepsInv(s, Do(op));
    var r := Next(s, Do(op));
    RmBelowKeeps(r, cb, data, |r.h.entries|);
    RmKeepsDead(r.h, cb, data, |r.h.entries|);
  }

  lemma UnregisterStaysLive(s: State, cb: nat, data: nat, single: bool)
    requires HookModel.Inv(s) && Live(s) && !s.at.InLoop?
    ensures var r := Next(s, Do(if single then RmAllOp(cb, data) else RmOp(cb, data)));
      && HookModel.Inv(r) && Live(r) && r.at == s.at && (s.h.entries == [] ==> r.h.entries == [])
  {
    StepKeepsInv(s, Do(if single then RmAllOp(cb, data) else RmOp(cb, data)));
    RmKeepsDead(s.h, cb, data, |s.h.entries|);
    RmAllKeepsDead(s.h, cb, data, |s.h.entries|);
  }

  /** Registrations, removals and oneshots, inside and outside idle callbacks, keep the counter positive
      as long as there are sources. */
  lemma IdleStepKeeps(i: Idle, step: IdleStep)
    requires IdleInv(i) && EnabledIdle(i, step)
    ensures IdleInv(NextIdle(i, step))
  {
    hide HookModel.Inv, Apply;
    match step
    case Register(cb, data, single, oneshot) => if cb != 0 { RegisterStaysLive(i.s, cb, data, single, oneshot); }
    case Unregister(cb, data, single) => UnregisterStaysLive(i.s, cb, data, single);
    case ReadCounter => StepKeepsInv(i.s, BeginStep);
    case CallNext => StepKeepsInv(i.s, FetchStep);
    case CallReturns => StepKeepsInv(i.s, ReturnStep);
    case CallEnds =>
      StepKeepsInv(i.s, FinishStep);
  }

  ghost predicate IdleRun(i: seq<Idle>, steps: seq<IdleStep>) {
    && |i| == |steps| + 1 && i[0] == NO_IDLERS
    && forall k :: 0 <= k < |steps| ==>
      EnabledIdle(i[k], steps[k]) && Live(i[k].s) && i[k + 1] == NextIdle(i[k], steps[k])
  }

  lemma {:induction false} IdleRunKeeps(i: seq<Idle>, steps: seq<IdleStep>, k: nat)
    requires IdleRun(i, steps) && k <= |steps|
    ensures IdleInv(i[k])
  {
    if k > 0 {
      IdleRunKeeps(i, steps, k - 1);
      hide IdleInv;
      IdleStepKeeps(i[k - 1], steps[k - 1]);
    }
  }

  /** Between rounds no idle source is lost: while there is one, the counter is positive, so the next round
      reads it, and that round calls every source that is there, unless a callback removes it first. */
  lemma NoIdleSourceIsLost(i: seq<Idle>, steps: seq<IdleStep>, k: nat)
    requires IdleRun(i, steps) && k <= |steps|
    ensures i[k].s.at.Outside? && i[k].s.h.entries != [] ==> EnabledIdle(i[k], ReadCounter)
    ensures k < |steps| && steps[k].CallEnds? ==>
      forall e :: e in i[k].s.start ==> e.id in i[k].s.called || Removed(e.id) in i[k].s.h.log
  {
    IdleRunKeeps(i, steps, k);
    if k < |steps| && steps[k].CallEnds? {
      assert EnabledIdle(i[k], steps[k]);
      forall e | e in i[k].s.start ensures e.id in i[k].s.called || Removed(e.id) in i[k].s.h.log {
        assert Accounted(i[k].s, e.id);
      }
    }
  }

  // ---------------------------------------------------------------- a full counter

  /** Another source with this callback and data is registered. */
  ghost predicate Registered(i: Idle, cb: nat, data: nat) {
    exists k :: 0 <= k < |i.s.h.entries| && Matches(i.s.h.entries[k], cb, data)
  }

  /** The exact condition for a registration to keep all sources that were there.  It fails if and only if
      the counter is full, so that the registration is undone, and a single registration finds the source
      registered already: undoing then takes that one away.  A full counter needs nearly 2^64
      registrations between two reads. */
  lemma RegisterKeepsOthersIff(i: Idle, cb: nat, data: nat, single: bool, oneshot: bool)
    requires IdleInv(i) && EnabledIdle(i, Register(cb, data, single, oneshot))
    ensures i.s.h.entries <= NextIdle(i, Register(cb, data, single, oneshot)).s.h.entries
      <==> !(Full(i.counter) && single && cb != 0 && Registered(i, cb, data))
  {
    hide IdleInv;
    var h := i.s.h;
    if cb != 0 && Full(i.counter) {
      if single && Registered(i, cb, data) {
        RmTakesOne(h, cb, data, |h.entries|);
      } else {
        var e := Entry(h.nextId, cb, data, oneshot);
        assert Without(h.entries + [e], |h.entries|) == h.entries;
        assert Rm(Add(h, cb, data, oneshot), cb, data).entries == h.entries;
      }
    }
  }

  lemma {:induction false} RmTakesOne(h: Hook, cb: nat, data: nat, n: nat)
    requires n <= |h.entries| && cb != 0 && exists k :: 0 <= k < n && Matches(h.entries[k], cb, data)
    ensures |RmBelow(h, cb, data, n).entries| == |h.entries| - 1
  {
    if !Matches(h.entries[n - 1], cb, data) { RmTakesOne(h, cb, data, n - 1); }
  }

  /** In that case just one source is lost. */
  lemma FailedSingleForgets(i: Idle, cb: nat, data: nat)
    requires IdleInv(i) && Full(i.counter) && cb != 0 && !i.s.at.InLoop? && Registered(i, cb, data)
    ensures |NextIdle(i, Register(cb, data, true, false)).s.h.entries| == |i.s.h.entries| - 1
  {
    RmTakesOne(i.s.h, cb, data, |i.s.h.entries|);
  }
}
