/** An event loop whose callbacks may reference, add, remove and destroy sources while the loop is
    dispatching them.  As with hooks, the callbacks are an adversary: any allowed operations may
    happen while one of them runs.  The class `EvLoop` performs the operations stated here. */
module EloopModel {
  /** A source.  It lives at an address, which may be used again once the source is freed. */
  datatype Fd = Fd(ref: nat, enabled: bool, hasCb: bool, bound: bool)

  /** A slot of the array of pending events. */
  datatype Slot = Self | Source(a: nat) | Cleared

  datatype Signal = Signal(signum: nat, fd: nat, cbs: seq<nat>)

  datatype Phase = Outside | Pre | Serving(pos: nat) | Calling(pos: nat) | Post

  datatype Event = Removed(a: nat) | Served(a: nat)

  /** The loop, with the references that are held by code outside it (`owners` on the loop, `held` on
      sources), where the dispatcher is, and what happened since it last waited. */
  datatype Loop = Loop(
    alive: bool, ref: nat, fds: map<nat, Fd>, sigs: seq<Signal>, chlds: seq<nat>,
    dispatching: bool, cur: seq<Slot>, size: nat,
    owners: nat, held: multiset<nat>, phase: Phase, log: seq<Event>)

  const SIGCHLD: nat := 17

  /** The loop's own callback for SIGCHLD, which no user can name. */
  const REAPER: nat := 1

  const FRESH: Loop := Loop(true, 1, map[], [], [], false, [], 32, 1, multiset{}, Outside, [])

  // ---------------------------------------------------------------- sources

  function FdRef(l: Loop, a: nat): Loop {
    if a in l.fds && l.fds[a].ref > 0 then l.(fds := l.fds[a := l.fds[a].(ref := l.fds[a].ref + 1)]) else l
  }

  /** Without references the source is freed. */
  function FdUnref(l: Loop, a: nat): Loop {
    if a !in l.fds || l.fds[a].ref == 0 then l
    else if l.fds[a].ref > 1 then l.(fds := l.fds[a := l.fds[a].(ref := l.fds[a].ref - 1)])
    else l.(fds := l.fds - {a})
  }

  function Flush(cur: seq<Slot>, a: nat): (r: seq<Slot>)
    ensures |r| == |cur| && forall i :: 0 <= i < |cur| ==> r[i] == if cur[i] == Source(a) then Cleared else cur[i]
  {
    if cur == [] then [] else [if cur[0] == Source(a) then Cleared else cur[0]] + Flush(cur[1..], a)
  }

  function FlushFd(l: Loop, a: nat): (r: Loop)
    ensures r == l.(cur := r.cur) && |r.cur| == |l.cur|
  {
    if l.dispatching then l.(cur := Flush(l.cur, a)) else l
  }

  function AddFd(l: Loop, a: nat): Loop {
    if a !in l.fds || l.fds[a].bound then l
    else Ref(FdRef(l.(fds := l.fds[a := l.fds[a].(bound := true)]), a))
  }

  /** What no operation of a user changes, and that events are only added. */
  predicate SameRound(l: Loop, r: Loop) {
    r.phase == l.phase && r.dispatching == l.dispatching && |r.cur| == |l.cur| && r.size == l.size && l.log <= r.log
  }

  /** Moreover all new events are removals, and a pending slot is as it was or has lost a source that was removed. */
  predicate Clears(l: Loop, r: Loop) {
    && SameRound(l, r)
    && (forall k :: |l.log| <= k < |r.log| ==> r.log[k].Removed?)
    && (forall m :: 0 <= m < |l.cur| ==>
         || r.cur[m] == l.cur[m]
         || (r.cur[m] == Cleared && l.cur[m].Source? && Removed(l.cur[m].a) in r.log))
  }

  lemma ClearsChain(a: Loop, b: Loop, c: Loop)
    requires Clears(a, b) && Clears(b, c)
    ensures Clears(a, c)
  {
  }

  /** Unbound and cleared from the pending events, but not dereferenced yet. */
  function Detach(l: Loop, a: nat): (r: Loop)
    requires a in l.fds
    ensures r.ref == l.ref && r.sigs == l.sigs && Clears(l, r)
  {
    var m := FlushFd(l, a);
    FdUnref(m.(fds := l.fds[a := l.fds[a].(bound := false)], log := l.log + [Removed(a)]), a)
  }

  function RmFd(l: Loop, a: nat): (r: Loop)
    ensures r.ref <= l.ref && Clears(l, r)
    decreases l.ref, 1
  {
    if a !in l.fds || !l.fds[a].bound then l else Unref(Detach(l, a))
  }

  // ---------------------------------------------------------------- the loop's references

  function Ref(l: Loop): Loop {
    l.(ref := l.ref + 1)
  }

  function Unref(l: Loop): (r: Loop)
    ensures r.ref <= l.ref && Clears(l, r)
    decreases l.ref, 0
  {
    if l.ref == 0 then l
    else if l.ref > 1 then l.(ref := l.ref - 1)
    else Destroy(l.(ref := 0))
  }

  /** Unregisters from SIGCHLD, frees all shared signals, and then the loop. */
  function Destroy(l: Loop): (r: Loop)
    ensures r.ref <= l.ref && Clears(l, r)
    decreases l.ref, 5
  {
    FreeAll(if l.chlds != [] then UnregisterSignal(l, SIGCHLD, REAPER) else l).(alive := false)
  }

  function FreeAll(l: Loop): (r: Loop)
    ensures r.ref <= l.ref && Clears(l, r)
    decreases l.ref, 4, |l.sigs|
  {
    if l.sigs == [] then l
    else
      var m := SignalFree(l, 0);
      if |m.sigs| < |l.sigs| then FreeAll(m) else m
  }

  // ---------------------------------------------------------------- shared signals and children

  function FindSig(sigs: seq<Signal>, signum: nat): (i: nat)
    ensures i <= |sigs| && (i < |sigs| ==> sigs[i].signum == signum)
    ensures forall k :: 0 <= k < i ==> sigs[k].signum != signum
  {
    if sigs == [] || sigs[0].signum == signum then 0 else FindSig(sigs[1..], signum) + 1
  }

  function Times(cbs: seq<nat>, cb: nat): nat {
    multiset(cbs)[cb]
  }

  function RemoveLast(cbs: seq<nat>, cb: nat): (r: seq<nat>)
    ensures multiset(r) == multiset(cbs) - multiset{cb}
  {
    if cbs == [] then []
    else
      var n := |cbs| - 1;
      assert cbs == cbs[..n] + [cbs[n]];
      if cbs[n] == cb then cbs[..n] else RemoveLast(cbs[..n], cb) + [cbs[n]]
  }

  function SignalFree(l: Loop, i: nat): (r: Loop)
    requires i < |l.sigs|
    ensures r.ref <= l.ref && Clears(l, r)
    decreases l.ref, 2
  {
    RmFd(l.(sigs := l.sigs[..i] + l.sigs[i + 1..]), l.sigs[i].fd)
  }

  /** The new source is referenced by the loop only. */
  function SignalNew(l: Loop, signum: nat, a: nat): Loop {
    var m := FdUnref(AddFd(l.(fds := l.fds[a := Fd(1, true, true, false)]), a), a);
    m.(sigs := [Signal(signum, a, [])] + m.sigs)
  }

  function AppendCb(l: Loop, i: nat, cb: nat): Loop
    requires i < |l.sigs|
  {
    l.(sigs := l.sigs[i := l.sigs[i].(cbs := l.sigs[i].cbs + [cb])])
  }

  function RegisterSignal(l: Loop, signum: nat, cb: nat, a: nat): (r: Loop)
    ensures Clears(l, r)
  {
    if cb == 0 then l
    else if FindSig(l.sigs, signum) < |l.sigs| then AppendCb(l, FindSig(l.sigs, signum), cb)
    else AppendCb(SignalNew(l, signum, a), 0, cb)
  }

  function UnregisterSignal(l: Loop, signum: nat, cb: nat): (r: Loop)
    ensures r.ref <= l.ref && Clears(l, r)
    decreases l.ref, 3
  {
    var i := FindSig(l.sigs, signum);
    if i == |l.sigs| then l
    else
      var cbs := RemoveLast(l.sigs[i].cbs, cb);
      var m := l.(sigs := l.sigs[i := l.sigs[i].(cbs := cbs)]);
      if cbs == [] then SignalFree(m, i) else m
  }

  function RegisterChild(l: Loop, cb: nat, a: nat): (r: Loop)
    ensures Clears(l, r)
  {
    if cb == 0 then l
    else
      var m := l.(chlds := l.chlds + [cb]);
      if l.chlds == [] then RegisterSignal(m, SIGCHLD, REAPER, a) else m
  }

  function UnregisterChild(l: Loop, cb: nat): (r: Loop)
    ensures Clears(l, r)
  {
    if l.chlds == [] then l
    else
      var m := l.(chlds := RemoveLast(l.chlds, cb));
      if m.chlds == [] then UnregisterSignal(m, SIGCHLD, REAPER) else m
  }

  // ---------------------------------------------------------------- what users may do

  /** What concerns a source alone. */
  datatype SourceOp =
    | New(a: nat, hasCb: bool) | RefFd(a: nat) | UnrefFd(a: nat)
    | SetEnabled(a: nat, on: bool) | SetCb(a: nat, hasCb: bool)

  datatype Op =
    | RefLoop | UnrefLoop
    | Fds(op: SourceOp) | Add(a: nat) | Rm(a: nat) | FlushOp(a: nat)
    | RegSignal(signum: nat, cb: nat, a: nat) | UnregSignal(signum: nat, cb: nat)
    | RegChild(cb: nat, a: nat) | UnregChild(cb: nat)

  /** The source of a shared signal is known to the loop only. */
  predicate Internal(l: Loop, a: nat) {
    exists i :: 0 <= i < |l.sigs| && l.sigs[i].fd == a
  }

  /** Users name live sources and give back only references that somebody holds. */
  predicate Allowed(l: Loop, op: Op) {
    match op
    case Fds(New(a, _)) => a !in l.fds
    case Fds(UnrefFd(a)) => l.held[a] > 0
    case Fds(sop) => sop.a in l.fds && !Internal(l, sop.a)
    case RefLoop => true
    case UnrefLoop => l.owners > 0
    case RegSignal(_, cb, a) => cb != REAPER && a !in l.fds
    case UnregSignal(_, cb) => cb != REAPER
    case RegChild(_, a) => a !in l.fds
    case UnregChild(_) => true
    case _ => op.a in l.fds && !Internal(l, op.a)
  }

  function ApplySource(l: Loop, op: SourceOp): Loop {
    match op
    case New(a, hasCb) => l.(fds := l.fds[a := Fd(1, true, hasCb, false)], held := l.held + multiset{a})
    case RefFd(a) => FdRef(l, a).(held := l.held + multiset{a})
    case UnrefFd(a) => FdUnref(l, a).(held := l.held - multiset{a})
    case SetEnabled(a, on) => if a in l.fds then l.(fds := l.fds[a := l.fds[a].(enabled := on)]) else l
    case SetCb(a, hasCb) => if a in l.fds then l.(fds := l.fds[a := l.fds[a].(hasCb := hasCb)]) else l
  }

  function Apply(l: Loop, op: Op): Loop {
    match op
    case RefLoop => Ref(l).(owners := l.owners + 1)
    case UnrefLoop => Unref(l.(owners := if l.owners > 0 then l.owners - 1 else 0))
    case Fds(sop) => ApplySource(l, sop)
    case Add(a) => AddFd(l, a)
    case Rm(a) => RmFd(l, a)
    case FlushOp(a) => FlushFd(l, a)
    case RegSignal(signum, cb, a) => RegisterSignal(l, signum, cb, a)
    case UnregSignal(signum, cb) => UnregisterSignal(l, signum, cb)
    case RegChild(cb, a) => RegisterChild(l, cb, a)
    case UnregChild(cb) => UnregisterChild(l, cb)
  }

  /** The operation gives up a reference on the loop: an owner's, or that of a source that goes. */
  predicate Drops(l: Loop, op: Op) {
    match op
    case UnrefLoop => true
    case Rm(a) => a in l.fds && l.fds[a].bound
    case UnregSignal(signum, cb) => LastCallback(l, signum, cb)
    case UnregChild(cb) => l.chlds == [cb] && LastCallback(l, SIGCHLD, REAPER)
    case _ => false
  }

  /** The signal has this callback and no other. */
  predicate LastCallback(l: Loop, signum: nat, cb: nat) {
    var i := FindSig(l.sigs, signum);
    i < |l.sigs| && l.sigs[i].cbs == [cb]
  }

  // ---------------------------------------------------------------- dispatch rounds

  /** What the kernel may report: distinct registered and enabled sources, as many as fit. */
  predicate Reportable(l: Loop, events: seq<Slot>) {
    && |events| <= l.size
    && (forall i :: 0 <= i < |events| ==> match events[i]
          case Self => true
          case Source(a) => a in l.fds && l.fds[a].bound && l.fds[a].enabled
          case Cleared => false)
    && (forall i, j :: 0 <= i < j < |events| ==> events[i] != events[j])
  }

  datatype Step =
    | Do(op: Op)
    | BeginRound
    | Wait(events: seq<Slot>)
    | WaitFailed
    | Serve
    | Return
    | Leave
    | EndRound

  predicate Enabled(l: Loop, step: Step) {
    l.alive && match step
    case Do(op) => !l.phase.Serving? && Allowed(l, op)
    case BeginRound => l.phase.Outside?
    case Wait(events) => l.phase.Pre? && Reportable(l, events)
    case WaitFailed => l.phase.Pre?
    case Serve => l.phase.Serving? && l.phase.pos < |l.cur|
    case Return => l.phase.Calling?
    case Leave => l.phase.Serving? && l.phase.pos >= |l.cur|
    case EndRound => l.phase.Post?
  }

  /** Reading the slot: a source is asked whether it has a callback and is enabled. */
  predicate Callable(l: Loop, slot: Slot) {
    match slot
    case Self => true
    case Source(a) => a in l.fds && l.fds[a].hasCb && l.fds[a].enabled
    case Cleared => false
  }

  function Next(l: Loop, step: Step): Loop
    requires Enabled(l, step)
  {
    match step
    case Do(op) => Apply(l, op)
    case BeginRound => l.(phase := Pre, dispatching := true)
    case Wait(events) => l.(phase := Serving(0), cur := events, log := [])
    case WaitFailed => l.(phase := Post)
    case Serve =>
      var slot := l.cur[l.phase.pos];
      if !Callable(l, slot) then l.(phase := Serving(l.phase.pos + 1))
      else l.(phase := Calling(l.phase.pos), log := if slot.Source? then l.log + [Served(slot.a)] else l.log)
    case Return => l.(phase := Serving(l.phase.pos + 1))
    case Leave => l.(phase := Post, size := if |l.cur| == l.size then l.size * 2 else l.size)
    case EndRound => l.(phase := Outside, dispatching := false)
  }

  // ---------------------------------------------------------------- the invariant

  function Bound(fds: map<nat, Fd>): set<nat> {
    set a | a in fds && fds[a].bound
  }

  /** Sources are counted right and live exactly as long as somebody refers to them. */
  ghost predicate FdsSound(fds: map<nat, Fd>, held: multiset<nat>) {
    && (forall a :: a in fds ==> fds[a].ref > 0 && fds[a].ref == held[a] + if fds[a].bound then 1 else 0)
    && (forall a :: a in held ==> a in fds)
  }

  /** The source of a shared signal belongs to the loop alone. */
  ghost predicate Private(a: nat, fds: map<nat, Fd>, held: multiset<nat>) {
    a in fds && fds[a].bound && held[a] == 0
  }

  ghost predicate SigsSound(sigs: seq<Signal>, fds: map<nat, Fd>, held: multiset<nat>) {
    && (forall i :: 0 <= i < |sigs| ==> sigs[i].cbs != [] && Private(sigs[i].fd, fds, held))
    && (forall i, j :: 0 <= i < j < |sigs| ==> sigs[i].fd != sigs[j].fd && sigs[i].signum != sigs[j].signum)
  }

  function Reapers(s: Signal): nat {
    Times(s.cbs, REAPER)
  }

  /** The reaper is registered for SIGCHLD, once, just when somebody waits for children. */
  ghost predicate ChildSound(sigs: seq<Signal>, chlds: seq<nat>) {
    && (forall i :: 0 <= i < |sigs| ==> Reapers(sigs[i]) == if sigs[i].signum == SIGCHLD && chlds != [] then 1 else 0)
    && (chlds != [] ==> exists i :: 0 <= i < |sigs| && sigs[i].signum == SIGCHLD)
  }

  /** Where the next slot to be read is. */
  function Ahead(phase: Phase, count: nat): nat {
    match phase
    case Serving(pos) => pos
    case Calling(pos) => pos + 1
    case _ => count
  }

  ghost predicate Pending(slot: Slot, fds: map<nat, Fd>, log: seq<Event>) {
    slot.Source? ==> slot.a in fds && fds[slot.a].bound && Removed(slot.a) !in log
  }

  /** Sources still to be served are bound, and have not been removed since the loop waited. */
  ghost predicate RoundSound(phase: Phase, cur: seq<Slot>, fds: map<nat, Fd>, log: seq<Event>) {
    forall i :: Ahead(phase, |cur|) <= i < |cur| ==> Pending(cur[i], fds, log)
  }

  /** Nothing was served after it was removed. */
  ghost predicate LogSound(log: seq<Event>) {
    forall i, j :: 0 <= i < j < |log| && log[i].Removed? ==> log[j] != Served(log[i].a)
  }

  ghost predicate Counted(l: Loop) {
    && l.ref == l.owners + |Bound(l.fds)|
    && (l.alive <==> l.ref > 0)
    && (l.dispatching <==> !l.phase.Outside?)
  }

  /** The invariant, apart from who waits for children. */
  ghost predicate InvButChild(l: Loop) {
    && Counted(l) && FdsSound(l.fds, l.held) && SigsSound(l.sigs, l.fds, l.held)
    && RoundSound(l.phase, l.cur, l.fds, l.log) && LogSound(l.log)
  }

  ghost predicate Inv(l: Loop) {
    InvButChild(l) && ChildSound(l.sigs, l.chlds)
  }

  // ---------------------------------------------------------------- every step keeps the invariant

  lemma SignalIsBound(sigs: seq<Signal>, fds: map<nat, Fd>, held: multiset<nat>)
    requires SigsSound(sigs, fds, held) && sigs != []
    ensures |Bound(fds)| > 0
  {
    assert Private(sigs[0].fd, fds, held);
    assert sigs[0].fd in Bound(fds);
  }

  /** At the last reference no source is bound, so no signal is shared and nobody waits for children:
      what `Destroy` would clean up is gone already. */
  lemma UnrefFindsNothing(l: Loop)
    requires SigsSound(l.sigs, l.fds, l.held) && ChildSound(l.sigs, l.chlds) && l.alive
    requires l.ref == l.owners + |Bound(l.fds)| + 1
    ensures Unref(l) == l.(ref := l.ref - 1, alive := l.ref > 1)
    ensures l.ref == 1 ==> l.sigs == [] && l.chlds == []
  {
    if l.sigs != [] { SignalIsBound(l.sigs, l.fds, l.held); }
    if l.ref == 1 {
      assert l.sigs == [] && l.chlds == [];
      assert FreeAll(l.(ref := 0)) == l.(ref := 0);
    }
  }

  lemma Rebound(fds: map<nat, Fd>, a: nat, f: Fd)
    ensures Bound(fds[a := f]) == if f.bound then Bound(fds) + {a} else Bound(fds) - {a}
  {
  }

  /** Signals do not mind what happens to other sources. */
  lemma SigsFrame(sigs: seq<Signal>, fds: map<nat, Fd>, held: multiset<nat>, fds': map<nat, Fd>,
      held': multiset<nat>)
    requires SigsSound(sigs, fds, held)
    requires forall i :: 0 <= i < |sigs| ==> Private(sigs[i].fd, fds', held')
    ensures SigsSound(sigs, fds', held')
  {
  }

  lemma DetachFds(l: Loop, a: nat)
    requires FdsSound(l.fds, l.held) && a in l.fds && l.fds[a].bound
    ensures var r := Detach(l, a);
      && FdsSound(r.fds, r.held) && |Bound(r.fds)| + 1 == |Bound(l.fds)|
      && (forall b :: b != a ==> (b in r.fds <==> b in l.fds) && (b in l.fds ==> r.fds[b] == l.fds[b]))
  {
    hide FlushFd, FdsSound;
    var r := Detach(l, a);
    assert Bound(r.fds) == Bound(l.fds) - {a};
    assert |Bound(r.fds)| + 1 == |Bound(l.fds)|;
    assert FdsSound(r.fds, r.held) by { DetachCounts(l, a); }
  }

  lemma DetachCounts(l: Loop, a: nat)
    requires FdsSound(l.fds, l.held) && a in l.fds && l.fds[a].bound
    ensures FdsSound(Detach(l, a).fds, l.held)
  {
    hide FlushFd;
    assert l.fds[a].ref == l.held[a] + 1;
  }

  lemma DetachRound(l: Loop, a: nat)
    requires RoundSound(l.phase, l.cur, l.fds, l.log) && LogSound(l.log) && (l.dispatching <==> !l.phase.Outside?)
    requires a in l.fds && forall b :: b != a && b in l.fds ==> b in Detach(l, a).fds && Detach(l, a).fds[b] == l.fds[b]
    ensures var r := Detach(l, a);
      && RoundSound(r.phase, r.cur, r.fds, r.log) && LogSound(r.log)
      && r == l.(cur := r.cur, fds := r.fds, log := r.log)
  {
    var r := Detach(l, a);
    forall i | Ahead(r.phase, |r.cur|) <= i < |r.cur| ensures Pending(r.cur[i], r.fds, r.log) {
      assert Pending(l.cur[i], l.fds, l.log);
    }
  }

  lemma RmKeeps(l: Loop, a: nat)
    requires Inv(l) && a in l.fds && !Internal(l, a)
    ensures var r := RmFd(l, a);
      && Inv(r) && r.owners == l.owners && r.phase == l.phase
      && (l.alive && !r.alive ==> l.sigs == [] && l.chlds == [])
      && (l.alive ==> (r.alive <==> !(l.fds[a].bound && l.ref == 1)))
  {
    if l.fds[a].bound {
      var m := Detach(l, a);
      DetachFds(l, a);
      DetachRound(l, a);
      assert a in Bound(l.fds);
      hide Detach, FdsSound, RoundSound, LogSound, ChildSound, Bound;
      forall i | 0 <= i < |l.sigs| ensures Private(l.sigs[i].fd, m.fds, m.held) {
        assert Private(l.sigs[i].fd, l.fds, l.held);
      }
      SigsFrame(l.sigs, l.fds, l.held, m.fds, m.held);
      hide SigsSound;
      UnrefFindsNothing(m);
    }
  }

  function Dropped(sigs: seq<Signal>, i: nat): seq<Signal>
    requires i < |sigs|
  {
    sigs[..i] + sigs[i + 1..]
  }

  /** The signals when number `i` gets other callbacks, and goes away without any. */
  function WithCbs(sigs: seq<Signal>, i: nat, cbs: seq<nat>): seq<Signal>
    requires i < |sigs|
  {
    if cbs == [] then Dropped(sigs, i) else sigs[i := sigs[i].(cbs := cbs)]
  }

  lemma DroppedAt(sigs: seq<Signal>, i: nat)
    requires i < |sigs|
    ensures |Dropped(sigs, i)| == |sigs| - 1
    ensures forall k :: 0 <= k < |sigs| - 1 ==> Dropped(sigs, i)[k] == sigs[if k < i then k else k + 1]
  {
  }

  lemma NewCbsKeep(l: Loop, i: nat, cbs: seq<nat>)
    requires InvButChild(l) && i < |l.sigs| && ChildSound(WithCbs(l.sigs, i, cbs), l.chlds)
    ensures var m := l.(sigs := l.sigs[i := l.sigs[i].(cbs := cbs)]);
      var r := if cbs == [] then SignalFree(m, i) else m;
      && Inv(r) && r.owners == l.owners && r.phase == l.phase
      && (l.alive && !r.alive ==> |l.sigs| == 1 && l.chlds == [])
      && (l.alive ==> (r.alive <==> !(cbs == [] && l.ref == 1)))
  {
    hide InvButChild, ChildSound, SignalFree, WithCbs;
    if cbs == [] { LastCbGoes(l, i, cbs); } else { OtherCbsKeep(l, i, cbs); }
  }

  lemma OtherCbsKeep(l: Loop, i: nat, cbs: seq<nat>)
    requires InvButChild(l) && i < |l.sigs| && ChildSound(WithCbs(l.sigs, i, cbs), l.chlds) && cbs != []
    ensures Inv(l.(sigs := l.sigs[i := l.sigs[i].(cbs := cbs)]))
  {
    hide FdsSound, ChildSound, RoundSound, LogSound, Private;
  }

  lemma LastCbGoes(l: Loop, i: nat, cbs: seq<nat>)
    requires InvButChild(l) && i < |l.sigs| && ChildSound(WithCbs(l.sigs, i, cbs), l.chlds) && cbs == []
    ensures var r := SignalFree(l.(sigs := l.sigs[i := l.sigs[i].(cbs := cbs)]), i);
      && Inv(r) && r.owners == l.owners && r.phase == l.phase
      && (l.alive && !r.alive ==> |l.sigs| == 1 && l.chlds == [])
      && (l.alive ==> (r.alive <==> l.ref != 1))
  {
    hide FdsSound, ChildSound, RoundSound, LogSound, RmFd;
    var r := l.(sigs := Dropped(l.sigs, i));
    assert Private(l.sigs[i].fd, l.fds, l.held);
    DroppedAt(l.sigs, i);
    assert Dropped(l.sigs[i := l.sigs[i].(cbs := cbs)], i) == Dropped(l.sigs, i);
    assert SigsSound(r.sigs, l.fds, l.held);
    assert WithCbs(l.sigs, i, cbs) == r.sigs && !Internal(r, l.sigs[i].fd);
    RmKeeps(r, l.sigs[i].fd);
  }

  lemma ChildWithCbs(sigs: seq<Signal>, chlds: seq<nat>, i: nat, cbs: seq<nat>)
    requires i < |sigs| && Times(cbs, REAPER) == if sigs[i].signum == SIGCHLD && chlds != [] then 1 else 0
    requires forall k :: 0 <= k < |sigs| && k != i ==>
      Reapers(sigs[k]) == if sigs[k].signum == SIGCHLD && chlds != [] then 1 else 0
    requires chlds != [] ==> exists k :: 0 <= k < |sigs| && sigs[k].signum == SIGCHLD
    ensures ChildSound(WithCbs(sigs, i, cbs), chlds)
  {
    var r := WithCbs(sigs, i, cbs);
    DroppedAt(sigs, i);
    if chlds != [] {
      var k :| 0 <= k < |sigs| && sigs[k].signum == SIGCHLD;
      assert r[if cbs == [] && k > i then k - 1 else k].signum == SIGCHLD;
    }
  }

  lemma RemovesAll(cbs: seq<nat>, cb: nat)
    ensures RemoveLast(cbs, cb) == [] <==> cbs == [] || cbs == [cb]
    decreases |cbs|
  {
    if |cbs| > 1 && cbs[|cbs| - 1] != cb { assert RemoveLast(cbs, cb) != []; }
  }

  lemma UserCbGoes(sigs: seq<Signal>, chlds: seq<nat>, i: nat, cb: nat)
    requires ChildSound(sigs, chlds) && cb != REAPER && i < |sigs|
    ensures ChildSound(WithCbs(sigs, i, RemoveLast(sigs[i].cbs, cb)), chlds)
  {
    hide RemoveLast, WithCbs;
    var cbs := RemoveLast(sigs[i].cbs, cb);
    assert Times(cbs, REAPER) == Reapers(sigs[i]);
    ChildWithCbs(sigs, chlds, i, cbs);
  }

  lemma UnregisterKeeps(l: Loop, signum: nat, cb: nat)
    requires Inv(l) && cb != REAPER
    ensures var r := UnregisterSignal(l, signum, cb);
      && Inv(r) && r.owners == l.owners && r.phase == l.phase
      && (l.alive && !r.alive ==> |l.sigs| == 1 && l.chlds == [])
      && (l.alive ==> (r.alive <==> !(LastCallback(l, signum, cb) && l.ref == 1)))
  {
    var i := FindSig(l.sigs, signum);
    if i < |l.sigs| {
      RemovesAll(l.sigs[i].cbs, cb);
      assert l.sigs[i].cbs != [];
      hide InvButChild, SignalFree, RemoveLast, FindSig, WithCbs, ChildSound;
      UserCbGoes(l.sigs, l.chlds, i, cb);
      NewCbsKeep(l, i, RemoveLast(l.sigs[i].cbs, cb));
    }
  }

  lemma UnregisterChildKeeps(l: Loop, cb: nat)
    requires Inv(l)
    ensures var r := UnregisterChild(l, cb);
      && Inv(r) && r.owners == l.owners && r.phase == l.phase
      && (l.alive && !r.alive ==> |l.sigs| == 1 && |l.chlds| == 1)
      && (l.alive ==> (r.alive <==> !(l.chlds == [cb] && LastCallback(l, SIGCHLD, REAPER) && l.ref == 1)))
  {
    if l.chlds != [] {
      RemovesAll(l.chlds, cb);
      var m := l.(chlds := RemoveLast(l.chlds, cb));
      if m.chlds == [] {
        var i := FindSig(l.sigs, SIGCHLD);
        var cbs := RemoveLast(l.sigs[i].cbs, REAPER);
        RemovesAll(l.sigs[i].cbs, REAPER);
        assert Times(cbs, REAPER) == 0;
        forall k | 0 <= k < |l.sigs| && k != i ensures Reapers(l.sigs[k]) == 0 {
          assert l.sigs[k].signum != l.sigs[i].signum;
        }
        hide FdsSound, RoundSound, LogSound, Counted, SignalFree;
        ChildWithCbs(m.sigs, m.chlds, i, cbs);
        NewCbsKeep(m, i, cbs);
      }
    }
  }

  lemma AddKeeps(l: Loop, a: nat)
    requires Inv(l) && a in l.fds && l.alive
    ensures var r := AddFd(l, a); Inv(r) && r.alive && r.owners == l.owners && r.phase == l.phase
  {
    if !l.fds[a].bound {
      var r := AddFd(l, a);
      Rebound(l.fds, a, r.fds[a]);
      assert r.fds == l.fds[a := r.fds[a]];
      assert l.fds[a].ref == l.held[a];
      CountOne(l, r, a);
      hide FdsSound, LogSound, ChildSound, Bound;
      forall i | 0 <= i < |l.sigs| ensures Private(l.sigs[i].fd, r.fds, r.held) {
        assert Private(l.sigs[i].fd, l.fds, l.held);
      }
      SigsFrame(l.sigs, l.fds, l.held, r.fds, r.held);
      hide SigsSound;
      RoundFrame(l, r);
    }
  }

  /** Sources that stay as they are, and events that are no removals, do not disturb the round. */
  lemma RoundFrame(l: Loop, r: Loop)
    requires RoundSound(l.phase, l.cur, l.fds, l.log) && r.phase == l.phase && r.cur == l.cur && r.log == l.log
    requires forall b :: b in l.fds && l.fds[b].bound ==> b in r.fds && r.fds[b].bound
    ensures RoundSound(r.phase, r.cur, r.fds, r.log)
  {
    forall i | Ahead(r.phase, |r.cur|) <= i < |r.cur| ensures Pending(r.cur[i], r.fds, r.log) {
      assert Pending(l.cur[i], l.fds, l.log);
    }
  }

  /** A new shared signal takes a reference on the loop through its source, and nobody else holds it. */
  lemma SignalNewMakes(l: Loop, signum: nat, a: nat)
    requires a !in l.fds
    ensures SignalNew(l, signum, a)
         == l.(ref := l.ref + 1, fds := l.fds[a := Fd(1, true, true, true)], sigs := [Signal(signum, a, [])] + l.sigs)
  {
    var m := AddFd(l.(fds := l.fds[a := Fd(1, true, true, false)]), a);
    assert m.fds == l.fds[a := Fd(2, true, true, true)];
    assert FdUnref(m, a).fds == l.fds[a := Fd(1, true, true, true)];
  }

  /** The loop with one more signal. */
  lemma NewSignalKeeps(l: Loop, s: Signal)
    requires InvButChild(l) && l.alive && s.fd !in l.fds && s.cbs != []
    requires forall i :: 0 <= i < |l.sigs| ==> l.sigs[i].signum != s.signum
    ensures InvButChild(l.(ref := l.ref + 1, fds := l.fds[s.fd := Fd(1, true, true, true)], sigs := [s] + l.sigs))
  {
    var r := l.(ref := l.ref + 1, fds := l.fds[s.fd := Fd(1, true, true, true)], sigs := [s] + l.sigs);
    Rebound(l.fds, s.fd, r.fds[s.fd]);
    assert FdsSound(r.fds, r.held) && l.held[s.fd] == 0;
    hide FdsSound, LogSound, Bound, SigsSound;
    FrontSignal(l.sigs, s, l.fds, r.fds, l.held);
    RoundFrame(l, r);
    hide RoundSound;
  }

  lemma FrontSignal(sigs: seq<Signal>, s: Signal, fds: map<nat, Fd>, fds': map<nat, Fd>,
      held: multiset<nat>)
    requires SigsSound(sigs, fds, held) && s.fd !in fds && s.cbs != [] && held[s.fd] == 0
    requires fds' == fds[s.fd := Fd(1, true, true, true)]
    requires forall i :: 0 <= i < |sigs| ==> sigs[i].signum != s.signum
    ensures SigsSound([s] + sigs, fds', held)
  {
    var r := [s] + sigs;
    forall k | 0 <= k < |r| ensures r[k].cbs != [] && Private(r[k].fd, fds', held) {
      if k > 0 { assert r[k] == sigs[k - 1] && Private(sigs[k - 1].fd, fds, held); }
    }
    forall i, j | 0 <= i < j < |r| ensures r[i].fd != r[j].fd && r[i].signum != r[j].signum {
      assert r[j] == sigs[j - 1] && Private(sigs[j - 1].fd, fds, held);
      if i > 0 { assert r[i] == sigs[i - 1]; }
    }
  }

  lemma RegisterKeeps(l: Loop, signum: nat, cb: nat, a: nat)
    requires InvButChild(l) && l.alive && a !in l.fds && cb != 0
    requires cb == REAPER ==> signum == SIGCHLD && l.chlds != []
    requires ChildSound(l.sigs, if cb == REAPER then [] else l.chlds)
    ensures var r := RegisterSignal(l, signum, cb, a); Inv(r) && r.owners == l.owners && r.phase == l.phase && r.alive
  {
    var i := FindSig(l.sigs, signum);
    var r := RegisterSignal(l, signum, cb, a);
    hide FdsSound, LogSound, RoundSound, Bound;
    if i < |l.sigs| {
      assert forall k :: 0 <= k < |r.sigs| ==>
        r.sigs[k] == if k == i then l.sigs[i].(cbs := l.sigs[i].cbs + [cb]) else l.sigs[k];
      SigsFrame(l.sigs, l.fds, l.held, r.fds, r.held);
      assert SigsSound(r.sigs, r.fds, r.held);
      ChildUpdated(l.sigs, r.sigs, i, cb, l.chlds);
    } else {
      var s := Signal(signum, a, [cb]);
      SignalNewMakes(l, signum, a);
      assert SignalNew(l, signum, a).sigs[0].cbs + [cb] == [cb];
      assert r.sigs == [s] + l.sigs;
      NewSignalKeeps(l, s);
      ChildExtended(l.sigs, s, cb, l.chlds);
    }
  }

  lemma ChildUpdated(sigs: seq<Signal>, r: seq<Signal>, i: nat, cb: nat, chlds: seq<nat>)
    requires i < |sigs| && r == sigs[i := sigs[i].(cbs := sigs[i].cbs + [cb])]
    requires ChildSound(sigs, if cb == REAPER then [] else chlds)
    requires cb == REAPER ==> chlds != [] && sigs[i].signum == SIGCHLD
    requires forall j, k :: 0 <= j < k < |sigs| ==> sigs[j].signum != sigs[k].signum
    ensures ChildSound(r, chlds)
  {
    if chlds != [] {
      var k := if cb == REAPER then i else FindSig(sigs, SIGCHLD);
      assert r[k].signum == SIGCHLD;
    }
    forall k | 0 <= k < |r| ensures Reapers(r[k]) == if r[k].signum == SIGCHLD && chlds != [] then 1 else 0 {
      if k != i { assert r[k].signum != sigs[i].signum; }
    }
  }

  lemma ChildExtended(sigs: seq<Signal>, s: Signal, cb: nat, chlds: seq<nat>)
    requires s.cbs == [cb] && ChildSound(sigs, if cb == REAPER then [] else chlds)
    requires cb == REAPER ==> chlds != [] && s.signum == SIGCHLD
    requires forall k :: 0 <= k < |sigs| ==> sigs[k].signum != s.signum
    ensures ChildSound([s] + sigs, chlds)
  {
    var r := [s] + sigs;
    assert multiset(s.cbs) == multiset{cb};
    assert r[0] == s && forall k :: 0 < k < |r| ==> r[k] == sigs[k - 1];
    if chlds != [] && cb != REAPER {
      var k :| 0 <= k < |sigs| && sigs[k].signum == SIGCHLD;
      assert r[k + 1].signum == SIGCHLD;
    }
  }

  /** A user's change to one source that leaves it bound or not, as it was. */
  lemma SourceChanges(l: Loop, r: Loop, a: nat)
    requires Inv(l) && r == l.(fds := r.fds, held := r.held) && !Internal(l, a)
    requires FdsSound(r.fds, r.held) && Bound(r.fds) == Bound(l.fds)
    requires forall b :: b != a ==>
      (b in r.fds <==> b in l.fds) && (b in l.fds ==> r.fds[b] == l.fds[b]) && r.held[b] == l.held[b]
    ensures Inv(r)
  {
    hide FdsSound, ChildSound, LogSound, SigsSound, RoundSound;
    forall i | 0 <= i < |l.sigs| ensures Private(l.sigs[i].fd, r.fds, r.held) { SignalIsPrivate(l, i); }
    SigsFrame(l.sigs, l.fds, l.held, r.fds, r.held);
    forall b | b in l.fds && l.fds[b].bound ensures b in r.fds && r.fds[b].bound {
      assert b in Bound(l.fds) && b in Bound(r.fds);
    }
    RoundFrame(l, r);
  }

  lemma SignalIsPrivate(l: Loop, i: nat)
    requires Inv(l) && i < |l.sigs|
    ensures Private(l.sigs[i].fd, l.fds, l.held)
  {
  }

  lemma SourceOpKeeps(l: Loop, op: SourceOp)
    requires Inv(l) && l.alive && Allowed(l, Fds(op))
    ensures Inv(ApplySource(l, op)) && ApplySource(l, op).phase == l.phase && ApplySource(l, op).alive
  {
    SourceStaysBound(l, op);
    SourceCounts(l, op);
    SourceOnly(l, op);
    forall i | 0 <= i < |l.sigs| ensures l.sigs[i].fd != op.a { SignalIsPrivate(l, i); }
    hide ApplySource, FdsSound, Bound, Inv;
    SourceChanges(l, ApplySource(l, op), op.a);
  }

  lemma ItsBindingStays(l: Loop, op: SourceOp)
    requires FdsSound(l.fds, l.held) && Allowed(l, Fds(op))
    ensures var r := ApplySource(l, op); (op.a in r.fds && r.fds[op.a].bound) <==> (op.a in l.fds && l.fds[op.a].bound)
  {
    assert op.a in l.held ==> op.a in l.fds;
    assert op.UnrefFd? && l.fds[op.a].ref == 1 ==> !l.fds[op.a].bound;
  }

  lemma SourceStaysBound(l: Loop, op: SourceOp)
    requires FdsSound(l.fds, l.held) && Allowed(l, Fds(op))
    ensures Bound(ApplySource(l, op).fds) == Bound(l.fds)
  {
    SourceOnly(l, op);
    ItsBindingStays(l, op);
    hide ApplySource, Allowed, FdsSound;
  }

  lemma SourceOnly(l: Loop, op: SourceOp)
    ensures var r := ApplySource(l, op); r == l.(fds := r.fds, held := r.held)
    ensures var r := ApplySource(l, op);
      forall b :: b != op.a ==>
        (b in r.fds <==> b in l.fds) && (b in l.fds ==> r.fds[b] == l.fds[b]) && r.held[b] == l.held[b]
  {
  }

  lemma CountOne(l: Loop, r: Loop, a: nat)
    requires FdsSound(l.fds, l.held)
    requires forall b :: b != a ==>
      (b in r.fds <==> b in l.fds) && (b in l.fds ==> r.fds[b] == l.fds[b]) && r.held[b] == l.held[b]
    requires if a in r.fds then r.fds[a].ref > 0 && r.fds[a].ref == r.held[a] + (if r.fds[a].bound then 1 else 0)
      else r.held[a] == 0
    ensures FdsSound(r.fds, r.held)
  {
    forall b | b in r.held ensures b in r.fds { assert b != a ==> b in l.held; }
  }

  lemma SourceCounts(l: Loop, op: SourceOp)
    requires FdsSound(l.fds, l.held) && Allowed(l, Fds(op))
    ensures FdsSound(ApplySource(l, op).fds, ApplySource(l, op).held)
  {
    SourceOnly(l, op);
    assert op.a in l.held ==> op.a in l.fds;
    assert op.a in l.fds ==> l.fds[op.a].ref == l.held[op.a] + if l.fds[op.a].bound then 1 else 0;
    hide FdsSound;
    CountOne(l, ApplySource(l, op), op.a);
  }

  lemma OpKeeps(l: Loop, op: Op)
    requires Inv(l) && l.alive && Allowed(l, op)
    ensures Inv(Apply(l, op)) && Apply(l, op).phase == l.phase
  {
    match op
    case RefLoop =>
    case UnrefLoop => UnrefLoopKeeps(l);
    case Add(a) => AddKeeps(l, a);
    case Rm(a) => RmKeeps(l, a);
    case FlushOp(a) => FlushKeeps(l, a);
    case RegSignal(signum, cb, a) => if cb != 0 { RegisterKeeps(l, signum, cb, a); }
    case UnregSignal(signum, cb) => UnregisterKeeps(l, signum, cb);
    case RegChild(cb, a) => if cb != 0 { RegisterChildKeeps(l, cb, a); }
    case UnregChild(cb) => UnregisterChildKeeps(l, cb);
    case Fds(sop) => SourceOpKeeps(l, sop);
  }

  lemma OpStaysInRound(l: Loop, op: Op)
    ensures SameRound(l, Apply(l, op))
  {
    hide RmFd, Unref, UnregisterSignal, RegisterSignal, UnregisterChild, RegisterChild, ApplySource;
    match op
    case Fds(sop) => SourceOnly(l, sop);
    case _ =>
  }

  /** No operation serves anybody, and all but flushing take slots back only by removing their sources. */
  lemma OpClears(l: Loop, op: Op)
    ensures if op.FlushOp? then Apply(l, op) == FlushFd(l, op.a) else Clears(l, Apply(l, op))
  {
    hide RmFd, Unref, UnregisterSignal, RegisterSignal, UnregisterChild, RegisterChild, ApplySource;
    match op
    case Fds(sop) => SourceOnly(l, sop);
    case _ =>
  }

  lemma FlushKeeps(l: Loop, a: nat)
    requires Inv(l)
    ensures Inv(FlushFd(l, a)) && FlushFd(l, a).phase == l.phase
  {
    var r := FlushFd(l, a);
    forall i | Ahead(r.phase, |r.cur|) <= i < |r.cur| ensures Pending(r.cur[i], r.fds, r.log) {
      assert Pending(l.cur[i], l.fds, l.log);
    }
  }

  lemma RegisterChildKeeps(l: Loop, cb: nat, a: nat)
    requires Inv(l) && l.alive && a !in l.fds && cb != 0
    ensures Inv(RegisterChild(l, cb, a)) && RegisterChild(l, cb, a).phase == l.phase
  {
    var m := l.(chlds := l.chlds + [cb]);
    hide FdsSound, SigsSound, RoundSound, LogSound;
    if l.chlds == [] { RegisterKeeps(m, SIGCHLD, REAPER, a); }
  }

  /** Every step of every run, adversarial callbacks included, keeps the invariant. */
  lemma StepKeepsInv(l: Loop, step: Step)
    requires Inv(l) && Enabled(l, step)
    ensures Inv(Next(l, step))
  {
    hide FdsSound, SigsSound, ChildSound;
    match step
    case Do(op) => OpKeeps(l, op);
    case Wait(events) =>
      var r := Next(l, step);
      forall i | 0 <= i < |r.cur| ensures Pending(r.cur[i], r.fds, r.log) { assert Reportable(l, events); }
    case Serve => ServeKeeps(l);
    case Return => RoundGoesOn(l, Next(l, step));
    case _ =>
  }

  lemma RoundGoesOn(l: Loop, r: Loop)
    requires RoundSound(l.phase, l.cur, l.fds, l.log)
    requires r.cur == l.cur && r.fds == l.fds && (forall a: nat :: Removed(a) in r.log ==> Removed(a) in l.log)
    requires Ahead(r.phase, |l.cur|) >= Ahead(l.phase, |l.cur|)
    ensures RoundSound(r.phase, r.cur, r.fds, r.log)
  {
    forall i | Ahead(r.phase, |r.cur|) <= i < |r.cur| ensures Pending(r.cur[i], r.fds, r.log) {
      assert Pending(l.cur[i], l.fds, l.log);
    }
  }

  lemma ServeKeeps(l: Loop)
    requires Inv(l) && Enabled(l, Serve)
    ensures Inv(Next(l, Serve))
  {
    var r := Next(l, Serve);
    RoundGoesOn(l, r);
    hide FdsSound, SigsSound, ChildSound, RoundSound;
    var slot := l.cur[l.phase.pos];
    if Callable(l, slot) && slot.Source? {
      assert Pending(slot, l.fds, l.log) by { SlotIsPending(l); }
      forall i, j | 0 <= i < j < |r.log| && r.log[i].Removed? ensures r.log[j] != Served(r.log[i].a) {
        assert r.log[i] == l.log[i] && r.log[i] in l.log;
      }
    }
  }

  /** The slot that is read next names a source that is alive, bound, and was not removed since the
      loop waited. */
  lemma SlotIsPending(l: Loop)
    requires Inv(l) && Enabled(l, Serve)
    ensures Pending(l.cur[l.phase.pos], l.fds, l.log)
  {
  }

  // ---------------------------------------------------------------- whole runs

  ghost predicate Run(s: seq<Loop>, steps: seq<Step>) {
    && |s| == |steps| + 1 && s[0] == FRESH
    && forall i :: 0 <= i < |steps| ==> Enabled(s[i], steps[i]) && s[i + 1] == Next(s[i], steps[i])
  }

  lemma {:induction false} RunKeepsInv(s: seq<Loop>, steps: seq<Step>, i: nat)
    requires Run(s, steps) && i <= |steps|
    ensures Inv(s[i])
  {
    if i > 0 {
      RunKeepsInv(s, steps, i - 1);
      hide Inv;
      StepKeepsInv(s[i - 1], steps[i - 1]);
    } else {
      assert Bound(FRESH.fds) == {};
    }
  }

  /** Whenever the dispatcher reads a pending slot, the source is alive and still bound, and was not
      removed since the loop waited; and no source is ever called after it was removed. */
  lemma RemovedIsNeverServed(s: seq<Loop>, steps: seq<Step>, i: nat)
    requires Run(s, steps) && i < |steps| && steps[i] == Serve
    ensures var slot := s[i].cur[s[i].phase.pos];
      slot.Source? ==> slot.a in s[i].fds && s[i].fds[slot.a].bound && Removed(slot.a) !in s[i].log
    ensures LogSound(s[i + 1].log)
  {
    assert Enabled(s[i], steps[i]);
    RunKeepsInv(s, steps, i);
    RunKeepsInv(s, steps, i + 1);
    SlotIsPending(s[i]);
  }

  /** At every moment the loop's references are those of its owners and of the sources bound to it, and
      each source's are those of its holders and of the loop. */
  lemma ReferencesAreCounted(s: seq<Loop>, steps: seq<Step>, i: nat)
    requires Run(s, steps) && i <= |steps|
    ensures s[i].ref == s[i].owners + |Bound(s[i].fds)| && (s[i].alive <==> s[i].ref > 0)
    ensures forall a :: a in s[i].fds ==> s[i].fds[a].ref == s[i].held[a] + if s[i].fds[a].bound then 1 else 0
    ensures forall a :: a in s[i].fds || a in s[i].held <==> a in s[i].fds && s[i].fds[a].ref > 0
  {
    RunKeepsInv(s, steps, i);
  }

  /** A step that frees the loop finds no shared signal and no child callback but the one it takes away
      itself, so nothing is left for the loop's destruction to clean up. */
  lemma LastReferenceLeavesNothing(l: Loop, step: Step)
    requires Inv(l) && Enabled(l, step) && !Next(l, step).alive
    ensures Next(l, step).sigs == [] && Next(l, step).chlds == []
    ensures step == Do(UnrefLoop) || (step.Do? && step.op.Rm?) ==> l.sigs == [] && l.chlds == []
    ensures step.Do? && step.op.UnregSignal? ==> |l.sigs| == 1 && l.chlds == []
    ensures step.Do? && step.op.UnregChild? ==> |l.sigs| == 1 && |l.chlds| == 1
  {
    var r := Next(l, step);
    StepKeepsInv(l, step);
    if r.sigs != [] { SignalIsBound(r.sigs, r.fds, r.held); }
    DyingOp(l, step);
  }

  lemma UnrefLoopKeeps(l: Loop)
    requires Inv(l) && l.alive && Allowed(l, UnrefLoop)
    ensures var r := Apply(l, UnrefLoop);
      && Inv(r) && r.phase == l.phase && (!r.alive ==> l.sigs == [] && l.chlds == [])
      && (r.alive <==> l.ref > 1)
  {
    UnrefFindsNothing(l.(owners := l.owners - 1));
  }

  lemma DyingOp(l: Loop, step: Step)
    requires Inv(l) && Enabled(l, step) && !Next(l, step).alive
    ensures step.Do?
    ensures step.op.UnrefLoop? || step.op.Rm? ==> l.sigs == [] && l.chlds == []
    ensures step.op.UnregSignal? ==> |l.sigs| == 1 && l.chlds == []
    ensures step.op.UnregChild? ==> |l.sigs| == 1 && |l.chlds| == 1
  {
    hide Inv, RmFd, Unref, UnregisterSignal, UnregisterChild, SignalFree;
    match step
    case Do(UnrefLoop) => UnrefLoopKeeps(l);
    case Do(Rm(a)) => RmKeeps(l, a);
    case Do(UnregSignal(signum, cb)) => UnregisterKeeps(l, signum, cb);
    case Do(UnregChild(cb)) => UnregisterChildKeeps(l, cb);
    case Do(op) => OnlyDropsFree(l, op);
    case _ =>
  }

  lemma OnlyDropsFree(l: Loop, op: Op)
    requires Inv(l) && l.alive && Allowed(l, op)
    requires !(op.UnrefLoop? || op.Rm? || op.UnregSignal? || op.UnregChild?)
    ensures Apply(l, op).alive
  {
    hide Inv;
    match op
    case Fds(sop) => SourceOpKeeps(l, sop);
    case Add(a) => AddKeeps(l, a);
    case _ =>
  }

  // ---------------------------------------------------------------- when the loop is freed

  /** The exact condition for an operation to free the loop: it gives up a reference, and that was the
      only one left, no owner and no bound source having another. */
  lemma OpFreesIff(l: Loop, op: Op)
    requires Inv(l) && l.alive && Allowed(l, op)
    ensures !Apply(l, op).alive <==> Drops(l, op) && l.owners + |Bound(l.fds)| == 1
  {
    RefIsCounted(l);
    hide Inv, RmFd, Unref, UnregisterSignal, UnregisterChild, SignalFree, LastCallback, Bound;
    match op
    case UnrefLoop => UnrefLoopKeeps(l);
    case Rm(a) => RmKeeps(l, a);
    case UnregSignal(signum, cb) => UnregisterKeeps(l, signum, cb);
    case UnregChild(cb) => UnregisterChildKeeps(l, cb);
    case _ => OnlyDropsFree(l, op);
  }

  lemma RefIsCounted(l: Loop)
    requires Inv(l)
    ensures l.ref == l.owners + |Bound(l.fds)| && (l.dispatching <==> !l.phase.Outside?)
  {
  }

  /** The dispatcher goes on with the loop after every callback, so it reads freed memory if and only if
      some callback of the round gave up the last reference. */
  lemma DispatcherLosesLoopIff(s: seq<Loop>, steps: seq<Step>, i: nat)
    requires Run(s, steps) && i <= |steps|
    ensures s[i].dispatching && !s[i].alive <==>
      && i > 0 && i == |steps| && steps[i - 1].Do? && s[i - 1].dispatching
      && Drops(s[i - 1], steps[i - 1].op) && s[i - 1].owners + |Bound(s[i - 1].fds)| == 1
  {
    hide Inv, Bound, Drops, Next;
    if i < |steps| { assert Enabled(s[i], steps[i]); }
    if i > 0 {
      RunKeepsInv(s, steps, i - 1);
      StepLosesLoopIff(s[i - 1], steps[i - 1]);
    }
  }

  lemma StepLosesLoopIff(l: Loop, step: Step)
    requires Inv(l) && Enabled(l, step)
    ensures var r := Next(l, step);
      r.dispatching && !r.alive <==> step.Do? && l.dispatching && Drops(l, step.op) && l.owners + |Bound(l.fds)| == 1
  {
    if step.Do? {
      hide Inv, Bound, Drops, Apply, Allowed;
      OpFreesIff(l, step.op);
      OpStaysInRound(l, step.op);
    }
  }

  /** So a dispatcher that keeps a reference of its own never loses the loop. */
  lemma OwnReferenceIsEnough(l: Loop, op: Op)
    requires Inv(l) && l.alive && Allowed(l, op) && l.owners > if op.UnrefLoop? then 1 else 0
    ensures Apply(l, op).alive
  {
    OpFreesIff(l, op);
    if op.Rm? && Drops(l, op) { assert op.a in Bound(l.fds); }
    if op.UnregSignal? && Drops(l, op) { FoundIsBound(l, op.signum); }
    if op.UnregChild? && Drops(l, op) { FoundIsBound(l, SIGCHLD); }
  }

  lemma FoundIsBound(l: Loop, signum: nat)
    requires Inv(l) && FindSig(l.sigs, signum) < |l.sigs|
    ensures |Bound(l.fds)| > 0
  {
    SignalIsBound(l.sigs, l.fds, l.held);
  }

  /** A callback that gives the only reference back frees the loop under the dispatcher, although the
      interface lets callbacks do anything. */
  lemma CallbackFreesLoop()
    ensures Run([FRESH, Next(FRESH, BeginRound), Apply(Next(FRESH, BeginRound), UnrefLoop)],
      [BeginRound, Do(UnrefLoop)])
    ensures var l := Apply(Next(FRESH, BeginRound), UnrefLoop); l.dispatching && !l.alive
  {
    var s := [FRESH, Next(FRESH, BeginRound), Apply(Next(FRESH, BeginRound), UnrefLoop)];
    var steps := [BeginRound, Do(UnrefLoop)];
    assert Enabled(s[0], steps[0]) && Enabled(s[1], steps[1]);
    assert Bound(FRESH.fds) == {};
    var m := s[1].(owners := 0);
    UnrefFindsNothing(m);
  }
}
