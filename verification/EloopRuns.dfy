/** Delivery over whole rounds: what the kernel reports is served, unless something took it back. */
module EloopRuns {
  import opened EloopModel

  /** Step `w` waits, step `e` ends the same round. */
  ghost predicate Round(s: seq<Loop>, steps: seq<Step>, w: nat, e: nat) {
    && w < e < |steps| < |s| && steps[w].Wait? && steps[e] == Leave
    && forall k :: w < k < e ==> steps[k] != Leave
  }

  /** How often source `a` was called since the loop waited. */
  function Servings(log: seq<Event>, a: nat): nat {
    multiset(log)[Served(a)]
  }

  // ---------------------------------------------------------------- one step

  /** Whether a slot is served is decided when it is read: the loop's own source always is, another one if and only if
      it is registered, has a callback and is enabled at that moment, and a cleared slot never. */
  lemma ServedIff(s: seq<Loop>, steps: seq<Step>, i: nat)
    requires Run(s, steps) && i < |steps| && steps[i] == Serve
    ensures s[i].phase.Serving? && s[i].phase.pos < |s[i].cur|
    ensures
      var l, r, slot := s[i], s[i + 1], s[i].cur[s[i].phase.pos];
      match slot
      case Self => r == l.(phase := Calling(l.phase.pos))
      case Cleared => r == l.(phase := Serving(l.phase.pos + 1))
      case Source(a) =>
        && a in l.fds && l.fds[a].bound
        && r == if l.fds[a].hasCb && l.fds[a].enabled then l.(phase := Calling(l.phase.pos), log := l.log + [Served(a)])
                else l.(phase := Serving(l.phase.pos + 1))
  {
    assert Enabled(s[i], steps[i]) && s[i + 1] == Next(s[i], steps[i]);
    RemovedIsNeverServed(s, steps, i);
  }

  /** An operation serves nobody, and takes a pending slot back only by flushing or by removing its source. */
  lemma OpTakesBack(l: Loop, op: Op, m: nat)
    requires m < |l.cur|
    ensures var r := Apply(l, op);
      && SameRound(l, r)
      && (forall a: nat :: Servings(r.log, a) == Servings(l.log, a))
      && (|| r.cur[m] == l.cur[m]
          || (r.cur[m] == Cleared && l.cur[m].Source?
              && (op == FlushOp(l.cur[m].a) || Removed(l.cur[m].a) in r.log)))
  {
    var r := Apply(l, op);
    OpClears(l, op);
    hide Apply;
    if !op.FlushOp? {
      OnlyRemovals(l.log, r.log);
    }
  }

  lemma OnlyRemovals(was: seq<Event>, now: seq<Event>)
    requires was <= now && forall k :: |was| <= k < |now| ==> now[k].Removed?
    ensures forall a: nat :: Servings(now, a) == Servings(was, a)
  {
    var more := now[|was|..];
    assert now == was + more;
    assert forall x :: x in multiset(more) ==> x in more;
    assert forall x :: x in more ==> x.Removed?;
  }

  // ---------------------------------------------------------------- one round

  /** In the middle of a round that was reported `events`: each slot is as it was reported, or cleared. */
  ghost predicate Slotted(events: seq<Slot>, l: Loop) {
    && |l.cur| == |events| && (l.phase.Serving? || l.phase.Calling?)
    && Ahead(l.phase, |l.cur|) <= |events|
    && forall m :: 0 <= m < |events| ==> l.cur[m] == events[m] || l.cur[m].Cleared?
  }

  lemma StepKeepsSlotted(events: seq<Slot>, l: Loop, step: Step)
    requires Enabled(l, step) && step != Leave && Slotted(events, l)
    ensures Slotted(events, Next(l, step))
    ensures Ahead(Next(l, step).phase, |events|) ==
      Ahead(l.phase, |events|) + if step == Serve then 1 else 0
  {
    if step.Do? {
      var r := Next(l, step);
      OpStaysInRound(l, step.op);
      forall m: nat | m < |events| ensures r.cur[m] == events[m] || r.cur[m].Cleared? {
        OpTakesBack(l, step.op, m);
      }
    }
    hide Apply;
  }

  lemma RunStep(s: seq<Loop>, steps: seq<Step>, i: nat)
    requires Run(s, steps) && i < |steps|
    ensures Enabled(s[i], steps[i]) && s[i + 1] == Next(s[i], steps[i])
  {
  }

  lemma {:induction false} RoundIsSlotted(s: seq<Loop>, steps: seq<Step>, w: nat, e: nat, k: nat)
    requires Run(s, steps) && Round(s, steps, w, e) && w < k <= e
    ensures Slotted(steps[w].events, s[k])
  {
    hide Enabled, Slotted, Run, Next;
    RunStep(s, steps, k - 1);
    if k - 1 > w {
      RoundIsSlotted(s, steps, w, e, k - 1);
      StepKeepsSlotted(steps[w].events, s[k - 1], steps[k - 1]);
    } else {
      JustWaited(s[w], steps[w]);
    }
  }

  lemma JustWaited(l: Loop, step: Step)
    requires Enabled(l, step) && step.Wait?
    ensures Slotted(step.events, Next(l, step)) && Next(l, step).phase == Serving(0)
    ensures Next(l, step).cur == step.events && Next(l, step).log == []
    ensures forall i, j :: 0 <= i < j < |step.events| ==> step.events[i] != step.events[j]
  {
  }

  /** The source was flushed since step `w`, or removed. */
  ghost predicate TakenBack(s: seq<Loop>, steps: seq<Step>, w: nat, k: nat, a: nat)
    requires k < |s|
  {
    (exists m :: w < m < k && m < |steps| && steps[m] == Do(FlushOp(a))) || Removed(a) in s[k].log
  }

  /** A step serves source `a` only through the slot that holds it, when it is read. */
  lemma StepServes(events: seq<Slot>, l: Loop, step: Step, j: nat, a: nat)
    requires Enabled(l, step) && step != Leave && Slotted(events, l) && j < |events| && events[j] == Source(a)
    requires forall m, n :: 0 <= m < n < |events| ==> events[m] != events[n]
    ensures var r := Next(l, step);
      && |r.cur| == |l.cur|
      && Servings(r.log, a) == Servings(l.log, a)
          + (if step == Serve && l.phase == Serving(j) && Callable(l, l.cur[j]) && l.cur[j] == Source(a) then 1 else 0)
      && l.log <= r.log
      && (|| r.cur[j] == l.cur[j]
          || (r.cur[j] == Cleared && (step == Do(FlushOp(a)) || Removed(a) in r.log)))
  {
    if step.Do? {
      OpTakesBack(l, step.op, j);
    }
    hide Apply;
  }

  /** A slot that was not read yet: its source was not served, and holds the slot still unless it was taken back. */
  lemma {:induction false} Unread(s: seq<Loop>, steps: seq<Step>, w: nat, e: nat, k: nat, j: nat, a: nat)
    requires Run(s, steps) && Round(s, steps, w, e) && w < k <= e
    requires j < |steps[w].events| && steps[w].events[j] == Source(a)
    requires Ahead(s[k].phase, |s[k].cur|) <= j
    ensures j < |s[k].cur| && Servings(s[k].log, a) == 0
    ensures s[k].cur[j] == Source(a) || TakenBack(s, steps, w, k, a)
  {
    hide Next, Enabled, Run, Slotted, TakenBack;
    RunStep(s, steps, w);
    JustWaited(s[w], steps[w]);
    RunStep(s, steps, k - 1);
    SlotsThere(s, steps, w, e, k);
    if k - 1 > w {
      RoundIsSlotted(s, steps, w, e, k - 1);
      StepKeepsSlotted(steps[w].events, s[k - 1], steps[k - 1]);
      SlotsThere(s, steps, w, e, k - 1);
      Unread(s, steps, w, e, k - 1, j, a);
      StepServes(steps[w].events, s[k - 1], steps[k - 1], j, a);
      TakenBackGrows(s, steps, w, k - 1, a);
    }
  }

  lemma SlotsThere(s: seq<Loop>, steps: seq<Step>, w: nat, e: nat, k: nat)
    requires Run(s, steps) && Round(s, steps, w, e) && w < k <= e
    ensures |s[k].cur| == |steps[w].events| && (s[k].phase.Serving? || s[k].phase.Calling?)
  {
    RoundIsSlotted(s, steps, w, e, k);
  }

  lemma TakenBackGrows(s: seq<Loop>, steps: seq<Step>, w: nat, k: nat, a: nat)
    requires w < k < |steps| < |s| && s[k].log <= s[k + 1].log
    ensures TakenBack(s, steps, w, k, a) || steps[k] == Do(FlushOp(a)) || Removed(a) in s[k + 1].log
      ==> TakenBack(s, steps, w, k + 1, a)
  {
    if Removed(a) in s[k].log {
      var i :| 0 <= i < |s[k].log| && s[k].log[i] == Removed(a);
      assert s[k + 1].log[i] == Removed(a);
    }
  }

  /** The step that reads slot `j`, and what has come of the source by then. */
  lemma {:induction false} FindRead(s: seq<Loop>, steps: seq<Step>, w: nat, e: nat, k: nat, j: nat, a: nat)
    returns (r: nat)
    requires Run(s, steps) && Round(s, steps, w, e) && w < k <= e
    requires j < |steps[w].events| && steps[w].events[j] == Source(a)
    requires Ahead(s[k].phase, |s[k].cur|) > j
    ensures w < r < k && steps[r] == Serve && s[r].phase == Serving(j) && j < |s[r].cur|
    ensures Servings(s[k].log, a) == if s[r].cur[j] == Source(a) && Callable(s[r], s[r].cur[j]) then 1 else 0
    ensures s[r].cur[j] == Source(a) || TakenBack(s, steps, w, r, a)
  {
    hide Next, Enabled, Run, Slotted, TakenBack, Callable;
    RunStep(s, steps, w);
    JustWaited(s[w], steps[w]);
    RunStep(s, steps, k - 1);
    SlotsThere(s, steps, w, e, k);
    RoundIsSlotted(s, steps, w, e, k - 1);
    StepKeepsSlotted(steps[w].events, s[k - 1], steps[k - 1]);
    SlotsThere(s, steps, w, e, k - 1);
    StepServes(steps[w].events, s[k - 1], steps[k - 1], j, a);
    if Ahead(s[k - 1].phase, |s[k - 1].cur|) > j {
      r := FindRead(s, steps, w, e, k - 1, j, a);
    } else {
      r := k - 1;
      Unread(s, steps, w, e, r, j, a);
      ServeIsServing(s[r]);
    }
  }

  lemma ServeIsServing(l: Loop)
    requires Enabled(l, Serve)
    ensures l.phase.Serving?
  {
  }

  /** Every report is answered.  Whatever the callbacks of a round do, the slot of each reported source is read, and by
      the end of the round the source was called exactly once if at that moment the slot still held it, it had a
      callback, and it was enabled; and else not at all.  The slot holds it unless the source was flushed or removed in
      between. */
  lemma EveryReportIsServed(s: seq<Loop>, steps: seq<Step>, w: nat, e: nat, j: nat, a: nat) returns (r: nat)
    requires Run(s, steps) && Round(s, steps, w, e) && j < |steps[w].events| && steps[w].events[j] == Source(a)
    ensures w < r < e && steps[r] == Serve && s[r].phase == Serving(j) && j < |s[r].cur|
    ensures s[r].cur[j] == Source(a) ==>
      && a in s[r].fds && s[r].fds[a].bound
      && Servings(s[e].log, a) == if s[r].fds[a].hasCb && s[r].fds[a].enabled then 1 else 0
    ensures s[r].cur[j] != Source(a) ==> Servings(s[e].log, a) == 0 && TakenBack(s, steps, w, r, a)
  {
    hide Next, Run, Slotted, TakenBack;
    RunStep(s, steps, e);
    SlotsThere(s, steps, w, e, e);
    r := FindRead(s, steps, w, e, e, j, a);
    ServedIff(s, steps, r);
  }

  /** And nobody is called but those that were reported. */
  lemma {:induction false} OnlyReportedIsServed(s: seq<Loop>, steps: seq<Step>, w: nat, e: nat, k: nat, a: nat)
    requires Run(s, steps) && Round(s, steps, w, e) && w < k <= e && Source(a) !in steps[w].events
    ensures Servings(s[k].log, a) == 0
  {
    hide Next, Enabled, Run, Slotted;
    RunStep(s, steps, k - 1);
    if k - 1 > w {
      OnlyReportedIsServed(s, steps, w, e, k - 1, a);
      RoundIsSlotted(s, steps, w, e, k - 1);
      StepServesNo(steps[w].events, s[k - 1], steps[k - 1], a);
    } else {
      JustWaited(s[w], steps[w]);
    }
  }

  lemma StepServesNo(events: seq<Slot>, l: Loop, step: Step, a: nat)
    requires Enabled(l, step) && step != Leave && Slotted(events, l) && Source(a) !in events
    ensures Servings(Next(l, step).log, a) == Servings(l.log, a)
  {
    if step.Do? {
      OpServesNobody(l, step.op);
    } else if step == Serve {
      var pos := l.phase.pos;
      assert events[pos] in events && (l.cur[pos] == events[pos] || l.cur[pos].Cleared?);
    }
    hide Apply;
  }

  lemma OpServesNobody(l: Loop, op: Op)
    ensures forall a: nat :: Servings(Apply(l, op).log, a) == Servings(l.log, a)
  {
    OpClears(l, op);
    hide Apply;
    if !op.FlushOp? { OnlyRemovals(l.log, Apply(l, op).log); }
  }
}
