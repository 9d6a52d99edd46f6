/** Registrations over whole runs: what was asked for is what is called, and as often. */
module HookRuns {
  import opened HookModel

  /** Step `i` registers a callback: it is not null, and a single registration finds it missing. */
  ghost predicate Registers(s: seq<State>, steps: seq<Step>, i: nat, cb: nat, data: nat, oneshot: bool) {
    && i < |steps| < |s| && cb != 0
    && (|| steps[i] == Do(AddOp(cb, data, oneshot))
        || (steps[i] == Do(AddSingleOp(cb, data, oneshot))
            && forall e :: e in s[i].h.entries ==> !(e.cb == cb && e.data == data)))
  }

  /** `b` and `f` are the first and the last step of one call. */
  ghost predicate WholeCall(s: seq<State>, steps: seq<Step>, b: nat, f: nat) {
    && b < f < |steps| && steps[b] == BeginStep && steps[f] == FinishStep
    && forall k :: b < k < f ==> steps[k] != FinishStep
  }

  // ---------------------------------------------------------------- one step

  /** No other entry goes by this id: neither in the list nor in the callback that runs. */
  ghost predicate KnownAs(s: State, e: Entry) {
    && e.id < s.h.nextId
    && (forall x :: x in s.h.entries && x.id == e.id ==> x == e)
    && (s.at.InCallback? && s.at.e.id == e.id ==> s.at.e == e)
  }

  /** Entries go, and those that go were removed. */
  ghost predicate Drops(h: Hook, r: Hook) {
    && r.nextId == h.nextId && r.releases == h.releases
    && (forall x :: x in r.entries ==> x in h.entries)
    && (forall x :: x in h.entries ==> x in r.entries || Gone(r, x.id))
    && (forall id: nat :: Gone(h, id) ==> Gone(r, id))
    && (forall id: nat :: Calls(r, id) == Calls(h, id))
  }

  lemma RemoveDrops(h: Hook, i: nat)
    requires i < |h.entries|
    ensures Drops(h, RemoveAt(h, i))
  {
    var r := RemoveAt(h, i);
    assert r.log[|h.log|] == Removed(h.entries[i].id);
    forall x | x in h.entries ensures x in r.entries || Gone(r, x.id) {
      var k :| 0 <= k < |h.entries| && h.entries[k] == x;
      if k != i { assert r.entries[if k < i then k else k - 1] == x; }
    }
    forall id: nat | Gone(h, id) ensures Gone(r, id) {
      var k :| 0 <= k < |h.log| && h.log[k] == Removed(id);
      assert r.log[k] == Removed(id);
    }
  }

  lemma {:induction false} RmDrops(h: Hook, cb: nat, data: nat, k: nat)
    requires k <= |h.entries|
    ensures Drops(h, RmBelow(h, cb, data, k))
  {
    if k > 0 && cb != 0 {
      if Matches(h.entries[k - 1], cb, data) { RemoveDrops(h, k - 1); } else { RmDrops(h, cb, data, k - 1); }
    }
  }

  lemma {:induction false} RmAllDrops(h: Hook, cb: nat, data: nat, k: nat)
    requires k <= |h.entries|
    ensures Drops(h, RmAllBelow(h, cb, data, k))
    decreases k
  {
    if k > 0 && cb != 0 {
      if Matches(h.entries[k - 1], cb, data) {
        RemoveDrops(h, k - 1);
        var r := RemoveAt(h, k - 1);
        RmAllDrops(r, cb, data, k - 1);
        DropsOnce(h, r, RmAllBelow(r, cb, data, k - 1));
      } else {
        RmAllDrops(h, cb, data, k - 1);
      }
    }
  }

  lemma DropsOnce(a: Hook, b: Hook, c: Hook)
    requires Drops(a, b) && Drops(b, c)
    ensures Drops(a, c)
  {
    hide Gone, Calls;
  }

  /** The operation is a registration, and this is the entry that it makes. */
  ghost predicate Adds(h: Hook, op: Op, e: Entry) {
    && e.cb != 0 && e.id == h.nextId
    && (|| op == AddOp(e.cb, e.data, e.oneshot)
        || (op == AddSingleOp(e.cb, e.data, e.oneshot)
            && forall x :: x in h.entries ==> !(x.cb == e.cb && x.data == e.data)))
  }

  /** The entry is linked last, as it was asked for. */
  lemma AddsLinks(h: Hook, op: Op, e: Entry)
    requires Adds(h, op, e)
    ensures Apply(h, op) == h.(entries := h.entries + [e], num := h.num + 1, nextId := h.nextId + 1)
  {
  }

  ghost predicate Released(h: Hook, r: Hook) {
    r.entries == [] && r.releases > h.releases && r.log == h.log && r.nextId == h.nextId
  }

  /** Every other operation adds nothing, and what it takes away is removed or freed with the hook. */
  lemma OtherOpsDrop(h: Hook, op: Op)
    requires forall e :: !Adds(h, op, e)
    ensures Drops(h, Apply(h, op)) || Released(h, Apply(h, op))
  {
    match op
    case AddOp(cb, data, oneshot) =>
      assert !Adds(h, op, Entry(h.nextId, cb, data, oneshot));
    case AddSingleOp(cb, data, oneshot) =>
      assert !Adds(h, op, Entry(h.nextId, cb, data, oneshot));
    case RmOp(cb, data) => RmDrops(h, cb, data, |h.entries|);
    case RmAllOp(cb, data) => RmAllDrops(h, cb, data, |h.entries|);
    case _ =>
  }

  /** What has become of the entry: it is linked still, or was removed, or was called if it is a oneshot one, or went
      with the hook. */
  ghost predicate Kept(s: State, e: Entry) {
    || e in s.h.entries || Gone(s.h, e.id)
    || (e.oneshot && Calls(s.h, e.id) == 1) || s.h.releases > 0
  }

  ghost predicate Tracked(s: State, e: Entry) {
    KnownAs(s, e) && Kept(s, e) && (e.oneshot ==> Once(s.h, e))
  }

  lemma OpKeepsTracked(s: State, op: Op, e: Entry)
    requires Tracked(s, e)
    ensures KnownAs(s.(h := Apply(s.h, op)), e) && Kept(s.(h := Apply(s.h, op)), e)
  {
    hide Apply;
    var r := Apply(s.h, op);
    if x :| Adds(s.h, op, x) {
      AddsLinks(s.h, op, x);
      assert r.entries[|s.h.entries|] == x && forall y :: y in r.entries ==> y in s.h.entries || y == x;
      assert e in s.h.entries ==> e in r.entries;
    } else {
      OtherOpsDrop(s.h, op);
    }
  }

  lemma FetchDrops(h: Hook, i: nat)
    requires i < |h.entries|
    ensures var r := Fetch(h, i);
      && (forall x :: x in h.entries ==> x in r.entries || (x == h.entries[i] && x.oneshot))
      && (forall id: nat :: Gone(h, id) ==> Gone(r, id))
      && r.nextId == h.nextId && r.releases == h.releases
  {
    var r, e := Fetch(h, i), h.entries[i];
    forall x | x in h.entries ensures x in r.entries || (x == e && x.oneshot) {
      var k :| 0 <= k < |h.entries| && h.entries[k] == x;
      if e.oneshot && k != i { assert r.entries[if k < i then k else k - 1] == x; }
    }
    forall id: nat | Gone(h, id) ensures Gone(r, id) {
      var k :| 0 <= k < |h.log| && h.log[k] == Removed(id);
      assert r.log[k] == Removed(id);
    }
  }

  lemma FetchKeepsTracked(s: State, e: Entry)
    requires Inv(s) && Enabled(s, FetchStep) && Tracked(s, e)
    ensures KnownAs(Next(s, FetchStep), e) && Kept(Next(s, FetchStep), e)
  {
    var i := IndexOf(s.h.entries, s.h.cur.id);
    FetchedIsGone(s, i);
    FetchCalls(s.h, i);
    FetchDrops(s.h, i);
    hide Inv, IndexOf, Calls, Fetch, Gone;
  }

  lemma StepKeepsTracked(s: State, step: Step, e: Entry)
    requires Inv(s) && Enabled(s, step) && CalledAreOld(s.h) && Tracked(s, e)
    ensures Tracked(Next(s, step), e)
  {
    StepKeepsOnce(s, step, e);
    match step
    case Do(op) => OpKeepsTracked(s, op, e);
    case FetchStep => FetchKeepsTracked(s, e);
    case _ =>
  }

  // ---------------------------------------------------------------- runs

  /** The entry that registering step `i` makes. */
  function Made(s: State, cb: nat, data: nat, oneshot: bool): Entry {
    Entry(s.h.nextId, cb, data, oneshot)
  }

  lemma RunStep(s: seq<State>, steps: seq<Step>, i: nat)
    requires Run(s, steps) && i < |steps|
    ensures Inv(s[i]) && CalledAreOld(s[i].h) && Enabled(s[i], steps[i]) && s[i + 1] == Next(s[i], steps[i])
  {
    RunKeepsInv(s, steps, i);
    RunKeepsOnce(s, steps, i, Entry(0, 0, 0, false));
  }

  lemma RegistersAdds(s: seq<State>, steps: seq<Step>, i: nat, cb: nat, data: nat, oneshot: bool)
    requires Registers(s, steps, i, cb, data, oneshot)
    ensures steps[i].Do? && Adds(s[i].h, steps[i].op, Made(s[i], cb, data, oneshot))
  {
  }

  lemma {:induction false} RegisteredIsTracked(s: seq<State>, steps: seq<Step>, i: nat, j: nat, cb: nat, data: nat,
      oneshot: bool)
    requires Run(s, steps) && Registers(s, steps, i, cb, data, oneshot) && i < j <= |steps|
    ensures Tracked(s[j], Made(s[i], cb, data, oneshot))
  {
    hide Inv, Next, Enabled, Tracked, Registers, Made, CalledAreOld;
    RunStep(s, steps, j - 1);
    if j - 1 > i {
      RegisteredIsTracked(s, steps, i, j - 1, cb, data, oneshot);
      StepKeepsTracked(s[j - 1], steps[j - 1], Made(s[i], cb, data, oneshot));
    } else {
      RunningIsOld(s, steps, i);
      RegistersAdds(s, steps, i, cb, data, oneshot);
      JustRegistered(s[i], steps[i].op, Made(s[i], cb, data, oneshot));
    }
  }

  lemma JustRegistered(s: State, op: Op, e: Entry)
    requires Inv(s) && Enabled(s, Do(op)) && CalledAreOld(s.h) && Adds(s.h, op, e)
    requires s.at.InCallback? ==> s.at.e.id < s.h.nextId
    ensures Tracked(Next(s, Do(op)), e)
  {
    AddsLinks(s.h, op, e);
    IdsAreOld(s);
    StepKeepsOnce(s, Do(op), e);
    hide Inv, Apply, Once;
    var r := Next(s, Do(op));
    assert r.h.entries[|s.h.entries|] == e;
    assert forall y :: y in r.h.entries ==> y in s.h.entries || y == e;
  }

  lemma RunningStaysOld(s: State, step: Step)
    requires Inv(s) && Enabled(s, step) && (s.at.InCallback? ==> s.at.e.id < s.h.nextId)
    ensures var r := Next(s, step); r.at.InCallback? ==> r.at.e.id < r.h.nextId
  {
    if step.Do? { OpPrunesOrAdds(s.h, step.op); }
    if step == FetchStep { FetchedIsGone(s, IndexOf(s.h.entries, s.h.cur.id)); }
    hide Inv, Apply, Calls;
  }

  /** The callback that runs is that of an entry that was registered. */
  lemma {:induction false} RunningIsOld(s: seq<State>, steps: seq<Step>, j: nat)
    requires Run(s, steps) && j <= |steps|
    ensures s[j].at.InCallback? ==> s[j].at.e.id < s[j].h.nextId
  {
    hide Inv, Next, Enabled, CalledAreOld;
    if j > 0 {
      RunningIsOld(s, steps, j - 1);
      RunStep(s, steps, j - 1);
      RunningStaysOld(s[j - 1], steps[j - 1]);
    }
  }

  /** Behind every entry there is an earlier registration of just this callback, with this data and this flag, and with
      the id that it was given. */
  lemma {:induction false} LinkedWasRegistered(s: seq<State>, steps: seq<Step>, j: nat, e: Entry) returns (i: nat)
    requires Run(s, steps) && j <= |steps| && e in s[j].h.entries
    ensures i < j && Registers(s, steps, i, e.cb, e.data, e.oneshot) && e.id == s[i].h.nextId
  {
    hide Inv, Next, Enabled, Registers, CalledAreOld;
    RunStep(s, steps, j - 1);
    if e in s[j - 1].h.entries {
      i := LinkedWasRegistered(s, steps, j - 1, e);
    } else {
      i := j - 1;
      NewIsAdded(s[i], steps[i], e);
      AddsRegisters(s, steps, i, e);
    }
  }

  /** So nothing is called that was not registered. */
  lemma CalledWasRegistered(s: seq<State>, steps: seq<Step>, j: nat) returns (i: nat)
    requires Run(s, steps) && j < |steps| && steps[j] == FetchStep
    ensures s[j + 1].at.InCallback?
    ensures var e := s[j + 1].at.e; i < j && Registers(s, steps, i, e.cb, e.data, e.oneshot) && e.id == s[i].h.nextId
  {
    hide Inv, CalledAreOld, Registers, Enabled, Next;
    RunStep(s, steps, j);
    FetchesLinked(s[j]);
    i := LinkedWasRegistered(s, steps, j, s[j + 1].at.e);
  }

  lemma FetchesLinked(s: State)
    requires Inv(s) && Enabled(s, FetchStep)
    ensures Next(s, FetchStep).at.InCallback? && Next(s, FetchStep).at.e in s.h.entries
  {
  }

  lemma AddsRegisters(s: seq<State>, steps: seq<Step>, i: nat, e: Entry)
    requires i < |steps| < |s| && steps[i].Do? && Adds(s[i].h, steps[i].op, e)
    ensures Registers(s, steps, i, e.cb, e.data, e.oneshot)
  {
  }

  /** Entries come by registration only. */
  lemma NewIsAdded(s: State, step: Step, e: Entry)
    requires Inv(s) && Enabled(s, step) && e in Next(s, step).h.entries && e !in s.h.entries
    ensures step.Do? && Adds(s.h, step.op, e)
  {
    hide Inv, Adds, Apply;
    match step {
      case Do(op) =>
        if x :| Adds(s.h, op, x) {
          AddsLinks(s.h, op, x);
          assert forall y :: y in Apply(s.h, op).entries ==> y in s.h.entries || y == x;
        } else {
          OtherOpsDrop(s.h, op);
        }
      case FetchStep =>
        FetchedIsGone(s, IndexOf(s.h.entries, s.h.cur.id));
      case _ =>
    }
  }

  // ---------------------------------------------------------------- one call

  /** Between the first and the last step of a call, the history is that of this call, and entry `id` was called in it
      as often as the history says. */
  ghost predicate During(b: State, k: State, id: nat) {
    && !k.at.Outside? && k.start == b.h.entries && Rising(k.called)
    && Calls(k.h, id) == Calls(b.h, id) + (if id in k.called then 1 else 0)
  }

  lemma DuringStep(b: State, k: State, step: Step, id: nat)
    requires Inv(k) && Enabled(k, step) && Inv(Next(k, step)) && step != FinishStep && During(b, k, id)
    ensures During(b, Next(k, step), id)
  {
    var r := Next(k, step);
    match step {
      case Do(op) =>
        OpPrunesOrAdds(k.h, op);
      case FetchStep =>
        var i := IndexOf(k.h.entries, k.h.cur.id);
        FetchedIsGone(k, i);
        FetchCalls(k.h, i);
        assert r.called == k.called + [k.h.cur.id] && Rising(r.called);
        assert forall g: nat :: g in r.called <==> g in k.called || g == k.h.cur.id;
        assert forall m: nat :: m < |k.called| ==> k.called[m] == r.called[m] < r.called[|k.called|];
      case _ =>
    }
    hide Inv, Apply, IndexOf, Fetch;
  }

  lemma {:induction false} CallsDuring(s: seq<State>, steps: seq<Step>, b: nat, f: nat, k: nat, id: nat)
    requires Run(s, steps) && WholeCall(s, steps, b, f) && b < k <= f
    ensures During(s[b], s[k], id)
  {
    hide Inv, Enabled, Calls, CalledAreOld, Next, During;
    RunStep(s, steps, k - 1);
    if k - 1 > b {
      CallsDuring(s, steps, b, f, k - 1, id);
      RunKeepsInv(s, steps, k);
      DuringStep(s[b], s[k - 1], steps[k - 1], id);
    } else {
      BeginDuring(s[b], id);
    }
  }

  lemma BeginDuring(b: State, id: nat)
    requires Enabled(b, BeginStep)
    ensures During(b, Next(b, BeginStep), id)
  {
  }

  /** A whole call calls each entry that was linked when it began, once more and not twice, unless it was removed. */
  lemma WholeCallCallsOnce(s: seq<State>, steps: seq<Step>, b: nat, f: nat, e: Entry)
    requires Run(s, steps) && WholeCall(s, steps, b, f)
    ensures Calls(s[f].h, e.id) <= Calls(s[b].h, e.id) + 1
    ensures e in s[b].h.entries ==> Gone(s[f].h, e.id) || Calls(s[f].h, e.id) == Calls(s[b].h, e.id) + 1
  {
    hide Inv, Next, Enabled, Calls, Rising, CalledAreOld;
    CallsDuring(s, steps, b, f, f, e.id);
    CallIsComplete(s, steps, f);
  }

  lemma AliveInCall(s: State)
    requires Inv(s) && !s.at.Outside?
    ensures s.h.releases == 0
  {
  }

  // ---------------------------------------------------------------- what a registration comes to

  /** As long as the hook is there, a callback that is registered for good stays linked until it is removed, and every
      whole call that begins after the registration calls it once. */
  lemma RegisteredIsCalled(s: seq<State>, steps: seq<Step>, i: nat, cb: nat, data: nat, b: nat, f: nat)
    requires Run(s, steps) && Registers(s, steps, i, cb, data, false) && i < b && WholeCall(s, steps, b, f)
    ensures var e := Made(s[i], cb, data, false);
      && (e in s[b].h.entries || Gone(s[b].h, e.id))
      && (e in s[f].h.entries || Gone(s[f].h, e.id))
      && (Gone(s[b].h, e.id) || Gone(s[f].h, e.id) || Calls(s[f].h, e.id) == Calls(s[b].h, e.id) + 1)
  {
    hide Inv, Next, Calls, CalledAreOld, KnownAs, Registers;
    RegisteredIsTracked(s, steps, i, b, cb, data, false);
    RegisteredIsTracked(s, steps, i, f, cb, data, false);
    RunStep(s, steps, b);
    RunStep(s, steps, f);
    AliveInCall(s[f]);
    WholeCallCallsOnce(s, steps, b, f, Made(s[i], cb, data, false));
  }

  /** A callback that is registered for one call is called at most once in the whole run. */
  lemma OneshotIsCalledOnce(s: seq<State>, steps: seq<Step>, i: nat, j: nat, cb: nat, data: nat)
    requires Run(s, steps) && Registers(s, steps, i, cb, data, true) && j <= |steps|
    ensures Calls(s[j].h, s[i].h.nextId) <= 1
  {
    hide Inv, Next, Enabled, Calls;
    if j > i {
      RegisteredIsTracked(s, steps, i, j, cb, data, true);
    } else {
      RunKeepsOnce(s, steps, j, Entry(0, 0, 0, false));
      NextIdGrows(s, steps, j, i);
    }
  }

  /** And once a whole call has passed it is linked no more, having been called unless it was removed. */
  lemma OneshotIsGoneAfterCall(s: seq<State>, steps: seq<Step>, i: nat, cb: nat, data: nat, b: nat, f: nat, k: nat)
    requires Run(s, steps) && Registers(s, steps, i, cb, data, true) && i < b && WholeCall(s, steps, b, f)
    requires f <= k <= |steps|
    ensures !HasId(s[k].h.entries, s[i].h.nextId)
    ensures Gone(s[f].h, s[i].h.nextId) || Calls(s[f].h, s[i].h.nextId) == 1
  {
    var e := Made(s[i], cb, data, true);
    hide Inv, Next, Calls, CalledAreOld, Registers, Gone;
    RegisteredIsTracked(s, steps, i, b, cb, data, true);
    RegisteredIsTracked(s, steps, i, f, cb, data, true);
    RunStep(s, steps, b);
    RunStep(s, steps, f);
    AliveInCall(s[f]);
    WholeCallCallsOnce(s, steps, b, f, e);
    GoneIsUnlinked(s[f], e);
    GoneIsUnlinked(s[b], e);
    LinkedHasId(s[f].h.entries, e);
    if !HasId(s[b].h.entries, e.id) { NeverBack(s, steps, b, f, e.id); }
    NeverBack(s, steps, f, k, e.id);
  }

  lemma LinkedHasId(es: seq<Entry>, e: Entry)
    ensures e in es ==> HasId(es, e.id)
  {
  }

  lemma GoneIsUnlinked(s: State, e: Entry)
    requires Inv(s) && Once(s.h, e)
    ensures Gone(s.h, e.id) || Calls(s.h, e.id) == 1 ==> !HasId(s.h.entries, e.id)
  {
    if k :| 0 <= k < |s.h.entries| && s.h.entries[k].id == e.id {
      assert s.h.entries[k] in s.h.entries;
    }
  }

  lemma {:induction false} NextIdGrows(s: seq<State>, steps: seq<Step>, j: nat, i: nat)
    requires Run(s, steps) && j <= i <= |steps|
    ensures s[j].h.nextId <= s[i].h.nextId
  {
    hide Inv, Next, Enabled, CalledAreOld;
    if j < i {
      NextIdGrows(s, steps, j, i - 1);
      RunStep(s, steps, i - 1);
      IdGrows(s[i - 1], steps[i - 1]);
    }
  }

  lemma IdGrows(s: State, step: Step)
    requires Inv(s) && Enabled(s, step)
    ensures s.h.nextId <= Next(s, step).h.nextId
  {
    if step.Do? { OpPrunesOrAdds(s.h, step.op); }
    hide Inv, Apply, Calls;
  }

  /** An id that is linked no more is never linked again. */
  lemma {:induction false} NeverBack(s: seq<State>, steps: seq<Step>, f: nat, k: nat, id: nat)
    requires Run(s, steps) && f <= k <= |steps| && !HasId(s[f].h.entries, id) && id < s[f].h.nextId
    ensures !HasId(s[k].h.entries, id)
  {
    hide Inv, Next, Enabled, CalledAreOld;
    if f < k {
      NeverBack(s, steps, f, k - 1, id);
      NextIdGrows(s, steps, f, k - 1);
      RunStep(s, steps, k - 1);
      if x :| 0 <= x < |s[k].h.entries| && s[k].h.entries[x].id == id {
        var e := s[k].h.entries[x];
        if e !in s[k - 1].h.entries { NewIsAdded(s[k - 1], steps[k - 1], e); }
        assert false;
      }
    }
  }

  /** Whatever runs under the id of a registration is what was registered, and it runs once or for good as was asked. */
  lemma RegisteredIsWhatRuns(s: seq<State>, steps: seq<Step>, i: nat, j: nat, cb: nat, data: nat, oneshot: bool)
    requires Run(s, steps) && Registers(s, steps, i, cb, data, oneshot) && i < j <= |steps|
    ensures s[i + 1].h.entries == s[i].h.entries + [Entry(s[i].h.nextId, cb, data, oneshot)]
    ensures s[j].at.InCallback? && s[j].at.e.id == s[i].h.nextId ==>
      s[j].at.e == Entry(s[i].h.nextId, cb, data, oneshot)
  {
    hide Inv, Enabled, CalledAreOld, Kept, Once;
    RegisteredIsTracked(s, steps, i, j, cb, data, oneshot);
    RegistersAdds(s, steps, i, cb, data, oneshot);
    AddsLinks(s[i].h, steps[i].op, Made(s[i], cb, data, oneshot));
  }

  /** A single registration of what is linked already changes nothing, and a null callback is never registered. */
  lemma SingleIsNotDoubled(h: Hook, cb: nat, data: nat, oneshot: bool)
    requires cb == 0 || exists e :: e in h.entries && e.cb == cb && e.data == data
    ensures Apply(h, AddSingleOp(cb, data, oneshot)) == h
    ensures cb == 0 ==> Apply(h, AddOp(cb, data, oneshot)) == h
  {
    if cb != 0 {
      var e :| e in h.entries && e.cb == cb && e.data == data;
      var k :| 0 <= k < |h.entries| && h.entries[k] == e;
      assert Matches(h.entries[k], cb, data);
    }
  }

  // ---------------------------------------------------------------- what a removal takes

  /** Removing takes the last matching entry, and nothing if there is none. */
  lemma {:induction false} RmTakesLast(h: Hook, cb: nat, data: nat, k: nat, i: nat)
    requires cb != 0 && i < k <= |h.entries|
    requires forall j :: i < j < k ==> !(h.entries[j].cb == cb && h.entries[j].data == data)
    ensures h.entries[i].cb == cb && h.entries[i].data == data ==>
      var r := RmBelow(h, cb, data, k);
      r.entries == h.entries[..i] + h.entries[i + 1..] && r.log == h.log + [Removed(h.entries[i].id)]
    ensures i == 0 && !(h.entries[0].cb == cb && h.entries[0].data == data) ==> RmBelow(h, cb, data, k) == h
  {
    if i + 1 < k { RmTakesLast(h, cb, data, k - 1, i); }
  }

  /** The entries that do not match, in their order. */
  function Others(es: seq<Entry>, cb: nat, data: nat): seq<Entry> {
    if es == [] then []
    else (if es[0].cb == cb && es[0].data == data then [] else [es[0]]) + Others(es[1..], cb, data)
  }

  /** Removing all takes just the matching entries. */
  lemma {:induction false} RmAllLeavesOthers(h: Hook, cb: nat, data: nat, k: nat)
    requires cb != 0 && k <= |h.entries|
    ensures RmAllBelow(h, cb, data, k).entries == Others(h.entries[..k], cb, data) + h.entries[k..]
    decreases k
  {
    hide RmAllBelow, RemoveAt, Others;
    RmAllStep(h, cb, data, k);
    OthersStep(h.entries, cb, data, k);
    if k > 0 {
      if Matches(h.entries[k - 1], cb, data) {
        RemovedAt(h, k - 1);
        RmAllLeavesOthers(RemoveAt(h, k - 1), cb, data, k - 1);
      } else {
        RmAllLeavesOthers(h, cb, data, k - 1);
        assert h.entries[k - 1..] == [h.entries[k - 1]] + h.entries[k..];
      }
    }
  }

  lemma RmAllStep(h: Hook, cb: nat, data: nat, k: nat)
    requires cb != 0 && k <= |h.entries|
    ensures k == 0 ==> RmAllBelow(h, cb, data, k) == h
    ensures k > 0 ==>
      var g := if Matches(h.entries[k - 1], cb, data) then RemoveAt(h, k - 1) else h;
      RmAllBelow(h, cb, data, k) == RmAllBelow(g, cb, data, k - 1)
  {
  }

  lemma RemovedAt(h: Hook, i: nat)
    requires i < |h.entries|
    ensures var es := RemoveAt(h, i).entries;
      |es| == |h.entries| - 1 && es[..i] == h.entries[..i] && es[i..] == h.entries[i + 1..]
  {
  }

  lemma OthersStep(es: seq<Entry>, cb: nat, data: nat, k: nat)
    requires k <= |es|
    ensures k == 0 ==> Others(es[..k], cb, data) == [] && es[k..] == es
    ensures k > 0 ==>
      var last := if Matches(es[k - 1], cb, data) then [] else [es[k - 1]];
      Others(es[..k], cb, data) == Others(es[..k - 1], cb, data) + last
  {
    if k > 0 {
      assert es[..k] == es[..k - 1] + [es[k - 1]];
      OthersOfTwo(es[..k - 1], [es[k - 1]], cb, data);
      OthersOfOne(es[k - 1], cb, data);
    }
  }

  lemma OthersOfOne(e: Entry, cb: nat, data: nat)
    ensures Others([e], cb, data) == if e.cb == cb && e.data == data then [] else [e]
  {
    assert [e][1..] == [] && Others([e][1..], cb, data) == [];
  }

  lemma {:induction false} OthersOfTwo(a: seq<Entry>, b: seq<Entry>, cb: nat, data: nat)
    ensures Others(a + b, cb, data) == Others(a, cb, data) + Others(b, cb, data)
  {
    if a == [] {
      assert a + b == b;
    } else {
      assert (a + b)[1..] == a[1..] + b;
      OthersOfTwo(a[1..], b, cb, data);
    }
  }
}
