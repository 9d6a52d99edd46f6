/** The hook itself: a list of callbacks that is changed in place, also while it is being called. */
module Hooks {
  import opened HookModel

  class ShlHook {
    var num: int
    var entries: seq<Entry>
    var cur: Cursor
    var dead: bool
    var nextId: nat
    ghost var releases: nat
    ghost var log: seq<Event>

    ghost function Abs(): HookModel.Hook
      reads this
    {
      HookModel.Hook(num, entries, cur, dead, releases, nextId, log)
    }

    constructor ()
      ensures Abs() == NEW_HOOK
    {
      num, entries, cur, dead, nextId, releases, log := 0, [], Idle, false, 0, 0, [];
    }

    /** With no call running, unlinks every entry from the tail and releases the hook. */
    method Free()
      modifies this
      ensures Abs() == HookModel.Free(old(Abs()))
    {
      if cur != Idle {
        dead := true;
        return;
      }
      while entries != []
        invariant Abs().(entries := []) == old(Abs()).(entries := [])
        decreases |entries|
      {
        entries := entries[..|entries| - 1];
      }
      releases := releases + 1;
    }

    method Add(cb: nat, data: nat, oneshot: bool)
      modifies this
      ensures Abs() == HookModel.Add(old(Abs()), cb, data, oneshot)
    {
      if cb == 0 { return; }
      entries := entries + [Entry(nextId, cb, data, oneshot)];
      nextId := nextId + 1;
      num := num + 1;
    }

    method AddSingle(cb: nat, data: nat, oneshot: bool)
      modifies this
      ensures Abs() == HookModel.AddSingle(old(Abs()), cb, data, oneshot)
    {
      if cb == 0 { return; }
      var i := 0;
      while i < |entries|
        invariant i <= |entries| && Abs() == old(Abs())
        invariant forall j :: 0 <= j < i ==> !Matches(entries[j], cb, data)
      {
        if Matches(entries[i], cb, data) { return; }
        i := i + 1;
      }
      Add(cb, data, oneshot);
    }

    /** Unlinks and frees entry `i`; a running call must not be disturbed. */
    method RemoveEntry(i: nat)
      requires i < |entries|
      modifies this
      ensures Abs() == RemoveAt(old(Abs()), i)
    {
      var id := entries[i].id;
      if cur == At(id) { cur := After(entries, i); }
      entries := Without(entries, i);
      num := num - 1;
      log := log + [Removed(id)];
    }

    method Rm(cb: nat, data: nat)
      modifies this
      ensures Abs() == HookModel.Rm(old(Abs()), cb, data)
    {
      if cb == 0 { return; }
      var i: nat := |entries|;
      while i > 0
        invariant i <= |entries| && Abs() == old(Abs())
        invariant HookModel.Rm(Abs(), cb, data) == RmBelow(Abs(), cb, data, i)
      {
        i := i - 1;
        if Matches(entries[i], cb, data) {
          RemoveEntry(i);
          return;
        }
      }
    }

    method RmAll(cb: nat, data: nat)
      modifies this
      ensures Abs() == HookModel.RmAll(old(Abs()), cb, data)
    {
      if cb == 0 { return; }
      var i: nat := |entries|;
      while i > 0
        invariant i <= |entries|
        invariant HookModel.RmAll(old(Abs()), cb, data) == RmAllBelow(Abs(), cb, data, i)
      {
        i := i - 1;
        if Matches(entries[i], cb, data) { RemoveEntry(i); }
      }
    }

    method Perform(op: Op)
      modifies this
      ensures Abs() == Apply(old(Abs()), op)
    {
      match op
      case AddOp(cb, data, oneshot) => Add(cb, data, oneshot);
      case AddSingleOp(cb, data, oneshot) => AddSingle(cb, data, oneshot);
      case RmOp(cb, data) => Rm(cb, data);
      case RmAllOp(cb, data) => RmAll(cb, data);
      case FreeOp => Free();
      case CallOp =>
    }

    /** The body of one callback: any list of operations. */
    method RunCallback(ops: seq<Op>, ghost s: State) returns (ghost r: State)
      requires Inv(s) && s.h == Abs() && s.at.InCallback?
      modifies this
      ensures Inv(r) && r.h == Abs() && r.at == s.at && r.start == s.start && r.called == s.called
      ensures ops == [] ==> Abs() == old(Abs())
      ensures (s.h.dead || FreeOp in ops) ==> r.h.dead
      ensures forall id :: Gone(s.h, id) ==> Gone(r.h, id)
    {
      hide Inv, Apply, Gone;
      r := s;
      var i := 0;
      while i < |ops|
        invariant i <= |ops| && Inv(r) && r.h == Abs() && r.at == s.at && r.start == s.start && r.called == s.called
        invariant i == 0 ==> Abs() == old(Abs())
        invariant s.h.dead || FreeOp in ops[..i] ==> r.h.dead
        invariant forall id :: Gone(s.h, id) ==> Gone(r.h, id)
      {
        assert Enabled(r, Do(ops[i])) by { InCallIsAlive(r); }
        StepKeepsInv(r, Do(ops[i]));
        OpGrowsLog(r.h, ops[i]);
        OpDies(r, ops[i]);
        assert ops[..i + 1] == ops[..i] + [ops[i]];
        Perform(ops[i]);
        r := Next(r, Do(ops[i]));
        i := i + 1;
      }
      assert ops[..i] == ops;
    }

    /** Calls every entry.  `script[n]` is what the n-th callback does; callbacks beyond the script
        do nothing.  `s` is the state of the run so far. */
    method Call(script: seq<seq<Op>>, ghost s: State) returns (called: seq<nat>, ghost r: State)
      requires Inv(s) && s.h == Abs() && releases == 0 && !s.at.InLoop?
      modifies this
      ensures Inv(r) && r.h == Abs()
      ensures s.at.InCallback? ==> Abs() == old(Abs()) && called == []
      ensures s.at.Outside? ==>
        && cur == Idle && Rising(called)
        && (forall e :: e in old(entries) ==> e.id in called || Removed(e.id) in log)
        && releases == (if r.h.dead then 1 else 0)
    {
      called, r := [], s;
      if cur != Idle { return; }
      r := Next(s, BeginStep);
      StepKeepsInv(s, BeginStep);
      cur := if entries == [] then Sentinel else At(entries[0].id);
      called, r := CallLoop(script, r);
      assert Enabled(r, FinishStep);
      StepKeepsInv(r, FinishStep);
      ghost var last := r;
      r := Next(r, FinishStep);
      cur := Idle;
      if dead { Free(); }
      forall e | e in old(entries) ensures e.id in called || Removed(e.id) in log {
        assert Accounted(last, e.id);
      }
    }

    method CallLoop(script: seq<seq<Op>>, ghost s: State) returns (called: seq<nat>, ghost r: State)
      requires Inv(s) && s.h == Abs() && s.at.InLoop? && s.called == []
      modifies this
      ensures Inv(r) && r.h == Abs() && r.at.InLoop? && cur == Sentinel
      ensures r.start == s.start && called == r.called
    {
      hide Inv, CallSound, Gone, Fetch, IndexOf, Without, After;
      called, r := [], s;
      var n := 0;
      assert cur != Idle by { LoopCursor(r); }
      while cur != Sentinel
        invariant Inv(r) && r.h == Abs() && r.at.InLoop? && r.start == s.start && called == r.called && cur != Idle
        decreases if n < |script| then |script| - n else 0, Rest(Abs())
      {
        LoopCursor(r);
        StepKeepsInv(r, FetchStep);
        FetchShrinks(r);
        var i := IndexOf(entries, cur.id);
        var entry := entries[i];
        called := called + [cur.id];
        r := Next(r, FetchStep);
        FetchEntry(i);
        r := RunCallback(if n < |script| then script[n] else [], r);
        StepKeepsInv(r, ReturnStep);
        r := Next(r, ReturnStep);
        if entry.oneshot { num := num - 1; }
        n := n + 1;
        LoopCursor(r);
      }
    }

    /** Moves the cursor past entry `i`, and unlinks the entry if it is to be called only once. */
    method FetchEntry(i: nat)
      requires i < |entries|
      modifies this
      ensures Abs() == Fetch(old(Abs()), i)
    {
      var entry := entries[i];
      cur := After(entries, i);
      if entry.oneshot { entries := Without(entries, i); }
      log := log + [Called(entry.id)];
    }
  }

  /** How many entries are still to come. */
  ghost function Rest(h: HookModel.Hook): nat {
    if h.cur.At? && HasId(h.entries, h.cur.id) then |h.entries| - IndexOf(h.entries, h.cur.id) else 0
  }

  lemma LoopCursor(s: State)
    requires Inv(s) && !s.at.Outside?
    ensures s.h.cur != Idle && (s.h.cur.At? ==> HasId(s.h.entries, s.h.cur.id)) && s.h.releases == 0
    ensures s.at.InLoop? && s.h.cur.At? ==> Enabled(s, FetchStep)
  {
  }

  lemma InCallIsAlive(s: State)
    requires Inv(s) && s.at.InCallback?
    ensures s.h.releases == 0
  {
  }

  lemma FetchShrinks(s: State)
    requires Inv(s) && Enabled(s, FetchStep)
    ensures HasId(s.h.entries, s.h.cur.id)
    ensures Rest(Next(s, FetchStep).h) < Rest(s.h)
  {
    var h := Next(s, FetchStep).h;
    var i := IndexOf(s.h.entries, s.h.cur.id);
    WithoutIds(s.h.entries, i, s.h.nextId);
    if i + 1 < |s.h.entries| {
      var k := if s.h.entries[i].oneshot then i else i + 1;
      assert h.entries[k].id == h.cur.id;
    }
  }

  lemma OpGrowsLog(h: HookModel.Hook, op: Op)
    ensures forall id :: Gone(h, id) ==> Gone(Apply(h, op), id)
  {
    match op
    case RmOp(cb, data) => RmGrowsLog(h, cb, data, |h.entries|);
    case RmAllOp(cb, data) => RmAllGrowsLog(h, cb, data, |h.entries|);
    case _ =>
  }

  lemma {:induction false} RmGrowsLog(h: HookModel.Hook, cb: nat, data: nat, k: nat)
    requires k <= |h.entries|
    ensures forall id :: Gone(h, id) ==> Gone(RmBelow(h, cb, data, k), id)
  {
    if k > 0 && cb != 0 && !Matches(h.entries[k - 1], cb, data) { RmGrowsLog(h, cb, data, k - 1); }
  }

  lemma {:induction false} RmAllGrowsLog(h: HookModel.Hook, cb: nat, data: nat, k: nat)
    requires k <= |h.entries|
    ensures forall id :: Gone(h, id) ==> Gone(RmAllBelow(h, cb, data, k), id)
    decreases k
  {
    if k > 0 && cb != 0 {
      RmAllGrowsLog(if Matches(h.entries[k - 1], cb, data) then RemoveAt(h, k - 1) else h, cb, data, k - 1);
    }
  }

  lemma OpDies(s: State, op: Op)
    requires Inv(s) && s.at.InCallback?
    ensures s.h.dead || op == FreeOp ==> Apply(s.h, op).dead
  {
    if s.h.dead { DeadStaysDead(s.h, op); }
  }
}
