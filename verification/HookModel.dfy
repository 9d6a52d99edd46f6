/** Hooks whose callbacks may add, remove and free entries while they are being called.

    The callbacks are an adversary: between the moment an entry's callback starts and the moment it
    returns, any operations may happen, in any number.  This module states the operations as
    functions and proves what holds in every run; the class `Hooks.ShlHook` performs them. */
module HookModel {
  /** A registered callback.  `id` stands for the entry's address; it is never reused. */
  datatype Entry = Entry(id: nat, cb: nat, data: nat, oneshot: bool)

  datatype Cursor =
    | Idle          // no call is running
    | At(id: nat)   // the next entry to call
    | Sentinel      // the call has reached the list head

  datatype Event = Called(id: nat) | Removed(id: nat)

  datatype Hook = Hook(num: int, entries: seq<Entry>, cur: Cursor, dead: bool,
                       releases: nat, nextId: nat, log: seq<Event>)

  const NEW_HOOK: Hook := Hook(0, [], Idle, false, 0, 0, [])

  // ---------------------------------------------------------------- operations

  predicate Matches(e: Entry, cb: nat, data: nat) {
    e.cb == cb && e.data == data
  }

  /** The entry after position `i`, or the sentinel. */
  function After(es: seq<Entry>, i: nat): Cursor
    requires i < |es|
  {
    if i + 1 < |es| then At(es[i + 1].id) else Sentinel
  }

  function Without(es: seq<Entry>, i: nat): seq<Entry>
    requires i < |es|
  {
    es[..i] + es[i + 1..]
  }

  /** Callback number 0 stands for a null pointer, which is refused. */
  function Add(h: Hook, cb: nat, data: nat, oneshot: bool): Hook {
    if cb == 0 then h
    else h.(entries := h.entries + [Entry(h.nextId, cb, data, oneshot)], num := h.num + 1,
            nextId := h.nextId + 1)
  }

  function AddSingle(h: Hook, cb: nat, data: nat, oneshot: bool): Hook {
    if exists i :: 0 <= i < |h.entries| && Matches(h.entries[i], cb, data) then h else Add(h, cb, data, oneshot)
  }

  /** Unlinks and frees the entry at `i`; a running call skips to the next one. */
  function RemoveAt(h: Hook, i: nat): Hook
    requires i < |h.entries|
  {
    var id := h.entries[i].id;
    h.(cur := if h.cur == At(id) then After(h.entries, i) else h.cur,
       entries := Without(h.entries, i), num := h.num - 1, log := h.log + [Removed(id)])
  }

  /** Removes the last matching entry among the first `k`. */
  function RmBelow(h: Hook, cb: nat, data: nat, k: nat): Hook
    requires k <= |h.entries|
  {
    if k == 0 || cb == 0 then h
    else if Matches(h.entries[k - 1], cb, data) then RemoveAt(h, k - 1)
    else RmBelow(h, cb, data, k - 1)
  }

  function Rm(h: Hook, cb: nat, data: nat): Hook {
    RmBelow(h, cb, data, |h.entries|)
  }

  /** Removes all matching entries among the first `k`, from the back. */
  function RmAllBelow(h: Hook, cb: nat, data: nat, k: nat): Hook
    requires k <= |h.entries|
    decreases k
  {
    if k == 0 || cb == 0 then h
    else RmAllBelow(if Matches(h.entries[k - 1], cb, data) then RemoveAt(h, k - 1) else h, cb, data, k - 1)
  }

  function RmAll(h: Hook, cb: nat, data: nat): Hook {
    RmAllBelow(h, cb, data, |h.entries|)
  }

  /** Releases the memory, or asks the running call to do so at its end. */
  function Free(h: Hook): Hook {
    if h.cur != Idle then h.(dead := true) else h.(entries := [], releases := h.releases + 1)
  }

  function Begin(h: Hook): Hook {
    h.(cur := if h.entries == [] then Sentinel else At(h.entries[0].id))
  }

  /** The cursor moves on before the callback runs, and a oneshot entry is unlinked. */
  function Fetch(h: Hook, i: nat): Hook
    requires i < |h.entries|
  {
    var e := h.entries[i];
    h.(cur := After(h.entries, i), entries := if e.oneshot then Without(h.entries, i) else h.entries,
       log := h.log + [Called(e.id)])
  }

  function Return(h: Hook, e: Entry): Hook {
    if e.oneshot then h.(num := h.num - 1) else h
  }

  function Finish(h: Hook): Hook {
    var r := h.(cur := Idle);
    if r.dead then Free(r) else r
  }

  // ---------------------------------------------------------------- runs

  datatype Op =
    | AddOp(cb: nat, data: nat, oneshot: bool)
    | AddSingleOp(cb: nat, data: nat, oneshot: bool)
    | RmOp(cb: nat, data: nat)
    | RmAllOp(cb: nat, data: nat)
    | FreeOp
    | CallOp   // a nested call returns at once

  function Apply(h: Hook, op: Op): Hook {
    match op
    case AddOp(cb, data, oneshot) => Add(h, cb, data, oneshot)
    case AddSingleOp(cb, data, oneshot) => AddSingle(h, cb, data, oneshot)
    case RmOp(cb, data) => Rm(h, cb, data)
    case RmAllOp(cb, data) => RmAll(h, cb, data)
    case FreeOp => Free(h)
    case CallOp => h
  }

  /** Where the thread of control is. */
  datatype Control = Outside | InLoop | InCallback(e: Entry)

  /** The hook, where control is, and the history of the running call: the entries linked when it
      began, the ids added since the cursor reached the sentinel, the ids called. */
  datatype State = State(h: Hook, at: Control, start: seq<Entry>, late: set<nat>, called: seq<nat>)

  datatype Step = Do(op: Op) | BeginStep | FetchStep | ReturnStep | FinishStep

  function IndexOf(es: seq<Entry>, id: nat): (i: nat)
    requires exists k :: 0 <= k < |es| && es[k].id == id
    ensures i < |es| && es[i].id == id
  {
    if es[0].id == id then 0 else IndexOf(es[1..], id) + 1
  }

  ghost predicate HasId(es: seq<Entry>, id: nat) {
    exists k :: 0 <= k < |es| && es[k].id == id
  }

  /** User code runs outside calls and inside callbacks, as long as the hook is not released. */
  ghost predicate Enabled(s: State, step: Step) {
    match step
    case Do(op) => s.h.releases == 0 && !s.at.InLoop? && (op.CallOp? ==> s.at.InCallback?)
    case BeginStep => s.h.releases == 0 && s.at.Outside?
    case FetchStep => s.at.InLoop? && s.h.cur.At?
    case ReturnStep => s.at.InCallback?
    case FinishStep => s.at.InLoop? && s.h.cur.Sentinel?
  }

  /** Fetching through a cursor that is not linked would be undefined; it never happens. */
  ghost function Next(s: State, step: Step): State
    requires Enabled(s, step)
  {
    match step
    case Do(op) =>
      var h := Apply(s.h, op);
      s.(h := h, late := if s.h.cur.Sentinel? && h.nextId > s.h.nextId then s.late + {s.h.nextId} else s.late)
    case BeginStep => State(Begin(s.h), InLoop, s.h.entries, {}, [])
    case FetchStep =>
      if !HasId(s.h.entries, s.h.cur.id) then s else
      var i := IndexOf(s.h.entries, s.h.cur.id);
      s.(h := Fetch(s.h, i), at := InCallback(s.h.entries[i]), called := s.called + [s.h.cur.id])
    case ReturnStep => s.(h := Return(s.h, s.at.e), at := InLoop)
    case FinishStep => s.(h := Finish(s.h), at := Outside)
  }

  // ---------------------------------------------------------------- the invariant

  ghost predicate Sorted(es: seq<Entry>, bound: nat) {
    && (forall i, j :: 0 <= i < j < |es| ==> es[i].id < es[j].id)
    && (forall i :: 0 <= i < |es| ==> es[i].id < bound)
  }

  ghost predicate Rising(ids: seq<nat>) {
    forall i, j :: 0 <= i < j < |ids| ==> ids[i] < ids[j]
  }

  /** A removed entry is not linked, and is not called after its removal. */
  ghost predicate LogSound(h: Hook) {
    && (forall i :: 0 <= i < |h.log| && h.log[i].Removed? ==> !HasId(h.entries, h.log[i].id) && h.log[i].id < h.nextId)
    && (forall i, j :: 0 <= i < j < |h.log| && h.log[i].Removed? ==> h.log[j] != Called(h.log[i].id))
  }

  /** The cursor is idle exactly outside calls, and otherwise a linked entry or the sentinel. */
  ghost predicate CursorSound(s: State) {
    && (s.h.cur.Idle? <==> s.at.Outside?)
    && (s.h.cur.At? ==> HasId(s.h.entries, s.h.cur.id))
  }

  ghost predicate InFlight(s: State) {
    s.at.InCallback? && s.at.e.oneshot
  }

  ghost predicate Gone(h: Hook, id: nat) {
    Removed(id) in h.log
  }

  /** The cursor has not passed entry `id` yet. */
  ghost predicate Ahead(h: Hook, id: nat) {
    h.cur.At? && h.cur.id <= id
  }

  /** Every id in question was called in this call, was removed, or is still to come. */
  ghost predicate Accounted(s: State, id: nat) {
    id in s.called || Gone(s.h, id) || (HasId(s.h.entries, id) && Ahead(s.h, id))
  }

  ghost predicate CallSound(s: State) {
    && Rising(s.called)
    && (forall id :: id in s.called ==> id < s.h.nextId && !Ahead(s.h, id) && id !in s.late)
    && (forall id :: id in s.late ==> id < s.h.nextId && s.h.cur.Sentinel?)
    && (forall e :: e in s.start ==> Accounted(s, e.id))
    && (forall e :: e in s.h.entries ==> Accounted(s, e.id) || e.id in s.late)
  }

  ghost predicate Inv(s: State) {
    && Sorted(s.h.entries, s.h.nextId)
    && (s.h.releases == 0 ==> s.h.num == |s.h.entries| + (if InFlight(s) then 1 else 0))
    && LogSound(s.h) && CursorSound(s)
    && s.h.releases <= 1 && (s.h.releases == 1 ==> s.at.Outside? && s.h.entries == [])
    && (s.h.dead && s.at.Outside? ==> s.h.releases == 1)
    && (!s.at.Outside? ==> CallSound(s))
  }

  // ---------------------------------------------------------------- every step keeps the invariant

  lemma AddKeeps(s: State, cb: nat, data: nat, oneshot: bool)
    requires Inv(s) && s.h.releases == 0 && cb != 0 && !s.at.InLoop?
    ensures var h := Add(s.h, cb, data, oneshot);
      Inv(s.(h := h, late := if s.h.cur.Sentinel? then s.late + {s.h.nextId} else s.late))
  {
    var h := Add(s.h, cb, data, oneshot);
    var r := s.(h := h, late := if s.h.cur.Sentinel? then s.late + {s.h.nextId} else s.late);
    forall id | HasId(s.h.entries, id) ensures HasId(h.entries, id) {
      OldIdStays(s.h.entries, h.entries[|s.h.entries|], id);
    }
    forall i | 0 <= i < |h.log| && h.log[i].Removed? ensures !HasId(h.entries, h.log[i].id) {
      assert !HasId(s.h.entries, h.log[i].id) && h.log[i].id < s.h.nextId;
    }
    if !s.at.Outside? {
      forall e | e in h.entries ensures Accounted(r, e.id) || e.id in r.late {
        assert HasId(h.entries, e.id);
        if e in s.h.entries { assert Accounted(s, e.id) || e.id in s.late; }
      }
      forall e | e in s.start ensures Accounted(r, e.id) { assert Accounted(s, e.id); }
    }
  }

  lemma OldIdStays(es: seq<Entry>, e: Entry, id: nat)
    requires HasId(es, id)
    ensures HasId(es + [e], id)
  {
    var k :| 0 <= k < |es| && es[k].id == id;
    assert (es + [e])[k] == es[k];
  }

  lemma WithoutAt(es: seq<Entry>, i: nat, id: nat)
    requires i < |es| && forall j, k :: 0 <= j < k < |es| ==> es[j].id < es[k].id
    ensures HasId(Without(es, i), id) <==> HasId(es, id) && id != es[i].id
  {
    var r := Without(es, i);
    assert forall k :: 0 <= k < |r| ==> r[k] == if k < i then es[k] else es[k + 1];
    if HasId(r, id) {
      var k :| 0 <= k < |r| && r[k].id == id;
      assert es[if k < i then k else k + 1].id == id;
    }
    if HasId(es, id) && id != es[i].id {
      var k :| 0 <= k < |es| && es[k].id == id;
      assert r[if k < i then k else k - 1].id == id;
    }
  }

  /** Unlinking entry `i` leaves exactly the other ids, and the next one is linked still. */
  lemma WithoutIds(es: seq<Entry>, i: nat, bound: nat)
    requires Sorted(es, bound) && i < |es|
    ensures Sorted(Without(es, i), bound) && |Without(es, i)| == |es| - 1
    ensures forall id: nat :: HasId(Without(es, i), id) <==> HasId(es, id) && id != es[i].id
    ensures forall e :: e in Without(es, i) ==> e in es
    ensures After(es, i).At? ==> HasId(Without(es, i), After(es, i).id) && HasId(es, After(es, i).id)
    ensures forall id: nat :: HasId(es, id) && id > es[i].id ==> After(es, i).At? && After(es, i).id <= id
    ensures !After(es, i).Idle? && (After(es, i).At? ==> After(es, i).id > es[i].id)
  {
    var r := Without(es, i);
    assert forall k :: 0 <= k < |r| ==> r[k] == if k < i then es[k] else es[k + 1];
    forall id: nat ensures HasId(r, id) <==> HasId(es, id) && id != es[i].id { WithoutAt(es, i, id); }
    if i + 1 < |es| { assert es[i + 1].id == After(es, i).id; }
  }

  lemma RemoveKeeps(s: State, i: nat)
    requires Inv(s) && i < |s.h.entries| && !s.at.InLoop?
    ensures Inv(s.(h := RemoveAt(s.h, i)))
  {
    var h, id := RemoveAt(s.h, i), s.h.entries[i].id;
    var r := s.(h := h);
    WithoutIds(s.h.entries, i, s.h.nextId);
    assert HasId(s.h.entries, id);
    assert h.log[|s.h.log|] == Removed(id);
    forall k | 0 <= k < |h.log| && h.log[k].Removed? ensures !HasId(h.entries, h.log[k].id) && h.log[k].id < h.nextId {
      if k < |s.h.log| { assert h.log[k] == s.h.log[k]; }
    }
    if !s.at.Outside? {
      forall g | Accounted(s, g) ensures Accounted(r, g) { RemoveAccounts(s, i, g); }
      forall e | e in h.entries ensures Accounted(r, e.id) || e.id in r.late {
        assert Accounted(s, e.id) || e.id in s.late;
      }
    }
  }

  lemma RemoveAccounts(s: State, i: nat, g: nat)
    requires Inv(s) && i < |s.h.entries| && !s.at.Outside? && Accounted(s, g)
    ensures Accounted(s.(h := RemoveAt(s.h, i)), g)
  {
    var h, id := RemoveAt(s.h, i), s.h.entries[i].id;
    WithoutIds(s.h.entries, i, s.h.nextId);
    if g == id { assert h.log[|s.h.log|] == Removed(id); }
    if Gone(s.h, g) {
      var k :| 0 <= k < |s.h.log| && s.h.log[k] == Removed(g);
      assert h.log[k] == Removed(g);
    }
  }

  lemma {:induction false} RmBelowKeeps(s: State, cb: nat, data: nat, k: nat)
    requires Inv(s) && k <= |s.h.entries| && !s.at.InLoop?
    ensures Inv(s.(h := RmBelow(s.h, cb, data, k)))
  {
    if k > 0 && cb != 0 {
      if Matches(s.h.entries[k - 1], cb, data) { RemoveKeeps(s, k - 1); } else { RmBelowKeeps(s, cb, data, k - 1); }
    } else {
      assert s.(h := s.h) == s;
    }
  }

  lemma {:induction false} RmAllBelowKeeps(s: State, cb: nat, data: nat, k: nat)
    requires Inv(s) && k <= |s.h.entries| && !s.at.InLoop?
    ensures Inv(s.(h := RmAllBelow(s.h, cb, data, k)))
    decreases k
  {
    if k > 0 && cb != 0 {
      if Matches(s.h.entries[k - 1], cb, data) {
        RemoveKeeps(s, k - 1);
        RmAllBelowKeeps(s.(h := RemoveAt(s.h, k - 1)), cb, data, k - 1);
      } else {
        RmAllBelowKeeps(s, cb, data, k - 1);
      }
    } else {
      assert s.(h := s.h) == s;
    }
  }

  lemma OpKeeps(s: State, op: Op)
    requires Inv(s) && Enabled(s, Do(op))
    ensures Inv(Next(s, Do(op)))
  {
    var r := Next(s, Do(op));
    match op
    case AddOp(cb, data, oneshot) =>
      if cb != 0 { AddKeeps(s, cb, data, oneshot); } else { assert r == s; }
    case AddSingleOp(cb, data, oneshot) =>
      if cb != 0 { AddKeeps(s, cb, data, oneshot); }
      if r.h == s.h { assert r == s; }
    case RmOp(cb, data) =>
      RmKeepsNextId(s.h, cb, data, |s.h.entries|);
      RmBelowKeeps(s, cb, data, |s.h.entries|);
    case RmAllOp(cb, data) =>
      RmAllKeepsNextId(s.h, cb, data, |s.h.entries|);
      RmAllBelowKeeps(s, cb, data, |s.h.entries|);
    case FreeOp =>
      if s.h.cur != Idle { OnlyTheCallMatters(s, r); }
    case CallOp => assert r == s;
  }

  lemma {:induction false} RmKeepsNextId(h: Hook, cb: nat, data: nat, k: nat)
    requires k <= |h.entries|
    ensures RmBelow(h, cb, data, k).nextId == h.nextId
  {
    if k > 0 && cb != 0 && !Matches(h.entries[k - 1], cb, data) { RmKeepsNextId(h, cb, data, k - 1); }
  }

  lemma {:induction false} RmAllKeepsNextId(h: Hook, cb: nat, data: nat, k: nat)
    requires k <= |h.entries|
    ensures RmAllBelow(h, cb, data, k).nextId == h.nextId
    decreases k
  {
    if k > 0 && cb != 0 {
      RmAllKeepsNextId(if Matches(h.entries[k - 1], cb, data) then RemoveAt(h, k - 1) else h, cb, data, k - 1);
    }
  }

  /** The history of a call depends only on the list, the cursor and the log. */
  lemma OnlyTheCallMatters(s: State, r: State)
    requires CallSound(s) && r.start == s.start && r.late == s.late && r.called == s.called
    requires r.h.entries == s.h.entries && r.h.cur == s.h.cur && r.h.nextId == s.h.nextId && r.h.log == s.h.log
    ensures CallSound(r)
  {
    forall e | e in s.start ensures Accounted(r, e.id) { assert Accounted(s, e.id); }
    forall e | e in r.h.entries ensures Accounted(r, e.id) || e.id in r.late {
      assert Accounted(s, e.id) || e.id in s.late;
    }
  }

  lemma BeginKeeps(s: State)
    requires Inv(s) && Enabled(s, BeginStep)
    ensures Inv(Next(s, BeginStep))
  {
    var r := Next(s, BeginStep);
    forall e | e in s.h.entries ensures Accounted(r, e.id) {
      var k :| 0 <= k < |s.h.entries| && s.h.entries[k] == e;
      assert HasId(s.h.entries, e.id);
    }
    if s.h.entries != [] { assert HasId(s.h.entries, s.h.entries[0].id); }
  }

  lemma FetchKeeps(s: State)
    requires Inv(s) && Enabled(s, FetchStep)
    ensures Inv(Next(s, FetchStep))
  {
    var i := IndexOf(s.h.entries, s.h.cur.id);
    WithoutIds(s.h.entries, i, s.h.nextId);
    FetchCallSound(s);
    FetchLogSound(s);
    hide CallSound, LogSound, Without, After, Sorted;
  }

  lemma FetchLogSound(s: State)
    requires Inv(s) && Enabled(s, FetchStep)
    ensures LogSound(Next(s, FetchStep).h)
  {
    var r := Next(s, FetchStep);
    var i := IndexOf(s.h.entries, s.h.cur.id);
    WithoutIds(s.h.entries, i, s.h.nextId);
    hide CallSound, Without, After, Sorted;
    forall k | 0 <= k < |r.h.log| && r.h.log[k].Removed?
      ensures !HasId(r.h.entries, r.h.log[k].id) && r.h.log[k].id < r.h.nextId
    {
      assert r.h.log[k] == s.h.log[k];
    }
    assert HasId(s.h.entries, s.h.cur.id);
  }

  lemma FetchCallSound(s: State)
    requires Inv(s) && Enabled(s, FetchStep)
    ensures CallSound(Next(s, FetchStep))
  {
    var r := Next(s, FetchStep);
    var i := IndexOf(s.h.entries, s.h.cur.id);
    var id := s.h.cur.id;
    WithoutIds(s.h.entries, i, s.h.nextId);
    assert id < s.h.nextId;
    forall g | Accounted(s, g) ensures Accounted(r, g) { FetchAccounts(s, g); }
    hide Without, After, Sorted, LogSound, Accounted;
    assert r.called == s.called + [id];
    assert forall g :: g in r.called <==> g in s.called || g == id;
    assert Rising(r.called) by {
      forall k | 0 <= k < |s.called| ensures s.called[k] < id { assert s.called[k] in s.called; }
    }
    forall e | e in r.h.entries ensures Accounted(r, e.id) || e.id in r.late {
      assert Accounted(s, e.id) || e.id in s.late;
    }
    forall e | e in s.start ensures Accounted(r, e.id) { assert Accounted(s, e.id); }
  }

  lemma FetchAccounts(s: State, g: nat)
    requires Inv(s) && Enabled(s, FetchStep) && Accounted(s, g)
    ensures Accounted(Next(s, FetchStep), g)
  {
    var r := Next(s, FetchStep);
    WithoutIds(s.h.entries, IndexOf(s.h.entries, s.h.cur.id), s.h.nextId);
    if Gone(s.h, g) {
      var k :| 0 <= k < |s.h.log| && s.h.log[k] == Removed(g);
      assert r.h.log[k] == Removed(g);
    }
    assert s.h.cur.id in r.called by { assert r.called[|s.called|] == s.h.cur.id; }
    if g in s.called {
      var k :| 0 <= k < |s.called| && s.called[k] == g;
      assert r.called[k] == g;
    }
  }

  /** Every step of every run, adversarial callbacks included, keeps the invariant. */
  lemma StepKeepsInv(s: State, step: Step)
    requires Inv(s) && Enabled(s, step)
    ensures Inv(Next(s, step))
  {
    match step
    case Do(op) => OpKeeps(s, op);
    case BeginStep => BeginKeeps(s);
    case FetchStep => FetchKeeps(s);
    case ReturnStep => OnlyTheCallMatters(s, Next(s, step));
    case FinishStep =>
  }

  // ---------------------------------------------------------------- whole runs

  const INITIAL: State := State(NEW_HOOK, Outside, [], {}, [])

  ghost predicate Run(s: seq<State>, steps: seq<Step>) {
    && |s| == |steps| + 1 && s[0] == INITIAL
    && forall i :: 0 <= i < |steps| ==> Enabled(s[i], steps[i]) && s[i + 1] == Next(s[i], steps[i])
  }

  lemma {:induction false} RunKeepsInv(s: seq<State>, steps: seq<Step>, i: nat)
    requires Run(s, steps) && i <= |steps|
    ensures Inv(s[i])
  {
    if i > 0 {
      RunKeepsInv(s, steps, i - 1);
      StepKeepsInv(s[i - 1], steps[i - 1]);
    }
  }

  /** Safety, at every moment of every run: the cursor is a linked entry or the sentinel, `num`
      counts the linked entries and a oneshot in flight, and no entry is called after it was
      removed. */
  lemma AlwaysSafe(s: seq<State>, steps: seq<Step>, i: nat)
    requires Run(s, steps) && i <= |steps|
    ensures var h := s[i].h;
      && (h.cur.At? ==> HasId(h.entries, h.cur.id))
      && (h.releases == 0 ==> h.num == |h.entries| + (if s[i].at.InCallback? && s[i].at.e.oneshot then 1 else 0))
      && (forall a, b :: 0 <= a < b < |h.log| && h.log[a].Removed? ==> h.log[b] != Called(h.log[a].id))
      && h.releases <= 1
  {
    RunKeepsInv(s, steps, i);
  }

  /** When a call ends, the entries that were linked when it began have been called, each exactly
      once and in the order of registration, except those that were removed.  Entries added
      meanwhile have been called as well, unless they came when the last one was running already. */
  lemma CallIsComplete(s: seq<State>, steps: seq<Step>, i: nat)
    requires Run(s, steps) && i < |steps| && steps[i] == FinishStep
    ensures Rising(s[i].called)
    ensures forall e :: e in s[i].start ==> e.id in s[i].called || Removed(e.id) in s[i].h.log
    ensures forall e :: e in s[i].h.entries ==> (e.id in s[i].called <==> e.id !in s[i].late)
  {
    RunKeepsInv(s, steps, i);
    assert Enabled(s[i], steps[i]);
    forall e | e in s[i].start ensures e.id in s[i].called || Removed(e.id) in s[i].h.log {
      assert Accounted(s[i], e.id);
    }
    forall e | e in s[i].h.entries ensures e.id in s[i].called <==> e.id !in s[i].late {
      assert Accounted(s[i], e.id) || e.id in s[i].late;
      LinkedIsNotGone(s[i].h, e);
    }
  }

  lemma LinkedIsNotGone(h: Hook, e: Entry)
    requires LogSound(h) && e in h.entries
    ensures !Gone(h, e.id)
  {
    var k :| 0 <= k < |h.entries| && h.entries[k] == e;
    assert HasId(h.entries, e.id);
  }

  /** A hook freed by a callback is released once, and not before the call has ended. */
  lemma {:induction false} FreedInCallIsReleasedAtItsEnd(s: seq<State>, steps: seq<Step>, i: nat, j: nat)
    requires Run(s, steps) && i < j < |steps| && steps[i] == Do(FreeOp) && s[i].at.InCallback?
    requires forall k :: i < k < j ==> steps[k] != FinishStep
    ensures s[j].h.dead && s[j].h.releases == 0 && !s[j].at.Outside?
    ensures steps[j] == FinishStep ==> s[j + 1].h.releases == 1 && s[j + 1].h.entries == [] && s[j + 1].at.Outside?
  {
    hide Next, Inv;
    assert Enabled(s[i], steps[i]) && s[i + 1] == Next(s[i], steps[i]);
    if j > i + 1 {
      FreedInCallIsReleasedAtItsEnd(s, steps, i, j - 1);
      assert Enabled(s[j - 1], steps[j - 1]) && s[j] == Next(s[j - 1], steps[j - 1]);
      RunKeepsInv(s, steps, j - 1);
      DeadStep(s[j - 1], steps[j - 1]);
    } else {
      RunKeepsInv(s, steps, i);
      DyingStep(s[i]);
    }
    assert Enabled(s[j], steps[j]) && s[j + 1] == Next(s[j], steps[j]);
    RunKeepsInv(s, steps, j);
    DeadStep(s[j], steps[j]);
  }

  lemma DyingStep(s: State)
    requires Inv(s) && Enabled(s, Do(FreeOp)) && s.at.InCallback?
    ensures var r := Next(s, Do(FreeOp)); r.h.dead && r.h.releases == 0 && !r.at.Outside?
  {
  }

  lemma DeadStep(s: State, step: Step)
    requires Inv(s) && Enabled(s, step) && s.h.dead && s.h.releases == 0 && !s.at.Outside?
    ensures var r := Next(s, step);
      if step == FinishStep then r.h.releases == 1 && r.h.entries == [] && r.at.Outside?
      else r.h.dead && r.h.releases == 0 && !r.at.Outside?
  {
    if step.Do? { DeadStaysDead(s.h, step.op); }
  }

  lemma DeadStaysDead(h: Hook, op: Op)
    requires h.dead && h.releases == 0 && h.cur != Idle
    ensures Apply(h, op).dead && Apply(h, op).releases == 0
  {
    match op
    case RmOp(cb, data) => RmKeepsDead(h, cb, data, |h.entries|);
    case RmAllOp(cb, data) => RmAllKeepsDead(h, cb, data, |h.entries|);
    case _ =>
  }

  lemma {:induction false} RmKeepsDead(h: Hook, cb: nat, data: nat, k: nat)
    requires k <= |h.entries|
    ensures RmBelow(h, cb, data, k).dead == h.dead && RmBelow(h, cb, data, k).releases == h.releases
  {
    if k > 0 && cb != 0 && !Matches(h.entries[k - 1], cb, data) { RmKeepsDead(h, cb, data, k - 1); }
  }

  lemma {:induction false} RmAllKeepsDead(h: Hook, cb: nat, data: nat, k: nat)
    requires k <= |h.entries|
    ensures RmAllBelow(h, cb, data, k).dead == h.dead && RmAllBelow(h, cb, data, k).releases == h.releases
    decreases k
  {
    if k > 0 && cb != 0 {
      RmAllKeepsDead(if Matches(h.entries[k - 1], cb, data) then RemoveAt(h, k - 1) else h, cb, data, k - 1);
    }
  }

  // ---------------------------------------------------------------- oneshot entries

  /** How often entry `id` was called. */
  function Calls(h: Hook, id: nat): nat {
    multiset(h.log)[Called(id)]
  }

  /** The oneshot entry `e` is the only one of its id, was not called as long as it is linked, and was not
      called twice. */
  ghost predicate Once(h: Hook, e: Entry) {
    && e.oneshot && e.id < h.nextId && Calls(h, e.id) <= 1
    && (forall x :: x in h.entries && x.id == e.id ==> x == e && Calls(h, e.id) == 0)
  }

  /** No id was called before it was given out. */
  ghost predicate CalledAreOld(h: Hook) {
    forall id: nat :: id >= h.nextId ==> Calls(h, id) == 0
  }

  /** Entries go, and nobody is called. */
  ghost predicate Prunes(h: Hook, r: Hook) {
    && r.nextId == h.nextId && (forall x :: x in r.entries ==> x in h.entries)
    && (forall id: nat :: Calls(r, id) == Calls(h, id))
  }

  lemma RemovePrunes(h: Hook, i: nat)
    requires i < |h.entries|
    ensures Prunes(h, RemoveAt(h, i))
  {
  }

  lemma {:induction false} RmPrunes(h: Hook, cb: nat, data: nat, k: nat)
    requires k <= |h.entries|
    ensures Prunes(h, RmBelow(h, cb, data, k))
  {
    if k > 0 && cb != 0 {
      if Matches(h.entries[k - 1], cb, data) { RemovePrunes(h, k - 1); } else { RmPrunes(h, cb, data, k - 1); }
    }
  }

  lemma {:induction false} RmAllPrunes(h: Hook, cb: nat, data: nat, k: nat)
    requires k <= |h.entries|
    ensures Prunes(h, RmAllBelow(h, cb, data, k))
    decreases k
  {
    if k > 0 && cb != 0 {
      if Matches(h.entries[k - 1], cb, data) {
        RemovePrunes(h, k - 1);
        RmAllPrunes(RemoveAt(h, k - 1), cb, data, k - 1);
      } else {
        RmAllPrunes(h, cb, data, k - 1);
      }
    }
  }

  /** An operation adds an entry with a new id, or only lets entries go. */
  lemma OpPrunesOrAdds(h: Hook, op: Op)
    ensures var r := Apply(h, op);
      || Prunes(h, r)
      || (r.log == h.log && r.nextId == h.nextId + 1 && |r.entries| == |h.entries| + 1
          && r.entries[..|h.entries|] == h.entries && r.entries[|h.entries|].id == h.nextId)
  {
    match op
    case RmOp(cb, data) => RmPrunes(h, cb, data, |h.entries|);
    case RmAllOp(cb, data) => RmAllPrunes(h, cb, data, |h.entries|);
    case _ =>
  }

  /** Every step keeps both, and what it links is new. */
  lemma StepKeepsOnce(s: State, step: Step, e: Entry)
    requires Inv(s) && Enabled(s, step) && CalledAreOld(s.h)
    ensures CalledAreOld(Next(s, step).h)
    ensures Once(s.h, e) ==> Once(Next(s, step).h, e)
    ensures e.oneshot && e in Next(s, step).h.entries && e !in s.h.entries ==> Once(Next(s, step).h, e)
  {
    match step
    case Do(op) => OpKeepsOnce(s, op, e);
    case FetchStep => FetchKeepsOnce(s, e);
    case _ =>
      assert Next(s, step).h.log == s.h.log && Next(s, step).h.nextId == s.h.nextId;
      assert forall id: nat :: Calls(Next(s, step).h, id) == Calls(s.h, id);
  }

  lemma OpKeepsOnce(s: State, op: Op, e: Entry)
    requires Inv(s) && Enabled(s, Do(op)) && CalledAreOld(s.h)
    ensures var r := Apply(s.h, op);
      && CalledAreOld(r) && (Once(s.h, e) ==> Once(r, e))
      && (e.oneshot && e in r.entries && e !in s.h.entries ==> Once(r, e))
  {
    OpPrunesOrAdds(s.h, op);
    IdsAreOld(s);
    hide Apply, Inv;
    var r := Apply(s.h, op);
    if !Prunes(s.h, r) {
      var n := |s.h.entries|;
      assert r.entries == s.h.entries + [r.entries[n]];
      assert forall x :: x in r.entries <==> x in s.h.entries || x == r.entries[n];
      assert forall id: nat :: Calls(r, id) == Calls(s.h, id);
    }
  }

  lemma IdsAreOld(s: State)
    requires Inv(s)
    ensures forall x :: x in s.h.entries ==> x.id < s.h.nextId
  {
  }

  lemma FetchKeepsOnce(s: State, e: Entry)
    requires Inv(s) && Enabled(s, FetchStep) && CalledAreOld(s.h)
    ensures var r := Next(s, FetchStep).h;
      CalledAreOld(r) && (Once(s.h, e) ==> Once(r, e)) && forall x :: x in r.entries ==> x in s.h.entries
  {
    var i := IndexOf(s.h.entries, s.h.cur.id);
    WithoutIds(s.h.entries, i, s.h.nextId);
    FetchedIsGone(s, i);
    hide Inv, Next, Without, After, IndexOf;
    FetchCalls(s.h, i);
  }

  /** Fetching calls just the entry at the cursor, and a oneshot entry is linked no more. */
  lemma FetchCalls(h: Hook, i: nat)
    requires i < |h.entries|
    ensures forall id: nat :: Calls(Fetch(h, i), id) == Calls(h, id) + if id == h.entries[i].id then 1 else 0
  {
  }

  lemma FetchedIsGone(s: State, i: nat)
    requires Inv(s) && Enabled(s, FetchStep) && i == IndexOf(s.h.entries, s.h.cur.id)
    ensures Next(s, FetchStep).h == Fetch(s.h, i) && s.h.entries[i] in s.h.entries && s.h.entries[i].id < s.h.nextId
    ensures forall x :: x in Fetch(s.h, i).entries ==> x in s.h.entries
    ensures s.h.entries[i].oneshot ==> forall x :: x in Fetch(s.h, i).entries ==> x.id != s.h.entries[i].id
  {
    var r := Fetch(s.h, i);
    WithoutIds(s.h.entries, i, s.h.nextId);
    if s.h.entries[i].oneshot {
      forall x | x in r.entries ensures x.id != s.h.entries[i].id {
        var k :| 0 <= k < |r.entries| && r.entries[k] == x;
        assert HasId(r.entries, x.id);
      }
    }
  }

  lemma {:induction false} RunKeepsOnce(s: seq<State>, steps: seq<Step>, i: nat, e: Entry)
    requires Run(s, steps) && i <= |steps|
    ensures CalledAreOld(s[i].h) && (e.oneshot && e in s[i].h.entries ==> Once(s[i].h, e))
  {
    if i > 0 {
      RunKeepsOnce(s, steps, i - 1, e);
      RunKeepsInv(s, steps, i - 1);
      hide Inv, Next, Enabled;
      StepKeepsOnce(s[i - 1], steps[i - 1], e);
    }
  }

  /** Over a whole run, a oneshot entry is called at most once. */
  lemma {:induction false} OneshotRunsOnce(s: seq<State>, steps: seq<Step>, i: nat, j: nat, e: Entry)
    requires Run(s, steps) && i <= j <= |steps| && e in s[i].h.entries && e.oneshot
    ensures Once(s[j].h, e) && multiset(s[j].h.log)[Called(e.id)] <= 1
  {
    if j > i {
      OneshotRunsOnce(s, steps, i, j - 1, e);
      RunKeepsInv(s, steps, j - 1);
      RunKeepsOnce(s, steps, j - 1, e);
      hide Inv, Next, Enabled;
      StepKeepsOnce(s[j - 1], steps[j - 1], e);
    } else {
      RunKeepsOnce(s, steps, i, e);
    }
  }
}
