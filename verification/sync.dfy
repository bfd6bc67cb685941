/**
  One call of `S3Sync.sync`, with its collaborators made into parameters: the
  result of the non-blocking lock attempt, the metadata the store loads, the
  directory walk, and an oracle saying which transfers raise.

  The pass is recorded as a sequence of events. There is no per-file error
  handling: the first transfer that raises ends the pass, the metadata is not
  saved, and the lock is released on the way out. A lock that cannot be taken
  ends the pass at once, before anything is loaded, and is not released.

  The source decides and transfers in the same loops; here the plan is computed
  first and then carried out. No decision reads a transfer's outcome, and the
  metadata the loops build is only saved when every transfer went through, so
  the events are the same.
 */
module SyncPass {
  import opened PyDict
  import FileFilter
  import Naming
  import Reconcile

  datatype Event =
    | Acquire(ok: bool)
    | Load
    | Transfer(action: Reconcile.Action, raised: bool)
    | Save(meta: Dict<Reconcile.Entry>)
    | Release

  datatype Outcome = LockBusy | Synced | Aborted(failed: Reconcile.Action)

  datatype Run = Run(outcome: Outcome, events: seq<Event>)

  /** What an `S3Sync` instance holds that the pass reads. */
  datatype Settings = Settings(prefix: string, extensions: Option<seq<string>>, blacklist: bool)

  /** The events of transfers that all went through. */
  function Succeeded(acts: seq<Reconcile.Action>): (r: seq<Event>)
    ensures |r| == |acts|
    ensures forall i :: 0 <= i < |acts| ==> r[i] == Transfer(acts[i], false)
  {
    seq(|acts|, i requires 0 <= i < |acts| => Transfer(acts[i], false))
  }

  /** The first action that raises, if any. */
  function FirstRaise(acts: seq<Reconcile.Action>, raises: Reconcile.Action -> bool): (r: Option<Reconcile.Action>)
    ensures r.None? <==> forall i :: 0 <= i < |acts| ==> !raises(acts[i])
    ensures r.Some? ==> r.value in acts && raises(r.value)
    ensures r.Some? ==> exists i :: 0 <= i < |acts| && acts[i] == r.value && forall j :: 0 <= j < i ==> !raises(acts[j])
  {
    if acts == [] then None
    else if raises(acts[0]) then Some(acts[0])
    else FirstRaise(acts[1..], raises)
  }

  /** The transfer events of `acts` up to and including the first that raises. */
  function Attempts(acts: seq<Reconcile.Action>, raises: Reconcile.Action -> bool): (r: seq<Event>)
    ensures |r| <= |acts|
    ensures forall i :: 0 <= i < |r| ==> r[i] == Transfer(acts[i], raises(acts[i]))
    // it stops right after the first action that raises, and only there
    ensures forall i :: 0 <= i < |r| - 1 ==> !raises(acts[i])
    ensures |r| == |acts| || (|r| > 0 && raises(acts[|r| - 1]))
  {
    if acts == [] then []
    else if raises(acts[0]) then [Transfer(acts[0], true)]
    else [Transfer(acts[0], false)] + Attempts(acts[1..], raises)
  }

  /** The local snapshot the pass takes. */
  function Snapshot(settings: Settings, walk: seq<FileFilter.WalkEntry>): Dict<int> {
    FileFilter.LocalFiles(walk, FileFilter.NormalizeExtensions(settings.extensions), settings.blacklist)
  }

  /** The plan the decision makes for this pass. */
  function PlanOf(settings: Settings, loaded: Dict<Reconcile.Entry>, walk: seq<FileFilter.WalkEntry>, now: int): Reconcile.Plan
    requires loaded.Valid()
  {
    Reconcile.Decide(Snapshot(settings, walk), loaded, settings.prefix, now)
  }

  /** Issue the transfers of `acts` in order until one raises. `done` are those that
      went through and `failed` the one that raised, if any. */
  method Execute(acts: seq<Reconcile.Action>, raises: Reconcile.Action -> bool)
    returns (done: seq<Reconcile.Action>, failed: Option<Reconcile.Action>)
    ensures failed == FirstRaise(acts, raises)
    ensures Attempts(acts, raises) ==
      Succeeded(done) + (if failed.Some? then [Transfer(failed.value, true)] else [])
    ensures failed.None? ==> done == acts
  {
    var k := 0;
    while k < |acts|
      invariant 0 <= k <= |acts|
      invariant FirstRaise(acts, raises) == FirstRaise(acts[k..], raises)
      invariant Attempts(acts, raises) == Succeeded(acts[..k]) + Attempts(acts[k..], raises)
    {
      AttemptStep(acts, k, raises);
      if raises(acts[k]) {
        return acts[..k], Some(acts[k]);
      }
      k := k + 1;
    }
    assert acts[..k] == acts;
    return acts, None;
  }

  /** Unrolling one transfer off the front of the remaining actions. */
  lemma AttemptStep(acts: seq<Reconcile.Action>, k: nat, raises: Reconcile.Action -> bool)
    requires k < |acts|
    ensures raises(acts[k]) ==>
      && FirstRaise(acts[k..], raises) == Some(acts[k])
      && Attempts(acts[k..], raises) == [Transfer(acts[k], true)]
    ensures !raises(acts[k]) ==>
      && FirstRaise(acts[k..], raises) == FirstRaise(acts[k + 1..], raises)
      && Succeeded(acts[..k]) + Attempts(acts[k..], raises)
         == Succeeded(acts[..k + 1]) + Attempts(acts[k + 1..], raises)
  {
    assert acts[k..][0] == acts[k] && acts[k..][1..] == acts[k + 1..];
    if !raises(acts[k]) {
      PassStep(acts, k, raises);
    }
  }

  lemma PassStep(acts: seq<Reconcile.Action>, k: nat, raises: Reconcile.Action -> bool)
    requires k < |acts| && !raises(acts[k])
    requires Attempts(acts[k..], raises) == [Transfer(acts[k], false)] + Attempts(acts[k + 1..], raises)
    ensures Succeeded(acts[..k]) + Attempts(acts[k..], raises)
         == Succeeded(acts[..k + 1]) + Attempts(acts[k + 1..], raises)
  {
    SucceededSnoc(acts, k);
    Assoc(Succeeded(acts[..k]), [Transfer(acts[k], false)], Attempts(acts[k + 1..], raises));
  }

  lemma SucceededSnoc(acts: seq<Reconcile.Action>, k: nat)
    requires k < |acts|
    ensures Succeeded(acts[..k + 1]) == Succeeded(acts[..k]) + [Transfer(acts[k], false)]
  {
  }

  /** The run the pass is meant to produce once the lock is held: load, the planned
      transfers up to and including the first that raises, a save of the planned
      metadata only if none raised, and the release. */
  function Expected(plan: Reconcile.Plan, raises: Reconcile.Action -> bool): Run {
    var first := FirstRaise(plan.actions, raises);
    Run(if first.None? then Synced else Aborted(first.value),
        [Acquire(true), Load] + Attempts(plan.actions, raises)
        + (if first.None? then [Save(plan.meta)] else []) + [Release])
  }

  /** The part of the pass after the lock is held. */
  method Carry(plan: Reconcile.Plan, raises: Reconcile.Action -> bool) returns (run: Run)
    ensures run == Expected(plan, raises)
  {
    var head := [Acquire(true), Load];
    var done, failed := Execute(plan.actions, raises);
    if failed.Some? {
      var tried := Succeeded(done) + [Transfer(failed.value, true)];
      assert Attempts(plan.actions, raises) == tried;
      run := Run(Aborted(failed.value), head + tried + [Release]);
    } else {
      assert Attempts(plan.actions, raises) == Succeeded(done);
      run := Run(Synced, head + Succeeded(done) + [Save(plan.meta)] + [Release]);
    }
  }

  /** `S3Sync.sync`: a busy lock ends the pass at once, with nothing loaded,
      transferred, saved or released; otherwise the plan is carried out. */
  method Sync(settings: Settings, acquired: bool, loaded: Dict<Reconcile.Entry>, walk: seq<FileFilter.WalkEntry>,
              raises: Reconcile.Action -> bool, now: int) returns (run: Run)
    requires loaded.Valid()
    ensures !acquired ==> run == Run(LockBusy, [Acquire(false)])
    ensures acquired ==> run == Expected(PlanOf(settings, loaded, walk, now), raises)
  {
    if !acquired {
      return Run(LockBusy, [Acquire(false)]);
    }
    run := Carry(PlanOf(settings, loaded, walk, now), raises);
  }

  /** The lock, once held, is released exactly once, as the last event. */
  lemma ReleaseLast(plan: Reconcile.Plan, raises: Reconcile.Action -> bool)
    ensures var ev := Expected(plan, raises).events;
      && |ev| >= 3 && ev[0] == Acquire(true) && ev[1] == Load && ev[|ev| - 1] == Release
      && forall i :: 0 <= i < |ev| - 1 ==> ev[i] != Release
  {
  }

  /** The metadata is saved only by a pass in which no transfer raised, and what is
      saved is the planned metadata. */
  lemma SaveOnlyWhenSynced(plan: Reconcile.Plan, raises: Reconcile.Action -> bool)
    ensures var r := Expected(plan, raises);
      forall i :: 0 <= i < |r.events| && r.events[i].Save? ==>
        r.outcome == Synced && r.events[i] == Save(plan.meta) && i == |r.events| - 2
  {
  }

  /** A pass that completes went through every planned transfer, in plan order,
      and then saved. */
  lemma SyncedTransfersAll(plan: Reconcile.Plan, raises: Reconcile.Action -> bool)
    requires Expected(plan, raises).outcome == Synced
    ensures var ev := Expected(plan, raises).events;
      && |ev| == |plan.actions| + 4
      && (forall i :: 0 <= i < |plan.actions| ==> ev[i + 2] == Transfer(plan.actions[i], false))
      && ev[|ev| - 2] == Save(plan.meta)
  {
  }

  /** The attempts stop exactly at the action `FirstRaise` reports. */
  lemma {:induction false} AttemptsEndAtFirstRaise(acts: seq<Reconcile.Action>, raises: Reconcile.Action -> bool)
    ensures var r := Attempts(acts, raises);
      match FirstRaise(acts, raises)
      case None => |r| == |acts|
      case Some(a) => 0 < |r| <= |acts| && acts[|r| - 1] == a
  {
    if acts != [] && !raises(acts[0]) {
      AttemptsEndAtFirstRaise(acts[1..], raises);
    }
  }

  /** An aborted pass names the first planned transfer that raises: every transfer
      before it went through, and nothing was attempted after it. */
  lemma AbortedAtFirstRaise(plan: Reconcile.Plan, raises: Reconcile.Action -> bool)
    requires Expected(plan, raises).outcome.Aborted?
    ensures var r := Expected(plan, raises);
      && |r.events| >= 4
      && var n := |r.events| - 4;
      && n < |plan.actions| && plan.actions[n] == r.outcome.failed && raises(plan.actions[n])
      && (forall i :: 0 <= i < n ==> !raises(plan.actions[i]) && r.events[i + 2] == Transfer(plan.actions[i], false))
      && r.events[n + 2] == Transfer(plan.actions[n], true)
  {
    var acts := plan.actions;
    var first := FirstRaise(acts, raises);
    var a := Attempts(acts, raises);
    assert first.Some?;
    AbortedAttempts(acts, raises);
    var ev := Expected(plan, raises).events;
    assert ev == [Acquire(true), Load] + a + [Release];
    forall i | 0 <= i < |a|
      ensures ev[i + 2] == a[i]
    {
    }
  }

  /** The attempts of a plan in which something raises end with the first action
      that raises; all attempts before it went through. */
  lemma AbortedAttempts(acts: seq<Reconcile.Action>, raises: Reconcile.Action -> bool)
    requires FirstRaise(acts, raises).Some?
    ensures var a := Attempts(acts, raises);
      && 0 < |a| <= |acts|
      && acts[|a| - 1] == FirstRaise(acts, raises).value
      && a[|a| - 1] == Transfer(acts[|a| - 1], true)
      && forall i :: 0 <= i < |a| - 1 ==> a[i] == Transfer(acts[i], false)
  {
    AttemptsEndAtFirstRaise(acts, raises);
  }
}
