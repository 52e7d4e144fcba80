/** The whole run of `main` after the manifest is loaded, as one pure plan. */
module Plan {

  import opened Manifest
  import opened Actions
  import opened HostView
  import opened Packages
  import opened Files
  import opened FileLoop
  import opened Triggers

  /** The commands issued, in order, and how the run ended. */
  datatype Run = Run(actions: seq<Action>, status: Status)

  /** The update, the installs and the file commands. */
  function Head(pkgs: seq<PackageConfig>, files: FilesRun): seq<Action>
  {
    [Update] + InstallAll(pkgs) + files.actions
  }

  /** Everything issued, given how the file loop went: the restarts only
      when the file loop ran through, since a failed copy returns from `main`. */
  function Assemble(pkgs: seq<PackageConfig>, files: FilesRun): Run
  {
    if files.status.Aborted? then Run(Head(pkgs, files), files.status)
    else Run(Head(pkgs, files) + Dispatch(files.triggers), Completed)
  }

  /** The run: update, packages, files, then restarts. It starts with the
      update and ends normally exactly when no copy fails. */
  function Converge(c: ConfigType, h: Host): (r: Run)
    ensures |r.actions| > |c.packages| && r.actions[0] == Update
    ensures r.status == Completed <==> NoCopyFails(c.files, h)
  {
    var files := ReconcileFiles(c.files, h);
    FilesCompleted(c.files, h);
    Assemble(c.packages, files)
  }

  /** Which of the four stages of the run a command belongs to. */
  function Stage(a: Action): nat
  {
    match a
    case Update => 0
    case Install(_) => 1
    case Restart(_) => 3
    case _ => 2
  }

  predicate StagesOrdered(acts: seq<Action>)
  {
    forall i, j :: 0 <= i < j < |acts| ==> Stage(acts[i]) <= Stage(acts[j])
  }

  predicate InStage(acts: seq<Action>, st: nat)
  {
    forall a :: a in acts ==> Stage(a) == st
  }

  lemma OrderedAppend(a: seq<Action>, b: seq<Action>, st: nat)
    requires StagesOrdered(a) && StagesOrdered(b)
    requires forall x :: x in a ==> Stage(x) <= st
    requires forall y :: y in b ==> st <= Stage(y)
    ensures StagesOrdered(a + b)
  {
    forall i, j | 0 <= i < j < |a + b|
      ensures Stage((a + b)[i]) <= Stage((a + b)[j])
    {
      if j < |a| {
        assert (a + b)[i] == a[i] && (a + b)[j] == a[j];
      } else if i >= |a| {
        assert (a + b)[i] == b[i - |a|] && (a + b)[j] == b[j - |a|];
      } else {
        assert (a + b)[i] == a[i] && a[i] in a;
        assert (a + b)[j] == b[j - |a|] && b[j - |a|] in b;
      }
    }
  }

  lemma InStageOrdered(acts: seq<Action>, st: nat)
    requires InStage(acts, st)
    ensures StagesOrdered(acts)
  {
    assert forall i :: 0 <= i < |acts| ==> acts[i] in acts;
  }

  lemma InstallsInStage(pkgs: seq<PackageConfig>)
    ensures InStage(InstallAll(pkgs), 1)
  {
    var r := InstallAll(pkgs);
    assert forall a :: a in r ==> exists i :: 0 <= i < |r| && r[i] == a;
  }

  lemma FileActionsInStage(acts: seq<Action>)
    requires AllFileActions(acts)
    ensures InStage(acts, 2)
  {
  }

  lemma DispatchInStage(ts: seq<string>)
    ensures InStage(Dispatch(ts), 3)
  {
    var r := Dispatch(ts);
    assert forall a :: a in r ==> exists i :: 0 <= i < |r| && r[i] == a;
  }

  /** Every command of the head is from the first three stages, in order. */
  lemma HeadOrdered(pkgs: seq<PackageConfig>, files: FilesRun)
    requires AllFileActions(files.actions)
    ensures StagesOrdered(Head(pkgs, files))
    ensures forall a :: a in Head(pkgs, files) ==> Stage(a) <= 2
  {
    var i := InstallAll(pkgs);
    InstallsInStage(pkgs);
    FileActionsInStage(files.actions);
    InStageOrdered(i, 1);
    InStageOrdered(files.actions, 2);
    OrderedAppend([Update], i, 1);
    OrderedAppend([Update] + i, files.actions, 2);
  }

  /** The run goes through its stages in order: the update, then the
      installs, then the file commands, then the restarts; nothing of an
      earlier stage follows anything of a later one. */
  lemma StageOrder(c: ConfigType, h: Host)
    ensures StagesOrdered(Converge(c, h).actions)
  {
    var files := ReconcileFiles(c.files, h);
    HeadOrdered(c.packages, files);
    if files.status.Completed? {
      var d := Dispatch(files.triggers);
      DispatchInStage(files.triggers);
      InStageOrdered(d, 3);
      OrderedAppend(Head(c.packages, files), d, 2);
    }
  }

  /** `acts` starts with the update and has no other. */
  predicate UpdateOnlyFirst(acts: seq<Action>)
  {
    |acts| > 0 && acts[0] == Update && forall k :: 0 < k < |acts| ==> !acts[k].Update?
  }

  /** Every command of `acts` is a file command or a restart. */
  predicate AfterInstalls(acts: seq<Action>)
  {
    forall a :: a in acts ==> 2 <= Stage(a)
  }

  /** The update, then the installs, then commands of later stages. */
  lemma LayoutUpdate(installs: seq<Action>, rest: seq<Action>)
    requires InStage(installs, 1)
    requires AfterInstalls(rest)
    ensures UpdateOnlyFirst([Update] + installs + rest)
    ensures multiset([Update] + installs + rest)[Update] == 1
  {
    var tail := installs + rest;
    assert [Update] + installs + rest == [Update] + tail;
    assert forall a :: a in tail ==> 1 <= Stage(a);
    assert Update !in tail;
    assert multiset([Update] + tail) == multiset{Update} + multiset(tail);
  }

  lemma LayoutInstalls(pkgs: seq<PackageConfig>, rest: seq<Action>)
    requires AfterInstalls(rest)
    ensures var acts := [Update] + InstallAll(pkgs) + rest;
      && |acts| > |pkgs|
      && (forall i :: 0 <= i < |pkgs| ==> acts[1 + i] == Install(InstallArg(pkgs[i])))
      && (forall k :: 0 <= k < |acts| ==> (acts[k].Install? <==> 1 <= k <= |pkgs|))
  {
    var installs := InstallAll(pkgs);
    var acts := [Update] + installs + rest;
    forall k | 0 <= k < |acts|
      ensures acts[k].Install? <==> 1 <= k <= |pkgs|
    {
      if k == 0 {
      } else if k <= |pkgs| {
        assert acts[k] == installs[k - 1];
      } else {
        assert acts[k] == rest[k - 1 - |pkgs|] && rest[k - 1 - |pkgs|] in rest;
      }
    }
  }

  /** What follows the installs in a run. */
  lemma RestIsLater(files: FilesRun)
    requires AllFileActions(files.actions)
    ensures AfterInstalls(files.actions)
    ensures AfterInstalls(files.actions + Dispatch(files.triggers))
  {
    FileActionsInStage(files.actions);
    DispatchInStage(files.triggers);
  }

  /** The update, the installs and the file commands, in that order. */
  predicate UpdateThenInstallsShape(acts: seq<Action>, pkgs: seq<PackageConfig>)
  {
    && UpdateOnlyFirst(acts)
    && multiset(acts)[Update] == 1
    && |acts| > |pkgs|
    && (forall i :: 0 <= i < |pkgs| ==> acts[1 + i] == Install(InstallArg(pkgs[i])))
    && (forall k :: 0 <= k < |acts| ==> (acts[k].Install? <==> 1 <= k <= |pkgs|))
  }

  lemma ShapeOf(pkgs: seq<PackageConfig>, rest: seq<Action>)
    requires AfterInstalls(rest)
    ensures UpdateThenInstallsShape([Update] + InstallAll(pkgs) + rest, pkgs)
  {
    InstallsInStage(pkgs);
    LayoutUpdate(InstallAll(pkgs), rest);
    LayoutInstalls(pkgs, rest);
  }

  /** What an assembled run holds after its installs. */
  function AfterInstallsOf(files: FilesRun): seq<Action>
  {
    if files.status.Aborted? then files.actions else files.actions + Dispatch(files.triggers)
  }

  lemma AssembleSplit(pkgs: seq<PackageConfig>, files: FilesRun)
    requires AllFileActions(files.actions)
    ensures Assemble(pkgs, files).actions == [Update] + InstallAll(pkgs) + AfterInstallsOf(files)
    ensures AfterInstalls(AfterInstallsOf(files))
  {
    RestIsLater(files);
  }

  lemma AssembleUpdateThenInstalls(pkgs: seq<PackageConfig>, files: FilesRun)
    requires AllFileActions(files.actions)
    ensures UpdateThenInstallsShape(Assemble(pkgs, files).actions, pkgs)
  {
    AssembleSplit(pkgs, files);
    ShapeOf(pkgs, AfterInstallsOf(files));
  }

  /** The run issues `apt-get update` exactly once, as its first command,
      whatever the host answers; right after it come the installs, one per
      package in manifest order, and no install appears anywhere else. A
      failed update or install changes none of this. */
  lemma UpdateThenInstalls(c: ConfigType, h: Host)
    ensures UpdateThenInstallsShape(Converge(c, h).actions, c.packages)
  {
    AssembleUpdateThenInstalls(c.packages, ReconcileFiles(c.files, h));
  }

  /** A normal run is the head followed by the restarts of the fired triggers. */
  lemma CompletedShape(c: ConfigType, h: Host)
    requires NoCopyFails(c.files, h)
    ensures Converge(c, h).actions == Head(c.packages, ReconcileFiles(c.files, h)) + Dispatch(FiredTriggers(c.files, h))
  {
    FilesCompleted(c.files, h);
  }

  /** `rs` restarts the services of `ts`, one each, in the same order. */
  predicate RestartsOf(rs: seq<Action>, ts: seq<string>)
  {
    |rs| == |ts| && forall k :: 0 <= k < |ts| ==> rs[k] == Restart(ts[k])
  }

  lemma HeadHasNoRestart(pkgs: seq<PackageConfig>, files: FilesRun)
    requires AllFileActions(files.actions)
    ensures forall a :: a in Head(pkgs, files) ==> !a.Restart?
  {
    HeadOrdered(pkgs, files);
  }

  lemma {:induction false} KeepAll(d: seq<Action>)
    requires forall k :: 0 <= k < |d| ==> d[k].Restart?
    ensures Keep(d, IsRestart) == d
  {
    if |d| > 0 {
      KeepAll(d[1..]);
      assert d == [d[0]] + d[1..];
    }
  }

  /** When the run ends normally the restarts are the fired triggers: one
      per replaced entry with a trigger, in manifest order, not deduplicated. */
  lemma RestartsFollowFiredTriggers(c: ConfigType, h: Host)
    requires NoCopyFails(c.files, h)
    ensures RestartsOf(Keep(Converge(c, h).actions, IsRestart), FiredTriggers(c.files, h))
  {
    var files := ReconcileFiles(c.files, h);
    var head := Head(c.packages, files);
    var ts := FiredTriggers(c.files, h);
    var d := Dispatch(ts);
    CompletedShape(c, h);
    FilesCompleted(c.files, h);
    DispatchGuardNeverFilters(ts);
    KeepAppend(head, d, IsRestart);
    HeadHasNoRestart(c.packages, files);
    KeepNone(head, IsRestart);
    KeepAll(d);
  }

  /** When the run ends normally, service `svc` is restarted once for each
      replaced entry naming it: twice if two changed files name it, never
      when none changed. */
  lemma RestartCount(c: ConfigType, h: Host, svc: string)
    requires NoCopyFails(c.files, h)
    ensures multiset(Converge(c, h).actions)[Restart(svc)] == ChangedWithTrigger(c.files, h, svc)
  {
    var files := ReconcileFiles(c.files, h);
    var head := Head(c.packages, files);
    var ts := FiredTriggers(c.files, h);
    var d := Dispatch(ts);
    CompletedShape(c, h);
    HeadHasNoRestart(c.packages, files);
    assert multiset(head + d) == multiset(head) + multiset(d);
    assert multiset(head)[Restart(svc)] == 0 by {
      assert Restart(svc) !in head;
    }
    FiredCount(c.files, h, svc);
    if svc == "" {
      assert Restart(svc) !in d;
      FilesCompleted(c.files, h);
      assert svc !in ts;
    } else {
      DispatchCount(ts, svc);
    }
  }

  /** The installs and the restarts hold no chown or chmod. */
  lemma AssembleEnforcement(pkgs: seq<PackageConfig>, files: FilesRun)
    ensures Keep(Assemble(pkgs, files).actions, IsEnforcement) == Keep(files.actions, IsEnforcement)
  {
    var pre := [Update] + InstallAll(pkgs);
    InstallsInStage(pkgs);
    assert forall a :: a in pre ==> !IsEnforcement(a);
    KeepNone(pre, IsEnforcement);
    KeepAppend(pre, files.actions, IsEnforcement);
    if files.status.Completed? {
      var d := Dispatch(files.triggers);
      DispatchInStage(files.triggers);
      KeepAppend(Head(pkgs, files), d, IsEnforcement);
      KeepNone(d, IsEnforcement);
    }
  }

  /** Every entry the run reaches gets chown with `owner:group` then chmod
      with `mode`, once each and in manifest order, changed or not; after a
      failed copy at `k` that is the entries before `k` only. */
  lemma EnforcementPerFile(c: ConfigType, h: Host)
    ensures Reached(c.files, h) <= |c.files|
    ensures Keep(Converge(c, h).actions, IsEnforcement) == EnforceAll(c.files[..Reached(c.files, h)])
  {
    AssembleEnforcement(c.packages, ReconcileFiles(c.files, h));
    FilesEnforcement(c.files, h);
  }

  /** A failing copy at `k`, the first one, ends the run with that copy:
      no chown or chmod for entry `k`, nothing for later entries, no restart. */
  lemma CopyFailureAborts(c: ConfigType, h: Host, k: nat)
    requires k < |c.files| && CopyFails(h.probe(k)) && NoCopyFails(c.files[..k], h)
    ensures Converge(c, h).status == Aborted(k)
    ensures Converge(c, h).actions == [Update] + InstallAll(c.packages) + ReconcileFiles(c.files[..k], h).actions
                                      + ReconcileFile(c.files[k], h.probe(k), h).actions
    ensures Converge(c, h).actions[|Converge(c, h).actions| - 1] == CopyOf(c.files[k], h)
    ensures forall a :: a in Converge(c, h).actions ==> !a.Restart?
  {
    var files := ReconcileFiles(c.files, h);
    FilesAborted(c.files, h, k);
    FileEnforcement(c.files[k], h.probe(k), h);
    HeadHasNoRestart(c.packages, files);
  }

  /** A run where every entry already compares equal copies nothing, creates
      no directory, restarts nothing, and only updates, installs and enforces
      ownership and mode. Whether a second run reaches that state is not
      modelled: probe answers are inputs. */
  lemma AllEqualIsQuiet(c: ConfigType, h: Host)
    requires forall i :: 0 <= i < |c.files| ==> h.probe(i).contentEqual
    ensures Converge(c, h) == Run([Update] + InstallAll(c.packages) + EnforceAll(c.files), Completed)
    ensures forall a :: a in Converge(c, h).actions ==> !a.Mkdir? && !a.Copy? && !a.Restart?
  {
    AllEqualFiles(c.files, h);
    assert Dispatch([]) == [];
    assert [Update] + InstallAll(c.packages) + EnforceAll(c.files) + [] == [Update] + InstallAll(c.packages) + EnforceAll(c.files);
    EnforceAllKinds(c.files);
    InstallsInStage(c.packages);
  }
}
