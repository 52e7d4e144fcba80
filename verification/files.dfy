/** The file phase: for each entry, refresh the content when it differs,
    then always enforce ownership and mode; record the triggers that fired. */
module Files {

  import opened Manifest
  import opened Actions
  import opened HostView

  /** The `owner:group` argument of chown. */
  function Ownership(f: FileConfig): string
  {
    f.owner + ":" + f.group
  }

  /** The two enforcement commands every reached file gets. */
  function Enforcement(f: FileConfig): seq<Action>
  {
    [Chown(f.filename, Ownership(f)), Chmod(f.filename, f.mode)]
  }

  /** The copy of the resolved source onto the target. */
  function CopyOf(f: FileConfig, h: Host): Action
  {
    Copy(h.resolveSource(f.source), f.filename)
  }

  /** True when the entry's content differs and its copy fails: `?` ends the run here. */
  predicate CopyFails(pr: Probe)
  {
    !pr.contentEqual && !pr.copySucceeds
  }

  /** True when the entry's content was replaced and it names a service. */
  predicate Fires(f: FileConfig, pr: Probe)
  {
    !pr.contentEqual && pr.copySucceeds && f.trigger != ""
  }

  /** What handling one file entry issues and records. */
  datatype FileStep = FileStep(actions: seq<Action>, fired: seq<string>, copyFailed: bool)

  /** One iteration of the file loop. */
  function ReconcileFile(f: FileConfig, pr: Probe, h: Host): (s: FileStep)
    // content already right: only ownership and mode are enforced
    ensures pr.contentEqual ==> s == FileStep(Enforcement(f), [], false)
    ensures s.copyFailed <==> CopyFails(pr)
    // at most one trigger, and only when the content was replaced
    ensures |s.fired| <= 1
    ensures s.fired != [] <==> Fires(f, pr)
    ensures forall t :: t in s.fired ==> t == f.trigger && t != ""
    ensures AllFileActions(s.actions)
  {
    if pr.contentEqual then
      FileStep(Enforcement(f), [], false)
    else
      var lead := if pr.parentIsDir then [] else [Mkdir(h.parentOf(f.filename))];
      var copy := lead + [CopyOf(f, h)];
      if !pr.copySucceeds then
        FileStep(copy, [], true)
      else
        FileStep(copy + Enforcement(f), if f.trigger != "" then [f.trigger] else [], false)
  }

  /** A changed entry: the mkdir of the parent is issued exactly when the
      parent is not a directory, and it comes first; the copy comes next and
      is the entry's only copy; chown and chmod follow unless it failed. */
  lemma ChangedFileOrder(f: FileConfig, pr: Probe, h: Host)
    requires !pr.contentEqual
    ensures var s := ReconcileFile(f, pr, h);
      var c := if pr.parentIsDir then 0 else 1;
      && c < |s.actions|
      && s.actions[c] == CopyOf(f, h)
      && (forall k :: 0 <= k < |s.actions| && s.actions[k].Mkdir? ==> k == 0 && k < c)
      && (!pr.parentIsDir ==> s.actions[0] == Mkdir(h.parentOf(f.filename)))
      && (forall k :: 0 <= k < |s.actions| && IsEnforcement(s.actions[k]) ==> c < k)
      && |s.actions| == c + 1 + (if s.copyFailed then 0 else 2)
      && (forall k :: 0 <= k < |s.actions| && s.actions[k].Copy? ==> k == c)
  {
  }

  /** An unchanged entry issues no mkdir and no copy. */
  lemma UnchangedFileNoCopy(f: FileConfig, pr: Probe, h: Host)
    requires pr.contentEqual
    ensures forall a :: a in ReconcileFile(f, pr, h).actions ==> !a.Mkdir? && !a.Copy?
  {
  }

  /** chown and chmod are each issued once for every entry whose copy did
      not fail, changed or not, and they close the entry; a failed copy is
      the entry's last action and is followed by neither. */
  lemma FileEnforcement(f: FileConfig, pr: Probe, h: Host)
    ensures var s := ReconcileFile(f, pr, h);
      && (s.copyFailed ==> s.actions[|s.actions| - 1] == CopyOf(f, h) && Keep(s.actions, IsEnforcement) == [])
      && (!s.copyFailed ==> |s.actions| >= 2 && s.actions[|s.actions| - 2..] == Enforcement(f))
      && (!s.copyFailed ==> Keep(s.actions, IsEnforcement) == Enforcement(f))
  {
    var s := ReconcileFile(f, pr, h);
    var e := Enforcement(f);
    KeepAppend([e[0]], [e[1]], IsEnforcement);
    assert e == [e[0]] + [e[1]];
    if !pr.contentEqual {
      var lead := if pr.parentIsDir then [] else [Mkdir(h.parentOf(f.filename))];
      var copy := lead + [CopyOf(f, h)];
      KeepNone(copy, IsEnforcement);
      if pr.copySucceeds {
        KeepAppend(copy, e, IsEnforcement);
      }
    }
  }

  /** How the file loop ended: it ran through, or `fs::copy` failed at
      position `at` and `?` returned the error from `main`. */
  datatype Status = Completed | Aborted(at: nat)

  /** The state of the file loop after some prefix of the entries. */
  datatype FilesRun = FilesRun(actions: seq<Action>, triggers: seq<string>, status: Status)

  /** The file loop over `fs` (positions 0..|fs|-1 of the manifest), as a
      fold from the left; once aborted, later entries are not touched. */
  function ReconcileFiles(fs: seq<FileConfig>, h: Host): (r: FilesRun)
    ensures forall t :: t in r.triggers ==> t != ""
    ensures AllFileActions(r.actions)
    ensures r.status.Aborted? ==> r.status.at < |fs| && CopyFails(h.probe(r.status.at))
    decreases |fs|
  {
    if |fs| == 0 then FilesRun([], [], Completed)
    else
      var r := ReconcileFiles(fs[..|fs| - 1], h);
      if r.status.Aborted? then r
      else
        var i := |fs| - 1;
        var s := ReconcileFile(fs[i], h.probe(i), h);
        FilesRun(r.actions + s.actions, r.triggers + s.fired, if s.copyFailed then Aborted(i) else Completed)
  }

  /** Reference: the triggers of the entries whose content was replaced, in
      manifest order, duplicates kept (the `Vec` has no membership test). */
  function FiredTriggers(fs: seq<FileConfig>, h: Host): seq<string>
    decreases |fs|
  {
    if |fs| == 0 then []
    else
      var i := |fs| - 1;
      FiredTriggers(fs[..i], h) + (if Fires(fs[i], h.probe(i)) then [fs[i].trigger] else [])
  }

  /** Reference: how many entries replaced their content and name service `svc`. */
  function ChangedWithTrigger(fs: seq<FileConfig>, h: Host, svc: string): nat
    decreases |fs|
  {
    if |fs| == 0 then 0
    else
      var i := |fs| - 1;
      ChangedWithTrigger(fs[..i], h, svc) + (if Fires(fs[i], h.probe(i)) && fs[i].trigger == svc then 1 else 0)
  }

  /** Reference: chown then chmod for every entry, in manifest order. */
  function EnforceAll(fs: seq<FileConfig>): seq<Action>
    decreases |fs|
  {
    if |fs| == 0 then [] else EnforceAll(fs[..|fs| - 1]) + Enforcement(fs[|fs| - 1])
  }

  /** True when no entry of `fs` has a failing copy. */
  predicate NoCopyFails(fs: seq<FileConfig>, h: Host)
  {
    forall i :: 0 <= i < |fs| ==> !CopyFails(h.probe(i))
  }
}

/** Facts about the whole file loop. */
module FileLoop {

  import opened Manifest
  import opened Actions
  import opened HostView
  import opened Files

  /** The loop runs through exactly when no copy fails. */
  lemma {:induction false} CompletesIffNoFailure(fs: seq<FileConfig>, h: Host)
    ensures ReconcileFiles(fs, h).status == Completed <==> NoCopyFails(fs, h)
    decreases |fs|
  {
    if |fs| > 0 {
      var pre := fs[..|fs| - 1];
      CompletesIffNoFailure(pre, h);
      var p := ReconcileFiles(pre, h);
      if p.status.Aborted? {
        assert p.status.at < |fs| && CopyFails(h.probe(p.status.at));
      }
    }
  }

  /** With no failing copy, the last entry extends the loop over the others. */
  lemma LastStep(fs: seq<FileConfig>, h: Host)
    requires |fs| > 0 && NoCopyFails(fs, h)
    ensures var i := |fs| - 1;
      var p := ReconcileFiles(fs[..i], h);
      var s := ReconcileFile(fs[i], h.probe(i), h);
      && p.status == Completed
      && ReconcileFiles(fs, h) == FilesRun(p.actions + s.actions, p.triggers + s.fired, Completed)
  {
    CompletesIffNoFailure(fs[..|fs| - 1], h);
  }

  lemma {:induction false} CompletedTriggers(fs: seq<FileConfig>, h: Host)
    requires NoCopyFails(fs, h)
    ensures ReconcileFiles(fs, h).triggers == FiredTriggers(fs, h)
    decreases |fs|
  {
    if |fs| > 0 {
      var i := |fs| - 1;
      CompletedTriggers(fs[..i], h);
      LastStep(fs, h);
      var s := ReconcileFile(fs[i], h.probe(i), h);
      assert s.fired == (if Fires(fs[i], h.probe(i)) then [fs[i].trigger] else []);
    }
  }

  lemma {:induction false} CompletedEnforcement(fs: seq<FileConfig>, h: Host)
    requires NoCopyFails(fs, h)
    ensures Keep(ReconcileFiles(fs, h).actions, IsEnforcement) == EnforceAll(fs)
    decreases |fs|
  {
    if |fs| > 0 {
      var i := |fs| - 1;
      CompletedEnforcement(fs[..i], h);
      LastStep(fs, h);
      FileEnforcement(fs[i], h.probe(i), h);
      KeepAppend(ReconcileFiles(fs[..i], h).actions, ReconcileFile(fs[i], h.probe(i), h).actions, IsEnforcement);
    }
  }

  /** The loop runs through exactly when no copy fails; then the recorded
      triggers are those of the replaced entries in manifest order, and every
      entry got its chown and chmod, in manifest order. */
  lemma FilesCompleted(fs: seq<FileConfig>, h: Host)
    ensures var r := ReconcileFiles(fs, h);
      && (r.status == Completed <==> NoCopyFails(fs, h))
      && (r.status == Completed ==> r.triggers == FiredTriggers(fs, h))
      && (r.status == Completed ==> Keep(r.actions, IsEnforcement) == EnforceAll(fs))
  {
    CompletesIffNoFailure(fs, h);
    if NoCopyFails(fs, h) {
      CompletedTriggers(fs, h);
      CompletedEnforcement(fs, h);
    }
  }

  /** When the first failing copy is at position `k`, the loop stops there:
      what it issued is the loop over the entries before `k`, then entry
      `k`'s mkdir and copy; nothing after it runs. */
  lemma {:induction false} FilesAborted(fs: seq<FileConfig>, h: Host, k: nat)
    requires k < |fs| && CopyFails(h.probe(k)) && NoCopyFails(fs[..k], h)
    ensures var p := ReconcileFiles(fs[..k], h);
      ReconcileFiles(fs, h)
        == FilesRun(p.actions + ReconcileFile(fs[k], h.probe(k), h).actions, p.triggers, Aborted(k))
    decreases |fs|
  {
    FilesCompleted(fs[..k], h);
    if |fs| - 1 != k {
      var pre := fs[..|fs| - 1];
      assert pre[..k] == fs[..k] && pre[k] == fs[k];
      FilesAborted(pre, h, k);
    }
  }

  /** When every entry compares equal,
      the loop only enforces ownership and mode and records no trigger. */
  lemma {:induction false} AllEqualFiles(fs: seq<FileConfig>, h: Host)
    requires forall i :: 0 <= i < |fs| ==> h.probe(i).contentEqual
    ensures ReconcileFiles(fs, h) == FilesRun(EnforceAll(fs), [], Completed)
    decreases |fs|
  {
    if |fs| > 0 {
      AllEqualFiles(fs[..|fs| - 1], h);
    }
  }

  /** A service occurs among the fired triggers once per replaced entry naming it. */
  lemma {:induction false} FiredCount(fs: seq<FileConfig>, h: Host, svc: string)
    ensures multiset(FiredTriggers(fs, h))[svc] == ChangedWithTrigger(fs, h, svc)
    decreases |fs|
  {
    if |fs| > 0 {
      FiredCount(fs[..|fs| - 1], h, svc);
    }
  }

  /** The entries the loop reaches are all of them, or those before the failing copy. */
  function Reached(fs: seq<FileConfig>, h: Host): nat
  {
    var r := ReconcileFiles(fs, h);
    if r.status.Aborted? then r.status.at else |fs|
  }

  /** Every entry the loop reaches gets chown then chmod once each, in
      manifest order; the entry whose copy fails and all later ones get none. */
  lemma FilesEnforcement(fs: seq<FileConfig>, h: Host)
    ensures Reached(fs, h) <= |fs|
    ensures Keep(ReconcileFiles(fs, h).actions, IsEnforcement) == EnforceAll(fs[..Reached(fs, h)])
  {
    var r := ReconcileFiles(fs, h);
    if r.status.Aborted? {
      var k := r.status.at;
      FirstFailure(fs, h, k);
      FilesAborted(fs, h, k);
      FilesCompleted(fs[..k], h);
      var s := ReconcileFile(fs[k], h.probe(k), h);
      FileEnforcement(fs[k], h.probe(k), h);
      KeepAppend(ReconcileFiles(fs[..k], h).actions, s.actions, IsEnforcement);
    } else {
      FilesCompleted(fs, h);
      assert fs[..|fs|] == fs;
    }
  }

  /** An aborted loop stopped at its first failing copy. */
  lemma {:induction false} FirstFailure(fs: seq<FileConfig>, h: Host, k: nat)
    requires ReconcileFiles(fs, h).status == Aborted(k)
    ensures k < |fs| && CopyFails(h.probe(k)) && NoCopyFails(fs[..k], h)
    decreases |fs|
  {
    var i := |fs| - 1;
    var pre := fs[..i];
    if ReconcileFiles(pre, h).status.Aborted? {
      FirstFailure(pre, h, k);
      assert pre[..k] == fs[..k];
    } else {
      FilesCompleted(pre, h);
    }
  }

  lemma {:induction false} EnforceAllKinds(fs: seq<FileConfig>)
    ensures forall a :: a in EnforceAll(fs) ==> a.Chown? || a.Chmod?
    decreases |fs|
  {
    if |fs| > 0 {
      EnforceAllKinds(fs[..|fs| - 1]);
    }
  }
}
