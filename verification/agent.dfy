/** `main` after the manifest is loaded, written as its three loops. */
module Agent {

  import opened Manifest
  import opened Actions
  import opened HostView
  import opened Packages
  import opened Files
  import opened FileLoop
  import opened Triggers
  import opened Plan

  /** The package loop: formats each install argument and issues the install. */
  method InstallPackages(pkgs: seq<PackageConfig>) returns (acts: seq<Action>)
    ensures |acts| == |pkgs|
    ensures forall i :: 0 <= i < |pkgs| ==> acts[i] == Install(InstallArg(pkgs[i]))
    ensures acts == InstallAll(pkgs)
  {
    acts := [];
    var i := 0;
    while i < |pkgs|
      invariant 0 <= i <= |pkgs|
      invariant acts == InstallAll(pkgs[..i])
    {
      var p := pkgs[i];
      var version := p.name;
      if p.ensure != Latest {
        version := p.name + "=" + p.ensure;
      }
      assert version == InstallArg(p);
      assert pkgs[..i + 1] == pkgs[..i] + [p];
      InstallAllSnoc(pkgs[..i], p);
      acts := acts + [Install(version)];
      i := i + 1;
    }
    assert pkgs[..i] == pkgs;
  }

  /** One pass of the file loop's body: the commands it issues for entry
      `f`, the trigger it pushes, and whether `fs::copy` failed. */
  method HandleFile(f: FileConfig, pr: Probe, h: Host) returns (step: seq<Action>, fired: seq<string>, failed: bool)
    ensures FileStep(step, fired, failed) == ReconcileFile(f, pr, h)
  {
    step := [];
    fired := [];
    failed := false;
    if !pr.contentEqual {
      if !pr.parentIsDir {
        step := step + [Mkdir(h.parentOf(f.filename))];
      }
      step := step + [Copy(h.resolveSource(f.source), f.filename)];
      if !pr.copySucceeds {
        failed := true;
        return;
      }
      if f.trigger != "" {
        fired := fired + [f.trigger];
      }
    }
    step := step + [Chown(f.filename, f.owner + ":" + f.group), Chmod(f.filename, f.mode)];
  }

  /** The file loop with its `triggers` vector; returns early, as `?` does,
      when a copy fails. */
  method ReconcileEach(fs: seq<FileConfig>, h: Host) returns (acts: seq<Action>, triggers: seq<string>, status: Status)
    ensures FilesRun(acts, triggers, status) == ReconcileFiles(fs, h)
    ensures status == Completed <==> NoCopyFails(fs, h)
  {
    acts := [];
    triggers := [];
    var j := 0;
    while j < |fs|
      invariant 0 <= j <= |fs|
      invariant ReconcileFiles(fs[..j], h) == FilesRun(acts, triggers, Completed)
    {
      var step, fired, failed := HandleFile(fs[j], h.probe(j), h);
      assert fs[..j + 1][..j] == fs[..j];
      if failed {
        FilesCompleted(fs[..j], h);
        FilesAborted(fs, h, j);
        FilesCompleted(fs, h);
        acts := acts + step;
        status := Aborted(j);
        return;
      }
      acts := acts + step;
      triggers := triggers + fired;
      j := j + 1;
    }
    assert fs[..j] == fs;
    FilesCompleted(fs, h);
    status := Completed;
  }

  /** The restart loop, with its check for an empty name. */
  method RestartAll(triggers: seq<string>) returns (acts: seq<Action>)
    ensures acts == Dispatch(triggers)
    ensures forall a :: a in acts ==> a.Restart? && a.service in triggers
  {
    acts := [];
    var k := 0;
    while k < |triggers|
      invariant 0 <= k <= |triggers|
      invariant acts == Dispatch(triggers[..k])
      invariant forall a :: a in acts ==> a.Restart? && a.service in triggers[..k]
    {
      var trigger := triggers[k];
      DispatchSnoc(triggers[..k], trigger);
      assert triggers[..k + 1] == triggers[..k] + [trigger];
      if trigger != "" {
        acts := acts + [Restart(trigger)];
      }
      k := k + 1;
    }
    assert triggers[..k] == triggers;
  }

  /** Issues the commands in the order `main` does and returns how it ended;
      the result is exactly the plan `Converge` describes. */
  method RunMain(c: ConfigType, h: Host) returns (acts: seq<Action>, status: Status)
    ensures Run(acts, status) == Converge(c, h)
    ensures status == Completed <==> NoCopyFails(c.files, h)
  {
    var installs := InstallPackages(c.packages);
    var fileActs, triggers;
    fileActs, triggers, status := ReconcileEach(c.files, h);
    acts := [Update] + installs + fileActs;
    if status.Aborted? {
      return;
    }
    var restarts := RestartAll(triggers);
    acts := acts + restarts;
  }
}
