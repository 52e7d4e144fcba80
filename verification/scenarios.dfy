/** Concrete runs of the plan on small manifests. */
module Scenarios {

  import opened Manifest
  import opened Actions
  import opened HostView
  import opened Packages
  import opened Files
  import opened Triggers
  import opened Plan

  /** One pinned-to-latest package and one changed file whose folder is
      missing: update, install "jq", mkdir, copy, chown, chmod, one restart. */
  lemma SinglePackageSingleFile()
    ensures var app := FileConfig("/etc/app/app.conf", "app.conf", "root", "root", "0644", "app");
      var c := ConfigType([PackageConfig("jq", "latest")], [app]);
      var h := Host(i => Probe(false, false, true), p => "/etc/app", p => "/srv/cfg/" + p);
      Converge(c, h) == Run([Update, Install("jq"), Mkdir("/etc/app"),
                             Copy("/srv/cfg/app.conf", "/etc/app/app.conf"),
                             Chown("/etc/app/app.conf", "root:root"), Chmod("/etc/app/app.conf", "0644"),
                             Restart("app")], Completed)
  {
    var app := FileConfig("/etc/app/app.conf", "app.conf", "root", "root", "0644", "app");
    var c := ConfigType([PackageConfig("jq", "latest")], [app]);
    var h := Host(i => Probe(false, false, true), p => "/etc/app", p => "/srv/cfg/" + p);
    assert [app][..0] == [];
    assert InstallAll(c.packages) == [Install("jq")];
    assert "/srv/cfg/" + "app.conf" == "/srv/cfg/app.conf";
    assert Ownership(app) == "root:root";
    var step := ReconcileFile(app, h.probe(0), h);
    assert step.actions == [Mkdir("/etc/app"), Copy("/srv/cfg/app.conf", "/etc/app/app.conf"),
                            Chown("/etc/app/app.conf", "root:root"), Chmod("/etc/app/app.conf", "0644")];
    assert ReconcileFiles(c.files, h) == FilesRun(step.actions, ["app"], Completed);
    assert Dispatch(["app"]) == [Restart("app")];
  }

  function Nginx(name: string): FileConfig
  {
    FileConfig(name, name, "root", "root", "0644", "nginx")
  }

  /** Two files that both name the service "nginx". */
  function NginxPair(): ConfigType
  {
    ConfigType([], [Nginx("a.conf"), Nginx("b.conf")])
  }

  /** A host on which the first and/or the second file differs from its source. */
  function Differing(first: bool, second: bool): Host
  {
    Host(i => Probe(if i == 0 then !first else !second, true, true), p => "/etc", p => p)
  }

  lemma PairChangedCount(first: bool, second: bool)
    ensures ChangedWithTrigger(NginxPair().files, Differing(first, second), "nginx")
         == (if first then 1 else 0) + (if second then 1 else 0)
  {
    var fs := NginxPair().files;
    var h := Differing(first, second);
    assert fs[..1] == [Nginx("a.conf")];
    assert fs[..1][..0] == [];
    assert ChangedWithTrigger(fs[..1][..0], h, "nginx") == 0;
    assert ChangedWithTrigger(fs[..1], h, "nginx") == (if first then 1 else 0);
  }

  /** Two files naming the same service: it is restarted once per changed
      file, so twice when both changed and once when only one did. */
  lemma SharedTrigger(first: bool, second: bool)
    ensures multiset(Converge(NginxPair(), Differing(first, second)).actions)[Restart("nginx")]
         == (if first then 1 else 0) + (if second then 1 else 0)
  {
    var c := NginxPair();
    var h := Differing(first, second);
    assert NoCopyFails(c.files, h);
    RestartCount(c, h, "nginx");
    PairChangedCount(first, second);
  }
}
