/** The package phase: `apt-get update` once, then one install per package. */
module Packages {

  import opened Manifest
  import opened Actions

  /** The argument handed to `apt-get install`: it starts with the package
      name; it is the bare name exactly when `ensure` is "latest", and
      otherwise `=` and the version follow. */
  function InstallArg(p: PackageConfig): (arg: string)
    ensures |p.name| <= |arg| && arg[..|p.name|] == p.name
    ensures p.ensure == Latest <==> arg == p.name
    ensures p.ensure != Latest ==> arg[|p.name|..] == "=" + p.ensure
  {
    if p.ensure != Latest then p.name + "=" + p.ensure else p.name
  }

  /** An install argument read back as a package name, optionally pinned. */
  datatype Pin = Unpinned | Pinned(version: string)

  /** The split of `name[=version]` at the first '=': everything before it is
      the name, the rest (if there is a '=') is the version. This is the
      format the argument is built in, not a model of apt's own parser. */
  function ReadInstallArg(arg: string): (r: (string, Pin))
    ensures '=' !in r.0
    ensures r.1 == Unpinned ==> r.0 == arg
    ensures r.1.Pinned? ==> arg == r.0 + "=" + r.1.version
  {
    if |arg| == 0 then ("", Unpinned)
    else if arg[0] == '=' then ("", Pinned(arg[1..]))
    else
      var rest := ReadInstallArg(arg[1..]);
      ([arg[0]] + rest.0, rest.1)
  }

  lemma {:induction false} ReadPastName(name: string, tail: string)
    requires '=' !in name
    ensures ReadInstallArg(name + tail) == (name + ReadInstallArg(tail).0, ReadInstallArg(tail).1)
  {
    if |name| > 0 {
      assert (name + tail)[0] == name[0];
      assert (name + tail)[1..] == name[1..] + tail;
      ReadPastName(name[1..], tail);
      assert [name[0]] + (name[1..] + ReadInstallArg(tail).0) == name + ReadInstallArg(tail).0;
    } else {
      assert name + tail == tail;
      assert name + ReadInstallArg(tail).0 == ReadInstallArg(tail).0;
    }
  }

  lemma ReadPin(version: string)
    ensures ReadInstallArg("=" + version) == ("", Pinned(version))
  {
    var arg := "=" + version;
    assert arg[0] == '=' && arg[1..] == version;
  }

  /** Splitting the argument at the first '=' recovers exactly the manifest's
      request: the package name, and the pin unless `ensure` was "latest".
      Holds for every name without '='. */
  lemma InstallArgRoundTrip(p: PackageConfig)
    requires '=' !in p.name
    ensures ReadInstallArg(InstallArg(p)) == (p.name, if p.ensure == Latest then Unpinned else Pinned(p.ensure))
  {
    if p.ensure == Latest {
      ReadPastName(p.name, "");
      assert p.name + "" == p.name;
    } else {
      var tail := "=" + p.ensure;
      assert InstallArg(p) == p.name + tail;
      ReadPastName(p.name, tail);
      ReadPin(p.ensure);
      assert p.name + "" == p.name;
    }
  }

  /** An empty `ensure` is not "latest", so it pins to the empty version. */
  lemma EmptyEnsurePinsEmptyVersion(name: string)
    ensures InstallArg(PackageConfig(name, "")) == name + "="
  {
    assert "" != Latest;
  }

  /** The package loop: one install per package, in manifest order. */
  function InstallAll(pkgs: seq<PackageConfig>): (r: seq<Action>)
    ensures |r| == |pkgs|
    ensures forall i :: 0 <= i < |pkgs| ==> r[i] == Install(InstallArg(pkgs[i]))
  {
    if |pkgs| == 0 then []
    else [Install(InstallArg(pkgs[0]))] + InstallAll(pkgs[1..])
  }

  /** The package loop handles one more package at the end of the list. */
  lemma {:induction false} InstallAllSnoc(pkgs: seq<PackageConfig>, p: PackageConfig)
    ensures InstallAll(pkgs + [p]) == InstallAll(pkgs) + [Install(InstallArg(p))]
  {
    if |pkgs| == 0 {
      assert pkgs + [p] == [p];
    } else {
      assert (pkgs + [p])[1..] == pkgs[1..] + [p];
      InstallAllSnoc(pkgs[1..], p);
    }
  }
}
