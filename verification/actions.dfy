/** The system commands the agent issues, in the order it issues them. */
module Actions {

  import opened Manifest

  datatype Action =
    | Update                                  // apt-get update
    | Install(arg: string)                    // apt-get install -y --force-yes <arg>
    | Mkdir(dir: Path)                        // mkdir -p <dir>
    | Copy(src: Path, dst: Path)              // fs::copy(src, dst)
    | Chown(path: Path, ownership: string)    // chown <owner:group> <path>
    | Chmod(path: Path, mode: string)         // chmod <mode> <path>
    | Restart(service: string)                // service <service> restart

  /** The actions of `acts` that `keep` selects, in their original order. */
  function Keep(acts: seq<Action>, keep: Action -> bool): (r: seq<Action>)
    ensures |r| <= |acts|
    ensures forall k :: 0 <= k < |r| ==> keep(r[k])
  {
    if |acts| == 0 then []
    else (if keep(acts[0]) then [acts[0]] else []) + Keep(acts[1..], keep)
  }

  lemma {:induction false} KeepAppend(a: seq<Action>, b: seq<Action>, keep: Action -> bool)
    ensures Keep(a + b, keep) == Keep(a, keep) + Keep(b, keep)
  {
    if |a| == 0 {
      assert a + b == b;
    } else {
      assert (a + b)[1..] == a[1..] + b;
      KeepAppend(a[1..], b, keep);
    }
  }

  /** Keep a sequence none of whose actions is selected keeps nothing. */
  lemma {:induction false} KeepNone(acts: seq<Action>, keep: Action -> bool)
    requires forall a :: a in acts ==> !keep(a)
    ensures Keep(acts, keep) == []
  {
    if |acts| > 0 {
      assert forall a :: a in acts[1..] ==> a in acts;
      KeepNone(acts[1..], keep);
    }
  }

  predicate IsEnforcement(a: Action) { a.Chown? || a.Chmod? }

  predicate IsRestart(a: Action) { a.Restart? }

  /** The commands the file loop may issue. */
  predicate IsFileAction(a: Action) { a.Mkdir? || a.Copy? || a.Chown? || a.Chmod? }

  predicate AllFileActions(acts: seq<Action>)
  {
    forall a :: a in acts ==> IsFileAction(a)
  }
}
