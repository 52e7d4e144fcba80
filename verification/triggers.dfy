/** The restart loop over the collected triggers. */
module Triggers {

  import opened Actions

  /** `for trigger in triggers { if trigger != "" { service <trigger> restart } }`:
      no more restarts than triggers, each of a non-empty name from the list;
      and a multiplicity per service given by `DispatchCount`. */
  function Dispatch(ts: seq<string>): (r: seq<Action>)
    ensures |r| <= |ts|
    ensures forall k :: 0 <= k < |r| ==> r[k].Restart? && r[k].service != ""
    ensures forall k :: 0 <= k < |r| ==> r[k].service in ts
  {
    if |ts| == 0 then []
    else
      var rest := Dispatch(ts[1..]);
      assert forall t :: t in ts[1..] ==> t in ts;
      (if ts[0] != "" then [Restart(ts[0])] else []) + rest
  }

  /** On a list with no empty name the dispatch guard drops nothing: one
      restart per entry, same order, duplicates kept. */
  lemma {:induction false} DispatchGuardNeverFilters(ts: seq<string>)
    requires forall t :: t in ts ==> t != ""
    ensures |Dispatch(ts)| == |ts|
    ensures forall k :: 0 <= k < |ts| ==> Dispatch(ts)[k] == Restart(ts[k])
  {
    if |ts| > 0 {
      assert forall t :: t in ts[1..] ==> t in ts;
      DispatchGuardNeverFilters(ts[1..]);
      assert ts[0] in ts;
      assert Dispatch(ts) == [Restart(ts[0])] + Dispatch(ts[1..]);
    }
  }

  /** Service `svc` is restarted as many times as it occurs in the list. */
  lemma {:induction false} DispatchCount(ts: seq<string>, svc: string)
    requires svc != ""
    ensures multiset(Dispatch(ts))[Restart(svc)] == multiset(ts)[svc]
  {
    if |ts| > 0 {
      DispatchCount(ts[1..], svc);
      var rest := Dispatch(ts[1..]);
      if ts[0] != "" {
        assert Dispatch(ts) == [Restart(ts[0])] + rest;
        assert multiset(Dispatch(ts)) == multiset{Restart(ts[0])} + multiset(rest);
      } else {
        assert Dispatch(ts) == rest;
      }
      ConsCount(ts);
    }
  }

  lemma ConsCount(ts: seq<string>)
    requires |ts| > 0
    ensures multiset(ts) == multiset{ts[0]} + multiset(ts[1..])
  {
    assert ts == [ts[0]] + ts[1..];
  }

  /** Dispatch handles one more trigger at the end of the list. */
  lemma {:induction false} DispatchSnoc(ts: seq<string>, t: string)
    ensures Dispatch(ts + [t]) == Dispatch(ts) + (if t != "" then [Restart(t)] else [])
  {
    if |ts| == 0 {
      assert ts + [t] == [t];
      assert [t][1..] == [];
    } else {
      assert (ts + [t])[1..] == ts[1..] + [t];
      DispatchSnoc(ts[1..], t);
    }
  }
}
