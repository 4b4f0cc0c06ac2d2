/** CLocalPeer::set_update_available: "updating" is kept until "finished" is passed. */
module UpdateLatch {

  function After(state: string, val: string): string
  {
    if state == "updating" then (if val == "finished" then "false" else state) else val
  }

  function AfterAll(state: string, vals: seq<string>): string
  {
    if vals == [] then state else After(AfterAll(state, vals[..|vals| - 1]), vals[|vals| - 1])
  }

  class LocalPeer {
    var updateAvailable: string

    constructor ()
      ensures updateAvailable == "false"
    {
      updateAvailable := "false";
    }

    method SetUpdateAvailable(val: string)
      modifies this
      ensures updateAvailable == After(old(updateAvailable), val)
    {
      if updateAvailable == "updating" {
        if val == "finished" {
          updateAvailable := "false";
        } else {
          return;
        }
      } else {
        updateAvailable := val;
      }
    }
  }

  /** Some call passes "updating" and no later one passes "finished". */
  ghost predicate LeftUpdating(vals: seq<string>)
  {
    exists i :: 0 <= i < |vals| && vals[i] == "updating" && "finished" !in vals[i + 1..]
  }

  /** After any sequence of calls on a new peer the update is shown as running exactly when one
      was announced and none of the later calls ended it. */
  lemma {:induction false} UpdatingIffLeftUpdating(vals: seq<string>)
    ensures AfterAll("false", vals) == "updating" <==> LeftUpdating(vals)
  {
    if vals != [] {
      UpdatingIffLeftUpdating(vals[..|vals| - 1]);
      OneMoreCall(vals);
    }
  }

  /** The last call: it announces an update, or leaves an announced one unless it ends it. */
  lemma OneMoreCall(vals: seq<string>)
    requires vals != []
    ensures var last := vals[|vals| - 1];
      LeftUpdating(vals) <==> last == "updating" || (LeftUpdating(vals[..|vals| - 1]) && last != "finished")
  {
    var init, last := vals[..|vals| - 1], vals[|vals| - 1];
    if last == "updating" {
      assert vals[|init|] == "updating" && "finished" !in vals[|init| + 1..];
    }
    if LeftUpdating(init) && last != "finished" {
      var i :| 0 <= i < |init| && init[i] == "updating" && "finished" !in init[i + 1..];
      assert vals[i + 1..] == init[i + 1..] + [last];
      assert vals[i] == "updating" && "finished" !in vals[i + 1..];
    }
    if LeftUpdating(vals) && last != "updating" {
      var i :| 0 <= i < |vals| && vals[i] == "updating" && "finished" !in vals[i + 1..];
      assert vals[i + 1..] == init[i + 1..] + [last];
      assert last in vals[i + 1..];
      assert init[i] == "updating" && "finished" !in init[i + 1..];
    }
  }

  /** In between, nothing else can be shown: the first "finished" after "updating" gives "false",
      and a "finished" without an update running is stored as it is. */
  lemma {:induction false} WhatIsShown(vals: seq<string>)
    requires vals != []
    ensures AfterAll("false", vals) ==
      if LeftUpdating(vals) then "updating"
      else if vals[|vals| - 1] == "finished" && LeftUpdating(vals[..|vals| - 1]) then "false"
      else vals[|vals| - 1]
  {
    UpdatingIffLeftUpdating(vals);
    UpdatingIffLeftUpdating(vals[..|vals| - 1]);
  }
}
