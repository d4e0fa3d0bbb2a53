/**
 * The health checkers over any sequence of reloads. A checker starts running when its route is
 * built and runs until it is stopped; checkers are numbered in the order they are started.
 */
module Reloads {
  import opened Collections

  /** How building a route ends: it may fail before its checker is started, or after. */
  datatype Build = Builds | FailsEarly | FailsLate

  datatype RouteConfig = RouteConfig(prefix: string, build: Build)

  /** An installed route: its prefix and the number of its checker. */
  datatype Entry = Entry(prefix: string, checker: nat)

  /** `stops[i]` is how often checker i has been stopped. */
  datatype World = World(installed: seq<Entry>, stops: seq<nat>)

  predicate Succeeds(cfgs: seq<RouteConfig>)
  {
    forall i :: 0 <= i < |cfgs| ==> cfgs[i].build.Builds?
  }

  /** Routes are built in order up to the first failure; this many checkers get started. */
  function Started(cfgs: seq<RouteConfig>): (n: nat)
    ensures n <= |cfgs|
    ensures Succeeds(cfgs) ==> n == |cfgs|
  {
    if cfgs == [] then 0
    else match cfgs[0].build
      case FailsEarly => 0
      case FailsLate => 1
      case Builds => 1 + Started(cfgs[1..])
  }

  function Entries(cfgs: seq<RouteConfig>, first: nat): (es: seq<Entry>)
    ensures |es| == |cfgs|
    ensures forall i :: 0 <= i < |es| ==> es[i] == Entry(cfgs[i].prefix, first + i)
  {
    seq(|cfgs|, i requires 0 <= i < |cfgs| => Entry(cfgs[i].prefix, first + i))
  }

  predicate HasPrefix(cfgs: seq<RouteConfig>, prefix: string)
  {
    exists i :: 0 <= i < |cfgs| && cfgs[i].prefix == prefix
  }

  /** Stop, in order, the checkers of the old routes whose prefix is gone. */
  function StopRemoved(was: seq<Entry>, cfgs: seq<RouteConfig>, stops: seq<nat>): (s: seq<nat>)
    ensures |s| == |stops|
  {
    if was == [] then stops
    else
      var s := StopRemoved(was[..|was| - 1], cfgs, stops);
      var e := was[|was| - 1];
      if !HasPrefix(cfgs, e.prefix) && e.checker < |s| then s[e.checker := s[e.checker] + 1] else s
  }

  function NewStops(stops: seq<nat>, started: nat): (s: seq<nat>)
    ensures |s| == |stops| + started
    ensures forall i :: 0 <= i < |s| ==> s[i] == if i < |stops| then stops[i] else 0
  {
    stops + seq(started, i => 0)
  }

  function Reload(w: World, cfgs: seq<RouteConfig>): World
  {
    var stops := NewStops(w.stops, Started(cfgs));
    if Succeeds(cfgs) then World(Entries(cfgs, |w.stops|), StopRemoved(w.installed, cfgs, stops))
    else World(w.installed, stops)
  }

  /** The gateway starts with a configuration that builds and then sees any number of reloads. */
  function Run(first: seq<RouteConfig>, reloads: seq<seq<RouteConfig>>): World
  {
    if reloads == [] then World(Entries(first, 0), NewStops([], |first|))
    else Reload(Run(first, reloads[..|reloads| - 1]), reloads[|reloads| - 1])
  }

  function Running(w: World): set<nat>
  {
    set i | 0 <= i < |w.stops| && w.stops[i] == 0
  }

  function Installed(w: World): set<nat>
  {
    set i | 0 <= i < |w.installed| :: w.installed[i].checker
  }

  function Range(lo: nat, hi: nat): (s: set<nat>)
    ensures forall i: nat :: i in s <==> lo <= i < hi
    ensures |s| == if lo < hi then hi - lo else 0
  {
    if hi <= lo then {} else Range(lo, hi - 1) + {hi - 1}
  }

  /** What one reload leaves running with no route: replaced under a surviving prefix, or built in vain. */
  function LeakedBy(w: World, cfgs: seq<RouteConfig>): set<nat>
  {
    if Succeeds(cfgs) then
      set i | 0 <= i < |w.installed| && HasPrefix(cfgs, w.installed[i].prefix) :: w.installed[i].checker
    else Range(|w.stops|, |w.stops| + Started(cfgs))
  }

  function Leaked(first: seq<RouteConfig>, reloads: seq<seq<RouteConfig>>): set<nat>
  {
    if reloads == [] then {}
    else
      var n := |reloads| - 1;
      Leaked(first, reloads[..n]) + LeakedBy(Run(first, reloads[..n]), reloads[n])
  }

  /** Installed checkers are distinct, exist, and run; no checker has been stopped twice. */
  ghost predicate Healthy(w: World)
  {
    && (forall i :: 0 <= i < |w.installed| ==>
          w.installed[i].checker < |w.stops| && w.stops[w.installed[i].checker] == 0)
    && (forall i, j :: 0 <= i < j < |w.installed| ==> w.installed[i].checker != w.installed[j].checker)
    && (forall i :: 0 <= i < |w.stops| ==> w.stops[i] <= 1)
  }

  /** Exactly the removed routes' checkers are stopped, each once. */
  lemma {:induction false} StopRemovedAt(was: seq<Entry>, cfgs: seq<RouteConfig>, stops: seq<nat>, i: nat)
    requires forall k :: 0 <= k < |was| ==> was[k].checker < |stops|
    requires forall j, k :: 0 <= j < k < |was| ==> was[j].checker != was[k].checker
    requires i < |stops|
    ensures StopRemoved(was, cfgs, stops)[i] == stops[i] +
              if exists k :: 0 <= k < |was| && was[k].checker == i
                          && forall j :: 0 <= j < |cfgs| ==> cfgs[j].prefix != was[k].prefix then 1 else 0
    decreases |was|
  {
    if was != [] {
      StopRemovedAt(was[..|was| - 1], cfgs, stops, i);
      var e := was[|was| - 1];
      assert forall k :: 0 <= k < |was| - 1 ==> was[..|was| - 1][k] == was[k];
      if e.checker == i {
        assert forall k :: 0 <= k < |was| - 1 ==> was[k].checker != i;
      }
    }
  }

  lemma {:induction false} ReloadIsHealthy(w: World, cfgs: seq<RouteConfig>)
    requires Healthy(w)
    ensures Healthy(Reload(w, cfgs))
  {
    var stops := NewStops(w.stops, Started(cfgs));
    if Succeeds(cfgs) {
      forall i | 0 <= i < |stops|
        ensures StopRemoved(w.installed, cfgs, stops)[i] <= 1
        ensures i >= |w.stops| ==> StopRemoved(w.installed, cfgs, stops)[i] == 0
      {
        StopRemovedAt(w.installed, cfgs, stops, i);
      }
    }
  }

  /** What runs after a reload: what ran before and was not removed, plus what was started. */
  lemma {:induction false} RunningAfter(w: World, cfgs: seq<RouteConfig>, i: nat)
    requires Healthy(w)
    ensures i in Running(Reload(w, cfgs)) <==>
              || |w.stops| <= i < |w.stops| + Started(cfgs)
              || (i in Running(w) && !(Succeeds(cfgs) && i in Installed(w) && i !in LeakedBy(w, cfgs)))
  {
    var stops := NewStops(w.stops, Started(cfgs));
    if i < |stops| && Succeeds(cfgs) {
      StopRemovedAt(w.installed, cfgs, stops, i);
    }
  }

  lemma {:induction false} InstalledAfter(w: World, cfgs: seq<RouteConfig>, i: nat)
    ensures i in Installed(Reload(w, cfgs)) <==>
              if Succeeds(cfgs) then |w.stops| <= i < |w.stops| + Started(cfgs) else i in Installed(w)
  {
    if Succeeds(cfgs) && |w.stops| <= i < |w.stops| + |cfgs| {
      assert Reload(w, cfgs).installed[i - |w.stops|].checker == i;
    }
  }

  /** The state of affairs that every reload keeps. */
  ghost predicate Accounted(w: World, leaked: set<nat>)
  {
    && Healthy(w)
    && Running(w) == Installed(w) + leaked
    && Installed(w) !! leaked
  }

  lemma {:induction false} ReloadAccounted(w: World, cfgs: seq<RouteConfig>, leaked: set<nat>)
    requires Accounted(w, leaked)
    ensures Accounted(Reload(w, cfgs), leaked + LeakedBy(w, cfgs))
  {
    hide Reload, Started, StopRemoved;
    ReloadIsHealthy(w, cfgs);
    var w' := Reload(w, cfgs);
    forall i: nat
      ensures i in Running(w') <==> i in Installed(w') + (leaked + LeakedBy(w, cfgs))
      ensures !(i in Installed(w') && i in leaked + LeakedBy(w, cfgs))
    {
      RunningAfter(w, cfgs, i);
      InstalledAfter(w, cfgs, i);
      assert i in Running(w) ==> i < |w.stops|;
      assert i in Running(w) <==> i in Installed(w) || i in leaked;
      LeaksInRange(w, cfgs, i);
    }
  }

  lemma {:induction false} LeaksInRange(w: World, cfgs: seq<RouteConfig>, i: nat)
    requires Healthy(w)
    ensures i in LeakedBy(w, cfgs) ==>
              if Succeeds(cfgs) then i in Installed(w) else |w.stops| <= i < |w.stops| + Started(cfgs)
  {
  }

  /**
   * Over any sequence of reloads, failed ones included: every installed route's checker runs, no
   * checker is stopped twice, and the running checkers are exactly the installed ones plus those
   * that reloads have left behind.
   */
  lemma {:induction false} CheckersOverReloads(first: seq<RouteConfig>, reloads: seq<seq<RouteConfig>>)
    requires Succeeds(first)
    ensures Accounted(Run(first, reloads), Leaked(first, reloads))
    decreases |reloads|
  {
    if reloads == [] {
      FirstAccounted(first);
    } else {
      hide Accounted, Reload, LeakedBy;
      var n := |reloads| - 1;
      CheckersOverReloads(first, reloads[..n]);
      ReloadAccounted(Run(first, reloads[..n]), reloads[n], Leaked(first, reloads[..n]));
    }
  }

  lemma {:induction false} FirstAccounted(first: seq<RouteConfig>)
    ensures Accounted(World(Entries(first, 0), NewStops([], |first|)), {})
  {
    var w := World(Entries(first, 0), NewStops([], |first|));
    forall i: nat ensures i in Running(w) <==> i in Installed(w) {
      if i < |first| {
        assert w.installed[i].checker == i;
      }
    }
  }

  lemma {:induction false} LeaksNothing(w: World, cfgs: seq<RouteConfig>)
    ensures LeakedBy(w, cfgs) == {} <==>
              if Succeeds(cfgs) then forall i :: 0 <= i < |w.installed| ==> !HasPrefix(cfgs, w.installed[i].prefix)
              else Started(cfgs) == 0
  {
    if Succeeds(cfgs) {
      if i :| 0 <= i < |w.installed| && HasPrefix(cfgs, w.installed[i].prefix) {
        assert w.installed[i].checker in LeakedBy(w, cfgs);
      }
    } else if Started(cfgs) > 0 {
      assert |w.stops| in LeakedBy(w, cfgs);
    }
  }

  /**
   * "Checkers for unchanged backends are preserved" is what a reload is documented to do. A reload adds
   * no running checker without a route exactly when no old prefix survives it, or it fails before
   * starting any.
   */
  lemma {:induction false} LeavesNothingIff(w: World, cfgs: seq<RouteConfig>)
    requires Healthy(w)
    ensures Running(Reload(w, cfgs)) - Installed(Reload(w, cfgs)) == Running(w) - Installed(w) <==>
              if Succeeds(cfgs) then
                forall i, j :: 0 <= i < |w.installed| && 0 <= j < |cfgs| ==> cfgs[j].prefix != w.installed[i].prefix
              else cfgs[0].build.FailsEarly?
  {
    hide Reload, LeakedBy, Running, Installed, Healthy;
    var orphans := Running(w) - Installed(w);
    OrphansAccount(w);
    ReloadAccounted(w, cfgs, orphans);
    LeaksNothing(w, cfgs);
    NewOrphans(w, cfgs);
    var w' := Reload(w, cfgs);
    assert Running(w') - Installed(w') == orphans + LeakedBy(w, cfgs);
    if LeakedBy(w, cfgs) != {} {
      var x :| x in LeakedBy(w, cfgs);
      assert x in Running(w') - Installed(w') && x !in orphans;
    }
  }

  lemma {:induction false} OrphansAccount(w: World)
    requires Healthy(w)
    ensures Accounted(w, Running(w) - Installed(w))
  {
    assert Installed(w) <= Running(w);
  }

  /** What a reload leaves behind was not without a route before. */
  lemma {:induction false} NewOrphans(w: World, cfgs: seq<RouteConfig>)
    requires Healthy(w)
    ensures LeakedBy(w, cfgs) !! Running(w) - Installed(w)
  {
    forall i | i in LeakedBy(w, cfgs) ensures i !in Running(w) - Installed(w) {
      LeaksInRange(w, cfgs, i);
    }
  }

  /** An old route whose prefix survives keeps its checker exactly when the reload fails. */
  lemma {:induction false} KeptIffReloadFails(w: World, cfgs: seq<RouteConfig>, e: Entry)
    requires Healthy(w) && e in w.installed && exists j :: 0 <= j < |cfgs| && cfgs[j].prefix == e.prefix
    ensures e.checker in Running(Reload(w, cfgs))
    ensures e in Reload(w, cfgs).installed <==> !Succeeds(cfgs)
    ensures e.checker in Installed(Reload(w, cfgs)) <==> !Succeeds(cfgs)
  {
    RunningAfter(w, cfgs, e.checker);
    InstalledAfter(w, cfgs, e.checker);
  }

  lemma {:induction false} IdenticalReload(cfgs: seq<RouteConfig>, n: nat)
    requires Succeeds(cfgs)
    ensures Run(cfgs, Repeat(cfgs, n)) == World(Entries(cfgs, n * |cfgs|), NewStops([], (n + 1) * |cfgs|))
    decreases n
  {
    var rs := Repeat(cfgs, n);
    if n == 0 {
    } else {
      assert rs[..n - 1] == Repeat(cfgs, n - 1);
      IdenticalReload(cfgs, n - 1);
      var w := Run(cfgs, rs[..n - 1]);
      assert n * |cfgs| == (n - 1) * |cfgs| + |cfgs| && (n + 1) * |cfgs| == n * |cfgs| + |cfgs|;
      var stops := NewStops(w.stops, |cfgs|);
      forall i | 0 <= i < |w.installed| ensures HasPrefix(cfgs, w.installed[i].prefix) {
        assert cfgs[i].prefix == w.installed[i].prefix;
      }
      NothingRemoved(w.installed, cfgs, stops);
      assert stops == NewStops([], (n + 1) * |cfgs|);
    }
  }

  lemma {:induction false} NothingRemoved(was: seq<Entry>, cfgs: seq<RouteConfig>, stops: seq<nat>)
    requires forall i :: 0 <= i < |was| ==> HasPrefix(cfgs, was[i].prefix)
    ensures StopRemoved(was, cfgs, stops) == stops
    decreases |was|
  {
    if was != [] {
      NothingRemoved(was[..|was| - 1], cfgs, stops);
    }
  }

  /** So reloading an unchanged configuration of m routes n times leaves (n + 1) * m checkers running. */
  lemma {:induction false} UnchangedReloadsPileUp(cfgs: seq<RouteConfig>, n: nat)
    requires Succeeds(cfgs)
    ensures |Running(Run(cfgs, Repeat(cfgs, n)))| == (n + 1) * |cfgs|
  {
    IdenticalReload(cfgs, n);
    var w := Run(cfgs, Repeat(cfgs, n));
    assert Running(w) == Range(0, |w.stops|);
  }
}
