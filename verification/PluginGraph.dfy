/** The dependency graph of registered plugins: cycles, topological orders and the set that can activate. */
module PluginGraph {

  datatype Plugin = Plugin(id: string, dependencies: seq<string>, canDisable: bool)

  type Registered = map<string, Plugin>

  /** `from` declares `to` as a dependency and both are registered. */
  predicate Edge(g: Registered, from: string, to: string) {
    from in g && to in g && to in g[from].dependencies
  }

  ghost predicate IsWalk(g: Registered, p: seq<string>) {
    && p != []
    && (forall i :: 0 <= i < |p| ==> p[i] in g)
    && (forall i :: 0 < i < |p| ==> Edge(g, p[i - 1], p[i]))
  }

  ghost predicate IsCycle(g: Registered, p: seq<string>) {
    IsWalk(g, p) && |p| > 1 && p[0] == p[|p| - 1]
  }

  ghost predicate HasCycle(g: Registered) {
    exists p :: IsCycle(g, p)
  }

  /** Every registered dependency stands before its dependent. */
  ghost predicate Topological(g: Registered, order: seq<string>) {
    forall i, d :: 0 <= i < |order| && Edge(g, order[i], d) ==> d in order[..i]
  }

  ghost predicate NoRepeats(s: seq<string>) {
    forall i, j :: 0 <= i < j < |s| ==> s[i] != s[j]
  }

  /** Walking along dependencies goes strictly backwards in a topological order. */
  lemma {:induction false} WalkGoesBack(g: Registered, order: seq<string>, p: seq<string>, k: nat) returns (i: nat)
    requires Topological(g, order) && NoRepeats(order) && IsWalk(g, p) && k < |p| && p[0] in order
    ensures i < |order| && order[i] == p[k]
    ensures k > 0 ==> exists j :: i < j < |order| && order[j] == p[0]
  {
    if k == 0 {
      i :| 0 <= i < |order| && order[i] == p[0];
    } else {
      var next := WalkGoesBack(g, order, p, k - 1);
      assert Edge(g, order[next], p[k]);
      assert p[k] in order[..next];
      i :| 0 <= i < next && order[i] == p[k];
    }
  }

  /** A graph with a complete topological order has no cycle. */
  lemma TopologicalHasNoCycle(g: Registered, order: seq<string>)
    requires Topological(g, order) && NoRepeats(order)
    requires forall id :: id in g ==> id in order
    ensures !HasCycle(g)
  {
    if HasCycle(g) {
      var p :| IsCycle(g, p);
      var i := WalkGoesBack(g, order, p, |p| - 1);
      assert false;
    }
  }

  // ----- What can activate -----

  /** The plugins that activate when exactly the members of `s` are already active. */
  ghost function Enabled(g: Registered, disabled: set<string>, throwing: set<string>, s: set<string>): set<string> {
    set id | id in g && id !in disabled && id !in throwing && forall d :: d in g[id].dependencies ==> d in s
  }

  ghost function Level(g: Registered, disabled: set<string>, throwing: set<string>, n: nat): set<string> {
    if n == 0 then {} else Enabled(g, disabled, throwing, Level(g, disabled, throwing, n - 1))
  }

  /** The plugins reached by iterating Enabled from nothing. */
  ghost function Activatable(g: Registered, disabled: set<string>, throwing: set<string>): set<string> {
    set id | id in g && exists n: nat :: id in Level(g, disabled, throwing, n)
  }

  ghost predicate IsLeastFixedPoint(g: Registered, disabled: set<string>, throwing: set<string>, s: set<string>) {
    && Enabled(g, disabled, throwing, s) == s
    && forall t :: Enabled(g, disabled, throwing, t) <= t ==> s <= t
  }

  lemma {:induction false} LevelsGrow(g: Registered, disabled: set<string>, throwing: set<string>, m: nat, n: nat)
    requires m <= n
    ensures Level(g, disabled, throwing, m) <= Level(g, disabled, throwing, n)
  {
    if m > 0 {
      LevelsGrow(g, disabled, throwing, m - 1, n - 1);
    }
  }

  lemma {:induction false} LevelOfAll(g: Registered, disabled: set<string>, throwing: set<string>, ids: seq<string>)
    returns (n: nat)
    requires forall d :: d in ids ==> d in Activatable(g, disabled, throwing)
    ensures forall d :: d in ids ==> d in Level(g, disabled, throwing, n)
  {
    n := 0;
    if ids != [] {
      assert ids == [ids[0]] + ids[1..];
      var rest := LevelOfAll(g, disabled, throwing, ids[1..]);
      assert ids[0] in Activatable(g, disabled, throwing);
      var first: nat :| ids[0] in Level(g, disabled, throwing, first);
      n := if first > rest then first else rest;
      LevelsGrow(g, disabled, throwing, first, n);
      LevelsGrow(g, disabled, throwing, rest, n);
    }
  }

  lemma {:induction false} LevelBelowClosed(g: Registered, disabled: set<string>, throwing: set<string>, n: nat,
                                            t: set<string>)
    requires Enabled(g, disabled, throwing, t) <= t
    ensures Level(g, disabled, throwing, n) <= t
  {
    if n > 0 {
      LevelBelowClosed(g, disabled, throwing, n - 1, t);
    }
  }

  /** One unfolding: a plugin is activatable iff it is registered, enabled, does not throw and all its
      dependencies are activatable. */
  lemma ActivatableUnfolds(g: Registered, disabled: set<string>, throwing: set<string>, id: string)
    ensures id in Activatable(g, disabled, throwing)
       <==> id in Enabled(g, disabled, throwing, Activatable(g, disabled, throwing))
  {
    if id in Activatable(g, disabled, throwing) {
      var n: nat :| id in Level(g, disabled, throwing, n);
      forall d | d in g[id].dependencies ensures d in Activatable(g, disabled, throwing) {
        assert d in Level(g, disabled, throwing, n - 1);
        LevelMembersRegistered(g, disabled, throwing, n - 1, d);
      }
    }
    if id in Enabled(g, disabled, throwing, Activatable(g, disabled, throwing)) {
      var n := LevelOfAll(g, disabled, throwing, g[id].dependencies);
      assert id in Level(g, disabled, throwing, n + 1);
    }
  }

  lemma LevelMembersRegistered(g: Registered, disabled: set<string>, throwing: set<string>, n: nat, d: string)
    requires d in Level(g, disabled, throwing, n)
    ensures d in g
  {
  }

  lemma ActivatableIsLeastFixedPoint(g: Registered, disabled: set<string>, throwing: set<string>)
    ensures IsLeastFixedPoint(g, disabled, throwing, Activatable(g, disabled, throwing))
  {
    var s := Activatable(g, disabled, throwing);
    forall id ensures id in s <==> id in Enabled(g, disabled, throwing, s) {
      ActivatableUnfolds(g, disabled, throwing, id);
    }
    forall t | Enabled(g, disabled, throwing, t) <= t ensures s <= t {
      forall id | id in s ensures id in t {
        var n: nat :| id in Level(g, disabled, throwing, n);
        LevelBelowClosed(g, disabled, throwing, n, t);
      }
    }
  }

  /** Each step along dependencies drops one level. */
  lemma {:induction false} WalkDropsLevels(g: Registered, disabled: set<string>, throwing: set<string>,
                                           p: seq<string>, n: nat)
    requires IsWalk(g, p) && p[0] in Level(g, disabled, throwing, n)
    ensures |p| <= n && p[|p| - 1] in Level(g, disabled, throwing, n + 1 - |p|)
    decreases |p|
  {
    if |p| > 1 {
      assert Edge(g, p[0], p[1]);
      forall i | 0 < i < |p[1..]| ensures Edge(g, p[1..][i - 1], p[1..][i]) {
        assert Edge(g, p[i], p[i + 1]);
      }
      WalkDropsLevels(g, disabled, throwing, p[1..], n - 1);
    }
  }

  /** A plugin on a dependency cycle can never activate. */
  lemma {:induction false} CycleNeverActivates(g: Registered, disabled: set<string>, throwing: set<string>,
                                               p: seq<string>, n: nat)
    requires IsCycle(g, p)
    ensures p[0] !in Level(g, disabled, throwing, n)
    decreases n
  {
    if p[0] in Level(g, disabled, throwing, n) {
      WalkDropsLevels(g, disabled, throwing, p, n);
      CycleNeverActivates(g, disabled, throwing, p, n + 1 - |p|);
    }
  }
}
