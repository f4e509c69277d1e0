/** The plugin registry: dependency validation by depth-first search, recursive activation, bootstrap. */
module Plugins {
  import opened PluginGraph

  datatype ValidationError =
    | MissingDependency(plugin: string, dependency: string)
    | CircularDependency(chain: seq<string>)

  predicate ReportsCycle(errors: seq<ValidationError>) {
    exists e :: e in errors && e.CircularDependency?
  }

  /** A dependency walk whose last plugin occurs in it before. */
  ghost predicate ClosesOnItself(g: Registered, chain: seq<string>) {
    IsWalk(g, chain) && exists k :: 0 <= k < |chain| - 1 && chain[k] == chain[|chain| - 1]
  }

  ghost predicate ChainsClose(g: Registered, errors: seq<ValidationError>) {
    forall e :: e in errors && e.CircularDependency? ==> ClosesOnItself(g, e.chain)
  }

  lemma ClosingChainHasCycle(g: Registered, chain: seq<string>)
    requires ClosesOnItself(g, chain)
    ensures HasCycle(g)
  {
    var k :| 0 <= k < |chain| - 1 && chain[k] == chain[|chain| - 1];
    var p := chain[k..];
    forall i | 0 < i < |p| ensures Edge(g, p[i - 1], p[i]) {
      assert Edge(g, chain[k + i - 1], chain[k + i]);
    }
    assert IsCycle(g, p);
  }

  function MissingOf(g: Registered, plugin: string, dependencies: seq<string>): seq<ValidationError> {
    if dependencies == [] then [] else
      (if dependencies[0] in g then [] else [MissingDependency(plugin, dependencies[0])])
      + MissingOf(g, plugin, dependencies[1..])
  }

  function MissingErrors(g: Registered, keys: seq<string>): seq<ValidationError>
    requires forall k :: k in keys ==> k in g
  {
    if keys == [] then [] else MissingOf(g, keys[0], g[keys[0]].dependencies) + MissingErrors(g, keys[1..])
  }

  lemma {:induction false} MissingOfAppend(g: Registered, plugin: string, dependencies: seq<string>, d: string)
    ensures MissingOf(g, plugin, dependencies + [d]) == MissingOf(g, plugin, dependencies) + MissingOf(g, plugin, [d])
  {
    if dependencies == [] {
      assert dependencies + [d] == [d];
    } else {
      assert (dependencies + [d])[1..] == dependencies[1..] + [d];
      MissingOfAppend(g, plugin, dependencies[1..], d);
    }
  }

  lemma {:induction false} MissingErrorsAppend(g: Registered, keys: seq<string>, k: string)
    requires k in g && forall k :: k in keys ==> k in g
    ensures MissingErrors(g, keys + [k]) == MissingErrors(g, keys) + MissingOf(g, k, g[k].dependencies)
  {
    if keys == [] {
      assert keys + [k] == [k];
    } else {
      assert (keys + [k])[1..] == keys[1..] + [k];
      MissingErrorsAppend(g, keys[1..], k);
    }
  }

  /** A missing-dependency error is reported for exactly the declared, unregistered dependencies. */
  lemma {:induction false} MissingErrorsExact(g: Registered, keys: seq<string>, e: ValidationError)
    requires forall k :: k in keys ==> k in g
    ensures e in MissingErrors(g, keys) <==>
              e.MissingDependency? && e.plugin in keys && e.dependency in g[e.plugin].dependencies && e.dependency !in g
  {
    if keys != [] {
      MissingOfExact(g, keys[0], g[keys[0]].dependencies, e);
      MissingErrorsExact(g, keys[1..], e);
    }
  }

  lemma {:induction false} MissingOfExact(g: Registered, plugin: string, dependencies: seq<string>, e: ValidationError)
    ensures e in MissingOf(g, plugin, dependencies) <==>
              e.MissingDependency? && e.plugin == plugin && e.dependency in dependencies && e.dependency !in g
  {
    if dependencies != [] {
      MissingOfExact(g, plugin, dependencies[1..], e);
    }
  }

  /** The variables the nested search function closes over. */
  class DependencySearch {
    const g: Registered
    var visited: set<string>
    var stack: seq<string>
    var order: seq<string>
    var errors: seq<ValidationError>

    /** Visited plugins are exactly the ordered ones; the stack is a dependency walk of unvisited plugins;
        a reported chain closes on itself; and as long as none is reported, the order is topological. */
    ghost predicate Valid()
      reads this
    {
      && (forall id :: id in visited <==> id in order)
      && NoRepeats(order) && NoRepeats(stack)
      && (forall id :: id in order ==> id in g)
      && (forall id :: id in stack ==> id in g && id !in visited)
      && (stack != [] ==> IsWalk(g, stack))
      && ChainsClose(g, errors)
      && (!ReportsCycle(errors) ==> Topological(g, order))
    }

    constructor (g: Registered, errors: seq<ValidationError>)
      requires !ReportsCycle(errors)
      ensures Valid() && this.g == g && visited == {} && stack == [] && order == [] && this.errors == errors
    {
      this.g := g;
      visited, stack, order, this.errors := {}, [], [], errors;
    }

    /** Closing the stack at `id` gives a chain that closes on itself. */
    lemma StackCloses(id: string)
      requires Valid() && id in stack && Edge(g, stack[|stack| - 1], id)
      ensures ClosesOnItself(g, stack + [id])
    {
      var k :| 0 <= k < |stack| && stack[k] == id;
      var chain := stack + [id];
      forall i | 0 < i < |chain| ensures Edge(g, chain[i - 1], chain[i]) {
        assert chain[i - 1] == stack[i - 1];
        if i < |stack| {
          assert Edge(g, stack[i - 1], stack[i]);
        }
      }
      assert chain[k] == chain[|chain| - 1];
    }

    method Visit(id: string)
      requires Valid() && id in g
      requires stack != [] ==> Edge(g, stack[|stack| - 1], id)
      modifies this
      ensures Valid() && stack == old(stack)
      ensures old(visited) <= visited && old(order) <= order && old(errors) <= errors
      ensures forall i :: |old(errors)| <= i < |errors| ==> errors[i].CircularDependency?
      ensures id in visited || (id in stack && ReportsCycle(errors))
      ensures id in old(stack) ==>
        visited == old(visited) && order == old(order) && errors == old(errors) + [CircularDependency(stack + [id])]
      ensures id in old(visited) ==> visited == old(visited) && order == old(order) && errors == old(errors)
      ensures id !in old(stack) && id !in old(visited) ==> order != [] && order[|order| - 1] == id
      decreases g.Keys - visited - (set s | s in stack)
    {
      hide HasCycle, IsWalk, Topological, ClosesOnItself;
      if id in stack {
        StackCloses(id);
        errors := errors + [CircularDependency(stack + [id])];
        assert errors[|errors| - 1] in errors;
        return;
      }
      if id in visited {
        return;
      }
      Push(id);
      var dependencies := g[id].dependencies;
      for i := 0 to |dependencies|
        invariant Valid() && stack == old(stack) + [id]
        invariant old(visited) <= visited && old(order) <= order && old(errors) <= errors
        invariant forall i :: |old(errors)| <= i < |errors| ==> errors[i].CircularDependency?
        invariant forall k :: 0 <= k < i && dependencies[k] in g ==> dependencies[k] in visited || ReportsCycle(errors)
      {
        if dependencies[i] in g {
          assert Edge(g, stack[|stack| - 1], dependencies[i]);
          assert id in stack && id in old(g.Keys - visited - (set s | s in stack));
          assert forall s :: s in old(stack) ==> s in stack;
          Visit(dependencies[i]);
        }
      }
      Pop(id);
    }

    method Push(id: string)
      requires Valid() && id in g && id !in stack && id !in visited
      requires stack != [] ==> Edge(g, stack[|stack| - 1], id)
      modifies this`stack
      ensures Valid() && stack == old(stack) + [id]
    {
      stack := stack + [id];
    }

    /** Post-order: the plugin leaves the stack and joins the order after its dependencies. */
    method Pop(id: string)
      requires Valid() && stack != [] && stack[|stack| - 1] == id
      requires forall d :: Edge(g, id, d) ==> d in visited || ReportsCycle(errors)
      modifies this`stack, this`visited, this`order
      ensures Valid() && stack == old(stack)[..|old(stack)| - 1]
      ensures visited == old(visited) + {id} && order == old(order) + [id]
    {
      ghost var before := order;
      stack := stack[..|stack| - 1];
      visited := visited + {id};
      order := order + [id];
      if !ReportsCycle(errors) {
        forall i, d | 0 <= i < |order| && Edge(g, order[i], d) ensures d in order[..i] {
          if i < |before| {
            assert order[..i] == before[..i];
          } else {
            assert order[..i] == before;
          }
        }
      }
    }
  }

  /** validateAndTopologicalSort: the order lists every registered plugin once on any graph; a circular
      dependency is reported iff the registered graph has a cycle; without one, dependencies come first. */
  method ValidateAndTopologicalSort(g: Registered, keys: seq<string>)
    returns (order: seq<string>, errors: seq<ValidationError>)
    requires NoRepeats(keys) && forall id :: id in keys <==> id in g
    ensures NoRepeats(order) && forall id :: id in order <==> id in g
    ensures ReportsCycle(errors) <==> HasCycle(g)
    ensures ChainsClose(g, errors)
    ensures !HasCycle(g) ==> Topological(g, order)
    ensures MissingErrors(g, keys) <= errors
    ensures forall i :: |MissingErrors(g, keys)| <= i < |errors| ==> errors[i].CircularDependency?
  {
    errors := CollectMissing(g, keys);
    ghost var missing := errors;
    assert !ReportsCycle(errors) by {
      forall e | e in errors ensures !e.CircularDependency? {
        MissingErrorsExact(g, keys, e);
      }
    }
    var search := new DependencySearch(g, errors);
    for i := 0 to |keys|
      invariant fresh(search) && search.g == g && search.Valid() && search.stack == []
      invariant missing <= search.errors
      invariant forall e :: |missing| <= e < |search.errors| ==> search.errors[e].CircularDependency?
      invariant forall k :: 0 <= k < i ==> keys[k] in search.visited
    {
      search.Visit(keys[i]);
    }
    order := search.order;
    if ReportsCycle(search.errors) {
      var e :| e in search.errors && e.CircularDependency?;
      ClosingChainHasCycle(g, e.chain);
    } else {
      TopologicalHasNoCycle(g, order);
    }
    errors := search.errors;
  }

  /** The first pass: missing dependencies, plugin by plugin. */
  method CollectMissing(g: Registered, keys: seq<string>) returns (errors: seq<ValidationError>)
    requires forall id :: id in keys ==> id in g
    ensures errors == MissingErrors(g, keys)
  {
    errors := [];
    for i := 0 to |keys|
      invariant errors == MissingErrors(g, keys[..i])
    {
      var dependencies := g[keys[i]].dependencies;
      ghost var before := errors;
      for j := 0 to |dependencies|
        invariant errors == before + MissingOf(g, keys[i], dependencies[..j])
      {
        MissingOfAppend(g, keys[i], dependencies[..j], dependencies[j]);
        assert dependencies[..j + 1] == dependencies[..j] + [dependencies[j]];
        if dependencies[j] !in g {
          errors := errors + [MissingDependency(keys[i], dependencies[j])];
        }
      }
      assert dependencies[..|dependencies|] == dependencies;
      MissingErrorsAppend(g, keys[..i], keys[i]);
      assert keys[..i + 1] == keys[..i] + [keys[i]];
    }
    assert keys[..|keys|] == keys;
  }

  // ----- Activation -----

  /** The registry's state during bootstrap. `throwing` are the plugins whose activation throws. */
  class Registry {
    const throwing: set<string>
    var plugins: Registered
    var keys: seq<string>
    var activated: seq<string>
    var disabled: seq<string>
    var failed: set<string>
    var activating: seq<string>

    ghost function DisabledSet(): set<string>
      reads this`disabled
    {
      set id | id in disabled
    }

    ghost function Can(): set<string>
      reads this`plugins, this`disabled
    {
      Activatable(plugins, DisabledSet(), throwing)
    }

    /** An activated plugin can activate and stands after its dependencies; a failed one cannot; the
        plugins being activated form a dependency walk. */
    ghost predicate Valid()
      reads this
    {
      && NoRepeats(keys) && (forall id :: id in keys <==> id in plugins)
      && NoRepeats(activated)
      && (forall i :: 0 <= i < |activated| ==> activated[i] in Can())
      && (forall i, d :: 0 <= i < |activated| && activated[i] in plugins && d in plugins[activated[i]].dependencies ==>
            d in activated[..i])
      && failed !! Can()
      && (activating != [] ==> IsWalk(plugins, activating))
      && NoRepeats(activating) && (forall id :: id in activating ==> id !in activated)
    }

    constructor (throwing: set<string>)
      ensures Valid() && this.throwing == throwing && plugins == map[] && keys == []
      ensures activated == [] && disabled == [] && failed == {} && activating == []
    {
      this.throwing := throwing;
      plugins, keys, activated, disabled, failed, activating := map[], [], [], [], {}, [];
    }

    /** registerPlugin: the first registration of an id wins. */
    method Register(plugin: Plugin)
      requires Valid() && activated == [] && failed == {} && activating == []
      modifies this`plugins, this`keys
      ensures Valid()
      ensures keys == if plugin.id in old(plugins) then old(keys) else old(keys) + [plugin.id]
      ensures plugins == if plugin.id in old(plugins) then old(plugins) else old(plugins)[plugin.id := plugin]
    {
      if plugin.id in plugins {
        return;
      }
      plugins := plugins[plugin.id := plugin];
      keys := keys + [plugin.id];
    }

    /** A plugin that is already being activated closes a dependency cycle. */
    lemma ActivatingCloses(id: string)
      requires Valid() && id in activating && activating[|activating| - 1] in plugins
      requires id in plugins[activating[|activating| - 1]].dependencies
      ensures id !in Can()
    {
      var k :| 0 <= k < |activating| && activating[k] == id;
      var p := activating[k..] + [id];
      forall i | 0 < i < |p| ensures Edge(plugins, p[i - 1], p[i]) {
        assert p[i - 1] == activating[k + i - 1];
        if i < |p| - 1 {
          assert Edge(plugins, activating[k + i - 1], activating[k + i]);
        }
      }
      assert IsCycle(plugins, p);
      forall n: nat ensures id !in Level(plugins, DisabledSet(), throwing, n) {
        CycleNeverActivates(plugins, DisabledSet(), throwing, p, n);
      }
    }

    /** A plugin can activate iff it is registered, enabled, does not throw and all it depends on can. */
    lemma CanExactly(id: string)
      ensures id in Can() <==> id in plugins && id !in disabled && id !in throwing
                               && forall d :: d in plugins[id].dependencies ==> d in Can()
    {
      hide Activatable;
      ActivatableUnfolds(plugins, DisabledSet(), throwing, id);
    }

    /** activatePlugin: `ok` is false when the source throws. It succeeds on exactly the plugins that can
        activate, having activated their dependencies first. */
    method Activate(id: string) returns (ok: bool)
      requires Valid()
      requires activating != [] ==>
        activating[|activating| - 1] in plugins && id in plugins[activating[|activating| - 1]].dependencies
      modifies this`activated, this`activating
      ensures Valid() && activating == old(activating) && old(activated) <= activated
      ensures ok <==> id in activated
      ensures ok <==> id in Can()
      decreases plugins.Keys - (set a | a in activating)
    {
      hide IsWalk, Activatable, NoRepeats;
      CanExactly(id);
      if id in activated {
        return true;
      }
      if id in disabled || id in failed {
        return false;
      }
      if id in activating {
        ActivatingCloses(id);
        return false;
      }
      if id !in plugins {
        return false;
      }
      Enter(id);
      var dependencies := plugins[id].dependencies;
      for i := 0 to |dependencies|
        invariant Valid() && activating == old(activating) + [id] && old(activated) <= activated
        invariant forall k :: 0 <= k < i ==> dependencies[k] in activated
      {
        assert id in activating && id in old(plugins.Keys - (set a | a in activating));
        assert forall a :: a in old(activating) ==> a in activating;
        var activatedDependency := Activate(dependencies[i]);
        if !activatedDependency {
          Leave(id);
          return false;
        }
      }
      if id in throwing {
        Leave(id);
        return false;
      }
      Finish(id);
      return true;
    }

    method Enter(id: string)
      requires Valid() && id in plugins && id !in activating && id !in activated
      requires activating != [] ==> Edge(plugins, activating[|activating| - 1], id)
      modifies this`activating
      ensures Valid() && activating == old(activating) + [id]
    {
      activating := activating + [id];
    }

    method Leave(id: string)
      requires Valid() && activating != [] && activating[|activating| - 1] == id
      modifies this`activating
      ensures Valid() && activating == old(activating)[..|old(activating)| - 1]
    {
      activating := activating[..|activating| - 1];
    }

    method Finish(id: string)
      requires Valid() && activating != [] && activating[|activating| - 1] == id
      requires id in Can() && id !in activated && forall d :: d in plugins[id].dependencies ==> d in activated
      modifies this`activating, this`activated
      ensures Valid() && activating == old(activating)[..|old(activating)| - 1] && activated == old(activated) + [id]
    {
      ghost var before := activated;
      activated := activated + [id];
      activating := activating[..|activating| - 1];
      forall i, d | 0 <= i < |activated| && activated[i] in plugins && d in plugins[activated[i]].dependencies
        ensures d in activated[..i]
      {
        assert activated[..i] == if i < |before| then before[..i] else before;
      }
    }

    /** Phases 1 to 3: register, validate, then activate in order, marking each plugin that throws. The
        activated list is the least set closed under "registered, enabled, does not throw, dependencies
        in", listed without repeats and dependencies first; every other enabled plugin is marked failed. */
    method Bootstrap(builtin: seq<Plugin>, disabledSetting: seq<string>) returns (errors: seq<ValidationError>)
      requires Valid() && keys == [] && plugins == map[] && activated == [] && failed == {} && activating == []
      modifies this
      ensures Valid()
      ensures plugins == FirstRegistrations(builtin)
      ensures forall id :: id in plugins <==> exists i :: FirstAt(builtin, id, i)
      ensures forall id, i :: FirstAt(builtin, id, i) ==> id in plugins && plugins[id] == builtin[i]
      ensures disabled == DisabledOf(plugins, disabledSetting)
      ensures forall id :: id in disabled <==> id in disabledSetting && id in plugins && plugins[id].canDisable
      ensures IsLeastFixedPoint(plugins, DisabledSet(), throwing, set id | id in activated)
      ensures NoRepeats(activated)
      ensures forall i, d :: 0 <= i < |activated| && d in plugins[activated[i]].dependencies ==> d in activated[..i]
      ensures forall id :: id in failed <==> id in plugins && id !in disabled && id !in activated
      ensures ReportsCycle(errors) <==> HasCycle(plugins)
    {
      hide Activatable, Topological, IsWalk, HasCycle, IsLeastFixedPoint, DisabledOf;
      RegisterAll(builtin);
      FirstWins(builtin);
      var order;
      order, errors := ValidateAndTopologicalSort(plugins, keys);
      disabled := LoadDisabled(disabledSetting);
      ActivateAll(order);
      ActivatableIsLeastFixedPoint(plugins, DisabledSet(), throwing);
    }

    /** Phase 3: one attempt per plugin, disabled ones skipped. */
    method ActivateAll(order: seq<string>)
      requires Valid() && activating == [] && failed == {} && forall id :: id in order <==> id in plugins
      modifies this`activated, this`activating, this`failed
      ensures Valid() && activating == []
      ensures (set id | id in activated) == Can() && forall id :: id in activated ==> id in plugins
      ensures forall id :: id in failed <==> id in plugins && id !in disabled && id !in activated
    {
      hide Activatable, IsWalk;
      for i := 0 to |order|
        invariant Valid() && activating == []
        invariant forall k :: 0 <= k < i ==> (order[k] in activated <==> order[k] in Can())
        invariant forall id :: id in failed <==> id in order[..i] && id !in disabled && id !in Can()
      {
        assert order[..i + 1] == order[..i] + [order[i]];
        ActivatableUnfolds(plugins, DisabledSet(), throwing, order[i]);
        if order[i] in disabled {
          continue;
        }
        var ok := Activate(order[i]);
        if !ok {
          failed := failed + {order[i]};
        }
      }
      assert order[..|order|] == order;
      forall id ensures (id in activated <==> id in Can()) && (id in activated ==> id in plugins) {
        ActivatableUnfolds(plugins, DisabledSet(), throwing, id);
        assert id in Can() ==> id in order;
      }
    }

    method RegisterAll(builtin: seq<Plugin>)
      requires Valid() && plugins == map[] && activated == [] && failed == {} && activating == []
      modifies this`plugins, this`keys
      ensures Valid() && plugins == FirstRegistrations(builtin)
    {
      hide Activatable, IsWalk;
      for i := 0 to |builtin|
        invariant Valid() && plugins == FirstRegistrations(builtin[..i])
      {
        assert builtin[..i + 1] == builtin[..i] + [builtin[i]];
        Register(builtin[i]);
      }
      assert builtin[..|builtin|] == builtin;
    }

    /** loadDisabledPlugins: only plugins that may be disabled are. */
    method LoadDisabled(disabledSetting: seq<string>) returns (out: seq<string>)
      ensures out == DisabledOf(plugins, disabledSetting)
      ensures forall id :: id in out <==> id in disabledSetting && id in plugins && plugins[id].canDisable
    {
      hide DisabledOf;
      DisabledAreChosen(plugins, disabledSetting);
      out := [];
      assert disabledSetting[0..] == disabledSetting;
      for i := 0 to |disabledSetting|
        invariant DisabledOf(plugins, disabledSetting) == out + DisabledOf(plugins, disabledSetting[i..])
      {
        DisabledStep(plugins, disabledSetting, i);
        if disabledSetting[i] in plugins && plugins[disabledSetting[i]].canDisable {
          out := out + [disabledSetting[i]];
        }
      }
      NoneDisabled(plugins, disabledSetting);
    }
  }

  /** The first plugin registered under each id. */
  function FirstRegistrations(builtin: seq<Plugin>): Registered {
    if builtin == [] then map[] else
      var plugin := builtin[|builtin| - 1];
      var before := FirstRegistrations(builtin[..|builtin| - 1]);
      if plugin.id in before then before else before[plugin.id := plugin]
  }

  /** Position `i` is the first to register the id. */
  predicate FirstAt(builtin: seq<Plugin>, id: string, i: int) {
    0 <= i < |builtin| && builtin[i].id == id && forall j :: 0 <= j < i ==> builtin[j].id != id
  }

  /** A plugin is registered when it is listed, as its first listing has it. */
  lemma {:induction false} FirstWins(builtin: seq<Plugin>)
    ensures forall id :: id in FirstRegistrations(builtin) <==> exists i :: FirstAt(builtin, id, i)
    ensures forall id, i :: FirstAt(builtin, id, i) ==>
      id in FirstRegistrations(builtin) && FirstRegistrations(builtin)[id] == builtin[i]
  {
    if builtin != [] {
      var before, last := builtin[..|builtin| - 1], builtin[|builtin| - 1];
      FirstWins(before);
      forall id, i | FirstAt(builtin, id, i) && i < |before| ensures FirstAt(before, id, i) {
      }
      forall id, i | FirstAt(before, id, i) ensures FirstAt(builtin, id, i) {
      }
      assert last.id !in FirstRegistrations(before) ==> FirstAt(builtin, last.id, |before|) by {
        NoneIsFirst(before, last.id);
      }
    }
  }

  lemma NoneIsFirst(builtin: seq<Plugin>, id: string)
    ensures (forall i :: !FirstAt(builtin, id, i)) ==> forall j :: 0 <= j < |builtin| ==> builtin[j].id != id
  {
    if j: nat :| j < |builtin| && builtin[j].id == id {
      var i := LeastAt(builtin, id, j);
    }
  }

  lemma {:induction false} LeastAt(builtin: seq<Plugin>, id: string, j: nat) returns (i: nat)
    requires j < |builtin| && builtin[j].id == id
    ensures FirstAt(builtin, id, i)
  {
    i := j;
    if k: nat :| k < j && builtin[k].id == id {
      i := LeastAt(builtin, id, k);
    }
  }

  lemma DisabledStep(g: Registered, setting: seq<string>, i: nat)
    requires i < |setting|
    ensures DisabledOf(g, setting[i..]) ==
      (if setting[i] in g && g[setting[i]].canDisable then [setting[i]] else []) + DisabledOf(g, setting[i + 1..])
  {
    assert setting[i..][1..] == setting[i + 1..];
  }

  lemma NoneDisabled(g: Registered, setting: seq<string>)
    ensures DisabledOf(g, setting[|setting|..]) == []
  {
  }

  /** The disabled plugins are exactly the chosen, registered ones that may be disabled. */
  lemma {:induction false} DisabledAreChosen(g: Registered, setting: seq<string>)
    ensures forall id :: id in DisabledOf(g, setting) <==> id in setting && id in g && g[id].canDisable
  {
    if setting != [] {
      DisabledAreChosen(g, setting[1..]);
    }
  }

  function DisabledOf(g: Registered, setting: seq<string>): seq<string> {
    if setting == [] then [] else
      (if setting[0] in g && g[setting[0]].canDisable then [setting[0]] else []) + DisabledOf(g, setting[1..])
  }
}
