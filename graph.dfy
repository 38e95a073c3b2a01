/** The reverse dependency graph: for every depended-upon component, the
    ordered list of the components that depend on it. */
module Graph {

  /** A component: the file it is declared in and its exported name
      ("Default" for a default export). Two identities are the same
      component when both fields agree. */
  datatype ComponentIdentity = ComponentIdentity(filePath: string, componentName: string)

  /** file path -> component name -> the components that depend on it. */
  type DependencyTable = map<string, map<string, seq<ComponentIdentity>>>

  /** The comparison `add_dependency` uses to detect a duplicate. */
  predicate SameComponent(x: ComponentIdentity, y: ComponentIdentity) {
    x.filePath == y.filePath && x.componentName == y.componentName
  }

  predicate HasEntryFor(list: seq<ComponentIdentity>, c: ComponentIdentity) {
    exists k :: 0 <= k < |list| && SameComponent(list[k], c)
  }

  predicate NoDuplicates(list: seq<ComponentIdentity>) {
    forall i, j :: 0 <= i < j < |list| ==> !SameComponent(list[i], list[j])
  }

  /** No dependents list of the table holds the same component twice. */
  predicate Deduplicated(data: DependencyTable) {
    forall f, n :: f in data && n in data[f] ==> NoDuplicates(data[f][n])
  }

  /** The component map of a file; a missing file has an empty one. */
  function ComponentMap(data: DependencyTable, filePath: string): map<string, seq<ComponentIdentity>> {
    if filePath in data then data[filePath] else map[]
  }

  /** The dependents of a component: a missing entry is an empty list. */
  function Dependents(data: DependencyTable, filePath: string, componentName: string): seq<ComponentIdentity> {
    var m := ComponentMap(data, filePath);
    if componentName in m then m[componentName] else []
  }

  /** The table after `add_dependency(current, dependOn)`: the entries for
      `dependOn` exist, and `current` is appended to its list unless the list
      already holds it. */
  function WithDependency(data: DependencyTable, current: ComponentIdentity, dependOn: ComponentIdentity): (r: DependencyTable)
    ensures dependOn.filePath in r && dependOn.componentName in r[dependOn.filePath]
    ensures data.Keys <= r.Keys
  {
    var list := Dependents(data, dependOn.filePath, dependOn.componentName);
    var list' := if HasEntryFor(list, current) then list else list + [current];
    data[dependOn.filePath := ComponentMap(data, dependOn.filePath)[dependOn.componentName := list']]
  }

  /** The linear scan `iter().any(...)` of `add_dependency`. */
  method AnyMatching(list: seq<ComponentIdentity>, current: ComponentIdentity) returns (found: bool)
    ensures found <==> HasEntryFor(list, current)
  {
    var i := 0;
    while i < |list|
      invariant 0 <= i <= |list|
      invariant forall k :: 0 <= k < i ==> !SameComponent(list[k], current)
    {
      if list[i].filePath == current.filePath && list[i].componentName == current.componentName {
        return true;
      }
      i := i + 1;
    }
    return false;
  }

  class DependencyGraph {
    var data: DependencyTable

    ghost predicate Valid()
      reads this
    {
      Deduplicated(data)
    }

    /** `DependencyGraph::new`: a graph with no entries. */
    constructor ()
      ensures Valid()
      ensures data == map[]
      ensures forall f, n :: Dependents(data, f, n) == []
    {
      data := map[];
    }

    /** `get_component_map`: the file's component map, created empty when
        the file has none. */
    method GetComponentMap(filePath: string) returns (componentMap: map<string, seq<ComponentIdentity>>)
      requires Valid()
      modifies this
      ensures Valid()
      ensures data == old(data)[filePath := ComponentMap(old(data), filePath)]
      ensures componentMap == ComponentMap(old(data), filePath)
      ensures forall f, n :: Dependents(data, f, n) == Dependents(old(data), f, n)
    {
      if filePath !in data {
        data := data[filePath := map[]];
      }
      componentMap := data[filePath];
    }

    /** `get_dependency_list`: the component's dependents list, with the
        file and component entries created when missing. Creating them
        changes no list. */
    method GetDependencyList(filePath: string, componentName: string) returns (list: seq<ComponentIdentity>)
      requires Valid()
      modifies this
      ensures Valid()
      ensures data == old(data)[filePath := ComponentMap(old(data), filePath)[componentName := Dependents(old(data), filePath, componentName)]]
      ensures list == Dependents(old(data), filePath, componentName)
      ensures forall f, n :: Dependents(data, f, n) == Dependents(old(data), f, n)
    {
      var componentMap := GetComponentMap(filePath);
      if componentName !in componentMap {
        componentMap := componentMap[componentName := []];
        data := data[filePath := componentMap];
      } else {
        assert componentMap[componentName := componentMap[componentName]] == componentMap;
      }
      list := componentMap[componentName];
    }

    /** `add_dependency`: records that `current` depends on `dependOn`. */
    method AddDependency(current: ComponentIdentity, dependOn: ComponentIdentity)
      requires Valid()
      modifies this
      ensures Valid()
      ensures data == WithDependency(old(data), current, dependOn)
      ensures HasEntryFor(Dependents(data, dependOn.filePath, dependOn.componentName), current)
    {
      WithDependencyRecords(data, current, dependOn);
      WithDependencyKeepsDeduplicated(data, current, dependOn);
      var list := GetDependencyList(dependOn.filePath, dependOn.componentName);
      var found := AnyMatching(list, current);
      if found {
        return;
      }
      ghost var m := ComponentMap(old(data), dependOn.filePath);
      assert data[dependOn.filePath][dependOn.componentName := list + [current]]
          == m[dependOn.componentName := list + [current]];
      data := data[dependOn.filePath := data[dependOn.filePath][dependOn.componentName := list + [current]]];
    }
  }

  // Properties of add_dependency

  /** Afterwards the dependee's list holds the dependent. */
  lemma WithDependencyRecords(data: DependencyTable, current: ComponentIdentity, dependOn: ComponentIdentity)
    ensures HasEntryFor(Dependents(WithDependency(data, current, dependOn), dependOn.filePath, dependOn.componentName), current)
  {
    var list := Dependents(data, dependOn.filePath, dependOn.componentName);
    if !HasEntryFor(list, current) {
      assert (list + [current])[|list|] == current;
    }
  }

  /** The list changes exactly when it did not already hold the dependent,
      and then only by appending it at the end. */
  lemma WithDependencyAppendsOrKeeps(data: DependencyTable, current: ComponentIdentity, dependOn: ComponentIdentity)
    ensures var before := Dependents(data, dependOn.filePath, dependOn.componentName);
            var after := Dependents(WithDependency(data, current, dependOn), dependOn.filePath, dependOn.componentName);
            (HasEntryFor(before, current) ==> after == before) &&
            (!HasEntryFor(before, current) ==> after == before + [current])
  {
  }

  /** Every other list is unchanged, and the only key that may be added is
      the dependee's file and component. */
  lemma WithDependencyFrame(data: DependencyTable, current: ComponentIdentity, dependOn: ComponentIdentity)
    ensures var data' := WithDependency(data, current, dependOn);
            && data'.Keys == data.Keys + {dependOn.filePath}
            && ComponentMap(data', dependOn.filePath).Keys == ComponentMap(data, dependOn.filePath).Keys + {dependOn.componentName}
            && (forall f :: f in data && f != dependOn.filePath ==> data'[f] == data[f])
            && (forall f, n :: (f, n) != (dependOn.filePath, dependOn.componentName) ==>
                  Dependents(data', f, n) == Dependents(data, f, n))
  {
  }

  /** Nothing is removed: every list of the old table is a prefix of the
      corresponding list of the new one. */
  lemma WithDependencyGrows(data: DependencyTable, current: ComponentIdentity, dependOn: ComponentIdentity)
    ensures var data' := WithDependency(data, current, dependOn);
            forall f, n :: Dependents(data, f, n) <= Dependents(data', f, n)
  {
  }

  /** No list ever holds the same component twice. */
  lemma WithDependencyKeepsDeduplicated(data: DependencyTable, current: ComponentIdentity, dependOn: ComponentIdentity)
    requires Deduplicated(data)
    ensures Deduplicated(WithDependency(data, current, dependOn))
  {
    var data' := WithDependency(data, current, dependOn);
    var list := Dependents(data, dependOn.filePath, dependOn.componentName);
    assert NoDuplicates(list);
    forall f, n | f in data' && n in data'[f]
      ensures NoDuplicates(data'[f][n])
    {
      if (f, n) == (dependOn.filePath, dependOn.componentName) && !HasEntryFor(list, current) {
        var l := list + [current];
        forall i, j | 0 <= i < j < |l|
          ensures !SameComponent(l[i], l[j])
        {
          if j == |list| {
            assert l[i] == list[i];
          }
        }
      } else {
        assert data'[f][n] == Dependents(data, f, n);
      }
    }
  }

  /** Adding the same dependency twice is the same as adding it once. */
  lemma WithDependencyIdempotent(data: DependencyTable, current: ComponentIdentity, dependOn: ComponentIdentity)
    ensures WithDependency(WithDependency(data, current, dependOn), current, dependOn) == WithDependency(data, current, dependOn)
  {
    var data' := WithDependency(data, current, dependOn);
    WithDependencyRecords(data, current, dependOn);
    var m := ComponentMap(data', dependOn.filePath);
    assert m[dependOn.componentName := m[dependOn.componentName]] == m;
    assert data'[dependOn.filePath := m] == data';
  }

  /** Adding a dependency to an empty list leaves it with exactly that one
      entry, however often it is repeated. */
  lemma WithDependencyTwiceOneEntry(data: DependencyTable, current: ComponentIdentity, dependOn: ComponentIdentity)
    requires Dependents(data, dependOn.filePath, dependOn.componentName) == []
    ensures var data' := WithDependency(WithDependency(data, current, dependOn), current, dependOn);
            Dependents(data', dependOn.filePath, dependOn.componentName) == [current]
  {
    WithDependencyIdempotent(data, current, dependOn);
  }
}
