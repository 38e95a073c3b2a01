/** The import declarations of a module, as the parser hands them to the
    visitor, and the bindings of local names they introduce. */
module Imports {
  import opened Wrappers
  import opened Graph

  /** The name a named specifier imports: an identifier or a string
      literal (`import { "a-b" as x }`). */
  datatype ModuleExportName = Ident(sym: string) | Str(value: string)

  /** `import X`, `import { a }` / `import { a as X }`, `import * as X`. */
  datatype ImportSpecifier =
    | Default(local: string)
    | Named(local: string, imported: Option<ModuleExportName>)
    | Namespace(local: string)

  /** `import <specifiers> from "<src>"`. */
  datatype ImportDecl = ImportDecl(src: string, specifiers: seq<ImportSpecifier>)

  /** The component name recorded for a default import. */
  const DefaultComponent := "Default"

  /** The original name a named specifier refers to: the imported
      identifier; the local name when there is none or when it is a string
      literal. */
  function OriginalName(local: string, imported: Option<ModuleExportName>): string {
    match imported
    case Some(Ident(sym)) => sym
    case _ => local
  }

  /** Whether the visitor records a binding for the specifier: namespace
      imports are skipped. */
  predicate Binds(s: ImportSpecifier) {
    !s.Namespace?
  }

  /** The component a binding specifier names, in the module at
      `resolved`. */
  function BoundComponent(resolved: string, s: ImportSpecifier): ComponentIdentity
    requires Binds(s)
  {
    match s
    case Default(_) => ComponentIdentity(resolved, DefaultComponent)
    case Named(local, imported) => ComponentIdentity(resolved, OriginalName(local, imported))
  }

  /** The imports table after one specifier: a binding specifier inserts
      (or overwrites) its local name. */
  function Bind(imports: map<string, ComponentIdentity>, resolved: string, s: ImportSpecifier): map<string, ComponentIdentity> {
    if Binds(s) then imports[s.local := BoundComponent(resolved, s)] else imports
  }

  /** The imports table after the specifiers of one declaration, taken in
      order, all resolved to the same module. */
  function BindAll(imports: map<string, ComponentIdentity>, resolved: string, specs: seq<ImportSpecifier>): map<string, ComponentIdentity>
    decreases |specs|
  {
    if specs == [] then imports
    else Bind(BindAll(imports, resolved, specs[..|specs| - 1]), resolved, specs[|specs| - 1])
  }

  /** The local names the specifiers bind. */
  function BoundNames(specs: seq<ImportSpecifier>): set<string> {
    set k | 0 <= k < |specs| && Binds(specs[k]) :: specs[k].local
  }

  /** The names in the table are the old ones and the bound ones. */
  lemma {:induction false} BindAllNames(imports: map<string, ComponentIdentity>, resolved: string, specs: seq<ImportSpecifier>)
    ensures BindAll(imports, resolved, specs).Keys == imports.Keys + BoundNames(specs)
    decreases |specs|
  {
    if specs != [] {
      var init := specs[..|specs| - 1];
      BindAllNames(imports, resolved, init);
      assert BoundNames(specs) == BoundNames(init) + (if Binds(specs[|specs| - 1]) then {specs[|specs| - 1].local} else {}) by {
        forall x | x in BoundNames(specs) ensures x in BoundNames(init) || (Binds(specs[|specs| - 1]) && x == specs[|specs| - 1].local) {
          var k :| 0 <= k < |specs| && Binds(specs[k]) && specs[k].local == x;
          if k < |specs| - 1 { assert init[k] == specs[k]; }
        }
        forall x | x in BoundNames(init) ensures x in BoundNames(specs) {
          var k :| 0 <= k < |init| && Binds(init[k]) && init[k].local == x;
          assert specs[k] == init[k];
        }
      }
    }
  }

  /** A name no specifier binds keeps its old binding, or stays unbound;
      namespace specifiers in particular change nothing. */
  lemma {:induction false} BindAllKeepsUnbound(imports: map<string, ComponentIdentity>, resolved: string, specs: seq<ImportSpecifier>, name: string)
    requires forall k :: 0 <= k < |specs| && Binds(specs[k]) ==> specs[k].local != name
    ensures name in BindAll(imports, resolved, specs) <==> name in imports
    ensures name in imports ==> BindAll(imports, resolved, specs)[name] == imports[name]
    decreases |specs|
  {
    if specs != [] {
      var init := specs[..|specs| - 1];
      assert forall k :: 0 <= k < |init| ==> init[k] == specs[k];
      BindAllKeepsUnbound(imports, resolved, init, name);
    }
  }

  /** Last binding wins: a name ends up bound to the component of the last
      specifier that binds it — (resolved, "Default") for a default
      specifier, (resolved, original name) for a named one. */
  lemma {:induction false} BindAllLastWins(imports: map<string, ComponentIdentity>, resolved: string, specs: seq<ImportSpecifier>, k: nat)
    requires k < |specs| && Binds(specs[k])
    requires forall j :: k < j < |specs| && Binds(specs[j]) ==> specs[j].local != specs[k].local
    ensures specs[k].local in BindAll(imports, resolved, specs)
    ensures BindAll(imports, resolved, specs)[specs[k].local] == BoundComponent(resolved, specs[k])
    decreases |specs|
  {
    var init := specs[..|specs| - 1];
    if k < |specs| - 1 {
      assert forall j :: 0 <= j < |init| ==> init[j] == specs[j];
      BindAllLastWins(imports, resolved, init, k);
    }
  }

  /** Every binding one declaration makes refers to its single resolved
      module. */
  lemma {:induction false} BindAllSharesPath(imports: map<string, ComponentIdentity>, resolved: string, specs: seq<ImportSpecifier>)
    ensures forall name :: name in BindAll(imports, resolved, specs) && name in BoundNames(specs) ==>
              BindAll(imports, resolved, specs)[name].filePath == resolved
    decreases |specs|
  {
    if specs != [] {
      var init := specs[..|specs| - 1];
      BindAllSharesPath(imports, resolved, init);
      forall name | name in BindAll(imports, resolved, specs) && name in BoundNames(specs)
        ensures BindAll(imports, resolved, specs)[name].filePath == resolved
      {
        var last := specs[|specs| - 1];
        if !(Binds(last) && last.local == name) {
          var k :| 0 <= k < |specs| && Binds(specs[k]) && specs[k].local == name;
          assert k < |init| && init[k] == specs[k];
        }
      }
    }
  }

  /** `import { Foo as Bar } from m` binds Bar to m's Foo. */
  lemma AliasBindsOriginalName(imports: map<string, ComponentIdentity>, resolved: string, original: string, alias: string)
    ensures BindAll(imports, resolved, [Named(alias, Some(Ident(original)))])[alias] == ComponentIdentity(resolved, original)
  {
    assert [Named(alias, Some(Ident(original)))][..0] == [];
  }
}
