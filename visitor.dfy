/** The dependency visitor: it holds the graph, the project root, the file
    being processed and that file's table of imported names, resolves the
    specifier of every import declaration of the file and binds the names
    the declaration introduces. */
module Visitor {
  import opened Wrappers
  import opened Paths
  import opened Graph
  import opened Imports
  import opened Resolution

  /** Why processing a file stopped: the file could not be loaded or
      parsed, or one of its specifiers did not resolve. */
  datatype FileError = ParseFailed | Unresolved(error: ResolveError)

  /** The imports table after the declarations of a file, and the error of
      the first declaration that did not resolve, if any; a failure stops
      the processing, so later declarations bind nothing. */
  datatype Extraction = Extraction(imports: map<string, ComponentIdentity>, failure: Option<ResolveError>)

  /** The fold over a file's declarations, in source order, for a given
      way of resolving a specifier: each declaration binds its names with
      its one resolved path, and the first one that does not resolve stops
      the fold. */
  function ExtractWith(resolve: string -> Result<Path, ResolveError>,
                       imports: map<string, ComponentIdentity>, decls: seq<ImportDecl>): Extraction
    decreases |decls|
  {
    if decls == [] then Extraction(imports, None)
    else
      var prev := ExtractWith(resolve, imports, decls[..|decls| - 1]);
      if prev.failure.Some? then prev
      else match resolve(decls[|decls| - 1].src)
        case Err(e) => Extraction(prev.imports, Some(e))
        case Ok(p) => Extraction(BindAll(prev.imports, PathString(p), decls[|decls| - 1].specifiers), None)
  }

  /** The fold with `resolve_module_path` of the current file. */
  function ExtractImports(fs: FileSystem, projectRoot: Path, currentFile: Path,
                          imports: map<string, ComponentIdentity>, decls: seq<ImportDecl>): Extraction
  {
    ExtractWith(s => ResolveModule(fs, projectRoot, currentFile, s), imports, decls)
  }

  /** The fold succeeds exactly when every declaration's specifier
      resolves. */
  lemma {:induction false} ExtractWithSucceeds(resolve: string -> Result<Path, ResolveError>,
                                               imports: map<string, ComponentIdentity>, decls: seq<ImportDecl>)
    ensures ExtractWith(resolve, imports, decls).failure.None? <==>
              forall k :: 0 <= k < |decls| ==> resolve(decls[k].src).Ok?
    decreases |decls|
  {
    if decls != [] {
      var init := decls[..|decls| - 1];
      assert forall k :: 0 <= k < |init| ==> init[k] == decls[k];
      ExtractWithSucceeds(resolve, imports, init);
    }
  }

  /** One more declaration: after a successful prefix, the next
      declaration either fails with its resolution error or binds its names
      with its resolved path. */
  lemma ExtractImportsNext(fs: FileSystem, projectRoot: Path, currentFile: Path,
                           imports: map<string, ComponentIdentity>, decls: seq<ImportDecl>, i: nat)
    requires i < |decls|
    requires ExtractImports(fs, projectRoot, currentFile, imports, decls[..i]).failure.None?
    ensures var prev := ExtractImports(fs, projectRoot, currentFile, imports, decls[..i]);
            var x := ExtractImports(fs, projectRoot, currentFile, imports, decls[..i + 1]);
            match ResolveModule(fs, projectRoot, currentFile, decls[i].src)
            case Err(e) => x == Extraction(prev.imports, Some(e))
            case Ok(p) => x == Extraction(BindAll(prev.imports, PathString(p), decls[i].specifiers), None)
  {
    assert decls[..i + 1][..i] == decls[..i];
  }

  /** Extraction succeeds exactly when every declaration's specifier
      resolves. */
  lemma ExtractImportsSucceeds(fs: FileSystem, projectRoot: Path, currentFile: Path,
                               imports: map<string, ComponentIdentity>, decls: seq<ImportDecl>)
    ensures ExtractImports(fs, projectRoot, currentFile, imports, decls).failure.None? <==>
              forall k :: 0 <= k < |decls| ==> ResolveModule(fs, projectRoot, currentFile, decls[k].src).Ok?
  {
    ExtractWithSucceeds(s => ResolveModule(fs, projectRoot, currentFile, s), imports, decls);
  }

  /** A failed extraction reports the error of the first declaration whose
      specifier does not resolve. */
  lemma {:induction false} ExtractImportsFirstFailure(fs: FileSystem, projectRoot: Path, currentFile: Path,
                                                      imports: map<string, ComponentIdentity>, decls: seq<ImportDecl>)
    ensures var x := ExtractImports(fs, projectRoot, currentFile, imports, decls);
            x.failure.Some? ==>
              exists k :: 0 <= k < |decls| && ResolveModule(fs, projectRoot, currentFile, decls[k].src) == Err(x.failure.value) &&
                          forall j :: 0 <= j < k ==> ResolveModule(fs, projectRoot, currentFile, decls[j].src).Ok?
    decreases |decls|
  {
    if decls != [] {
      var init := decls[..|decls| - 1];
      assert forall k :: 0 <= k < |init| ==> init[k] == decls[k];
      ExtractImportsFirstFailure(fs, projectRoot, currentFile, imports, init);
      ExtractImportsSucceeds(fs, projectRoot, currentFile, imports, init);
    }
  }

  /** Fail-fast: extraction succeeds exactly when every declaration's
      specifier resolves, and otherwise reports the error of the first one
      that does not. */
  lemma ExtractImportsFailsFast(fs: FileSystem, projectRoot: Path, currentFile: Path,
                                imports: map<string, ComponentIdentity>, decls: seq<ImportDecl>)
    ensures var x := ExtractImports(fs, projectRoot, currentFile, imports, decls);
            && (x.failure.None? <==> forall k :: 0 <= k < |decls| ==> ResolveModule(fs, projectRoot, currentFile, decls[k].src).Ok?)
            && (x.failure.Some? ==>
                  exists k :: 0 <= k < |decls| && ResolveModule(fs, projectRoot, currentFile, decls[k].src) == Err(x.failure.value) &&
                              forall j :: 0 <= j < k ==> ResolveModule(fs, projectRoot, currentFile, decls[j].src).Ok?)
  {
    ExtractImportsSucceeds(fs, projectRoot, currentFile, imports, decls);
    ExtractImportsFirstFailure(fs, projectRoot, currentFile, imports, decls);
  }

  /** The local names the declarations of a file bind, over all of them. */
  function FileBoundNames(decls: seq<ImportDecl>): set<string>
    decreases |decls|
  {
    if decls == [] then {}
    else FileBoundNames(decls[..|decls| - 1]) + BoundNames(decls[|decls| - 1].specifiers)
  }

  /** When every declaration resolves, the table's names are the old ones
      and exactly those that some default or named specifier of the file
      binds. */
  lemma {:induction false} ExtractImportsNames(fs: FileSystem, projectRoot: Path, currentFile: Path,
                                               imports: map<string, ComponentIdentity>, decls: seq<ImportDecl>)
    ensures ExtractImports(fs, projectRoot, currentFile, imports, decls).failure.None? ==>
              ExtractImports(fs, projectRoot, currentFile, imports, decls).imports.Keys == imports.Keys + FileBoundNames(decls)
    decreases |decls|
  {
    if decls != [] {
      var init := decls[..|decls| - 1];
      var last := decls[|decls| - 1];
      ExtractImportsNames(fs, projectRoot, currentFile, imports, init);
      var prev := ExtractImports(fs, projectRoot, currentFile, imports, init);
      var r := ResolveModule(fs, projectRoot, currentFile, last.src);
      if prev.failure.None? && r.Ok? {
        BindAllNames(prev.imports, PathString(r.value), last.specifiers);
      }
    }
  }

  /** Across a whole file, a name is bound to the component of the last
      specifier, in the last declaration, that binds it: an earlier import
      of the same local name is overwritten. */
  lemma {:induction false} ExtractImportsLastWins(fs: FileSystem, projectRoot: Path, currentFile: Path,
                                                  imports: map<string, ComponentIdentity>, decls: seq<ImportDecl>,
                                                  k: nat, s: nat)
    requires ExtractImports(fs, projectRoot, currentFile, imports, decls).failure.None?
    requires k < |decls| && s < |decls[k].specifiers| && Binds(decls[k].specifiers[s])
    requires forall t :: s < t < |decls[k].specifiers| && Binds(decls[k].specifiers[t]) ==>
               decls[k].specifiers[t].local != decls[k].specifiers[s].local
    requires forall j, t :: k < j < |decls| && 0 <= t < |decls[j].specifiers| && Binds(decls[j].specifiers[t]) ==>
               decls[j].specifiers[t].local != decls[k].specifiers[s].local
    ensures ResolveModule(fs, projectRoot, currentFile, decls[k].src).Ok?
    ensures var name := decls[k].specifiers[s].local;
            var resolved := PathString(ResolveModule(fs, projectRoot, currentFile, decls[k].src).value);
            var x := ExtractImports(fs, projectRoot, currentFile, imports, decls);
            name in x.imports && x.imports[name] == BoundComponent(resolved, decls[k].specifiers[s])
    decreases |decls|
  {
    var init := decls[..|decls| - 1];
    var last := decls[|decls| - 1];
    var prev := ExtractImports(fs, projectRoot, currentFile, imports, init);
    assert prev.failure.None?;
    var r := ResolveModule(fs, projectRoot, currentFile, last.src);
    assert r.Ok?;
    var name := decls[k].specifiers[s].local;
    if k == |decls| - 1 {
      BindAllLastWins(prev.imports, PathString(r.value), last.specifiers, s);
    } else {
      assert forall j :: 0 <= j < |init| ==> init[j] == decls[j];
      ExtractImportsLastWins(fs, projectRoot, currentFile, imports, init, k, s);
      BindAllKeepsUnbound(prev.imports, PathString(r.value), last.specifiers, name);
    }
  }

  /** The component lives in a file that exists: its path is the string of
      an existing path. */
  ghost predicate InExistingFile(fs: FileSystem, c: ComponentIdentity) {
    exists p :: Exists(fs, p) && c.filePath == PathString(p)
  }

  /** Every name a file's imports bind refers to a component of a file that
      exists. */
  lemma {:induction false} ExtractedComponentsExist(fs: FileSystem, projectRoot: Path, currentFile: Path, decls: seq<ImportDecl>)
    ensures forall name :: name in ExtractImports(fs, projectRoot, currentFile, map[], decls).imports ==>
              InExistingFile(fs, ExtractImports(fs, projectRoot, currentFile, map[], decls).imports[name])
    decreases |decls|
  {
    if decls != [] {
      var init := decls[..|decls| - 1];
      ExtractedComponentsExist(fs, projectRoot, currentFile, init);
      var prev := ExtractImports(fs, projectRoot, currentFile, map[], init);
      var last := decls[|decls| - 1];
      var r := ResolveModule(fs, projectRoot, currentFile, last.src);
      if prev.failure.None? && r.Ok? {
        ResolvedPathExists(fs, projectRoot, currentFile, last.src);
        var m := BindAll(prev.imports, PathString(r.value), last.specifiers);
        BindAllSharesPath(prev.imports, PathString(r.value), last.specifiers);
        forall name | name in m
          ensures InExistingFile(fs, m[name])
        {
          if name in BoundNames(last.specifiers) {
            assert Exists(fs, r.value) && m[name].filePath == PathString(r.value);
          } else {
            BindAllKeepsUnbound(prev.imports, PathString(r.value), last.specifiers, name);
            assert name in prev.imports;
            assert InExistingFile(fs, prev.imports[name]);
            assert m[name] == prev.imports[name];
          }
        }
      }
    }
  }

  /** Once a declaration has failed to resolve, the later ones change
      nothing. */
  lemma {:induction false} ExtractImportsStops(fs: FileSystem, projectRoot: Path, currentFile: Path,
                                               imports: map<string, ComponentIdentity>, decls: seq<ImportDecl>, i: nat)
    requires i <= |decls|
    requires ExtractImports(fs, projectRoot, currentFile, imports, decls[..i]).failure.Some?
    ensures ExtractImports(fs, projectRoot, currentFile, imports, decls) ==
            ExtractImports(fs, projectRoot, currentFile, imports, decls[..i])
    decreases |decls| - i
  {
    if i < |decls| {
      var init := decls[..|decls| - 1];
      assert init[..i] == decls[..i];
      ExtractImportsStops(fs, projectRoot, currentFile, imports, init, i);
    } else {
      assert decls[..i] == decls;
    }
  }

  class DependencyVisitor {
    var graph: DependencyGraph
    const projectRoot: Path
    var currentFile: Path
    var currentImports: map<string, ComponentIdentity>

    /** `DependencyVisitor::new`: an empty graph, no current file and no
        imports. */
    constructor (projectRoot: string)
      ensures this.projectRoot == ParsePath(projectRoot)
      ensures currentFile == EmptyPath && currentImports == map[]
      ensures fresh(graph) && graph.Valid() && graph.data == map[]
    {
      graph := new DependencyGraph();
      this.projectRoot := ParsePath(projectRoot);
      currentFile := EmptyPath;
      currentImports := map[];
    }

    /** `resolve_module_path`. */
    method ResolveModulePath(fs: FileSystem, modulePath: string) returns (r: Result<Path, ResolveError>)
      ensures r == ResolveModule(fs, projectRoot, currentFile, modulePath)
    {
      var isRelative := |modulePath| > 0 && modulePath[0] == '.';
      var absolutePath: Path;
      if isRelative {
        var res := Pop(currentFile);
        res := Push(res, ParsePath(modulePath));
        var canonical := Canonicalize(fs, res);
        if canonical.None? {
          return Err(CanonicalizeFailed(res));
        }
        absolutePath := canonical.value;
      } else {
        var res := projectRoot;
        res := Push(res, ParsePath(modulePath));
        absolutePath := res;
      }
      assert BasePath(fs, projectRoot, currentFile, modulePath) == Ok(absolutePath);

      for i := 0 to |Extensions|
        invariant forall j :: 0 <= j < i ==> !Exists(fs, SetExtension(absolutePath, Extensions[j]))
      {
        var candidate := SetExtension(absolutePath, Extensions[i]);
        if Exists(fs, candidate) {
          ResolveExtensionPriority(fs, projectRoot, currentFile, modulePath, i);
          return Ok(candidate);
        }
      }

      for i := 0 to |Extensions|
        invariant forall j :: 0 <= j < i ==> !Exists(fs, SetExtension(Push(absolutePath, Path(false, ["index"])), Extensions[j]))
      {
        var candidate := Push(absolutePath, Path(false, ["index"]));
        candidate := SetExtension(candidate, Extensions[i]);
        if Exists(fs, candidate) {
          ResolveIndexFallback(fs, projectRoot, currentFile, modulePath, i);
          return Ok(candidate);
        }
      }

      ResolveNotFound(fs, projectRoot, currentFile, modulePath);
      return Err(ModuleNotFound(modulePath));
    }

    /** `before_process_file`: makes `filePath` the current file and
        forgets the previous file's imports. */
    method BeforeProcessFile(filePath: Path)
      modifies this`currentFile, this`currentImports
      ensures currentFile == filePath
      ensures currentImports == map[]
    {
      currentFile := filePath;
      currentImports := map[];
    }

    /** `visit_import_decl`: resolves the declaration's specifier once and
        binds each default or named specifier's local name; when the
        specifier does not resolve, nothing is bound. */
    method VisitImportDecl(fs: FileSystem, importDecl: ImportDecl) returns (res: Outcome<ResolveError>)
      modifies this`currentImports
      ensures var r := ResolveModule(fs, projectRoot, currentFile, importDecl.src);
              && (r.Err? ==> res == Fail(r.error) && currentImports == old(currentImports))
              && (r.Ok? ==>
                    && res == Pass
                    && currentImports == BindAll(old(currentImports), PathString(r.value), importDecl.specifiers))
    {
      var modulePath := importDecl.src;
      var resolved := ResolveModulePath(fs, modulePath);
      if resolved.Err? {
        return Fail(resolved.error);
      }
      var resolvedPath := PathString(resolved.value);
      var specifiers := importDecl.specifiers;
      for i := 0 to |specifiers|
        invariant currentImports == BindAll(old(currentImports), resolvedPath, specifiers[..i])
      {
        assert specifiers[..i + 1][..i] == specifiers[..i];
        match specifiers[i]
        case Default(local) =>
          currentImports := currentImports[local := ComponentIdentity(resolvedPath, DefaultComponent)];
        case Named(local, imported) =>
          var importedIdent := OriginalName(local, imported);
          currentImports := currentImports[local := ComponentIdentity(resolvedPath, importedIdent)];
        case Namespace(_) =>
      }
      assert specifiers[..|specifiers|] == specifiers;
      return Pass;
    }

    /** `process_file`, given what the parser made of the file: the
        module's import declarations in source order, or nothing when the
        file could not be loaded or parsed. The first declaration that
        does not resolve stops the processing. */
    method ProcessFile(fs: FileSystem, filePath: Path, parsed: Option<seq<ImportDecl>>) returns (res: Outcome<FileError>)
      modifies this`currentFile, this`currentImports
      ensures currentFile == filePath
      ensures parsed.None? ==> res == Fail(ParseFailed) && currentImports == map[]
      ensures parsed.Some? ==>
                var x := ExtractImports(fs, projectRoot, filePath, map[], parsed.value);
                && currentImports == x.imports
                && res == (if x.failure.None? then Pass else Fail(Unresolved(x.failure.value)))
    {
      BeforeProcessFile(filePath);
      if parsed.None? {
        return Fail(ParseFailed);
      }
      var decls := parsed.value;
      for i := 0 to |decls|
        invariant currentFile == filePath
        invariant ExtractImports(fs, projectRoot, filePath, map[], decls[..i]).failure.None?
        invariant currentImports == ExtractImports(fs, projectRoot, filePath, map[], decls[..i]).imports
      {
        ExtractImportsNext(fs, projectRoot, filePath, map[], decls, i);
        var visited := VisitImportDecl(fs, decls[i]);
        if visited.Fail? {
          ExtractImportsStops(fs, projectRoot, filePath, map[], decls, i + 1);
          return Fail(Unresolved(visited.error));
        }
      }
      assert decls[..|decls|] == decls;
      return Pass;
    }
  }
}
