# vcu: reverse dependency graph and module resolution, in Dafny

This project models the two sequential parts of `vcu`, a tool that reads the
import declarations of a TypeScript/JavaScript code base:

* the **reverse dependency graph** (`src/dependency_graph.rs`): a table
  file path → component name → ordered list of the components that depend on
  that component. `add_dependency` creates the entries it needs, scans the list
  for an entry with the same file path and component name, and appends the new
  dependent only when there is none;
* the **dependency visitor** (`src/main.rs`): `resolve_module_path` turns an
  import specifier into a file path. A specifier starting with `.` is joined
  to the directory of the current file and canonicalized. Any other
  specifier is joined to the project root. The resolver then tries
  `with_extension` for `tsx`, `jsx`, `ts`, `js`, then `index.<ext>` in the
  same order, and fails when none of the eight exists. `visit_import_decl`
  binds the local names of default and named specifiers in the per-file
  table `current_imports`. `before_process_file` resets that table.

Modules, one per concern:

| file | module | models |
|---|---|---|
| `wrappers.dfy` | `Wrappers` | `Option`, `Result`, `Outcome` (failures in place of panics) |
| `paths.dfy` | `Paths` | the `std::path` operations the resolver uses; the file system as a map from existing paths to their canonical forms |
| `graph.dfy` | `Graph` | `ComponentIdentity` and `DependencyGraph` (a class over a nested `map`) |
| `imports.dfy` | `Imports` | the import declarations the parser produces, and the bindings they make |
| `resolution.dfy` | `Resolution` | what `resolve_module_path` returns, as a function, and its properties |
| `visitor.dfy` | `Visitor` | `DependencyVisitor` as a class: resolution and the visit are methods with loops, proved against the `Resolution` and `Imports` functions |

Modelling choices:

* `ComponentIdentity::new` is the datatype constructor `ComponentIdentity`.
  Rust compares entries field by field (`SameComponent`), which is the
  same as value equality.
* A path is a list of components plus an "absolute" flag. `PathBuf::push`,
  `pop`, `file_name`, `file_stem`, `extension` and `set_extension` follow the
  Rust standard library (on Unix) on that list. In particular, `set_extension`
  REPLACES the extension the last component already has. A specifier
  `./button.styles` with a canonical base `.../button.styles` therefore
  yields the candidates `button.tsx` … `button.js`, never
  `button.styles.tsx`. An empty extension removes the old one and its
  dot, as in Rust. A base with no file name (one ending in `..`) is
  left unchanged, so each of its four extension candidates is the base
  path itself.
* The file system is a `map<Path, Path>`. Its keys are the paths that exist;
  each maps to what `canonicalize` returns for it. So `exists` and
  `canonicalize` agree: canonicalization fails exactly on paths that do
  not exist.
  `ValidFileSystem` states what `canonicalize` guarantees of its results
  (absolute, made of proper components, existing, and their own canonical
  form). It is assumed only by the lemmas that need it, such as
  `Resolution.RelativeBaseIsCanonical`.
* The source's panics become error results. `canonicalize().unwrap()` on a
  relative base becomes `CanonicalizeFailed(path)`. `panic!("Module not
  found: …")` becomes `ModuleNotFound(specifier)`. As in the code, that
  error carries only the specifier, not the importing file. A relative base
  must exist before any extension is tried. This comes from the `unwrap`
  on `canonicalize` and is kept as written, so `./foo` fails when only
  `foo.ts` exists and `foo` does not.
* The parser is outside the model. `ProcessFile` receives what the
  parser produced: the module's import declarations in source order, or
  nothing when loading or parsing failed. The first declaration that does
  not resolve stops the file, as the panic does.
* The visitor never calls `add_dependency`, because project traversal is
  a TODO in the source. The model keeps the two parts unconnected in the
  same way. The visitor's `graph` field is created empty and never
  changed.

## Model

| member | source | states |
|---|---|---|
| `Paths.ParsePath` | src/main.rs:29 | a path read from a string has only proper components, and is absolute exactly when the string starts with `/` |
| `Paths.Push` | src/main.rs:41 | `PathBuf::push`; its own contract says only that joining well-formed paths gives a well-formed path; what joining does is stated in `Paths.PushExtends` |
| `Paths.PushExtends` | src/main.rs:46 | an absolute pushed path replaces the base; a relative one keeps the base as a prefix and adds exactly its components |
| `Paths.Pop` | src/main.rs:40 | `PathBuf::pop`, a plain definition with no contract of its own; its behaviour is stated in `Paths.PopDropsLast` and `Paths.PopAfterPush` |
| `Paths.PopDropsLast` | src/main.rs:40 | popping keeps the root flag and drops exactly the last component; the root and the empty path are left as they are |
| `Paths.PopAfterPush` | src/main.rs:64 | pushing one name (such as `index`) and popping it gives back the directory |
| `Paths.LastDot` | src/main.rs:55 | the position found is a `.` and no later character is one, or there is no `.` at all |
| `Paths.SetExtension` | src/main.rs:55 | `set_extension`, a plain definition with no contract of its own (an empty extension removes the old one); its properties are stated in `Paths.SetExtensionKeepsParent`, `Paths.SetExtensionKeepsStem`, `Paths.SetExtensionEmptyRemoves` and `Paths.SetExtensionWithoutFileName` |
| `Paths.SetExtensionKeepsParent` | src/main.rs:65 | `set_extension` keeps the root flag, the number of components and the parent directory |
| `Paths.SetExtensionKeepsStem` | src/main.rs:55 | after `set_extension(ext)` the file name keeps its stem, its extension is `ext` (any old one is replaced), and the parent directory is unchanged |
| `Paths.SetExtensionEmptyRemoves` | src/main.rs:55 | an empty extension turns the file name into its stem, dropping the old extension and its dot, and keeps the directory |
| `Paths.SetExtensionWithoutFileName` | src/main.rs:55 | a path with no file name (root, empty, ending in `..`) is left as it is |
| `Paths.Exists` | src/main.rs:56 | `Path::exists`, a plain definition (the path is a key of the file-system map) with no contract of its own; `Paths.Canonicalize` and `Resolution.ResolvedPathExists` state what depends on it |
| `Paths.Canonicalize` | src/main.rs:42 | canonicalization succeeds exactly on paths that exist |
| `Paths.PathString` | src/main.rs:137 | the string of a well-formed path starts with `/` exactly when the path is absolute; `Paths.ParsePathString` shows the string loses nothing |
| `Paths.ParsePathString` | src/main.rs:119 | reading back the string of a path gives the same path |
| `Paths.PathStringInjective` | src/main.rs:137 | two distinct paths never give the same file-path string |
| `Graph.AnyMatching` | src/dependency_graph.rs:35-37 | the scan finds a match exactly when some entry has the same file path and component name |
| `Graph.DependencyGraph.constructor` | src/dependency_graph.rs:24-28 | a new graph has no entries, and every dependents list of it is empty |
| `Graph.DependencyGraph.GetComponentMap` | src/dependency_graph.rs:45-50 | the file's component map is created empty when missing and returned; no dependents list changes |
| `Graph.DependencyGraph.GetDependencyList` | src/dependency_graph.rs:52-60 | the file and component entries are created when missing; the list returned is the old one or empty; no dependents list changes |
| `Graph.DependencyGraph.AddDependency` | src/dependency_graph.rs:30-43 | the new table is the old one with the dependent added to the dependee's list when absent; the no-duplicates invariant is kept; afterwards the list holds the dependent |
| `Graph.WithDependency` | src/dependency_graph.rs:30-43 | the table after `add_dependency` has the dependee's file and component entries, and keeps every old file key; the list rules are stated in the `Graph.WithDependency…` lemma rows |
| `Graph.WithDependencyRecords` | src/dependency_graph.rs:30-43 | after adding, the dependee's list holds an entry with the dependent's file path and component name |
| `Graph.WithDependencyAppendsOrKeeps` | src/dependency_graph.rs:35-42 | if the list already held the dependent it is unchanged; otherwise it is the old list with the dependent appended at the end |
| `Graph.WithDependencyFrame` | src/dependency_graph.rs:30-60 | only the dependee's file and component keys may be added, other files' maps are unchanged, and every other dependents list is unchanged |
| `Graph.WithDependencyGrows` | src/dependency_graph.rs:30-43 | nothing is removed: every old list is a prefix of the new one |
| `Graph.WithDependencyKeepsDeduplicated` | src/dependency_graph.rs:34-40 | if no list held two entries for the same component before, none does after |
| `Graph.WithDependencyIdempotent` | src/dependency_graph.rs:35-40 | adding the same dependency a second time changes nothing |
| `Graph.WithDependencyTwiceOneEntry` | src/dependency_graph.rs:35-42 | adding a dependency twice to an empty list leaves exactly that one entry |
| `Imports.OriginalName` | src/main.rs:126-133 | a plain definition with no contract of its own: the imported identifier, or the local name when there is none or it is a string literal; what the table then holds is stated in `Imports.BindAllLastWins` and `Imports.AliasBindsOriginalName` |
| `Imports.BindAll` | src/main.rs:112-144 | a plain definition with no contract of its own: the specifiers inserted in order, namespace ones skipped; its properties are stated in the `Imports.BindAll…` lemma rows |
| `Imports.BindAllNames` | src/main.rs:112-144 | after a declaration, the bound names are the old ones plus the local names of its default and named specifiers |
| `Imports.BindAllKeepsUnbound` | src/main.rs:142 | a name no default or named specifier binds keeps its old binding or stays unbound; namespace specifiers change nothing |
| `Imports.BindAllLastWins` | src/main.rs:114-140 | a name is bound to the component of the last specifier binding it: (resolved path, "Default") for a default one, (resolved path, imported identifier, or the local name when that is absent or a string) for a named one |
| `Imports.BindAllSharesPath` | src/main.rs:110-140 | every binding a declaration makes refers to its one resolved path |
| `Imports.AliasBindsOriginalName` | src/main.rs:124-140 | `import { Foo as Bar }` binds `Bar` to the component named `Foo`, not `Bar` |
| `Resolution.IsRelative` | src/main.rs:36 | a plain definition with no contract of its own: the specifier starts with `.`; `Resolution.BasePath` states what follows from it |
| `Resolution.BasePath` | src/main.rs:36-49 | the base fails exactly for a relative specifier whose joined path does not exist; on success a relative base is the canonical form of the joined path, and a rooted specifier is joined to the project root with no existence check |
| `Resolution.RelativeBaseIsCanonical` | src/main.rs:42 | on a well-formed file system, the base of a relative specifier is absolute, well-formed and exists, so the stem clause of `Resolution.ExtensionCandidateShape` applies to it |
| `Resolution.ExtensionCandidates` | src/main.rs:52-55 | a plain definition with no contract of its own: the base with each extension in priority order; its properties are stated in `Resolution.ExtensionCandidateShape` |
| `Resolution.ExtensionCandidateShape` | src/main.rs:54-55 | every extension candidate stays in the base's directory; when the base has a file name, the candidate keeps its stem and takes the i-th extension |
| `Resolution.IndexCandidates` | src/main.rs:62-65 | a plain definition with no contract of its own: the extension candidates of `base/index`; its properties are stated in `Resolution.IndexCandidateShape` |
| `Resolution.IndexCandidateShape` | src/main.rs:63-65 | every index candidate lies directly in the base directory and is named `index.<ext>` with the i-th extension |
| `Resolution.ExtensionsArePlain` | src/main.rs:52 | each supported extension is non-empty and has no `.` and no `/` |
| `Resolution.FirstExisting` | src/main.rs:53-58 | the position found is one that exists with none existing before it; nothing is found exactly when no candidate exists |
| `Resolution.ResolveModule` | src/main.rs:35-72 | a plain definition with no contract of its own: what `resolve_module_path` returns; its properties are stated in the `Resolution.Resolve…` lemma rows, and `Visitor.DependencyVisitor.ResolveModulePath` is proved equal to it |
| `Resolution.ResolveFirstCandidate` | src/main.rs:51-71 | the two loops return the first existing path among the four extension candidates followed by the four index candidates, or ModuleNotFound |
| `Resolution.ResolvedPathExists` | src/main.rs:56-67 | a resolved path always exists |
| `Resolution.ResolveNotFound` | src/main.rs:71 | when none of the four extension candidates and none of the four index candidates exists, the result is ModuleNotFound for the specifier |
| `Resolution.ResolveFailure` | src/main.rs:39-71 | ModuleNotFound exactly when the base is found and none of the eight candidates exists; CanonicalizeFailed exactly when the relative base does not exist |
| `Resolution.ResolveExtensionPriority` | src/main.rs:52-59 | the i-th extension candidate is returned when it exists and no higher-priority one does |
| `Resolution.ResolveIndexFallback` | src/main.rs:61-69 | with no extension candidate present, the i-th index candidate is returned when it exists and no higher-priority index candidate does |
| `Resolution.ResolveNeverSkipsAnExistingCandidate` | src/main.rs:51-69 | the returned path is a candidate before which no candidate exists |
| `Visitor.ExtractWith` | src/main.rs:103-110 | a plain definition with no contract of its own: the fold over a file's declarations in source order for a given resolver, stopping at the first that does not resolve; `Visitor.ExtractWithSucceeds` states its success condition |
| `Visitor.ExtractWithSucceeds` | src/main.rs:108-110 | for any resolver, the fold succeeds exactly when every declaration's specifier resolves |
| `Visitor.ExtractImports` | src/main.rs:79-110 | a plain definition with no contract of its own: the fold with `resolve_module_path` of the current file; its properties are stated in the `Visitor.ExtractImports…` and `Visitor.ExtractedComponentsExist` rows |
| `Visitor.ExtractImportsSucceeds` | src/main.rs:108-110 | a file's extraction succeeds exactly when every one of its specifiers resolves |
| `Visitor.ExtractImportsFirstFailure` | src/main.rs:108-110 | a failed extraction reports the error of the first declaration that does not resolve, and every earlier one resolved |
| `Visitor.ExtractImportsFailsFast` | src/main.rs:108-110 | a file's imports are all bound exactly when every specifier resolves; otherwise the error is that of the first one that does not |
| `Visitor.ExtractImportsStops` | src/main.rs:110 | after a declaration fails to resolve, later declarations bind nothing |
| `Visitor.ExtractImportsNames` | src/main.rs:108-144 | when no declaration fails, the table's names are the old ones plus exactly the local names of the file's default and named specifiers |
| `Visitor.ExtractImportsLastWins` | src/main.rs:112-140 | across a whole file, a name is bound to the component of the last specifier, in the last declaration, that binds it; that declaration's specifier resolved |
| `Visitor.ExtractedComponentsExist` | src/main.rs:108-140 | every component bound in a file's imports lies in a file that exists |
| `Visitor.DependencyVisitor.constructor` | src/main.rs:26-33 | the visitor starts with an empty graph, the empty path as current file, and no imports |
| `Visitor.DependencyVisitor.ResolveModulePath` | src/main.rs:35-72 | the two loops return exactly what `Resolution.ResolveModule` specifies |
| `Visitor.DependencyVisitor.BeforeProcessFile` | src/main.rs:74-77 | the current file is set and the imports table is emptied |
| `Visitor.DependencyVisitor.VisitImportDecl` | src/main.rs:108-145 | on a resolution failure nothing is bound and the error is returned; otherwise the table becomes the specification `Imports.BindAll` over the specifiers with the one resolved path |
| `Visitor.DependencyVisitor.ProcessFile` | src/main.rs:79-104 | the file becomes current and its imports table is rebuilt from empty as the specification `Visitor.ExtractImports`; a parse failure or the first unresolved specifier is reported |

## Left out

- Lexing and parsing (swc `Lexer`, `Parser`, `SourceMap`, the diagnostic `Handler`) and `cm.load_file`: these are foreign library calls and I/O. `ProcessFile` takes their output as a parameter.
- The real file system: `exists` and `canonicalize` are read from an abstract map, and no symbolic links or directories are modelled beyond what that map says.
- Path strings: paths are component lists. The string of a path is the rendering of its components, so redundant separators and leading or interior `.` segments, which Rust keeps in the literal string, are not reproduced (`./proj` renders as `proj`). Windows prefixes and non-UTF-8 names (the reason for `to_string_lossy`) are not modelled.
- `main`: it only holds placeholder paths and prints the imports table.
- Project traversal and the attribution of import edges to exported components: the source leaves it as a TODO and never calls `add_dependency` from the visitor.
- Process termination: a panic becomes an error value, and the caller's loop stops there. Aborting the whole run is not modelled.
- Visiting nodes other than import declarations: the visitor handles only import declarations, so the model receives only those, in source order.
