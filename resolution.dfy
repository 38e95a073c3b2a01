/** What `resolve_module_path` returns for a specifier, stated as a
    function of the file system, the project root and the current file,
    and the properties of that answer. */
module Resolution {
  import opened Wrappers
  import opened Paths

  /** Why a specifier did not resolve: the canonicalization of a relative
      base failed (`unwrap` on `canonicalize`), or none of the candidate
      files exists (`panic!("Module not found: ...")`). */
  datatype ResolveError = CanonicalizeFailed(path: Path) | ModuleNotFound(specifier: string)

  /** The supported extensions, in priority order. */
  const Extensions: seq<string> := ["tsx", "jsx", "ts", "js"]

  /** A specifier is relative when it begins with '.'. */
  predicate IsRelative(modulePath: string) {
    |modulePath| > 0 && modulePath[0] == '.'
  }

  /** The path that a relative specifier names before canonicalization:
      the current file's directory joined with the specifier. */
  function RelativeBase(currentFile: Path, modulePath: string): Path {
    Push(Pop(currentFile), ParsePath(modulePath))
  }

  /** The base path the candidates are built on: the canonical form of the
      relative base, or the project root joined with a rooted specifier. */
  function BasePath(fs: FileSystem, projectRoot: Path, currentFile: Path, modulePath: string): (r: Result<Path, ResolveError>)
    ensures r.Err? <==> IsRelative(modulePath) && !Exists(fs, RelativeBase(currentFile, modulePath))
    ensures r.Err? ==> r.error == CanonicalizeFailed(RelativeBase(currentFile, modulePath))
    ensures IsRelative(modulePath) && r.Ok? ==> Canonicalize(fs, RelativeBase(currentFile, modulePath)) == Some(r.value)
    ensures !IsRelative(modulePath) ==> r == Ok(Push(projectRoot, ParsePath(modulePath)))
  {
    if IsRelative(modulePath) then
      match Canonicalize(fs, RelativeBase(currentFile, modulePath))
      case Some(p) => Ok(p)
      case None => Err(CanonicalizeFailed(RelativeBase(currentFile, modulePath)))
    else
      Ok(Push(projectRoot, ParsePath(modulePath)))
  }

  /** On a well-formed file system, the base of a relative specifier is an
      absolute, well-formed path that exists, so the stem and extension
      properties of the candidates apply to it. */
  lemma RelativeBaseIsCanonical(fs: FileSystem, projectRoot: Path, currentFile: Path, modulePath: string)
    requires ValidFileSystem(fs)
    requires IsRelative(modulePath)
    requires BasePath(fs, projectRoot, currentFile, modulePath).Ok?
    ensures var base := BasePath(fs, projectRoot, currentFile, modulePath).value;
            base.absolute && ValidPath(base) && Exists(fs, base)
  {
    var q := RelativeBase(currentFile, modulePath);
    assert q in fs.canonical;
  }

  /** `base` with each of `exts` set as its extension, in order. */
  function WithEachExtension(base: Path, exts: seq<string>): seq<Path>
    decreases |exts|
  {
    if exts == [] then [] else [SetExtension(base, exts[0])] + WithEachExtension(base, exts[1..])
  }

  /** The i-th path of `WithEachExtension` carries the i-th extension. */
  lemma {:induction false} WithEachExtensionAt(base: Path, exts: seq<string>, i: nat)
    requires i < |exts|
    ensures |WithEachExtension(base, exts)| == |exts|
    ensures WithEachExtension(base, exts)[i] == SetExtension(base, exts[i])
    decreases |exts|
  {
    if i > 0 {
      WithEachExtensionAt(base, exts[1..], i - 1);
    } else if |exts| > 1 {
      WithEachExtensionAt(base, exts[1..], 0);
    }
  }

  /** `base.with_extension(ext)` for each extension, in priority order. */
  function ExtensionCandidates(base: Path): seq<Path> {
    WithEachExtension(base, Extensions)
  }

  /** `base/index.<ext>` for each extension, in priority order. */
  function IndexCandidates(base: Path): seq<Path> {
    ExtensionCandidates(Push(base, Path(false, ["index"])))
  }

  /** There is one extension candidate per extension, and the i-th carries
      the i-th extension. */
  lemma ExtensionCandidateAt(base: Path, i: nat)
    requires i < |Extensions|
    ensures |ExtensionCandidates(base)| == |Extensions|
    ensures ExtensionCandidates(base)[i] == SetExtension(base, Extensions[i])
  {
    WithEachExtensionAt(base, Extensions, i);
  }

  /** Each supported extension is a plain non-empty name. */
  lemma ExtensionsArePlain(i: nat)
    requires i < |Extensions|
    ensures Extensions[i] != "" && '.' !in Extensions[i] && '/' !in Extensions[i]
  {
  }

  /** Every extension candidate stays in the base's directory; when the base
      has a file name, the candidate keeps its stem and takes the i-th
      extension in place of any it had. */
  lemma ExtensionCandidateShape(base: Path, i: nat)
    requires i < |Extensions|
    ensures Pop(ExtensionCandidates(base)[i]) == Pop(base)
    ensures ValidPath(base) && FileName(base).Some? ==>
              var c := ExtensionCandidates(base)[i];
              && FileName(c).Some?
              && Stem(FileName(c).value) == Stem(FileName(base).value)
              && Extension(FileName(c).value) == Some(Extensions[i])
  {
    if ValidPath(base) && FileName(base).Some? {
      ExtensionsArePlain(i);
      SetExtensionKeepsStem(base, Extensions[i]);
    }
  }

  /** Every index candidate lies directly in the base directory and is
      named `index.<ext>` with the i-th extension. */
  lemma IndexCandidateShape(base: Path, i: nat)
    requires i < |Extensions|
    ensures Pop(IndexCandidates(base)[i]) == base
    ensures FileName(IndexCandidates(base)[i]) == Some("index." + Extensions[i])
  {
    var index := Push(base, Path(false, ["index"]));
    var c := IndexCandidates(base)[i];
    assert FileName(index) == Some("index");
    assert LastDot("index") == -1 by {
      assert forall k :: 0 <= k < |"index"| ==> "index"[k] != '.';
    }
    assert Stem("index") == "index";
    ExtensionsArePlain(i);
    assert c == SetExtension(index, Extensions[i]);
    assert c.components[|c.components| - 1] == "index." + Extensions[i];
    PopAfterPush(base, "index");
    SetExtensionKeepsParent(index, Extensions[i]);
  }

  /** The position of the first candidate that exists, if any. */
  function FirstExisting(fs: FileSystem, candidates: seq<Path>): (r: Option<nat>)
    ensures r.None? <==> forall i :: 0 <= i < |candidates| ==> !Exists(fs, candidates[i])
    ensures r.Some? ==> r.value < |candidates| && Exists(fs, candidates[r.value])
    ensures r.Some? ==> forall j :: 0 <= j < r.value ==> !Exists(fs, candidates[j])
    decreases |candidates|
  {
    if candidates == [] then None
    else if Exists(fs, candidates[0]) then Some(0)
    else match FirstExisting(fs, candidates[1..])
      case None => None
      case Some(k) => Some(k + 1)
  }

  /** A search that stops at the first existing candidate finds the first
      existing position. */
  lemma FirstExistingAt(fs: FileSystem, candidates: seq<Path>, i: nat)
    requires i < |candidates| && Exists(fs, candidates[i])
    requires forall j :: 0 <= j < i ==> !Exists(fs, candidates[j])
    ensures FirstExisting(fs, candidates) == Some(i)
  {
  }

  /** `resolve_module_path`: the first existing extension candidate, else
      the first existing index candidate, else ModuleNotFound. */
  function ResolveModule(fs: FileSystem, projectRoot: Path, currentFile: Path, modulePath: string): (r: Result<Path, ResolveError>)
  {
    match BasePath(fs, projectRoot, currentFile, modulePath)
    case Err(e) => Err(e)
    case Ok(base) =>
      match FirstExisting(fs, ExtensionCandidates(base))
      case Some(i) => Ok(ExtensionCandidates(base)[i])
      case None =>
        match FirstExisting(fs, IndexCandidates(base))
        case Some(i) => Ok(IndexCandidates(base)[i])
        case None => Err(ModuleNotFound(modulePath))
  }

  /** All eight candidates in the order they are tried. */
  function Candidates(base: Path): seq<Path> {
    ExtensionCandidates(base) + IndexCandidates(base)
  }

  lemma FirstExistingOfConcat(fs: FileSystem, xs: seq<Path>, ys: seq<Path>)
    ensures FirstExisting(fs, xs + ys) ==
              match FirstExisting(fs, xs)
              case Some(i) => Some(i)
              case None =>
                match FirstExisting(fs, ys)
                case Some(j) => Some(|xs| + j)
                case None => None
  {
    var zs := xs + ys;
    assert forall i :: 0 <= i < |xs| ==> zs[i] == xs[i];
    assert forall j :: 0 <= j < |ys| ==> zs[|xs| + j] == ys[j];
    match FirstExisting(fs, xs) {
      case Some(i) =>
        FirstExistingAt(fs, zs, i);
      case None =>
        match FirstExisting(fs, ys) {
          case Some(j) =>
            assert forall k :: |xs| <= k < |xs| + j ==> zs[k] == ys[k - |xs|];
            FirstExistingAt(fs, zs, |xs| + j);
          case None =>
            assert forall k :: |xs| <= k < |zs| ==> zs[k] == ys[k - |xs|];
        }
    }
  }

  /** The two loops of the resolver amount to one search, in order, over
      the eight candidates: it returns the first that exists. */
  lemma ResolveFirstCandidate(fs: FileSystem, projectRoot: Path, currentFile: Path, modulePath: string)
    requires BasePath(fs, projectRoot, currentFile, modulePath).Ok?
    ensures var base := BasePath(fs, projectRoot, currentFile, modulePath).value;
            ResolveModule(fs, projectRoot, currentFile, modulePath) ==
              match FirstExisting(fs, Candidates(base))
              case Some(k) => Ok(Candidates(base)[k])
              case None => Err(ModuleNotFound(modulePath))
  {
    var base := BasePath(fs, projectRoot, currentFile, modulePath).value;
    FirstExistingOfConcat(fs, ExtensionCandidates(base), IndexCandidates(base));
  }

  /** Resolution succeeds only with a path that exists. */
  lemma ResolvedPathExists(fs: FileSystem, projectRoot: Path, currentFile: Path, modulePath: string)
    requires ResolveModule(fs, projectRoot, currentFile, modulePath).Ok?
    ensures Exists(fs, ResolveModule(fs, projectRoot, currentFile, modulePath).value)
  {
  }

  /** Resolution fails with ModuleNotFound exactly when the base path is
      found and none of the eight candidates exists, and with
      CanonicalizeFailed exactly when the base path is not found. */
  lemma ResolveFailure(fs: FileSystem, projectRoot: Path, currentFile: Path, modulePath: string)
    ensures var r := ResolveModule(fs, projectRoot, currentFile, modulePath);
            var b := BasePath(fs, projectRoot, currentFile, modulePath);
            && (r == Err(ModuleNotFound(modulePath)) <==>
                  b.Ok? && forall k :: 0 <= k < |Candidates(b.value)| ==> !Exists(fs, Candidates(b.value)[k]))
            && (r.Err? && r.error.CanonicalizeFailed? <==> b.Err?)
  {
    var b := BasePath(fs, projectRoot, currentFile, modulePath);
    if b.Ok? {
      ResolveFirstCandidate(fs, projectRoot, currentFile, modulePath);
    }
  }

  /** Extension priority: the i-th extension candidate is returned when it
      exists and no higher-priority one does. */
  lemma ResolveExtensionPriority(fs: FileSystem, projectRoot: Path, currentFile: Path, modulePath: string, i: nat)
    requires BasePath(fs, projectRoot, currentFile, modulePath).Ok?
    requires var base := BasePath(fs, projectRoot, currentFile, modulePath).value;
             && i < |Extensions|
             && Exists(fs, SetExtension(base, Extensions[i]))
             && forall j :: 0 <= j < i ==> !Exists(fs, SetExtension(base, Extensions[j]))
    ensures var base := BasePath(fs, projectRoot, currentFile, modulePath).value;
            ResolveModule(fs, projectRoot, currentFile, modulePath) == Ok(SetExtension(base, Extensions[i]))
  {
    var base := BasePath(fs, projectRoot, currentFile, modulePath).value;
    var cs := ExtensionCandidates(base);
    forall j | 0 <= j < i
      ensures !Exists(fs, cs[j])
    {
      ExtensionCandidateAt(base, j);
    }
    ExtensionCandidateAt(base, i);
    FirstExistingAt(fs, cs, i);
  }

  /** Index fallback: when no extension candidate exists, the i-th index
      candidate is returned when it exists and no higher-priority one
      does. */
  lemma ResolveIndexFallback(fs: FileSystem, projectRoot: Path, currentFile: Path, modulePath: string, i: nat)
    requires BasePath(fs, projectRoot, currentFile, modulePath).Ok?
    requires var base := BasePath(fs, projectRoot, currentFile, modulePath).value;
             var index := Push(base, Path(false, ["index"]));
             && (forall j :: 0 <= j < |Extensions| ==> !Exists(fs, SetExtension(base, Extensions[j])))
             && i < |Extensions|
             && Exists(fs, SetExtension(index, Extensions[i]))
             && forall j :: 0 <= j < i ==> !Exists(fs, SetExtension(index, Extensions[j]))
    ensures var base := BasePath(fs, projectRoot, currentFile, modulePath).value;
            ResolveModule(fs, projectRoot, currentFile, modulePath) ==
              Ok(SetExtension(Push(base, Path(false, ["index"])), Extensions[i]))
  {
    var base := BasePath(fs, projectRoot, currentFile, modulePath).value;
    var index := Push(base, Path(false, ["index"]));
    var es := ExtensionCandidates(base);
    var cs := IndexCandidates(base);
    forall j | 0 <= j < |es|
      ensures !Exists(fs, es[j])
    {
      ExtensionCandidateAt(base, j);
    }
    forall j | 0 <= j < i
      ensures !Exists(fs, cs[j])
    {
      ExtensionCandidateAt(index, j);
    }
    ExtensionCandidateAt(index, i);
    FirstExistingAt(fs, cs, i);
  }

  /** When none of the eight candidates exists, the specifier is reported
      as not found. */
  lemma ResolveNotFound(fs: FileSystem, projectRoot: Path, currentFile: Path, modulePath: string)
    requires BasePath(fs, projectRoot, currentFile, modulePath).Ok?
    requires var base := BasePath(fs, projectRoot, currentFile, modulePath).value;
             var index := Push(base, Path(false, ["index"]));
             && (forall j :: 0 <= j < |Extensions| ==> !Exists(fs, SetExtension(base, Extensions[j])))
             && (forall j :: 0 <= j < |Extensions| ==> !Exists(fs, SetExtension(index, Extensions[j])))
    ensures ResolveModule(fs, projectRoot, currentFile, modulePath) == Err(ModuleNotFound(modulePath))
  {
    var base := BasePath(fs, projectRoot, currentFile, modulePath).value;
    var es := ExtensionCandidates(base);
    var cs := IndexCandidates(base);
    assert forall j :: 0 <= j < |es| ==> !Exists(fs, es[j]);
    assert forall j :: 0 <= j < |cs| ==> !Exists(fs, cs[j]);
  }

  /** An index candidate is returned only when no extension candidate
      exists, and a lower-priority extension candidate only when no
      higher-priority one exists. */
  lemma ResolveNeverSkipsAnExistingCandidate(fs: FileSystem, projectRoot: Path, currentFile: Path, modulePath: string)
    requires BasePath(fs, projectRoot, currentFile, modulePath).Ok?
    requires ResolveModule(fs, projectRoot, currentFile, modulePath).Ok?
    ensures var base := BasePath(fs, projectRoot, currentFile, modulePath).value;
            var p := ResolveModule(fs, projectRoot, currentFile, modulePath).value;
            exists k :: 0 <= k < |Candidates(base)| && Candidates(base)[k] == p &&
                        forall j :: 0 <= j < k ==> !Exists(fs, Candidates(base)[j])
  {
    var base := BasePath(fs, projectRoot, currentFile, modulePath).value;
    ResolveFirstCandidate(fs, projectRoot, currentFile, modulePath);
    var k := FirstExisting(fs, Candidates(base)).value;
    assert Candidates(base)[k] == ResolveModule(fs, projectRoot, currentFile, modulePath).value;
  }
}
