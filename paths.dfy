/** The part of Rust's `std::path` that module resolution relies on
    (`PathBuf::push`, `pop`, `set_extension`, `to_string_lossy`), over
    paths seen as sequences of components, and the file system reduced to
    the two questions the resolver asks of it: does a path exist, and what
    is its canonical form. */
module Paths {
  import opened Wrappers

  /** A path: whether it starts at the root directory, then its components
      in order. A component is a non-empty name without '/' and other than
      "."; ".." stands for the parent directory. */
  datatype Path = Path(absolute: bool, components: seq<string>)

  /** `PathBuf::new()`. */
  const EmptyPath := Path(false, [])

  predicate ValidComponent(c: string) {
    c != "" && c != "." && '/' !in c
  }

  predicate ValidPath(p: Path) {
    forall k :: 0 <= k < |p.components| ==> ValidComponent(p.components[k])
  }

  /** The segment just read, if it is a component: empty segments (from
      repeated or trailing separators) and "." add nothing. */
  function Keep(segment: string): (r: seq<string>)
    requires '/' !in segment
    ensures forall k :: 0 <= k < |r| ==> ValidComponent(r[k])
    ensures ValidComponent(segment) ==> r == [segment]
  {
    if segment == "" || segment == "." then [] else [segment]
  }

  /** The components of `s`, given that `segment` has been read since the
      last separator. */
  function Segments(s: string, segment: string): (r: seq<string>)
    requires '/' !in segment
    ensures forall k :: 0 <= k < |r| ==> ValidComponent(r[k])
    decreases |s|
  {
    if s == [] then Keep(segment)
    else if s[0] == '/' then Keep(segment) + Segments(s[1..], "")
    else Segments(s[1..], segment + [s[0]])
  }

  /** `PathBuf::from(s)`, read as components. */
  function ParsePath(s: string): (p: Path)
    ensures ValidPath(p)
    ensures p.absolute <==> |s| > 0 && s[0] == '/'
  {
    Path(|s| > 0 && s[0] == '/', Segments(s, ""))
  }

  /** `PathBuf::push`: an absolute path replaces the base, a relative one is
      appended to it. */
  function Push(base: Path, rel: Path): (p: Path)
    ensures ValidPath(base) && ValidPath(rel) ==> ValidPath(p)
  {
    if rel.absolute then rel else Path(base.absolute, base.components + rel.components)
  }

  /** `PathBuf::pop`: drops the last component; the root and the empty path
      stay as they are. */
  function Pop(p: Path): Path {
    if p.components == [] then p
    else Path(p.absolute, p.components[..|p.components| - 1])
  }

  /** `Path::file_name`: the last component, or nothing when the path is
      the root, is empty, or ends in "..". */
  function FileName(p: Path): (r: Option<string>)
    ensures r.Some? <==> |p.components| > 0 && p.components[|p.components| - 1] != ".."
  {
    if p.components == [] || p.components[|p.components| - 1] == ".." then None
    else Some(p.components[|p.components| - 1])
  }

  /** The index of the last '.' in `s`, or -1 when there is none. */
  function LastDot(s: string): (r: int)
    ensures -1 <= r < |s|
    ensures r >= 0 ==> s[r] == '.'
    ensures forall k :: r < k < |s| ==> s[k] != '.'
  {
    if s == [] then -1
    else if s[|s| - 1] == '.' then |s| - 1
    else LastDot(s[..|s| - 1])
  }

  /** `Path::file_stem` of a file name: the name up to its last '.', except
      that a name whose only '.' is its first character (".gitignore") is
      all stem. */
  function Stem(name: string): string {
    var d := LastDot(name);
    if name == ".." || d <= 0 then name else name[..d]
  }

  /** `Path::extension` of a file name: what follows the last '.', if that
      '.' is not the first character. */
  function Extension(name: string): Option<string> {
    var d := LastDot(name);
    if name == ".." || d <= 0 then None else Some(name[d + 1..])
  }

  /** `PathBuf::set_extension`: the last component keeps its stem and takes
      `ext` in place of any extension it had (an empty `ext` only removes
      the old one); a path without a file name is left unchanged. */
  function SetExtension(p: Path, ext: string): Path {
    match FileName(p)
    case None => p
    case Some(name) =>
      var last := if ext == "" then Stem(name) else Stem(name) + "." + ext;
      Path(p.absolute, p.components[..|p.components| - 1] + [last])
  }

  /** The components joined by '/'. */
  function Join(cs: seq<string>): string {
    if cs == [] then ""
    else if |cs| == 1 then cs[0]
    else cs[0] + "/" + Join(cs[1..])
  }

  /** `to_string_lossy` of a path. */
  function PathString(p: Path): (r: string)
    ensures ValidPath(p) ==> (p.absolute <==> |r| > 0 && r[0] == '/')
  {
    (if p.absolute then "/" else "") + Join(p.components)
  }

  /** The file system as the resolver sees it: the keys of `canonical` are
      the paths that exist, and each maps to the path `canonicalize`
      returns for it. */
  datatype FileSystem = FileSystem(canonical: map<Path, Path>)

  /** `Path::exists`. */
  predicate Exists(fs: FileSystem, p: Path) {
    p in fs.canonical
  }

  /** What `canonicalize` guarantees of its answers: each canonical form is
      absolute, has only proper components, and exists (as its own
      canonical form). */
  ghost predicate ValidFileSystem(fs: FileSystem) {
    forall p :: p in fs.canonical ==>
      var c := fs.canonical[p];
      c.absolute && ValidPath(c) && c in fs.canonical && fs.canonical[c] == c
  }

  /** `Path::canonicalize`: fails exactly when the path does not exist. */
  function Canonicalize(fs: FileSystem, p: Path): (r: Option<Path>)
    ensures r.Some? <==> Exists(fs, p)
  {
    if p in fs.canonical then Some(fs.canonical[p]) else None
  }

  // Properties of push and pop

  /** Pushing a relative path onto a directory and popping its last
      component gives back the directory, provided something was pushed. */
  lemma PopAfterPush(base: Path, name: string)
    ensures Pop(Push(base, Path(false, [name]))) == base
  {
    assert (base.components + [name])[..|base.components|] == base.components;
  }

  /** An absolute path replaces the base; a relative one extends it, so
      the base is a prefix of the result. */
  lemma PushExtends(base: Path, rel: Path)
    ensures rel.absolute ==> Push(base, rel) == rel
    ensures !rel.absolute ==> Push(base, rel).absolute == base.absolute &&
                              base.components <= Push(base, rel).components &&
                              Push(base, rel).components[|base.components|..] == rel.components
  {
  }

  /** Popping drops exactly the last component and keeps the rest; the
      root and the empty path have nothing to drop. */
  lemma PopDropsLast(p: Path)
    ensures Pop(p).absolute == p.absolute
    ensures p.components == [] ==> Pop(p) == p
    ensures p.components != [] ==> Pop(p).components + [p.components[|p.components| - 1]] == p.components
  {
    if p.components != [] {
      assert p.components[..|p.components| - 1] + [p.components[|p.components| - 1]] == p.components;
    }
  }

  // Properties of set_extension

  /** `set_extension` only rewrites the file name: the parent directory,
      the number of components and the root flag are kept. */
  lemma SetExtensionKeepsParent(p: Path, ext: string)
    ensures SetExtension(p, ext).absolute == p.absolute
    ensures |SetExtension(p, ext).components| == |p.components|
    ensures Pop(SetExtension(p, ext)) == Pop(p)
  {
    if FileName(p).Some? {
      var q := SetExtension(p, ext);
      assert q.components[..|q.components| - 1] == p.components[..|p.components| - 1];
    }
  }

  lemma LastDotAfterAppend(stem: string, ext: string)
    requires '.' !in ext
    ensures LastDot(stem + "." + ext) == |stem|
  {
    var s := stem + "." + ext;
    var d := LastDot(s);
    assert s[|stem|] == '.';
    assert d >= |stem|;
  }

  /** After `set_extension(ext)` the file name keeps its stem, its
      extension is `ext`, and the parent directory is unchanged. */
  lemma SetExtensionKeepsStem(p: Path, ext: string)
    requires ValidPath(p) && FileName(p).Some?
    requires ext != "" && '.' !in ext && '/' !in ext
    ensures FileName(SetExtension(p, ext)).Some?
    ensures Stem(FileName(SetExtension(p, ext)).value) == Stem(FileName(p).value)
    ensures Extension(FileName(SetExtension(p, ext)).value) == Some(ext)
    ensures Pop(SetExtension(p, ext)) == Pop(p)
  {
    var name := FileName(p).value;
    var stem := Stem(name);
    var q := SetExtension(p, ext);
    var newName := stem + "." + ext;
    assert q.components[|q.components| - 1] == newName;
    LastDotAfterAppend(stem, ext);
    assert |stem| > 0 by {
      if LastDot(name) > 0 { assert |name[..LastDot(name)]| > 0; }
    }
    assert newName[..|stem|] == stem;
    assert newName[|stem| + 1..] == ext;
    assert newName != "..";
    assert q.components[..|q.components| - 1] == p.components[..|p.components| - 1];
  }

  /** An empty extension removes the old one with its dot: the file name
      becomes its own stem, and the directory is kept. */
  lemma SetExtensionEmptyRemoves(p: Path)
    requires FileName(p).Some?
    ensures |SetExtension(p, "").components| == |p.components|
    ensures SetExtension(p, "").components[|p.components| - 1] == Stem(FileName(p).value)
    ensures Pop(SetExtension(p, "")) == Pop(p)
  {
    var q := SetExtension(p, "");
    assert q.components[..|q.components| - 1] == p.components[..|p.components| - 1];
  }

  /** A path without a file name (the root, the empty path, one ending in
      "..") is left as it is by `set_extension`. */
  lemma SetExtensionWithoutFileName(p: Path, ext: string)
    requires FileName(p).None?
    ensures SetExtension(p, ext) == p
  {
  }

  // Rendering and parsing are inverse on valid paths

  lemma SegmentsOfComponent(c: string, rest: string, segment: string)
    requires '/' !in c && '/' !in segment
    ensures Segments(c + rest, segment) == Segments(rest, segment + c)
    decreases |c|
  {
    if c == [] {
      assert c + rest == rest;
      assert segment + c == segment;
    } else {
      assert (c + rest)[0] == c[0];
      assert (c + rest)[1..] == c[1..] + rest;
      assert segment + c == (segment + [c[0]]) + c[1..];
      SegmentsOfComponent(c[1..], rest, segment + [c[0]]);
    }
  }

  lemma {:induction false} SegmentsOfJoin(cs: seq<string>)
    requires forall k :: 0 <= k < |cs| ==> ValidComponent(cs[k])
    ensures Segments(Join(cs), "") == cs
    decreases |cs|
  {
    if cs == [] {
    } else if |cs| == 1 {
      SegmentsOfComponent(cs[0], "", "");
      assert cs[0] + "" == cs[0];
      assert "" + cs[0] == cs[0];
    } else {
      var rest := "/" + Join(cs[1..]);
      assert Join(cs) == cs[0] + rest;
      SegmentsOfComponent(cs[0], rest, "");
      assert "" + cs[0] == cs[0];
      assert rest[0] == '/' && rest[1..] == Join(cs[1..]);
      SegmentsOfJoin(cs[1..]);
      assert cs == [cs[0]] + cs[1..];
    }
  }

  /** `to_string_lossy` loses nothing: reading the string back as a path
      gives the path again, so distinct paths have distinct strings. */
  lemma {:induction false} ParsePathString(p: Path)
    requires ValidPath(p)
    ensures ParsePath(PathString(p)) == p
  {
    var s := PathString(p);
    SegmentsOfJoin(p.components);
    if p.absolute {
      assert s[0] == '/' && s[1..] == Join(p.components);
      assert Segments(s, "") == Segments(Join(p.components), "");
    } else {
      assert s == Join(p.components);
      if p.components != [] {
        var c := p.components[0];
        assert ValidComponent(c);
        if |p.components| == 1 {
          assert s == c;
        } else {
          assert s == c + "/" + Join(p.components[1..]);
        }
        assert s[0] == c[0];
      }
    }
  }

  lemma PathStringInjective(p: Path, q: Path)
    requires ValidPath(p) && ValidPath(q)
    requires PathString(p) == PathString(q)
    ensures p == q
  {
    ParsePathString(p);
    ParsePathString(q);
  }
}
