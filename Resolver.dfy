/**
 * The include directives of main2.py and the resolution of the paths they name against the
 * source tree: a path written with an extension is taken as written, one without gets the
 * first allowed extension that exists (documents) or the only file `path.*` (static files).
 */
module Resolver {
  import opened Failures
  import opened Text
  import opened Patterns

  /** The source tree: every file below the root directory, by its path relative to the root,
   *  with its lines. */
  datatype FileSystem = FileSystem(files: map<string, seq<string>>)

  /** `os.path.isfile(os.path.join(root, p))`. */
  predicate IsFile(fs: FileSystem, p: string) {
    p in fs.files
  }

  /**
   * `IncludeCommand`: a directive and the group holding its path, the extensions tried for a
   * path written without one, whether the included file is parsed in turn and whether it must
   * exist.
   */
  datatype IncludeCommand = IncludeCommand(pattern: IncludePattern, extensions: seq<string>, needsParse: bool, mustExist: bool)

  /** The check of `IncludeCommand`'s constructor: every extension starts with a dot. */
  predicate WellFormed(c: IncludeCommand) {
    forall e :: e in c.extensions ==> StartsWith(e, ".")
  }

  /** `_STATIC_INCLUDES`: images and PDFs, which are copied but not parsed. */
  const StaticIncludes: seq<IncludeCommand> := [
    IncludeCommand(IncludePattern("\\includegraphics", LazyOptions), [], false, true),
    IncludeCommand(IncludePattern("\\overpic", LazyOptions), [], false, true)
  ]

  /** `_TEX_INCLUDES`: documents, packages and bibliography files, in the order they are tried. */
  const TexIncludes: seq<IncludeCommand> := [
    IncludeCommand(IncludePattern("\\input", NoOptions), [".tex"], true, true),
    IncludeCommand(IncludePattern("\\subfile", NoOptions), [".tex"], true, true),
    IncludeCommand(IncludePattern("\\usepackage", LazyOptions), [".sty"], true, false),
    IncludeCommand(IncludePattern("\\bibliographystyle", NoOptions), [".bst"], false, true),
    IncludeCommand(IncludePattern("\\bibliography", NoOptions), [".bib"], false, true)
  ]

  /** Every include command passes the constructor's check, and its regex names a command:
   *  a backslash followed by at least one more character. */
  lemma IncludesWellFormed()
    ensures forall c :: c in TexIncludes + StaticIncludes ==> WellFormed(c)
    ensures forall c :: c in TexIncludes + StaticIncludes ==> |c.pattern.command| > 1 && c.pattern.command[0] == '\\'
  {
  }

  // ---------------------------------------------------------------------------------------
  // Documents

  /** The first of `exts[k..]`, in order, that makes `p + ext` a file. */
  function FirstExtension(fs: FileSystem, p: string, exts: seq<string>, k: nat): (r: Option<nat>)
    requires k <= |exts|
    ensures r.Some? ==> k <= r.value < |exts| && IsFile(fs, p + exts[r.value])
    ensures r.Some? ==> forall j :: k <= j < r.value ==> !IsFile(fs, p + exts[j])
    ensures r.None? ==> forall j :: k <= j < |exts| ==> !IsFile(fs, p + exts[j])
    decreases |exts| - k
  {
    if k == |exts| then None
    else if IsFile(fs, p + exts[k]) then Some(k)
    else FirstExtension(fs, p, exts, k + 1)
  }

  /**
   * `_real_rel_path_for_tex_file`: a path written with an extension is returned as written,
   * and must exist only if `mustExist`; otherwise the first extension that names a file is
   * appended; with none, the result is an error if the file must exist and nothing otherwise.
   */
  function RealRelPathForTexFile(fs: FileSystem, texPath: string, exts: seq<string>, mustExist: bool): (r: Result<Option<string>>)
    ensures HasExt(texPath) ==>
      r == (if mustExist && !IsFile(fs, texPath) then Err(FileNotFound(texPath)) else Ok(Some(texPath)))
    ensures !HasExt(texPath) && r.Ok? && r.value.Some? ==>
      exists i :: 0 <= i < |exts| && r.value.value == texPath + exts[i] && IsFile(fs, texPath + exts[i])
        && forall j :: 0 <= j < i ==> !IsFile(fs, texPath + exts[j])
    ensures !HasExt(texPath) && (r.Err? || r.value.None?) ==>
      && (forall e :: e in exts ==> !IsFile(fs, texPath + e))
      && r == (if mustExist then Err(NoFileWithExtension(texPath)) else Ok(None))
    ensures r.Ok? && r.value.Some? && (mustExist || !HasExt(texPath)) ==> IsFile(fs, r.value.value)
  {
    if HasExt(texPath) then
      if !IsFile(fs, texPath) && mustExist then Err(FileNotFound(texPath)) else Ok(Some(texPath))
    else match FirstExtension(fs, texPath, exts, 0)
      case Some(i) => Ok(Some(texPath + exts[i]))
      case None => if mustExist then Err(NoFileWithExtension(texPath)) else Ok(None)
  }

  // ---------------------------------------------------------------------------------------
  // Static files

  /** A file `glob(p + '.*')` lists: `p`, a dot, and a rest that stays in the same directory. */
  predicate IsCandidate(p: string, f: string) {
    StartsWith(f, p + ".") && forall k :: |p| + 1 <= k < |f| ==> f[k] != '/'
  }

  /** `glob(p + '.*')` over the files of the tree. */
  function Candidates(fs: FileSystem, p: string): (cs: set<string>)
    ensures forall f :: f in cs <==> IsFile(fs, f) && IsCandidate(p, f)
  {
    set f | f in fs.files && IsCandidate(p, f)
  }

  lemma SingletonElement(cs: set<string>)
    requires |cs| == 1
    ensures exists c :: cs == {c}
  {
    var c :| c in cs;
    assert |cs - {c}| == 0;
    assert cs == {c};
  }

  /**
   * `_real_path_for_static_file`: a path written with an extension must exist; one without
   * must have exactly one file `path.*`, which is the result.
   */
  function RealPathForStaticFile(fs: FileSystem, texPath: string): (r: Result<string>)
    ensures r.Ok? ==> IsFile(fs, r.value)
    ensures HasExt(texPath) ==> r == (if IsFile(fs, texPath) then Ok(texPath) else Err(FileNotFound(texPath)))
    ensures !HasExt(texPath) ==>
      (r.Ok? <==> |Candidates(fs, texPath)| == 1)
      && (r.Ok? ==> Candidates(fs, texPath) == {r.value})
      && (r.Err? ==> r.error == NotExactlyOneMatch(texPath, |Candidates(fs, texPath)|))
  {
    if HasExt(texPath) then
      if IsFile(fs, texPath) then Ok(texPath) else Err(FileNotFound(texPath))
    else
      var cs := Candidates(fs, texPath);
      if |cs| != 1 then Err(NotExactlyOneMatch(texPath, |cs|))
      else
        SingletonElement(cs);
        var c :| c in cs;
        Ok(c)
  }

  // ---------------------------------------------------------------------------------------
  // Matching the directives of a line

  function Tag(ms: seq<IncludeMatch>, c: IncludeCommand): (r: seq<(IncludeMatch, IncludeCommand)>)
    ensures |r| == |ms| && forall i :: 0 <= i < |r| ==> r[i] == (ms[i], c)
  {
    seq(|ms|, i requires 0 <= i < |ms| => (ms[i], c))
  }

  /** `_match_all`: for each command in turn, all its matches left to right. */
  function MatchAll(l: string, cmds: seq<IncludeCommand>): (r: seq<(IncludeMatch, IncludeCommand)>)
    ensures forall i :: 0 <= i < |r| ==> r[i].1 in cmds
  {
    if cmds == [] then [] else Tag(FindAll(l, cmds[0].pattern, 0), cmds[0]) + MatchAll(l, cmds[1..])
  }

  /** Every pair in `xs` is a match of its command, one of `cmds`, at the position it gives. */
  predicate AllMatch(l: string, xs: seq<(IncludeMatch, IncludeCommand)>, cmds: seq<IncludeCommand>) {
    forall i :: 0 <= i < |xs| ==> xs[i].1 in cmds && MatchIncludeAt(l, xs[i].0.start, xs[i].1.pattern) == Some(xs[i].0)
  }

  lemma AllMatchAppend(l: string, a: seq<(IncludeMatch, IncludeCommand)>, b: seq<(IncludeMatch, IncludeCommand)>, cmds: seq<IncludeCommand>)
    requires AllMatch(l, a, cmds) && AllMatch(l, b, cmds)
    ensures AllMatch(l, a + b, cmds)
  {
    var xs := a + b;
    forall i | 0 <= i < |xs|
      ensures xs[i].1 in cmds && MatchIncludeAt(l, xs[i].0.start, xs[i].1.pattern) == Some(xs[i].0)
    {
      if i < |a| {
        assert xs[i] == a[i];
      } else {
        assert xs[i] == b[i - |a|];
      }
    }
  }

  /** Every listed match is a match of its command, at the position it gives. */
  lemma {:induction false} MatchAllSound(l: string, cmds: seq<IncludeCommand>)
    ensures AllMatch(l, MatchAll(l, cmds), cmds)
  {
    if cmds != [] {
      MatchAllSound(l, cmds[1..]);
      var rest := MatchAll(l, cmds[1..]);
      assert AllMatch(l, rest, cmds) by {
        forall i | 0 <= i < |rest|
          ensures rest[i].1 in cmds
        {
          assert rest[i].1 in cmds[1..];
        }
      }
      AllMatchAppend(l, Tag(FindAll(l, cmds[0].pattern, 0), cmds[0]), rest, cmds);
    }
  }

  /** The matches of earlier commands all come before those of later ones. */
  lemma {:induction false} MatchAllSplit(l: string, a: seq<IncludeCommand>, b: seq<IncludeCommand>)
    ensures MatchAll(l, a + b) == MatchAll(l, a) + MatchAll(l, b)
  {
    if a == [] {
      assert a + b == b;
    } else {
      assert (a + b)[0] == a[0];
      assert (a + b)[1..] == a[1..] + b;
      MatchAllSplit(l, a[1..], b);
    }
  }

  /** Every match of every command is listed. */
  lemma {:induction false} MatchAllComplete(l: string, cmds: seq<IncludeCommand>, c: IncludeCommand, m: IncludeMatch)
    requires c in cmds && m in FindAll(l, c.pattern, 0)
    ensures (m, c) in MatchAll(l, cmds)
  {
    if cmds[0] == c {
      TaggedIn(FindAll(l, c.pattern, 0), c, m, MatchAll(l, cmds[1..]));
    } else {
      MatchAllComplete(l, cmds[1..], c, m);
    }
  }

  lemma TaggedIn(ms: seq<IncludeMatch>, c: IncludeCommand, m: IncludeMatch, rest: seq<(IncludeMatch, IncludeCommand)>)
    requires m in ms
    ensures (m, c) in Tag(ms, c) + rest
  {
    var i :| 0 <= i < |ms| && ms[i] == m;
    assert (Tag(ms, c) + rest)[i] == (m, c);
  }

  // ---------------------------------------------------------------------------------------
  // The generators `_included_tex_files` and `_included_static_files`

  /**
   * What a generator produces when it is run to the end: the items it yields, then the
   * exception that stops it, if any. The copier consumes the items one at a time, so every
   * item is handled before the exception surfaces.
   */
  datatype Yield<T> = Yield(items: seq<T>, error: Option<Failure>)

  function Prepend<T>(x: T, y: Yield<T>): (r: Yield<T>)
    ensures r.items == [x] + y.items && r.error == y.error
  {
    Yield([x] + y.items, y.error)
  }

  /** `TexFile`: a resolved document and whether it is parsed in turn. */
  datatype TexFile = TexFile(realRelPath: string, needsParse: bool)

  /** `StaticFile`: the path as written and the file it resolved to. */
  datatype StaticFile = StaticFile(texPath: string, realPath: string)

  /** The documents yielded for the matches `ms[k..]`. */
  function TexFilesFrom(fs: FileSystem, ms: seq<(IncludeMatch, IncludeCommand)>, k: nat): (y: Yield<TexFile>)
    requires k <= |ms|
    ensures |y.items| <= |ms| - k
    ensures forall i :: 0 <= i < |y.items| ==>
      IsFile(fs, y.items[i].realRelPath) || HasExt(y.items[i].realRelPath)
    ensures y.error.Some? ==> y.error.value.FileNotFound? || y.error.value.NoFileWithExtension?
    decreases |ms| - k
  {
    if k == |ms| then Yield([], None)
    else
      var (m, c) := ms[k];
      match RealRelPathForTexFile(fs, m.path, c.extensions, c.mustExist)
      case Err(e) => Yield([], Some(e))
      case Ok(None) => TexFilesFrom(fs, ms, k + 1)
      case Ok(Some(p)) => Prepend(TexFile(p, c.needsParse), TexFilesFrom(fs, ms, k + 1))
  }

  /** The resolution `_included_tex_files` makes of each match. */
  function Resolutions(fs: FileSystem, ms: seq<(IncludeMatch, IncludeCommand)>): (rs: seq<Result<Option<string>>>)
    ensures |rs| == |ms|
  {
    seq(|ms|, i requires 0 <= i < |ms| => RealRelPathForTexFile(fs, ms[i].0.path, ms[i].1.extensions, ms[i].1.mustExist))
  }

  /** The document match `i` stands for, given its resolution `rs[i]`: the path it resolves
   *  to, with its command's `needs_parse`, or none. */
  function Document(rs: seq<Result<Option<string>>>, ms: seq<(IncludeMatch, IncludeCommand)>, i: nat): seq<TexFile>
    requires i < |rs| == |ms|
  {
    if rs[i].Ok? && rs[i].value.Some? then [TexFile(rs[i].value.value, ms[i].1.needsParse)] else []
  }

  /** The documents the matches `ms[k..j]` stand for, read from the last one back. */
  function Documents(rs: seq<Result<Option<string>>>, ms: seq<(IncludeMatch, IncludeCommand)>, k: nat, j: nat): seq<TexFile>
    requires k <= j <= |rs| == |ms|
    decreases j - k
  {
    if j == k then [] else Documents(rs, ms, k, j - 1) + Document(rs, ms, j - 1)
  }

  lemma {:induction false} DocumentsCons(rs: seq<Result<Option<string>>>, ms: seq<(IncludeMatch, IncludeCommand)>, k: nat, j: nat)
    requires k < j <= |rs| == |ms|
    ensures Documents(rs, ms, k, j) == Document(rs, ms, k) + Documents(rs, ms, k + 1, j)
    decreases j - k
  {
    if j == k + 1 {
      assert Documents(rs, ms, k, k) == [] && Documents(rs, ms, k + 1, j) == [];
    } else {
      DocumentsCons(rs, ms, k, j - 1);
      var a, b, c := Document(rs, ms, k), Documents(rs, ms, k + 1, j - 1), Document(rs, ms, j - 1);
      assert Documents(rs, ms, k, j) == (a + b) + c;
      assert Documents(rs, ms, k + 1, j) == b + c;
      assert (a + b) + c == a + (b + c);
    }
  }

  /** One match of `_included_tex_files`: a failed resolution stops the generator, any other
   *  yields the match's document before the later ones. */
  lemma TexFilesStep(fs: FileSystem, ms: seq<(IncludeMatch, IncludeCommand)>, k: nat, rs: seq<Result<Option<string>>>)
    requires k < |ms| && rs == Resolutions(fs, ms)
    ensures var y, y' := TexFilesFrom(fs, ms, k), TexFilesFrom(fs, ms, k + 1);
      && (rs[k].Err? ==> y.items == [] && y.error == Some(rs[k].error))
      && (rs[k].Ok? ==> y.items == Document(rs, ms, k) + y'.items && y.error == y'.error)
  {
    var (m, c) := ms[k];
    assert rs[k] == RealRelPathForTexFile(fs, m.path, c.extensions, c.mustExist);
    assert TexFilesFrom(fs, ms, k) == match rs[k]
      case Err(e) => Yield([], Some(e))
      case Ok(None) => TexFilesFrom(fs, ms, k + 1)
      case Ok(Some(p)) => Prepend(TexFile(p, c.needsParse), TexFilesFrom(fs, ms, k + 1));
  }

  /** The generator's run given the resolutions `rs` of the matches `ms[k..]`. */
  function Generate(rs: seq<Result<Option<string>>>, ms: seq<(IncludeMatch, IncludeCommand)>, k: nat): Yield<TexFile>
    requires k <= |rs| == |ms|
    decreases |rs| - k
  {
    if k == |rs| then Yield([], None)
    else if rs[k].Err? then Yield([], Some(rs[k].error))
    else
      var rest := Generate(rs, ms, k + 1);
      Yield(Document(rs, ms, k) + rest.items, rest.error)
  }

  lemma {:induction false} TexFilesGenerate(fs: FileSystem, ms: seq<(IncludeMatch, IncludeCommand)>, k: nat)
    requires k <= |ms|
    ensures var y, g := TexFilesFrom(fs, ms, k), Generate(Resolutions(fs, ms), ms, k);
      y.items == g.items && y.error == g.error
    decreases |ms| - k
  {
    if k < |ms| {
      TexFilesGenerate(fs, ms, k + 1);
      TexFilesStep(fs, ms, k, Resolutions(fs, ms));
    }
  }

  /** The generator runs to its end exactly when every resolution succeeds. */
  lemma {:induction false} GenerateCompletes(rs: seq<Result<Option<string>>>, ms: seq<(IncludeMatch, IncludeCommand)>, k: nat)
    requires k <= |rs| == |ms|
    ensures Generate(rs, ms, k).error.None? <==> forall i :: k <= i < |rs| ==> rs[i].Ok?
    decreases |rs| - k
  {
    if k < |rs| {
      GenerateCompletes(rs, ms, k + 1);
      if rs[k].Ok? && forall i :: k + 1 <= i < |rs| ==> rs[i].Ok? {
        forall i | k <= i < |rs|
          ensures rs[i].Ok?
        {
          if i > k {
            assert k + 1 <= i < |rs|;
          }
        }
      }
    }
  }

  /** A generator run to its end yields the documents of all the matches. */
  lemma {:induction false} GenerateAll(rs: seq<Result<Option<string>>>, ms: seq<(IncludeMatch, IncludeCommand)>, k: nat)
    requires k <= |rs| == |ms|
    ensures Generate(rs, ms, k).error.None? ==> Generate(rs, ms, k).items == Documents(rs, ms, k, |rs|)
    decreases |rs| - k
  {
    if k == |rs| {
      assert Documents(rs, ms, k, k) == [];
    } else if rs[k].Ok? {
      GenerateAll(rs, ms, k + 1);
      DocumentsCons(rs, ms, k, |rs|);
    }
  }

  /** A generator that raises yields the documents of the matches before the first failed
   *  resolution, and raises that failure. */
  lemma {:induction false} GenerateStops(rs: seq<Result<Option<string>>>, ms: seq<(IncludeMatch, IncludeCommand)>, k: nat)
    requires k <= |rs| == |ms|
    ensures var y := Generate(rs, ms, k);
      y.error.Some? ==>
        exists j ::
          && k <= j < |rs|
          && rs[j] == Err(y.error.value)
          && (forall i :: k <= i < j ==> rs[i].Ok?)
          && y.items == Documents(rs, ms, k, j)
    decreases |rs| - k
  {
    if k < |rs| {
      var y, y' := Generate(rs, ms, k), Generate(rs, ms, k + 1);
      if rs[k].Err? {
        assert Documents(rs, ms, k, k) == [];
      } else if y.error.Some? {
        GenerateStops(rs, ms, k + 1);
        var j :| k + 1 <= j < |rs|
          && rs[j] == Err(y'.error.value)
          && (forall i :: k + 1 <= i < j ==> rs[i].Ok?)
          && y'.items == Documents(rs, ms, k + 1, j);
        DocumentsCons(rs, ms, k, j);
      }
    }
  }

  /**
   * `_included_tex_files` yields, in match order, the document of every match that resolves
   * to a path, with its command's `needs_parse`; a match resolving to nothing is skipped. It
   * raises exactly when a resolution fails, the first failure, after the documents of the
   * matches before it and none after.
   */
  lemma TexFilesInOrder(fs: FileSystem, ms: seq<(IncludeMatch, IncludeCommand)>, k: nat)
    requires k <= |ms|
    ensures var y, rs := TexFilesFrom(fs, ms, k), Resolutions(fs, ms);
      && (y.error.None? <==> forall i :: k <= i < |ms| ==> rs[i].Ok?)
      && (y.error.None? ==> y.items == Documents(rs, ms, k, |ms|))
      && (y.error.Some? ==>
            exists j ::
              && k <= j < |ms|
              && rs[j] == Err(y.error.value)
              && (forall i :: k <= i < j ==> rs[i].Ok?)
              && y.items == Documents(rs, ms, k, j))
  {
    var rs := Resolutions(fs, ms);
    TexFilesGenerate(fs, ms, k);
    GenerateCompletes(rs, ms, k);
    GenerateAll(rs, ms, k);
    GenerateStops(rs, ms, k);
  }

  /** `_included_tex_files(l)`. */
  function IncludedTexFiles(fs: FileSystem, l: string): (y: Yield<TexFile>)
    ensures y.error.Some? ==> y.error.value.FileNotFound? || y.error.value.NoFileWithExtension?
  {
    TexFilesFrom(fs, MatchAll(l, TexIncludes), 0)
  }

  /** The static files yielded for the matches `ms[k..]`: every match yields one, unless the
   *  generator stops early at an exception. */
  function StaticFilesFrom(fs: FileSystem, ms: seq<(IncludeMatch, IncludeCommand)>, k: nat): (y: Yield<StaticFile>)
    requires k <= |ms|
    ensures |y.items| <= |ms| - k
    ensures y.error.None? <==> |y.items| == |ms| - k
    ensures forall i :: 0 <= i < |y.items| ==> IsFile(fs, y.items[i].realPath)
    ensures y.error.Some? ==> y.error.value.FileNotFound? || y.error.value.NotExactlyOneMatch?
    decreases |ms| - k
  {
    if k == |ms| then Yield([], None)
    else
      var texPath := ms[k].0.path;
      match RealPathForStaticFile(fs, texPath)
      case Err(e) => Yield([], Some(e))
      case Ok(p) => Prepend(StaticFile(texPath, p), StaticFilesFrom(fs, ms, k + 1))
  }

  /** `_included_static_files(l)`: for the static directives of `l` in order, what each path
   *  resolves to, stopping at the first path that does not resolve. */
  function IncludedStaticFiles(fs: FileSystem, l: string): (y: Yield<StaticFile>)
    ensures forall i :: 0 <= i < |y.items| ==> IsFile(fs, y.items[i].realPath)
    ensures y.error.Some? ==> y.error.value.FileNotFound? || y.error.value.NotExactlyOneMatch?
    ensures var ms := MatchAll(l, StaticIncludes); var rs := StaticResolutions(fs, ms);
      && YieldedFor(rs, y.items, ms, 0)
      && (y.error.None? <==> |y.items| == |ms|)
      && (y.error.Some? ==> |y.items| < |ms| && rs[|y.items|] == Err(y.error.value))
  {
    var ms := MatchAll(l, StaticIncludes);
    StaticFilesInOrder(fs, ms, 0);
    StaticFilesStops(fs, ms, 0);
    StaticFilesFrom(fs, ms, 0)
  }

  /** The resolution `_included_static_files` makes of each match. */
  function StaticResolutions(fs: FileSystem, ms: seq<(IncludeMatch, IncludeCommand)>): (rs: seq<Result<string>>)
    ensures |rs| == |ms|
  {
    if ms == [] then [] else [RealPathForStaticFile(fs, ms[0].0.path)] + StaticResolutions(fs, ms[1..])
  }

  lemma {:induction false} StaticResolutionAt(fs: FileSystem, ms: seq<(IncludeMatch, IncludeCommand)>, j: nat)
    requires j < |ms|
    ensures StaticResolutions(fs, ms)[j] == RealPathForStaticFile(fs, ms[j].0.path)
  {
    if j > 0 {
      StaticResolutionAt(fs, ms[1..], j - 1);
    }
  }

  /** One match of `_included_static_files`: a failed resolution stops the generator, a
   *  successful one yields the match's file before the later ones. */
  lemma StaticFilesStep(fs: FileSystem, ms: seq<(IncludeMatch, IncludeCommand)>, k: nat, rs: seq<Result<string>>)
    requires k < |ms| && rs == StaticResolutions(fs, ms)
    ensures var y, y' := StaticFilesFrom(fs, ms, k), StaticFilesFrom(fs, ms, k + 1);
      && (rs[k].Err? ==> y.items == [] && y.error == Some(rs[k].error))
      && (rs[k].Ok? ==> y.items == [StaticFile(ms[k].0.path, rs[k].value)] + y'.items && y.error == y'.error)
  {
    StaticResolutionAt(fs, ms, k);
  }

  /** The generator's run given the resolutions `rs` of the matches `ms[k..]`. */
  function StaticGenerate(rs: seq<Result<string>>, ms: seq<(IncludeMatch, IncludeCommand)>, k: nat): Yield<StaticFile>
    requires k <= |rs| == |ms|
    decreases |rs| - k
  {
    if k == |rs| then Yield([], None)
    else if rs[k].Err? then Yield([], Some(rs[k].error))
    else
      var rest := StaticGenerate(rs, ms, k + 1);
      Yield([StaticFile(ms[k].0.path, rs[k].value)] + rest.items, rest.error)
  }

  lemma {:induction false} StaticFilesGenerate(fs: FileSystem, ms: seq<(IncludeMatch, IncludeCommand)>, k: nat)
    requires k <= |ms|
    ensures var y, g := StaticFilesFrom(fs, ms, k), StaticGenerate(StaticResolutions(fs, ms), ms, k);
      y.items == g.items && y.error == g.error
    decreases |ms| - k
  {
    if k < |ms| {
      StaticFilesGenerate(fs, ms, k + 1);
      StaticFilesStep(fs, ms, k, StaticResolutions(fs, ms));
    }
  }

  /** `items` were yielded for the matches `ms[k..]`, in order: each keeps its match's path and
   *  is what that path resolves to, `rs` being the resolutions of the matches. */
  predicate YieldedFor(rs: seq<Result<string>>, items: seq<StaticFile>, ms: seq<(IncludeMatch, IncludeCommand)>, k: nat) {
    && k + |items| <= |ms| == |rs|
    && forall i :: 0 <= i < |items| ==> items[i].texPath == ms[k + i].0.path && rs[k + i] == Ok(items[i].realPath)
  }

  lemma YieldedForCons(rs: seq<Result<string>>, x: StaticFile, items: seq<StaticFile>, ms: seq<(IncludeMatch, IncludeCommand)>, k: nat)
    requires k < |ms| == |rs| && x.texPath == ms[k].0.path && rs[k] == Ok(x.realPath)
    requires YieldedFor(rs, items, ms, k + 1)
    ensures YieldedFor(rs, [x] + items, ms, k)
  {
    var xs := [x] + items;
    forall i | 0 <= i < |xs|
      ensures xs[i].texPath == ms[k + i].0.path && rs[k + i] == Ok(xs[i].realPath)
    {
      if i > 0 {
        assert xs[i] == items[i - 1];
      }
    }
  }

  /** Each file the generator yields belongs to its match, in match order, and is what the
   *  match's path resolves to. */
  lemma {:induction false} GenerateInOrder(rs: seq<Result<string>>, ms: seq<(IncludeMatch, IncludeCommand)>, k: nat)
    requires k <= |rs| == |ms|
    ensures YieldedFor(rs, StaticGenerate(rs, ms, k).items, ms, k)
    decreases |rs| - k
  {
    if k < |rs| && rs[k].Ok? {
      GenerateInOrder(rs, ms, k + 1);
      YieldedForCons(rs, StaticFile(ms[k].0.path, rs[k].value), StaticGenerate(rs, ms, k + 1).items, ms, k);
    }
  }

  /** The generator raises the error of the first failed resolution, right after the files of
   *  the matches before it. */
  lemma {:induction false} StaticGenerateStops(rs: seq<Result<string>>, ms: seq<(IncludeMatch, IncludeCommand)>, k: nat)
    requires k <= |rs| == |ms|
    ensures var y := StaticGenerate(rs, ms, k);
      y.error.Some? ==> k + |y.items| < |rs| && rs[k + |y.items|] == Err(y.error.value)
    decreases |rs| - k
  {
    if k < |rs| && rs[k].Ok? {
      StaticGenerateStops(rs, ms, k + 1);
    }
  }

  /** Each static file is yielded for its match, in the order of the matches, and is what the
   *  match's path resolves to. */
  lemma StaticFilesInOrder(fs: FileSystem, ms: seq<(IncludeMatch, IncludeCommand)>, k: nat)
    requires k <= |ms|
    ensures YieldedFor(StaticResolutions(fs, ms), StaticFilesFrom(fs, ms, k).items, ms, k)
  {
    StaticFilesGenerate(fs, ms, k);
    GenerateInOrder(StaticResolutions(fs, ms), ms, k);
  }

  /** The generator raises exactly the error of the first match whose path does not resolve,
   *  right after the files of the matches before it. */
  lemma StaticFilesStops(fs: FileSystem, ms: seq<(IncludeMatch, IncludeCommand)>, k: nat)
    requires k <= |ms|
    ensures var y, rs := StaticFilesFrom(fs, ms, k), StaticResolutions(fs, ms);
      y.error.Some? ==> k + |y.items| < |ms| && rs[k + |y.items|] == Err(y.error.value)
  {
    var y, rs := StaticFilesFrom(fs, ms, k), StaticResolutions(fs, ms);
    StaticFilesGenerate(fs, ms, k);
    StaticGenerateStops(rs, ms, k);
    var g := StaticGenerate(rs, ms, k);
    assert |y.items| == |g.items| && y.error == g.error;
    if y.error.Some? {
      var j := k + |g.items|;
      assert rs[j] == Err(y.error.value) && j == k + |y.items|;
    }
  }
}
