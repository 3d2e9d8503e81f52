/**
 * The pieces of main.py, the older version of the tool, that main2.py replaced: the path lookup
 * with a fixed list of extensions, the include directives tried in list order, the image
 * directives, the cache of definitions that reference files, and the size guard in front of
 * deleting the output directory. The comment stripper and the bracket balancer of main.py are
 * the `ColumnZero` dialect of `Comments` and `ConsumeUntilBalanced` of `Brackets`.
 */
module Legacy {
  import opened Failures
  import opened Text
  import opened Brackets
  import opened Patterns
  import opened Resolver
  import Macros

  // ---------------------------------------------------------------------------------------
  // `Copier.get_actual_p`

  /** `_EXTS`: the extensions tried for a path that is not a file as written. */
  const Exts: seq<string> := [".jpg", ".pdf", ".tex", ".png"]

  /** `[p + ext for ext in exts if os.path.isfile(p + ext)]`. */
  function Existing(fs: FileSystem, p: string, exts: seq<string>): (cs: seq<string>)
    ensures |cs| <= |exts|
  {
    if exts == [] then []
    else (if IsFile(fs, p + exts[0]) then [p + exts[0]] else []) + Existing(fs, p, exts[1..])
  }

  /** The candidates are exactly the existing files `p + ext`, `ext` one of `exts`. */
  lemma {:induction false} ExistingMembers(fs: FileSystem, p: string, exts: seq<string>, x: string)
    ensures x in Existing(fs, p, exts) <==> IsFile(fs, x) && exists e :: e in exts && x == p + e
    decreases |exts|
  {
    if exts != [] {
      ExistingMembers(fs, p, exts[1..], x);
      if x == p + exts[0] && IsFile(fs, x) {
        assert x in Existing(fs, p, exts);
      }
      if exists e :: e in exts && x == p + e {
        var e :| e in exts && x == p + e;
        if e != exts[0] {
          assert e in exts[1..];
        }
      }
    }
  }

  /** With one existing candidate among distinct extensions, it is the only one listed. */
  lemma {:induction false} ExistingSingle(fs: FileSystem, p: string, exts: seq<string>, e: string)
    requires e in exts && IsFile(fs, p + e)
    requires forall f :: f in exts && f != e ==> !IsFile(fs, p + f)
    requires forall i, j :: 0 <= i < j < |exts| ==> exts[i] != exts[j]
    ensures Existing(fs, p, exts) == [p + e]
    decreases |exts|
  {
    if exts[0] == e {
      ExistingNone(fs, p, exts[1..]);
    } else {
      ExistingSingle(fs, p, exts[1..], e);
    }
  }

  /** Without any existing candidate nothing is listed. */
  lemma {:induction false} ExistingNone(fs: FileSystem, p: string, exts: seq<string>)
    requires forall f :: f in exts ==> !IsFile(fs, p + f)
    ensures Existing(fs, p, exts) == []
    decreases |exts|
  {
    if exts != [] {
      ExistingNone(fs, p, exts[1..]);
    }
  }

  /** Two existing candidates with different extensions are both listed. */
  lemma ExistingTwo(fs: FileSystem, p: string, exts: seq<string>, e1: string, e2: string)
    requires e1 in exts && e2 in exts && e1 != e2 && IsFile(fs, p + e1) && IsFile(fs, p + e2)
    ensures |Existing(fs, p, exts)| >= 2
  {
    ExistingMembers(fs, p, exts, p + e1);
    ExistingMembers(fs, p, exts, p + e2);
    assert p + e1 != p + e2 by {
      assert (p + e1)[|p|..] == e1 && (p + e2)[|p|..] == e2;
    }
    TwoMembers(Existing(fs, p, exts), p + e1, p + e2);
  }

  /** A sequence with two different members has at least two elements. */
  lemma TwoMembers<T>(xs: seq<T>, x: T, y: T)
    requires x in xs && y in xs && x != y
    ensures |xs| >= 2
  {
  }

  /**
   * `get_actual_p(p)`: the path and whether it was a file as written. A path holding `#` (a
   * macro parameter left in the text) is given up; otherwise exactly one `p + ext` must exist.
   */
  function GetActualP(fs: FileSystem, p: string): (r: Result<(Option<string>, bool)>)
    ensures r.Ok? && r.value.1 <==> IsFile(fs, p)
    ensures r.Ok? && r.value.0.None? <==> !IsFile(fs, p) && '#' in p
    ensures r.Err? <==> !IsFile(fs, p) && '#' !in p && |Existing(fs, p, Exts)| != 1
  {
    if IsFile(fs, p) then Ok((Some(p), true))
    else if '#' in p then Ok((None, false))
    else
      var cs := Existing(fs, p, Exts);
      if |cs| == 1 then Ok((Some(cs[0]), false)) else Err(NotExactlyOneMatch(p, |cs|))
  }

  /** A path found through an extension is an existing file with one of the extensions. */
  lemma GetActualPFound(fs: FileSystem, p: string)
    requires GetActualP(fs, p).Ok? && GetActualP(fs, p).value.0.Some?
    ensures var q := GetActualP(fs, p).value.0.value;
      IsFile(fs, q) && (q == p || exists e :: e in Exts && q == p + e)
  {
    if !IsFile(fs, p) {
      var q := Existing(fs, p, Exts)[0];
      ExistingMembers(fs, p, Exts, q);
    }
  }

  /** Exactly one existing `p + ext` is the answer. */
  lemma GetActualPUnique(fs: FileSystem, p: string, e: string)
    requires !IsFile(fs, p) && '#' !in p
    requires e in Exts && IsFile(fs, p + e)
    requires forall f :: f in Exts && f != e ==> !IsFile(fs, p + f)
    ensures GetActualP(fs, p) == Ok((Some(p + e), false))
  {
    ExistingSingle(fs, p, Exts, e);
  }

  /** No existing `p + ext`, or several, is an error. */
  lemma GetActualPFails(fs: FileSystem, p: string)
    requires !IsFile(fs, p) && '#' !in p
    requires (forall f :: f in Exts ==> !IsFile(fs, p + f))
      || (exists e1, e2 :: e1 in Exts && e2 in Exts && e1 != e2 && IsFile(fs, p + e1) && IsFile(fs, p + e2))
    ensures GetActualP(fs, p).Err?
  {
    if forall f :: f in Exts ==> !IsFile(fs, p + f) {
      ExistingNone(fs, p, Exts);
    } else {
      var e1, e2 :| e1 in Exts && e2 in Exts && e1 != e2 && IsFile(fs, p + e1) && IsFile(fs, p + e2);
      ExistingTwo(fs, p, Exts, e1, e2);
    }
  }

  // ---------------------------------------------------------------------------------------
  // `Copier._included_source_file` and `Copier._contains_include_statement`

  /** `FileSpec`: a directive, the extension its files must have, and whether they must exist. */
  datatype FileSpec = FileSpec(pattern: IncludePattern, ext: string, mustExist: bool)

  /** `_RECURSIVE_INCLUDE`, in the order the directives are tried. A package may be a system
   *  package, so it need not exist. */
  const RecursiveIncludes: seq<FileSpec> := [
    FileSpec(IncludePattern("\\input", NoOptions), ".tex", true),
    FileSpec(IncludePattern("\\subfile", NoOptions), ".tex", true),
    FileSpec(IncludePattern("\\bibliographystyle", NoOptions), ".bst", true),
    FileSpec(IncludePattern("\\bibliography", NoOptions), ".bib", true),
    FileSpec(IncludePattern("\\usepackage", GreedyOptions), ".sty", false)
  ]

  /** The path written in a directive, completed with the directive's extension when it has
   *  none. */
  function Completed(written: string, ext: string): string {
    if SplitExt(written).1 == [] then written + ext else written
  }

  /** The body of the loop for the directive that matched: the extension check, then the
   *  file check, in the directory `dir` of the document. */
  function ResolveWritten(fs: FileSystem, dir: string, written: string, spec: FileSpec): (r: Result<Option<string>>)
    ensures r.Err? && r.error.ExtensionMismatch? <==> SplitExt(written).1 != [] && SplitExt(written).1 != spec.ext
    ensures r.Ok? && r.value.Some? <==>
      (r != Err(ExtensionMismatch(spec.ext, written)) && IsFile(fs, Join(dir, Completed(written, spec.ext))))
    ensures r.Ok? && r.value.Some? ==> r.value.value == Join(dir, Completed(written, spec.ext))
    ensures r.Ok? && r.value.None? ==> !spec.mustExist && !IsFile(fs, Join(dir, Completed(written, spec.ext)))
    ensures r.Err? && !r.error.ExtensionMismatch? ==> spec.mustExist
  {
    var e := SplitExt(written).1;
    if e != [] && e != spec.ext then Err(ExtensionMismatch(spec.ext, written))
    else
      var f := Join(dir, Completed(written, spec.ext));
      if IsFile(fs, f) then Ok(Some(f))
      else if !spec.mustExist then Ok(None)
      else Err(FileNotFound(f))
  }

  /** What `spec.regex.search(l)` gives for each directive, in list order. */
  function Hits(l: string, specs: seq<FileSpec>): (hits: seq<Option<IncludeMatch>>)
    ensures |hits| == |specs|
    ensures forall i :: 0 <= i < |specs| ==> hits[i] == Search(l, specs[i].pattern)
  {
    seq(|specs|, i requires 0 <= i < |specs| => Search(l, specs[i].pattern))
  }

  /** The loop's search: the first directive from `k` on whose search found a match. */
  function FirstHit(hits: seq<Option<IncludeMatch>>, k: nat): (r: Option<nat>)
    requires k <= |hits|
    ensures r.Some? ==> k <= r.value < |hits| && hits[r.value].Some?
    ensures r.Some? ==> forall i :: k <= i < r.value ==> hits[i].None?
    ensures r.None? ==> forall i :: k <= i < |hits| ==> hits[i].None?
    decreases |hits| - k
  {
    if k == |hits| then None
    else if hits[k].Some? then Some(k)
    else FirstHit(hits, k + 1)
  }

  /** The first search that found a match is the one the loop stops at. */
  lemma FirstHitIs(hits: seq<Option<IncludeMatch>>, j: nat)
    requires j < |hits| && hits[j].Some? && forall i :: 0 <= i < j ==> hits[i].None?
    ensures FirstHit(hits, 0) == Some(j)
  {
  }

  /** `_included_source_file(current_dir, l)`: the first directive the line matches decides,
   *  through its extension check and its file check; a line that matches none includes
   *  nothing. */
  function IncludedSourceFile(fs: FileSystem, dir: string, l: string): (r: Result<Option<string>>)
    ensures r.Ok? && r.value.Some? ==> IsFile(fs, r.value.value)
    ensures r.Err? ==> r.error.ExtensionMismatch? || r.error.FileNotFound?
  {
    var hits := Hits(l, RecursiveIncludes);
    match FirstHit(hits, 0)
    case None => Ok(None)
    case Some(j) => ResolveWritten(fs, dir, hits[j].value.path, RecursiveIncludes[j])
  }

  /** `_contains_include_statement(l)`: `any` of the searches. */
  predicate ContainsIncludeStatement(l: string): (b: bool)
    ensures b <==> FirstHit(Hits(l, RecursiveIncludes), 0).Some?
  {
    exists i :: 0 <= i < |RecursiveIncludes| && Search(l, RecursiveIncludes[i].pattern).Some?
  }

  /** `_included_source_file`: the first directive of the list that the line matches decides,
   *  through its extension check and its file check. */
  lemma IncludedSourceFileFirst(fs: FileSystem, dir: string, l: string, j: nat)
    requires j < |RecursiveIncludes| && Search(l, RecursiveIncludes[j].pattern).Some?
    requires forall i :: 0 <= i < j ==> Search(l, RecursiveIncludes[i].pattern).None?
    ensures IncludedSourceFile(fs, dir, l)
      == ResolveWritten(fs, dir, Search(l, RecursiveIncludes[j].pattern).value.path, RecursiveIncludes[j])
  {
    var hits := Hits(l, RecursiveIncludes);
    FirstHitIs(hits, j);
  }

  /** A line without an include statement includes nothing: the two tests agree. */
  lemma NoStatementNoSource(fs: FileSystem, dir: string, l: string)
    ensures !ContainsIncludeStatement(l) ==> IncludedSourceFile(fs, dir, l) == Ok(None)
  {
    var hits := Hits(l, RecursiveIncludes);
    if FirstHit(hits, 0).Some? {
      assert Search(l, RecursiveIncludes[FirstHit(hits, 0).value].pattern).Some?;
    }
  }

  // ---------------------------------------------------------------------------------------
  // `Copier._included_images`

  /** `_RE_INCLUDE_GRAPHICS` and `_RE_OVERPIC`: both with a greedy `(\[.*\])?` group. */
  const IncludeGraphics: IncludePattern := IncludePattern("\\includegraphics", GreedyOptions)
  const Overpic: IncludePattern := IncludePattern("\\begin{overpic}", GreedyOptions)

  /** `_included_images(l)`: the path of every `\includegraphics`, left to right, then the path
   *  of every `\begin{overpic}`. */
  function IncludedImages(l: string): (r: seq<string>)
    ensures |r| == |FindAll(l, IncludeGraphics, 0)| + |FindAll(l, Overpic, 0)|
  {
    FindAllPaths(l, IncludeGraphics) + FindAllPaths(l, Overpic)
  }

  /** A match of an image directive at `a` with path `p`. */
  predicate ImageAt(l: string, a: nat, p: string) {
    || (MatchIncludeAt(l, a, IncludeGraphics).Some? && MatchIncludeAt(l, a, IncludeGraphics).value.path == p)
    || (MatchIncludeAt(l, a, Overpic).Some? && MatchIncludeAt(l, a, Overpic).value.path == p)
  }

  /** Some image directive of the line has the path `p`. */
  ghost predicate IsImageOf(l: string, p: string) {
    exists a :: ImageAt(l, a, p)
  }

  /** Every listed image is the path of an image directive of the line; the
   *  `\includegraphics` paths come first. */
  lemma IncludedImagesSound(l: string)
    ensures var r, g := IncludedImages(l), FindAll(l, IncludeGraphics, 0);
      && |g| <= |r|
      && (forall i :: 0 <= i < |g| ==> r[i] == g[i].path)
      && (forall i :: 0 <= i < |r| ==> IsImageOf(l, r[i]))
  {
    var gp, op := FindAllPaths(l, IncludeGraphics), FindAllPaths(l, Overpic);
    var r := IncludedImages(l);
    assert r == gp + op;
    forall i | 0 <= i < |r|
      ensures IsImageOf(l, r[i])
    {
      if i < |gp| {
        ImagePathAt(l, IncludeGraphics, i);
        var a := FindAll(l, IncludeGraphics, 0)[i].start;
        assert ImageAt(l, a, r[i]);
      } else {
        ImagePathAt(l, Overpic, i - |gp|);
        var a := FindAll(l, Overpic, 0)[i - |gp|].start;
        assert ImageAt(l, a, r[i]);
      }
    }
  }

  /** The `i`-th path of `pat.findall(l)` is the path of a match at that match's start. */
  lemma ImagePathAt(l: string, pat: IncludePattern, i: nat)
    requires i < |FindAllPaths(l, pat)|
    ensures var m := FindAll(l, pat, 0)[i];
      MatchIncludeAt(l, m.start, pat).Some? && MatchIncludeAt(l, m.start, pat).value.path == FindAllPaths(l, pat)[i]
  {
  }

  /** A plainly written `\includegraphics{path}` with no image directive before it is the
   *  first image listed. */
  lemma PlainImageListed(pre: string, path: string, post: string)
    requires forall k :: 0 <= k < |path| ==> path[k] != '}' && path[k] != '\n'
    requires NoMatchIn(pre + "\\includegraphics" + "{" + path + "}" + post, IncludeGraphics, 0, |pre|)
    ensures var r := IncludedImages(pre + "\\includegraphics" + "{" + path + "}" + post);
      |r| > 0 && r[0] == path
  {
    PlainDirectiveFound(pre, "\\includegraphics", path, post, GreedyOptions);
  }

  // ---------------------------------------------------------------------------------------
  // `Copier._consume_and_parse_newcommand`

  /** Whether a definition is worth keeping: its text includes an image or a file. */
  predicate ReferencesFiles(command: string) {
    IncludedImages(command) != [] || ContainsIncludeStatement(command)
  }

  /** The part of main.py's `Copier` that caches definitions: `commands` and
   *  `command_regexes`, a regex being kept as the name and its number of argument groups. */
  class DefinitionCache {
    var commands: map<string, string>
    var commandRegexes: seq<(string, nat)>

    /** Only definitions that reference files are cached, and every regex has its definition. */
    predicate Valid()
      reads this
    {
      && (forall n :: n in commands ==> ReferencesFiles(commands[n]))
      && (forall i :: 0 <= i < |commandRegexes| ==> commandRegexes[i].0 in commands)
    }

    constructor()
      ensures Valid() && commands == map[] && commandRegexes == []
    {
      commands := map[];
      commandRegexes := [];
    }

    /**
     * `_consume_and_parse_newcommand(current_line, file_iter)`: the line must hold a header
     * (main.py's regex has no `\*?`); the definition is read by the main.py balancer and kept
     * only when it references files. The result is the number of lines taken from the
     * iterator. A kept definition of an empty name (`\newcommand{}{…}`) is cached, and then its
     * regex fails to compile.
     */
    method ConsumeAndParseNewcommand(line: string, following: seq<string>) returns (r: Result<nat>)
      requires Valid()
      modifies this
      ensures Valid()
      ensures r == Err(NoDefinitionHeader) <==> SearchNewcommand(line, false, 0).None?
      ensures r.Err? && !r.error.InvalidPattern? ==>
        commands == old(commands) && commandRegexes == old(commandRegexes)
      ensures r.Err? && r.error.InvalidPattern? ==>
        var h := SearchNewcommand(line, false, 0);
        && h.Some? && h.value.name == [] && r.error == InvalidPattern([])
        && [] in commands && commands == old(commands)[[] := commands[[]]]
        && commandRegexes == old(commandRegexes)
      ensures r.Ok? ==> r.value <= |following| && SearchNewcommand(line, false, 0).Some?
      ensures r.Ok? ==>
        var h, text := SearchNewcommand(line, false, 0).value, Joined(line, following, r.value);
        && Depth(text) == 0
        && (ReferencesFiles(text) ==>
              h.name != [] && commands == old(commands)[h.name := text]
              && commandRegexes == old(commandRegexes) + [(h.name, Macros.Arity(h.numArgs))])
        && (!ReferencesFiles(text) ==> commands == old(commands) && commandRegexes == old(commandRegexes))
    {
      var m := SearchNewcommand(line, false, 0);
      if m.None? {
        return Err(NoDefinitionHeader);
      }
      var h := m.value;
      var consumed := ConsumeUntilBalanced(line, following, MaxLookahead);
      if consumed.Err? {
        return Err(consumed.error);
      }
      var (command, used) := consumed.value;
      if !ReferencesFiles(command) {
        return Ok(used);
      }
      commands := commands[h.name := command];
      if h.name == [] {
        // the regex `(\)` built for an empty name does not compile; the definition is cached first
        return Err(InvalidPattern(h.name));
      }
      commandRegexes := commandRegexes + [(h.name, Macros.Arity(h.numArgs))];
      return Ok(used);
    }
  }

  // ---------------------------------------------------------------------------------------
  // `_get_size` and `_rmtree_semi_safe`

  /** The total of a sequence of file sizes. */
  function Sum(sizes: seq<nat>): nat {
    if sizes == [] then 0 else Sum(sizes[..|sizes| - 1]) + sizes[|sizes| - 1]
  }

  /** A running total never exceeds the full total: sizes are never negative. */
  lemma {:induction false} SumPrefix(sizes: seq<nat>, k: nat)
    requires k <= |sizes|
    ensures Sum(sizes[..k]) <= Sum(sizes)
    decreases |sizes| - k
  {
    if k < |sizes| {
      var s := sizes[..k + 1];
      assert s[..|s| - 1] == sizes[..k];
      SumPrefix(sizes, k + 1);
    } else {
      assert sizes[..k] == sizes;
    }
  }

  /**
   * `_get_size(p, max_size)` over the sizes of the files below `p`, in walk order: the running
   * total is compared with `max_size` after each file. Stopping early loses nothing: the result
   * is `None` exactly when the whole total is over the bound (and there is a file at all).
   */
  method GetSize(sizes: seq<nat>, maxSize: int) returns (r: Option<nat>)
    ensures r.None? <==> |sizes| > 0 && Sum(sizes) > maxSize
    ensures r.Some? ==> r.value == Sum(sizes)
  {
    var total := 0;
    var i := 0;
    while i < |sizes|
      invariant i <= |sizes| && total == Sum(sizes[..i])
      invariant i > 0 ==> total <= maxSize
    {
      assert sizes[..i + 1][..i] == sizes[..i];
      total := total + sizes[i];
      i := i + 1;
      if total > maxSize {
        SumPrefix(sizes, i);
        return None;
      }
    }
    assert sizes[..i] == sizes;
    return Some(total);
  }

  /** `_rmtree_semi_safe(out_dir, max_size_mb)`: the deletion is refused when the directory
   *  holds more than `max_size_mb` MiB. */
  method RmtreeSemiSafe(sizes: seq<nat>, maxSizeMb: int) returns (r: Result<()>)
    ensures r.Ok? <==> |sizes| == 0 || Sum(sizes) <= maxSizeMb * 1024 * 1024
    ensures r.Err? ==> r.error == TooBigToDelete
  {
    var size := GetSize(sizes, maxSizeMb * 1024 * 1024);
    if size.None? {
      return Err(TooBigToDelete);
    }
    return Ok(());
  }
}
