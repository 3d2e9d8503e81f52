/**
 * main2.py's `Copier`: it copies the root document, then walks it line by line, recording
 * `\newcommand` definitions, expanding the defined commands, and copying (and walking in turn)
 * every file a line includes. The walk is first stated as functions of the source tree and the
 * copier's state; the class's methods are the source's imperative code, each proved to leave
 * the state those functions describe.
 */
module Walker {
  import opened Failures
  import opened Text
  import opened Comments
  import opened Brackets
  import opened Patterns
  import opened Macros
  import opened Resolver

  /** The state of a copier: its definition table and the files written below the output
   *  directory, by their path relative to it, with their lines. */
  datatype Walk = Walk(table: Table, out: map<string, seq<string>>)

  /** A table expansion can use: consistent, and with no command compiled from `[0]`. */
  predicate Ready(w: Walk) {
    Macros.Valid(w.table) && NoZeroArity(w.table)
  }

  /** The lines `_copy` leaves in the output: a document has its comments stripped. */
  function CopiedLines(fs: FileSystem, rel: string): seq<string>
    requires IsFile(fs, rel)
  {
    if EndsWith(rel, ".tex") then StripDoc(fs.files[rel], Indented) else fs.files[rel]
  }

  /** `_copy(rel)` as intended: the file must exist; its output is written, its directory being
   *  created first as `_copy_static` does. Every existing document can be copied. */
  function CopySpec(fs: FileSystem, w: Walk, rel: string): (r: Result<Walk>)
    ensures r.Ok? <==> IsFile(fs, rel)
    ensures r.Ok? ==> r.value.table == w.table && r.value.out.Keys == w.out.Keys + {rel}
  {
    if IsFile(fs, rel) then Ok(w.(out := w.out[rel := CopiedLines(fs, rel)])) else Err(NotAFile(rel))
  }

  /** `os.path.dirname` of a relative path: the text before its last separator, "" for a file of
   *  the top directory. */
  function Dirname(p: string): (d: string)
    ensures d == [] || (|d| < |p| && StartsWith(p, d + "/"))
  {
    var s := LastIndex(p, '/');
    if s < 0 then [] else p[..s]
  }

  /** A directory of the output tree: the output directory itself, or a directory holding a
   *  written file. Only `os.makedirs` in `_copy_static` creates directories below the top. */
  predicate DirExists(out: map<string, seq<string>>, d: string) {
    d == [] || exists k :: k in out && StartsWith(k, d + "/")
  }

  /** `_copy(rel)` as written: after the file check, `shutil.copy` writes into a directory it
   *  does not create, and fails when that directory is missing. */
  function CopyAsWritten(fs: FileSystem, w: Walk, rel: string): (r: Result<Walk>)
    ensures r.Ok? <==> IsFile(fs, rel) && DirExists(w.out, Dirname(rel))
    ensures r.Ok? ==> r == CopySpec(fs, w, rel)
  {
    if !IsFile(fs, rel) then Err(NotAFile(rel))
    else if !DirExists(w.out, Dirname(rel)) then Err(FileNotFound(Dirname(rel)))
    else CopySpec(fs, w, rel)
  }

  /** As written, a document in a sub-directory `dir` of the root cannot be copied while no
   *  file of that directory has been copied (`\input{sections/intro}` right after the root
   *  `main.tex`), although it exists; the intended copy succeeds. */
  lemma SubdirectoryCopyFails(fs: FileSystem, w: Walk, dir: string, name: string)
    requires dir != [] && forall k :: 0 <= k < |name| ==> name[k] != '/'
    requires IsFile(fs, dir + "/" + name)
    requires forall k :: k in w.out ==> !StartsWith(k, dir + "/")
    ensures CopyAsWritten(fs, w, dir + "/" + name) == Err(FileNotFound(dir))
    ensures CopySpec(fs, w, dir + "/" + name).Ok?
  {
    var p := dir + "/" + name;
    LastIndexAt(p, '/', |dir|);
    assert p[..|dir|] == dir;
  }

  /** Where the directory already exists, the source's copy is the intended one. */
  lemma CopyAsWrittenAgrees(fs: FileSystem, w: Walk, rel: string)
    requires DirExists(w.out, Dirname(rel))
    ensures CopyAsWritten(fs, w, rel) == CopySpec(fs, w, rel)
  {
  }

  /** After the intended copy, the directory of the document exists in the output tree. */
  lemma CopyMakesDirectory(fs: FileSystem, w: Walk, rel: string)
    requires CopySpec(fs, w, rel).Ok?
    ensures DirExists(CopySpec(fs, w, rel).value.out, Dirname(rel))
  {
    var d := Dirname(rel);
    if d != [] {
      assert rel in CopySpec(fs, w, rel).value.out && StartsWith(rel, d + "/");
    }
  }

  /** `_copy_static(f)`: the file is copied as it is (no extension is ever converted). */
  function CopyStaticSpec(fs: FileSystem, w: Walk, f: StaticFile): (r: Walk)
    requires IsFile(fs, f.realPath)
    ensures r.table == w.table && r.out.Keys == w.out.Keys + {f.realPath}
  {
    w.(out := w.out[f.realPath := fs.files[f.realPath]])
  }

  // ---------------------------------------------------------------------------------------
  // One line

  /** What reading one line leaves: the table, the text scanned for includes, and the index of
   *  the next line to read. */
  datatype Step = Step(table: Table, text: string, next: nat)

  /**
   * `_extract_definition(line, f_iter)`: with a header on the line, the body is read from its
   * opening bracket on, possibly over the following lines, and registered; the result is what
   * follows the body on its last line, and how many following lines were read. Extracting
   * keeps the table usable and reads no more lines than follow.
   */
  function Extract(t: Table, line: string, following: seq<string>): (r: Result<Step>)
    requires Macros.Valid(t) && NoZeroArity(t)
    ensures r.Ok? ==> Macros.Valid(r.value.table) && NoZeroArity(r.value.table) && r.value.next <= |following|
  {
    match SearchNewcommand(line, true, 0)
    case None => Ok(Step(t, line, 0))
    case Some(h) => ExtractAt(t, line, following, h)
  }

  /** `_extract_definition` once the header `h` is found: the body read from its opening
   *  bracket on and registered. */
  function ExtractAt(t: Table, line: string, following: seq<string>, h: NewcommandMatch): (r: Result<Step>)
    requires Macros.Valid(t) && NoZeroArity(t) && 0 < h.end <= |line|
    ensures r.Ok? ==> Macros.Valid(r.value.table) && NoZeroArity(r.value.table) && r.value.next <= |following|
  {
    BalanceUsed(line[h.end - 1..], following);
    RegisterClosed(t, h, Balance(line[h.end - 1..], following), |following|)
  }

  /** The second half of `_extract_definition`: the body read for the header `h` (or the
   *  failure to read it) registered, keeping the table usable. */
  function RegisterClosed(t: Table, h: NewcommandMatch, closed: Result<Closed>, bound: nat): (r: Result<Step>)
    requires Macros.Valid(t) && NoZeroArity(t)
    requires closed.Ok? ==> closed.value.used <= bound
    ensures r.Ok? ==> Macros.Valid(r.value.table) && NoZeroArity(r.value.table) && r.value.next <= bound
  {
    match closed
    case Err(e) => Err(e)
    case Ok(c) =>
      match Register(t, h.isRenew, h.name, h.numArgs, c.body)
      case Err(e) => Err(e)
      case Ok(t') =>
        RegisterKeepsReady(t, h.isRenew, h.name, h.numArgs, c.body);
        Ok(Step(t', c.remaining, c.used))
  }

  /** A header whose body is read and registered yields the registered table. */
  lemma ExtractDefines(t: Table, line: string, following: seq<string>, h: NewcommandMatch, c: Closed, t': Table)
    requires Macros.Valid(t) && NoZeroArity(t)
    requires SearchNewcommand(line, true, 0) == Some(h) && Balance(line[h.end - 1..], following) == Ok(c)
    requires Register(t, h.isRenew, h.name, h.numArgs, c.body) == Ok(t')
    ensures var x := Extract(t, line, following);
      x.Ok? && x.value.table == t' && x.value.text == c.remaining && x.value.next == c.used
  {
    BalanceUsed(line[h.end - 1..], following);
    assert Extract(t, line, following) == ExtractAt(t, line, following, h) == RegisterClosed(t, h, Ok(c), |following|);
  }

  /** One turn of `_parse_file`'s loop before the includes: the line, comments stripped, has
   *  its definition extracted and the defined commands expanded, unless the file is a package. */
  function LineStep(t: Table, ls: seq<string>, i: nat, isSty: bool, macroFuel: nat): (r: Result<Step>)
    requires Macros.Valid(t) && NoZeroArity(t) && i < |ls|
    ensures r.Ok? ==> Macros.Valid(r.value.table) && NoZeroArity(r.value.table) && i < r.value.next <= |ls|
    ensures isSty ==> r.Ok? && r.value.table == t && r.value.text == Strip(ls[i], Indented) && r.value.next == i + 1
  {
    var line := Strip(ls[i], Indented);
    if isSty then Ok(Step(t, line, i + 1))
    else
      match Extract(t, line, ls[i + 1..])
      case Err(e) => Err(e)
      case Ok(x) =>
        match Resolve(x.table, x.text, macroFuel)
        case Err(e) => Err(e)
        case Ok(text) => Ok(Step(x.table, text, i + 1 + x.next))
  }

  /** Reading a line keeps the table usable, and moves on by at least one line. */
  lemma LineStepKeepsReady(t: Table, ls: seq<string>, i: nat, isSty: bool, macroFuel: nat)
    requires Macros.Valid(t) && NoZeroArity(t) && i < |ls|
    ensures var r := LineStep(t, ls, i, isSty, macroFuel);
      r.Ok? ==> Macros.Valid(r.value.table) && NoZeroArity(r.value.table) && i < r.value.next <= |ls|
  {
  }

  /** A line of a document whose definition is registered and whose commands expand. */
  lemma LineStepDefines(t: Table, ls: seq<string>, i: nat, macroFuel: nat, x: Step, text: string)
    requires Macros.Valid(t) && NoZeroArity(t) && i < |ls|
    requires Extract(t, Strip(ls[i], Indented), ls[i + 1..]) == Ok(x) && Macros.Valid(x.table)
    requires Resolve(x.table, x.text, macroFuel) == Ok(text)
    ensures var r := LineStep(t, ls, i, false, macroFuel);
      r.Ok? && r.value.table == x.table && r.value.text == text && r.value.next == i + 1 + x.next
  {
  }

  // ---------------------------------------------------------------------------------------
  // The walk

  /** `_parse_file(rel)` from state `w`, with `level` parses already open (the root's
   *  included). `depth` stands for Python's recursion limit: a parse begun with `depth`
   *  parses open fails. */
  function ParseSpec(fs: FileSystem, w: Walk, rel: string, level: nat, depth: nat, macroFuel: nat): (r: Result<Walk>)
    requires Ready(w) && IsFile(fs, rel)
    ensures r.Ok? ==> Ready(r.value)
    decreases depth - level, 0, 0, 0
  {
    if level >= depth then Err(RecursionLimit)
    else LinesFrom(fs, w, EndsWith(rel, ".sty"), fs.files[rel], 0, level + 1, depth, macroFuel)
  }

  /** The loop of `_parse_file` from line `i`: it stops at the first line it reads that holds
   *  the end-of-document marker, before scanning that line. */
  function LinesFrom(fs: FileSystem, w: Walk, isSty: bool, ls: seq<string>, i: nat, level: nat, depth: nat, macroFuel: nat): (r: Result<Walk>)
    requires Ready(w) && i <= |ls|
    ensures r.Ok? ==> Ready(r.value)
    decreases depth - level, |ls| - i + 1, 1, 0
  {
    if i == |ls| || HasEndMarker(ls[i]) then Ok(w)
    else LineThen(fs, w, isSty, ls, i, level, depth, macroFuel)
  }

  /** One turn of that loop: line `i` is read, its includes handled, and the loop goes on
   *  after the lines the line consumed. */
  function LineThen(fs: FileSystem, w: Walk, isSty: bool, ls: seq<string>, i: nat, level: nat, depth: nat, macroFuel: nat): (r: Result<Walk>)
    requires Ready(w) && i < |ls|
    ensures r.Ok? ==> Ready(r.value)
    decreases depth - level, |ls| - i + 1, 0, 0
  {
    LineStepKeepsReady(w.table, ls, i, isSty, macroFuel);
    match LineStep(w.table, ls, i, isSty, macroFuel)
    case Err(e) => Err(e)
    case Ok(st) =>
      match IncludesSpec(fs, w.(table := st.table), st.text, level, depth, macroFuel)
      case Err(e) => Err(e)
      case Ok(w') => LinesFrom(fs, w', isSty, ls, st.next, level, depth, macroFuel)
  }

  /** The includes of one line: every document, then every static file. */
  function IncludesSpec(fs: FileSystem, w: Walk, text: string, level: nat, depth: nat, macroFuel: nat): (r: Result<Walk>)
    requires Ready(w)
    ensures r.Ok? ==> Ready(r.value)
    decreases depth - level, 0, 2, 0
  {
    match TexFrom(fs, w, IncludedTexFiles(fs, text), 0, level, depth, macroFuel)
    case Err(e) => Err(e)
    case Ok(w') => StaticFrom(fs, w', IncludedStaticFiles(fs, text), 0)
  }

  /** A generator run out: its exception, if it raised one. */
  function Finish(w: Walk, error: Option<Failure>): (r: Result<Walk>)
    ensures r.Ok? <==> error.None?
  {
    match error
    case None => Ok(w)
    case Some(e) => Err(e)
  }

  /** The documents `y.items[k..]` in turn: each is copied, then walked if it is parsed. */
  function TexFrom(fs: FileSystem, w: Walk, y: Yield<TexFile>, k: nat, level: nat, depth: nat, macroFuel: nat): (r: Result<Walk>)
    requires Ready(w) && k <= |y.items|
    ensures r.Ok? ==> Ready(r.value)
    decreases depth - level, 0, 1, |y.items| - k
  {
    if k == |y.items| then Finish(w, y.error)
    else
      var f := y.items[k];
      match CopySpec(fs, w, f.realRelPath)
      case Err(e) => Err(e)
      case Ok(w1) =>
        if !f.needsParse then TexFrom(fs, w1, y, k + 1, level, depth, macroFuel)
        else match ParseSpec(fs, w1, f.realRelPath, level, depth, macroFuel)
          case Err(e) => Err(e)
          case Ok(w2) => TexFrom(fs, w2, y, k + 1, level, depth, macroFuel)
  }

  /** The static files `y.items[k..]` in turn, each copied. */
  function StaticFrom(fs: FileSystem, w: Walk, y: Yield<StaticFile>, k: nat): (r: Result<Walk>)
    requires k <= |y.items| && forall i :: 0 <= i < |y.items| ==> IsFile(fs, y.items[i].realPath)
    ensures r.Ok? ==> r.value.table == w.table
    decreases |y.items| - k
  {
    if k == |y.items| then Finish(w, y.error)
    else StaticFrom(fs, CopyStaticSpec(fs, w, y.items[k]), y, k + 1)
  }

  // ---------------------------------------------------------------------------------------
  // `copy`

  /** The name `copy(rename=…)` gives the root document's output: `.tex` is added to a name
   *  without extension. */
  function RenameTarget(rename: string): (r: string)
    ensures |rename| <= |r| && r[..|rename|] == rename
    ensures r == rename <==> HasExt(rename)
  {
    if HasExt(rename) then rename else rename + ".tex"
  }

  /** `os.rename` inside the output directory. */
  function MoveOutput(out: map<string, seq<string>>, from: string, to: string): (r: map<string, seq<string>>)
    requires from in out
    ensures r.Keys == out.Keys - {from} + {to} && r[to] == out[from]
  {
    (out - {from})[to := out[from]]
  }

  /** `if rename:`: only a non-empty name renames the root's output. */
  predicate Renames(rename: Option<string>) {
    rename.Some? && rename.value != []
  }

  /** What a completed copy leaves: the final state and the root document's output name. */
  datatype Copied = Copied(final: Walk, mainOut: string)

  /** `Copier(…).copy(rename=…)`: the root is copied, then walked, then its output renamed.
   *  The result is the final state and the root's output name. */
  function CopyAllSpec(fs: FileSystem, root: string, rename: Option<string>, depth: nat, macroFuel: nat): (r: Result<Copied>)
    ensures r.Ok? ==> Ready(r.value.final)
  {
    var w0 := Walk(Empty, map[]);
    match CopySpec(fs, w0, root)
    case Err(e) => Err(e)
    case Ok(w) =>
      match ParseSpec(fs, w, root, 0, depth, macroFuel)
      case Err(e) => Err(e)
      case Ok(w') =>
        ParseExtends(fs, w, root, 0, depth, macroFuel);
        if Renames(rename) then
          var n := RenameTarget(rename.value);
          Ok(Copied(w'.(out := MoveOutput(w'.out, root, n)), n))
        else Ok(Copied(w', root))
  }

  // ---------------------------------------------------------------------------------------
  // Properties of the walk

  /** Every output file is a copy of a source file, with its comments stripped or as it is. */
  predicate Faithful(fs: FileSystem, w: Walk) {
    forall p :: p in w.out ==> IsFile(fs, p) && (w.out[p] == CopiedLines(fs, p) || w.out[p] == fs.files[p])
  }

  /** `w'` comes after `w` in a walk: no output is removed, no command is forgotten, and
   *  outputs stay copies of source files. */
  predicate Extends(fs: FileSystem, w: Walk, w': Walk) {
    && w.out.Keys <= w'.out.Keys
    && w.table.matchers.Keys <= w'.table.matchers.Keys
    && (Faithful(fs, w) ==> Faithful(fs, w'))
  }

  lemma ExtendsTrans(fs: FileSystem, a: Walk, b: Walk, c: Walk)
    requires Extends(fs, a, b) && Extends(fs, b, c)
    ensures Extends(fs, a, c)
  {
  }

  /** Reading a line never forgets a command. */
  lemma LineStepExtends(t: Table, ls: seq<string>, i: nat, isSty: bool, macroFuel: nat)
    requires Macros.Valid(t) && NoZeroArity(t) && i < |ls|
    requires LineStep(t, ls, i, isSty, macroFuel).Ok?
    ensures t.matchers.Keys <= LineStep(t, ls, i, isSty, macroFuel).value.table.matchers.Keys
  {
  }

  lemma {:induction false} ParseExtends(fs: FileSystem, w: Walk, rel: string, level: nat, depth: nat, macroFuel: nat)
    requires Ready(w) && IsFile(fs, rel)
    ensures var r := ParseSpec(fs, w, rel, level, depth, macroFuel); r.Ok? ==> Extends(fs, w, r.value)
    decreases depth - level, 0, 0, 0
  {
    if level < depth {
      LinesExtends(fs, w, EndsWith(rel, ".sty"), fs.files[rel], 0, level + 1, depth, macroFuel);
    }
  }

  lemma {:induction false} LinesExtends(fs: FileSystem, w: Walk, isSty: bool, ls: seq<string>, i: nat, level: nat, depth: nat, macroFuel: nat)
    requires Ready(w) && i <= |ls|
    ensures var r := LinesFrom(fs, w, isSty, ls, i, level, depth, macroFuel); r.Ok? ==> Extends(fs, w, r.value)
    decreases depth - level, |ls| - i + 1, 1, 0
  {
    if i < |ls| && !HasEndMarker(ls[i]) {
      LineThenExtends(fs, w, isSty, ls, i, level, depth, macroFuel);
    }
  }

  lemma {:induction false} LineThenExtends(fs: FileSystem, w: Walk, isSty: bool, ls: seq<string>, i: nat, level: nat, depth: nat, macroFuel: nat)
    requires Ready(w) && i < |ls|
    ensures var r := LineThen(fs, w, isSty, ls, i, level, depth, macroFuel); r.Ok? ==> Extends(fs, w, r.value)
    decreases depth - level, |ls| - i + 1, 0, 0
  {
    var step := LineStep(w.table, ls, i, isSty, macroFuel);
    LineStepKeepsReady(w.table, ls, i, isSty, macroFuel);
    if step.Ok? {
      var st := step.value;
      LineStepExtends(w.table, ls, i, isSty, macroFuel);
      var w0 := w.(table := st.table);
      var inc := IncludesSpec(fs, w0, st.text, level, depth, macroFuel);
      IncludesExtends(fs, w0, st.text, level, depth, macroFuel);
      if inc.Ok? {
        var rest := LinesFrom(fs, inc.value, isSty, ls, st.next, level, depth, macroFuel);
        LinesExtends(fs, inc.value, isSty, ls, st.next, level, depth, macroFuel);
        if rest.Ok? {
          ExtendsTrans(fs, w, w0, inc.value);
          ExtendsTrans(fs, w, inc.value, rest.value);
        }
      }
    }
  }

  lemma {:induction false} IncludesExtends(fs: FileSystem, w: Walk, text: string, level: nat, depth: nat, macroFuel: nat)
    requires Ready(w)
    ensures var r := IncludesSpec(fs, w, text, level, depth, macroFuel); r.Ok? ==> Extends(fs, w, r.value)
    decreases depth - level, 0, 2, 0
  {
    var tex := TexFrom(fs, w, IncludedTexFiles(fs, text), 0, level, depth, macroFuel);
    TexExtends(fs, w, IncludedTexFiles(fs, text), 0, level, depth, macroFuel);
    if tex.Ok? {
      StaticExtends(fs, tex.value, IncludedStaticFiles(fs, text), 0);
      if IncludesSpec(fs, w, text, level, depth, macroFuel).Ok? {
        ExtendsTrans(fs, w, tex.value, IncludesSpec(fs, w, text, level, depth, macroFuel).value);
      }
    }
  }

  lemma {:induction false} TexExtends(fs: FileSystem, w: Walk, y: Yield<TexFile>, k: nat, level: nat, depth: nat, macroFuel: nat)
    requires Ready(w) && k <= |y.items|
    ensures var r := TexFrom(fs, w, y, k, level, depth, macroFuel); r.Ok? ==> Extends(fs, w, r.value)
    decreases depth - level, 0, 1, |y.items| - k
  {
    if k < |y.items| {
      var f := y.items[k];
      var c := CopySpec(fs, w, f.realRelPath);
      if c.Ok? {
        var w1 := c.value;
        assert Extends(fs, w, w1);
        if !f.needsParse {
          TexExtends(fs, w1, y, k + 1, level, depth, macroFuel);
          if TexFrom(fs, w1, y, k + 1, level, depth, macroFuel).Ok? {
            ExtendsTrans(fs, w, w1, TexFrom(fs, w1, y, k + 1, level, depth, macroFuel).value);
          }
        } else {
          var p := ParseSpec(fs, w1, f.realRelPath, level, depth, macroFuel);
          ParseExtends(fs, w1, f.realRelPath, level, depth, macroFuel);
          if p.Ok? {
            TexExtends(fs, p.value, y, k + 1, level, depth, macroFuel);
            if TexFrom(fs, p.value, y, k + 1, level, depth, macroFuel).Ok? {
              ExtendsTrans(fs, w, w1, p.value);
              ExtendsTrans(fs, w, p.value, TexFrom(fs, p.value, y, k + 1, level, depth, macroFuel).value);
            }
          }
        }
      }
    }
  }

  lemma {:induction false} StaticExtends(fs: FileSystem, w: Walk, y: Yield<StaticFile>, k: nat)
    requires k <= |y.items| && forall i :: 0 <= i < |y.items| ==> IsFile(fs, y.items[i].realPath)
    ensures var r := StaticFrom(fs, w, y, k); r.Ok? ==> Extends(fs, w, r.value)
    decreases |y.items| - k
  {
    if k < |y.items| {
      var w1 := CopyStaticSpec(fs, w, y.items[k]);
      assert Extends(fs, w, w1);
      StaticExtends(fs, w1, y, k + 1);
      if StaticFrom(fs, w1, y, k + 1).Ok? {
        ExtendsTrans(fs, w, w1, StaticFrom(fs, w1, y, k + 1).value);
      }
    }
  }

  /** Every document a line's includes yield is written to the output. */
  lemma {:induction false} TexFromCopies(fs: FileSystem, w: Walk, y: Yield<TexFile>, k: nat, level: nat, depth: nat, macroFuel: nat)
    requires Ready(w) && k <= |y.items|
    ensures var r := TexFrom(fs, w, y, k, level, depth, macroFuel);
      r.Ok? ==> forall i :: k <= i < |y.items| ==> y.items[i].realRelPath in r.value.out
    decreases |y.items| - k
  {
    if k < |y.items| {
      var f := y.items[k];
      var c := CopySpec(fs, w, f.realRelPath);
      if c.Ok? {
        var w1 := c.value;
        if !f.needsParse {
          TexFromCopies(fs, w1, y, k + 1, level, depth, macroFuel);
          TexExtends(fs, w1, y, k + 1, level, depth, macroFuel);
        } else {
          var p := ParseSpec(fs, w1, f.realRelPath, level, depth, macroFuel);
          ParseExtends(fs, w1, f.realRelPath, level, depth, macroFuel);
          if p.Ok? {
            TexFromCopies(fs, p.value, y, k + 1, level, depth, macroFuel);
            TexExtends(fs, p.value, y, k + 1, level, depth, macroFuel);
          }
        }
      }
    }
  }

  /** Every static file a line's includes yield is written to the output. */
  lemma {:induction false} StaticFromCopies(fs: FileSystem, w: Walk, y: Yield<StaticFile>, k: nat)
    requires k <= |y.items| && forall i :: 0 <= i < |y.items| ==> IsFile(fs, y.items[i].realPath)
    ensures var r := StaticFrom(fs, w, y, k);
      r.Ok? ==> forall i :: k <= i < |y.items| ==> y.items[i].realPath in r.value.out
    decreases |y.items| - k
  {
    if k < |y.items| {
      var w1 := CopyStaticSpec(fs, w, y.items[k]);
      assert StaticFrom(fs, w, y, k) == StaticFrom(fs, w1, y, k + 1);
      assert y.items[k].realPath in w1.out;
      StaticFromCopies(fs, w1, y, k + 1);
      StaticExtends(fs, w1, y, k + 1);
    }
  }

  /** Handling a line's includes writes every document and every static file the line
   *  includes to the output. */
  lemma IncludesCopies(fs: FileSystem, w: Walk, text: string, level: nat, depth: nat, macroFuel: nat)
    requires Ready(w)
    ensures var r := IncludesSpec(fs, w, text, level, depth, macroFuel); r.Ok? ==>
      && (forall f :: f in IncludedTexFiles(fs, text).items ==> f.realRelPath in r.value.out)
      && (forall f :: f in IncludedStaticFiles(fs, text).items ==> f.realPath in r.value.out)
  {
    var docs, statics := IncludedTexFiles(fs, text), IncludedStaticFiles(fs, text);
    var tex := TexFrom(fs, w, docs, 0, level, depth, macroFuel);
    TexFromCopies(fs, w, docs, 0, level, depth, macroFuel);
    if tex.Ok? {
      StaticFromCopies(fs, tex.value, statics, 0);
      StaticExtends(fs, tex.value, statics, 0);
    }
  }

  /** A line that defines nothing and includes nothing. */
  predicate Plain(fs: FileSystem, line: string) {
    && SearchNewcommand(line, true, 0).None?
    && IncludedTexFiles(fs, line) == Yield([], None)
    && IncludedStaticFiles(fs, line) == Yield([], None)
  }

  /** Lines that define and include nothing leave a fresh walk as it is. */
  lemma {:induction false} PlainLinesKeep(fs: FileSystem, w: Walk, isSty: bool, ls: seq<string>, i: nat, level: nat, depth: nat, macroFuel: nat)
    requires w.table == Empty && Ready(w) && i <= |ls|
    requires forall j :: 0 <= j < |ls| ==> Plain(fs, Strip(ls[j], Indented))
    ensures LinesFrom(fs, w, isSty, ls, i, level, depth, macroFuel) == Ok(w)
    decreases |ls| - i
  {
    if i < |ls| && !HasEndMarker(ls[i]) {
      var line := Strip(ls[i], Indented);
      assert Plain(fs, line);
      assert Extract(Empty, line, ls[i + 1..]) == Ok(Step(Empty, line, 0));
      assert Resolve(Empty, line, macroFuel) == Ok(line);
      assert LineStep(w.table, ls, i, isSty, macroFuel) == Ok(Step(Empty, line, i + 1));
      assert IncludesSpec(fs, w, line, level, depth, macroFuel) == Ok(w);
      PlainLinesKeep(fs, w, isSty, ls, i + 1, level, depth, macroFuel);
    }
  }

  /** A root document without definitions and includes is copied alone, comments stripped,
   *  under its own name. */
  lemma CopyAllRoundTrip(fs: FileSystem, root: string, depth: nat, macroFuel: nat)
    requires IsFile(fs, root) && depth >= 1
    requires forall j :: 0 <= j < |fs.files[root]| ==> Plain(fs, Strip(fs.files[root][j], Indented))
    ensures CopyAllSpec(fs, root, None, depth, macroFuel)
      == Ok(Copied(Walk(Empty, map[root := CopiedLines(fs, root)]), root))
  {
    var w := Walk(Empty, map[root := CopiedLines(fs, root)]);
    assert CopySpec(fs, Walk(Empty, map[]), root) == Ok(w);
    PlainLinesKeep(fs, w, EndsWith(root, ".sty"), fs.files[root], 0, 1, depth, macroFuel);
  }

  /** A completed copy has written the root's output, under its new name when renamed, and
   *  every output is a copy of a source file. */
  lemma CopyAllWritesRoot(fs: FileSystem, root: string, rename: Option<string>, depth: nat, macroFuel: nat)
    requires CopyAllSpec(fs, root, rename, depth, macroFuel).Ok?
    ensures var c := CopyAllSpec(fs, root, rename, depth, macroFuel).value;
      && IsFile(fs, root) && c.mainOut in c.final.out
      && (!Renames(rename) ==> c.mainOut == root && Faithful(fs, c.final))
      && (Renames(rename) ==> c.mainOut == RenameTarget(rename.value))
  {
    var w1 := CopySpec(fs, Walk(Empty, map[]), root).value;
    assert Faithful(fs, w1);
    ParseExtends(fs, w1, root, 0, depth, macroFuel);
  }

  // ---------------------------------------------------------------------------------------
  // The copier

  /** A method's answer `r` agrees with the step `s` it carries out: the same failure, or the
   *  same text and next line index. */
  predicate Reports(r: Result<(string, nat)>, s: Result<Step>) {
    && (s.Ok? ==> r.Ok? && r.value.0 == s.value.text && r.value.1 == s.value.next)
    && (s.Err? ==> r.Err? && r.error == s.error)
  }

  /** Deleting a key before setting it again leaves the same dictionary as setting it. */
  lemma Reinsert<K, V>(m: map<K, V>, k: K, v: V)
    ensures (m - {k})[k := v] == m[k := v]
  {
    assert (m - {k})[k := v].Keys == m[k := v].Keys;
  }

  function Then(r: Result<()>, w: Walk): Result<Walk> {
    match r
    case Ok(_) => Ok(w)
    case Err(e) => Err(e)
  }

  class Copier {
    /** The source tree below `tex_root_dir`. */
    const fs: FileSystem
    /** `tex_root_p`: the root document, relative to the root directory. */
    const root: string
    /** How deeply parses of included files may nest. */
    const depth: nat
    /** How deeply expansions may nest. */
    const macroFuel: nat

    /** The insertion order of the two dictionaries below. */
    var order: seq<string>
    /** `_regexes`: the invocation regex of each defined command. */
    var regexes: map<string, Matcher>
    /** `_command_definitions`: the body and number of arguments of each defined command. */
    var definitions: map<string, Definition>
    /** `_copied_file_ps`: the files written to the output directory. */
    var copiedFiles: set<string>
    /** The output directory: each written file with its lines. */
    var out: map<string, seq<string>>

    function CurrentTable(): Table
      reads this
    {
      Table(order, regexes, definitions)
    }

    function State(): Walk
      reads this
    {
      Walk(CurrentTable(), out)
    }

    predicate Valid()
      reads this
    {
      copiedFiles == out.Keys && Ready(State())
    }

    constructor(fs: FileSystem, root: string, depth: nat, macroFuel: nat)
      ensures this.fs == fs && this.root == root && this.depth == depth && this.macroFuel == macroFuel
      ensures State() == Walk(Empty, map[]) && Valid()
    {
      this.fs := fs;
      this.root := root;
      this.depth := depth;
      this.macroFuel := macroFuel;
      order := [];
      regexes := map[];
      definitions := map[];
      copiedFiles := {};
      out := map[];
    }

    /** `_copy`: the file must exist; a document is written with its comments stripped. */
    method CopyFile(rel: string) returns (r: Result<()>)
      requires Valid()
      modifies this
      ensures Valid()
      ensures Then(r, State()) == CopySpec(fs, old(State()), rel)
    {
      if rel !in fs.files {
        return Err(NotAFile(rel));
      }
      var lines := fs.files[rel];
      if EndsWith(rel, ".tex") {
        lines := StripComments(lines, Indented);
      }
      assert lines == CopiedLines(fs, rel);
      out := out[rel := lines];
      copiedFiles := copiedFiles + {rel};
      return Ok(());
    }

    /** `_copy_static`: the file is copied as it is. */
    method CopyStatic(f: StaticFile)
      requires Valid() && IsFile(fs, f.realPath)
      modifies this
      ensures Valid() && State() == CopyStaticSpec(fs, old(State()), f)
    {
      out := out[f.realPath := fs.files[f.realPath]];
      copiedFiles := copiedFiles + {f.realPath};
    }

    /** The update of `_regexes` and `_command_definitions` at the end of
     *  `_extract_definition`: a redefinition must be a `\renewcommand`, whose old entry is
     *  deleted before the new one is inserted. */
    method Define(isRenew: bool, name: string, numArgs: Option<nat>, command: string) returns (r: Result<()>)
      requires Valid()
      modifies this
      ensures Valid() && out == old(out) && copiedFiles == old(copiedFiles)
      ensures match Register(old(CurrentTable()), isRenew, name, numArgs, command)
        case Ok(t') => r == Ok(()) && CurrentTable() == t'
        case Err(e) => r == Err(e)
    {
      ghost var t0 := CurrentTable();
      ghost var registered := Register(t0, isRenew, name, numArgs, command);
      var names, matchers, bodies := order, regexes, definitions;
      if name in matchers {
        if !isRenew {
          return Err(Redefinition(name));
        }
        names := Without(names, name);
        matchers := matchers - {name};
        bodies := bodies - {name};
      } else {
        ListsMember(names, matchers.Keys, name);
        WithoutAbsent(names, name);
      }
      if name == [] {
        return Err(InvalidPattern(name));
      }
      matchers := matchers[name := MatcherFor(numArgs)];
      bodies := bodies[name := Definition(command, Arity(numArgs))];
      names := names + [name];
      assert matchers == t0.matchers[name := MatcherFor(numArgs)] by {
        if name in t0.matchers {
          Reinsert(t0.matchers, name, MatcherFor(numArgs));
        }
      }
      assert bodies == t0.definitions[name := Definition(command, Arity(numArgs))] by {
        if name in t0.matchers {
          Reinsert(t0.definitions, name, Definition(command, Arity(numArgs)));
        }
      }
      assert Table(names, matchers, bodies) == registered.value;
      RegisterKeepsValid(t0, isRenew, name, MatcherFor(numArgs), Definition(command, Arity(numArgs)));
      RegisterKeepsNoZeroArity(t0, isRenew, name, numArgs, command);
      order, regexes, definitions := names, matchers, bodies;
      return Ok(());
    }

    /** `_extract_definition`: a line with a definition header has the body read from its
     *  opening bracket on, over following lines if need be, and registered. */
    method ExtractDefinition(line: string, following: seq<string>) returns (r: Result<(string, nat)>)
      requires Valid()
      modifies this
      ensures Valid() && out == old(out) && copiedFiles == old(copiedFiles)
      ensures Reports(r, Extract(old(CurrentTable()), line, following))
      ensures Extract(old(CurrentTable()), line, following).Ok? ==>
        CurrentTable() == Extract(old(CurrentTable()), line, following).value.table
    {
      var m := SearchNewcommand(line, true, 0);
      if m.None? {
        return Ok((line, 0));
      }
      r := ExtractBody(line, following, m.value);
    }

    /** The rest of `_extract_definition` once the header `h` is found: the body is read and
     *  registered. */
    method ExtractBody(line: string, following: seq<string>, h: NewcommandMatch) returns (r: Result<(string, nat)>)
      requires Valid() && 0 < h.end <= |line|
      modifies this
      ensures Valid() && out == old(out) && copiedFiles == old(copiedFiles)
      ensures Reports(r, ExtractAt(old(CurrentTable()), line, following, h))
      ensures ExtractAt(old(CurrentTable()), line, following, h).Ok? ==>
        CurrentTable() == ExtractAt(old(CurrentTable()), line, following, h).value.table
    {
      ghost var t0 := CurrentTable();
      var closed := ConsumeUntilClosingBracket(line[h.end - 1..], following);
      BalanceUsed(line[h.end - 1..], following);
      assert ExtractAt(t0, line, following, h) == RegisterClosed(t0, h, closed, |following|);
      if closed.Err? {
        return Err(closed.error);
      }
      var defined := Define(h.isRenew, h.name, h.numArgs, closed.value.body);
      if defined.Err? {
        return Err(defined.error);
      }
      return Ok((closed.value.remaining, closed.value.used));
    }

    /** One turn of `_parse_file`'s loop before the includes. */
    method ReadLine(ls: seq<string>, i: nat, isSty: bool) returns (r: Result<(string, nat)>)
      requires Valid() && i < |ls|
      modifies this
      ensures Valid() && out == old(out) && copiedFiles == old(copiedFiles)
      ensures Reports(r, LineStep(old(CurrentTable()), ls, i, isSty, macroFuel))
      ensures LineStep(old(CurrentTable()), ls, i, isSty, macroFuel).Ok? ==>
        CurrentTable() == LineStep(old(CurrentTable()), ls, i, isSty, macroFuel).value.table
    {
      ghost var t0 := CurrentTable();
      var line := Strip(ls[i], Indented);
      if isSty {
        assert LineStep(t0, ls, i, isSty, macroFuel) == Ok(Step(t0, line, i + 1));
        return Ok((line, i + 1));
      }
      ghost var x := Extract(t0, line, ls[i + 1..]);
      var extracted := ExtractDefinition(line, ls[i + 1..]);
      if extracted.Err? {
        return Err(extracted.error);
      }
      var (rest, used) := extracted.value;
      assert x == Ok(Step(CurrentTable(), rest, used));
      var resolved := Resolve(CurrentTable(), rest, macroFuel);
      if resolved.Err? {
        return Err(resolved.error);
      }
      LineStepDefines(t0, ls, i, macroFuel, x.value, resolved.value);
      return Ok((resolved.value, i + 1 + used));
    }

    /** `_parse_file`: one more level of nesting, then the file's lines. */
    method ParseFile(rel: string, level: nat) returns (r: Result<()>)
      requires Valid() && IsFile(fs, rel)
      modifies this
      ensures Valid()
      ensures Then(r, State()) == ParseSpec(fs, old(State()), rel, level, depth, macroFuel)
      decreases depth - level, 0, 0, 0
    {
      if level >= depth {
        return Err(RecursionLimit);
      }
      r := ParseLines(fs.files[rel], EndsWith(rel, ".sty"), level + 1);
    }

    /** The loop of `_parse_file` over the lines of one file. */
    method ParseLines(ls: seq<string>, isSty: bool, level: nat) returns (r: Result<()>)
      requires Valid()
      modifies this
      ensures Valid()
      ensures Then(r, State()) == LinesFrom(fs, old(State()), isSty, ls, 0, level, depth, macroFuel)
      decreases depth - level, |ls| + 2, 0, 0
    {
      var i := 0;
      while i < |ls|
        invariant Valid() && i <= |ls|
        invariant LinesFrom(fs, State(), isSty, ls, i, level, depth, macroFuel) == LinesFrom(fs, old(State()), isSty, ls, 0, level, depth, macroFuel)
        decreases |ls| - i
      {
        if HasEndMarker(ls[i]) {
          break;
        }
        LineStepKeepsReady(CurrentTable(), ls, i, isSty, macroFuel);
        var step := ReadLine(ls, i, isSty);
        if step.Err? {
          return Err(step.error);
        }
        var (text, next) := step.value;
        var included := ScanIncludes(text, level);
        if included.Err? {
          return included;
        }
        i := next;
      }
      return Ok(());
    }

    /** The includes of one line, as `_parse_file` handles them. */
    method ScanIncludes(text: string, level: nat) returns (r: Result<()>)
      requires Valid()
      modifies this
      ensures Valid()
      ensures Then(r, State()) == IncludesSpec(fs, old(State()), text, level, depth, macroFuel)
      decreases depth - level, 0, 2, 0
    {
      r := IncludeDocuments(IncludedTexFiles(fs, text), level);
      if r.Ok? {
        r := IncludeStatics(IncludedStaticFiles(fs, text));
      }
    }

    /** The documents a line includes: each copied, and walked when it is parsed. */
    method IncludeDocuments(texFiles: Yield<TexFile>, level: nat) returns (r: Result<()>)
      requires Valid()
      modifies this
      ensures Valid()
      ensures Then(r, State()) == TexFrom(fs, old(State()), texFiles, 0, level, depth, macroFuel)
      decreases depth - level, 0, 1, 0
    {
      var k := 0;
      while k < |texFiles.items|
        invariant Valid() && k <= |texFiles.items|
        invariant TexFrom(fs, State(), texFiles, k, level, depth, macroFuel) == TexFrom(fs, old(State()), texFiles, 0, level, depth, macroFuel)
      {
        var f := texFiles.items[k];
        var copied := CopyFile(f.realRelPath);
        if copied.Err? {
          return copied;
        }
        if f.needsParse {
          var parsed := ParseFile(f.realRelPath, level);
          if parsed.Err? {
            return parsed;
          }
        }
        k := k + 1;
      }
      if texFiles.error.Some? {
        return Err(texFiles.error.value);
      }
      return Ok(());
    }

    /** The images and bibliographies a line includes, each copied. */
    method IncludeStatics(staticFiles: Yield<StaticFile>) returns (r: Result<()>)
      requires Valid()
      requires forall i :: 0 <= i < |staticFiles.items| ==> IsFile(fs, staticFiles.items[i].realPath)
      modifies this
      ensures Valid()
      ensures Then(r, State()) == StaticFrom(fs, old(State()), staticFiles, 0)
    {
      var k := 0;
      while k < |staticFiles.items|
        invariant Valid() && k <= |staticFiles.items|
        invariant StaticFrom(fs, State(), staticFiles, k) == StaticFrom(fs, old(State()), staticFiles, 0)
      {
        CopyStatic(staticFiles.items[k]);
        k := k + 1;
      }
      if staticFiles.error.Some? {
        return Err(staticFiles.error.value);
      }
      return Ok(());
    }

    /** `copy(rename=…)` on a fresh copier: copy the root, walk it, rename its output. */
    method Copy(rename: Option<string>) returns (r: Result<string>)
      requires Valid() && State() == Walk(Empty, map[])
      modifies this
      ensures match CopyAllSpec(fs, root, rename, depth, macroFuel)
        case Ok(c) => r == Ok(c.mainOut) && State() == c.final && Valid()
        case Err(e) => r == Err(e)
    {
      var copied := CopyFile(root);
      if copied.Err? {
        return Err(copied.error);
      }
      ghost var w1 := State();
      var parsed := ParseFile(root, 0);
      if parsed.Err? {
        return Err(parsed.error);
      }
      ParseExtends(fs, w1, root, 0, depth, macroFuel);
      var mainOut := root;
      if rename.Some? && rename.value != [] {
        mainOut := RenameTarget(rename.value);
        out := MoveOutput(out, root, mainOut);
        copiedFiles := copiedFiles - {root} + {mainOut};
      }
      return Ok(mainOut);
    }
  }
}
