# arxiv_prep dependency resolution, modelled in Dafny

arxiv_prep prepares a LaTeX project for an arXiv upload. It starts from the root `.tex`
document and does the following:

- it copies every file the document pulls in (sub-documents, packages, bibliography files,
  images) to an output directory;
- it strips the comments from every copied document;
- it expands the user's `\newcommand` definitions, so that includes hidden inside a macro are
  found too.

This project models the dependency-resolution core of that tool over an abstract file system: a
map from path to the file's lines. It covers both versions of the script:

- `main2.py`, the newer walker (the `Copier` class);
- `main.py`, its predecessor, whose comment stripper, bracket balancer, include recognisers,
  path guessing and definition cache differ in detail from `main2.py`'s.

Modules:

- `Failures`: `Option`, `Result`, and one `Failure` constructor per kind of exception the
  script raises.
- `Text`: the Python string operations the script relies on. These are `str.isspace`,
  `lstrip`, `rstrip`, `find`, `count`, `int(...)` on digits, `os.path.splitext` and
  `os.path.join`.
- `Comments`: `strip_comments_from_line` in both dialects. `ColumnZero` is `main.py`, where
  only a `%` in column 0 starts a comment line. `Indented` is `main2.py`, where leading blanks
  are allowed. The module also holds `_get_leftmost_comment` as an index loop and
  `strip_comments` as a loop over a file's lines.
- `Brackets`: both versions of `_consume_until_closing_bracket`.
  - `main2.py` scans characters and tracks the depth, reading at most 101 lines.
  - `main.py` compares running counts of `{` and `}`, bounded by `max_lookahead`.
- `BalanceExample`: the balancer test of `main2.py`, `test_consumme`, followed through the
  model line by line.
- `Patterns`: hand-written recognisers for the fixed regular expressions, with Python's
  backtracking order made explicit. These are the include directives, the `\newcommand` header
  and the per-command invocation pattern.
- `Macros`: the command table that `_extract_definition` fills, and `_replace_all` (the `#k`
  substitution). Also the expander `_resolve_definitions` and `_replace_defs_for_match`, which
  re-expands every replacement.
- `Resolver`: the include specifications (`IncludeCommand`, `_TEX_INCLUDES`,
  `_STATIC_INCLUDES`) and the path resolvers `_real_rel_path_for_tex_file` and
  `_real_path_for_static_file`. Also `_match_all` and the two include generators; a generator
  is modelled as the items it yields before the exception it may raise.
- `Walker`:
  - a value-level specification of `_copy`, `_copy_static`, `_parse_file` and `copy`: the
    state is the command table plus the output files written so far;
  - the class `Copier`, whose methods update that state in place and are each proved equal to
    the specification;
  - lemmas saying that the walk only ever adds outputs and commands, and that every output is a
    copy of its source.
- `Legacy`: the pieces of `main.py` that `main2.py` replaced. These are `get_actual_p`,
  `_included_source_file`, `_contains_include_statement` and `_included_images`, the
  definition cache of `_consume_and_parse_newcommand`, and `_get_size` with
  `_rmtree_semi_safe`.

Python's recursion limit is the only thing that stops the source on a self-referential macro
or on an include cycle. The model represents that limit as explicit bounds that end in
`Failure.RecursionLimit`:

- `macroFuel` for expansion;
- `depth` for nested `_parse_file` calls.

## Model

| member | source | states |
|---|---|---|
| Text.SplitExt | main2.py:436 | the root and the extension concatenate to the path; the extension is empty or starts with a dot |
| Text.SplitExtLast | main2.py:436 | the extension holds no second dot and no path separator: it is the last suffix only |
| Text.SplitExtFinds | main2.py:436 | a dot with no dot or separator after it, and a character other than a dot before it in the same path component, is where the extension starts |
| Text.SplitExtFound | main2.py:436 | a non-empty extension starts at such a dot |
| Text.SplitExtEmpty | main2.py:436 | the extension is empty exactly when no dot starts one, so `.bashrc` and `a.d/b` have none |
| Text.Join | main2.py:435 | the joined path ends with the relative part, and an absolute relative part replaces the directory |
| Text.JoinRelative | main2.py:435 | a relative part is appended to the directory, with a `/` between them unless the directory is empty or already ends with one |
| Text.LStrip | main2.py:483 | the result is a suffix of the input that starts with a non-blank |
| Text.SkipSpacesSkipsOnlySpaces | main2.py:483 | every character skipped before the first non-blank is whitespace |
| Text.LStripRemovesOnlySpaces | main2.py:483 | `lstrip` removes whitespace and nothing else: with the row above, the result is the input without its leading whitespace |
| Text.RStrip | main2.py:489 | the result is a prefix of the input that ends with a non-blank |
| Text.FindFrom | main2.py:267 | the result is the first occurrence at or after the start position, and None means there is none |
| Text.CountConcat | main.py:61 | character counts add up over concatenation, as the running counts rely on |
| Text.ParseNatToString | main2.py:315 | reading back the decimal digits of a number gives the number |
| Text.LastIndexIsLast | main2.py:436 | no occurrence of the character lies after the index found |
| Comments.ClassifiersAreStringTests | main2.py:483-489 | a comment line is one whose left-stripped text starts with `%` (column 0 in `main.py`); a layout line is one whose right-stripped text ends with `%` |
| Comments.FirstComment | main2.py:500-505 | the result is an unescaped `%` at index 1 or later, and no smaller index is one |
| Comments.GetLeftmostComment | main2.py:500-505 | the index loop returns the leftmost unescaped `%` from index 1 on, or None when there is none |
| Comments.StripLine | main2.py:471-497 | a line is dropped exactly when it is a comment line that follows a placeholder or an empty line |
| Comments.StripFrom | main.py:378-392 | at most one line more is written than read: the newline after the end marker |
| Comments.StripDoc | main2.py:523-537 | the same bound for a whole document |
| Comments.Strip | main2.py:471-497 | stripping with no previous line always yields a line |
| Comments.StripComments | main2.py:523-537 | the lines written are exactly the stripped document |
| Comments.StripFromStep | main2.py:527-537 | a dropped or empty line writes nothing; a line holding the end marker is the last one written, followed by one newline; any other line is written and becomes the previous line |
| Comments.StripLineRemovesComments | main2.py:483-497 | an emitted line is the placeholder, or the line unchanged (layout line, or no comment), or the text before the leftmost comment, right-stripped with a newline, which has no comment left |
| Comments.NoCommentStartInCut | main2.py:495-496 | a line cut at its leftmost comment contains no comment |
| Comments.StripLineCutsAtLeftmost | main2.py:495-496 | a line that is neither a comment line nor a layout line is cut at its smallest comment index |
| Comments.StripLineDropsOnlyRepeats | main2.py:483-487 | a line is dropped exactly when it is a comment line after a placeholder or an empty line; otherwise a comment line becomes the placeholder |
| Comments.PercentFirstIsComment | main.py:336 | a line starting with `%` is a comment line in both dialects |
| Comments.PlaceholderOnlyFromComment | main2.py:483-487 | only a comment line becomes the placeholder |
| Comments.CutIsNoCommentLine | main2.py:495-496 | a cut line is not a comment line itself |
| Comments.StripLineStable | main2.py:471-497 | stripping an emitted line again returns it unchanged |
| Comments.DialectsAgreeWithoutIndent | main.py:336 | on a line not starting with a blank, both dialects agree |
| Comments.IndentedCommentDiffers | main2.py:483 | an indented comment line is a placeholder in `main2.py` and an emptied line in `main.py` |
| Comments.StripDocNoRepeatedPlaceholder | main2.py:527-534 | the output never has a placeholder right after a placeholder or an empty line |
| Comments.StripDocEndsAtMarker | main2.py:534-537 | the first written line holding the end marker is followed by exactly one newline and nothing else |
| Comments.StripDocIgnoresTail | main2.py:534-537 | once the marker has been written, the lines after it do not change the output |
| Comments.StripDocIdempotent | main2.py:523-537 | stripping a stripped document changes nothing |
| Comments.StripFromNoRepeatedPlaceholder | main.py:378-392 | the same suppression holds from any previous line, so also for `main.py` |
| Comments.StripFromEndsAtMarker | main.py:378-392 | the stop at the end marker holds from any previous line |
| Comments.StripFromIgnoresTail | main.py:378-392 | lines after the written marker are never read |
| Comments.StripFromIdempotent | main.py:378-392 | idempotence holds from any previous line |
| Comments.FirstCommentAfter | main2.py:500-505 | an unescaped `%` after a prefix without comment start is the leftmost comment |
| Comments.PlainNoComment | main2.py:500-505 | a text without `%` has no comment start |
| Comments.EscapedNoComment | main2.py:500-505 | an escaped `\%` never starts a comment |
| Comments.CutExample | main2.py:489-496 | a line `kept % more`, not ending in `%`, becomes `kept` and a newline in both dialects |
| Comments.StripTestShortCases | main2.py:508-519 | the first four expected outputs of the source's test: a plain line, a comment line, a layout line and a one-letter cut; they hold in both dialects, as `main.py:364-375` repeats them |
| Comments.StripTestInline | main2.py:514 | an inline comment is cut before its first `%`, trailing blank removed |
| Comments.StripTestEscaped | main2.py:515 | an escaped `\%` is kept and the line is cut at the next `%` |
| Comments.StripTestTwoEscaped | main.py:372 | two escaped `\%` are kept, in both dialects |
| Brackets.StripKeepsOpeningBracket | main2.py:179-186 | a line starting with `{` still starts with `{` after its comments are stripped |
| Brackets.Balance | main2.py:166-197 | a first line that does not start with `{` or end in a newline fails the assertion; the only other failures are an unclosed bracket and the lookahead bound |
| Brackets.BalanceShape | main2.py:166-197 | it fails exactly when the first line does not start with `{` and end in a newline, or on the lookahead bound or the end of input. On success, `{` + body + `}` + rest is the stripped lines read; every prefix of `{` + body stays open, and the whole closes to depth 0 |
| Brackets.BalanceUsed | main2.py:180 | the lines consumed are among those given |
| Brackets.CloseFromShape | main2.py:180-197 | from any point of the scan, the close found splits the stripped stream into body and rest; running out fails with the lookahead error within 101 lines, or with the end-of-input error |
| Brackets.ZeroAtStep | main2.py:187-191 | each character read moves the depth by one up for `{`, one down for `}`, and not otherwise |
| Brackets.ZeroAtPlain | main2.py:187-192 | a run of characters without brackets keeps the depth, so the scan never stops inside it |
| BalanceExample.TestConsumme | main2.py:159-163 | the source's own test: the body spans the three lines with its nested brackets and without the second line's comment, and ` some more text ` with its newline is handed back after two following lines |
| Brackets.ScanForClose | main2.py:183-191 | the inner character loop returns the first index where the depth reaches 0 |
| Brackets.ConsumeUntilClosingBracket | main2.py:166-197 | the loop over lines and characters computes the balancer's specification |
| Brackets.JoinedNext | main.py:71-77 | an empty stripped line is skipped; otherwise it is appended |
| Brackets.ConsumeUntilBalanced | main.py:54-78 | it errs exactly when the first line has more `}` than `{`, or the lookahead or input runs out. A result is the first joined text whose counts are equal, within `max_lookahead` lines |
| Macros.MatcherAsWritten | main2.py:310-316 | the pattern compiled as written: a bare-name pattern only without `[n]`, with `n` argument groups otherwise, `[0]` included |
| Macros.MatcherFor | main2.py:310-316 | the corrected pattern: a bare-name pattern exactly when the arity is 0 |
| Macros.RegisterWith | main2.py:302-320 | it fails on a known name without `re`, or on an empty name, and on nothing else. On success the name maps to the new pattern and body and is last in application order |
| Macros.Register | main2.py:302-320 | the corrected registration: it fails on a redefinition without `re` or an empty name and on nothing else; the body and arity read are stored, and the pattern is the bare-name one exactly for arity 0 |
| Macros.RegisterAsWritten | main2.py:302-320 | registration as written: the same failures and stored definition, with the bare-name pattern exactly when no `[n]` was written |
| Macros.RegisterKeepsOthers | main2.py:302-320 | every other name keeps its pattern and definition |
| Macros.RegisterKeepsValid | main2.py:302-320 | the table stays consistent: each name in order once, patterns and definitions for the same names |
| Macros.RegisterKeepsNoZeroArity | main2.py:310-316 | with the corrected pattern, no explicit-arity pattern has zero groups |
| Macros.RegisterKeepsReady | main2.py:302-320 | both table invariants are kept together |
| Macros.ListsWithout | main2.py:306-308 | removing a name from the order removes it from the key set |
| Macros.ListsAppend | main2.py:319-320 | appending a fresh name adds it to the key set |
| Macros.KeyIsDigitKey | main2.py:146-150 | the `#1\|#2\|…` alternation matches exactly `#` and one digit from 1 to the arity |
| Macros.SubstituteIsDigitRule | main2.py:146-150 | substitution equals the one-digit rule in one left-to-right pass without rescanning |
| Macros.Substitute | main2.py:146-150 | given at least one argument, as its only caller guarantees, a body with no `#` is returned unchanged |
| Macros.TenthArgumentShadowed | main2.py:148-149 | with ten arguments, `#10` becomes argument 1 followed by `0` |
| Macros.ResolveWithoutNames | main2.py:368-377 | text that mentions no defined name is returned unchanged |
| Macros.Resolve | main2.py:368-377 | an empty table returns the text unchanged; the only failures are the recursion bound and the missing group |
| Macros.SubAll | main2.py:376 | a text without an invocation of the name is returned unchanged; the same two failures |
| Macros.Activate | main2.py:379-396 | fails exactly when a zero-arity invocation matched no following character (the missing-group error) or an invocation's argument count differs from the definition's (the `assert_exc` error); a zero-arity invocation with a following character gives the body followed by that character |
| Macros.ReplaceForMatch | main2.py:379-398 | with the recursion bound spent it fails; for a match found by the name's own regex the only failures are the bound and the missing group, so the argument-count assertion never fires |
| Macros.ResolveOneName | main2.py:375-376 | with one command, expansion is one substitution pass for it |
| Macros.SubAllWhole | main2.py:376 | a text that is exactly one invocation is replaced by its activated, re-expanded definition |
| Macros.ZeroArityTableAsWritten | main2.py:310-320 | `\newcommand{\foo}[0]{bar}` as written stores a zero-group argument pattern |
| Macros.ZeroArityAsWrittenFails | main2.py:379-396 | expanding `\foo` with that table fails with the no-such-group error |
| Macros.ZeroArityTableCorrected | main2.py:310-320 | the corrected table stores the bare-name pattern for `[0]` |
| Macros.ZeroArityCorrectedExpands | main2.py:392-396 | the corrected table expands `\foo` to `bar` |
| Macros.ResolveHasGroups | main2.py:379-398 | on a table without zero-group argument patterns, expansion never fails with the no-such-group error |
| Macros.SelfReferenceExhausts | main2.py:398 | a command whose body invokes itself exhausts every recursion bound |
| Patterns.LineEnd | main2.py:69-81 | the result is the first newline at or after the position, or the end of the text |
| Patterns.CloseAtIsFirst | main2.py:76 | the lazy `{(.*?)}` group ends at the first `}` on the line, and fails at a newline |
| Patterns.LazyCloseIsFirst | main2.py:70 | the lazy `(\[.*?\])?` option group ends at the first usable `]` |
| Patterns.GreedyCloseIsLast | main.py:21 | the greedy `(\[.*\])?` option group ends at the last usable `]` |
| Patterns.MatchIncludeAt | main2.py:69-81 | a match starts at the position and ends inside the line |
| Patterns.MatchShape | main2.py:69-81 | a match is the command, optional options, then `{` + path + `}`, and the path holds no `}` and no newline |
| Patterns.FirstMatchIsLeftmost | main2.py:451-454 | a search returns the leftmost match |
| Patterns.FindAllInOrder | main2.py:451-454 | `finditer`'s matches do not overlap and come left to right |
| Patterns.FindAllComplete | main2.py:451-454 | no match is skipped between consecutive ones, before the first or after the last |
| Patterns.Search | main.py:251 | `regex.search` is the first of `finditer`'s matches |
| Patterns.FindAllPaths | main.py:238-244 | `findall` lists the path group of every match, in order |
| Patterns.PlainDirectiveFound | main2.py:76-80 | a directive `\cmd{path}` is found with that path when no match comes earlier |
| Patterns.NewcommandAt | main2.py:83 | a header match ends in the body's opening `{`, after the name |
| Patterns.NewcommandShape | main2.py:83 | the header is `\newcommand` or `\renewcommand`, optionally `*` (`main2.py` only), optional braces, the name, optional `[digits]`, `{` |
| Patterns.HeaderKeyword | main2.py:83 | the `re` flag is set exactly when the keyword is `\renewcommand` |
| Patterns.HeaderName | main2.py:83 | the name is the lazily shortest text before an optional `}` and `[n]` and a `{` |
| Patterns.SearchNewcommandIsLeftmost | main2.py:288 | `_RE_NEWCOMMAND.search` finds the leftmost header |
| Patterns.BracedHeaderRead | main2.py:83 | `\newcommand{\imgs}[2]{` reads as name `\imgs` with arity 2 |
| Patterns.MatchArgs | main2.py:315 | `{(.*?)}` repeated `n` times yields `n` arguments |
| Patterns.ArgsOnOneLine | main2.py:315 | no argument spans a newline |
| Patterns.InvocationAt | main2.py:312-315 | an invocation starts with the name; a bare command keeps one following non-word character or nothing at the end; an `n`-ary one has `n` arguments |
| Patterns.NextInvocation | main2.py:376 | `re.sub` handles the leftmost invocation first, and None means there is none |
| Patterns.SimpleArgsRead | main2.py:315 | plain braced arguments are read back exactly |
| Patterns.ArgsReadAt | main2.py:315 | braced arguments at any position are read back exactly |
| Resolver.IncludesWellFormed | main2.py:36-52 | every include command's extensions start with a dot, and its pattern names a command: a backslash followed by at least one more character |
| Resolver.FirstExtension | main2.py:441-443 | the result is the first allowed extension that names an existing file |
| Resolver.RealRelPathForTexFile | main2.py:434-448 | a written extension is returned as written, failing only if the file must exist and does not. Otherwise the result is the path plus the first extension that exists; when none exists it is an error if required, else None |
| Resolver.Candidates | main2.py:426 | the candidates are exactly the existing files `path.*` |
| Resolver.RealPathForStaticFile | main2.py:418-432 | a written extension must exist. Otherwise exactly one `path.*` candidate must exist and is returned, else the error reports the count |
| Resolver.MatchAllSound | main2.py:451-454 | every pair yielded is a match of a listed command |
| Resolver.MatchAllSplit | main2.py:451-454 | the commands are tried in list order, each with all its matches |
| Resolver.MatchAllComplete | main2.py:451-454 | every match of every listed command is yielded |
| Resolver.MatchAll | main2.py:451-454 | every pair yielded carries one of the listed commands |
| Resolver.TexFilesFrom | main2.py:400-406 | every document yielded exists or was written with an extension; there are no more of them than matches; the generator raises only the file-not-found or the missing-extension error |
| Resolver.TexFilesInOrder | main2.py:400-406 | the generator raises nothing exactly when every match resolves, and then yields, in match order, each resolved path with its command's parse flag, skipping optional files that are missing. Otherwise it raises the error of the first match that fails, having yielded only the documents of the matches before it |
| Resolver.TexFilesGenerate | main2.py:400-406 | the generator is the same walk over the matches' resolutions computed up front |
| Resolver.GenerateCompletes | main2.py:400-406 | the walk over resolutions raises nothing exactly when every resolution succeeds |
| Resolver.GenerateAll | main2.py:400-406 | a walk that raises nothing yields the document of every match, in order |
| Resolver.GenerateStops | main2.py:400-406 | a walk that raises stops at the first failed resolution, with its error, after the documents before it |
| Resolver.IncludedTexFiles | main2.py:400-406 | the documents of a line raise only the file-not-found or the missing-extension error |
| Resolver.StaticFilesFrom | main2.py:408-415 | every static file yielded exists; the generator raises exactly when it stops before the last match |
| Resolver.StaticFilesInOrder | main2.py:408-415 | the static files come in match order, one per match: item `i` has the path written in match `k + i` and the real path that path resolves to |
| Resolver.StaticFilesStops | main2.py:408-415 | when the generator raises, the error is the resolution error of the first match after the files yielded |
| Resolver.StaticFilesStep | main2.py:408-415 | one match: a failed resolution stops the generator with its error, a successful one yields the match's path and real path before the later files |
| Resolver.StaticFilesGenerate | main2.py:408-415 | the generator is the same walk over the matches' static resolutions computed up front |
| Resolver.StaticResolutionAt | main2.py:413 | the resolution recorded for match `j` is what `_real_path_for_static_file` makes of its path |
| Resolver.GenerateInOrder | main2.py:408-415 | the walk over static resolutions yields, in match order, each match's written path with its resolution |
| Resolver.StaticGenerateStops | main2.py:408-415 | a walk over static resolutions that raises stops at the first failed resolution, with its error, right after the files before it |
| Resolver.IncludedStaticFiles | main2.py:408-415 | every static file of a line exists, and item `i` is the written path of match `i` with the real path it resolves to; the generator raises exactly when it stops before the last match, and then with the resolution error of the first match not yielded, which is the file-not-found or the not-exactly-one-match error |
| Walker.CopySpec | main2.py:324-335 | the corrected copy (see Findings): it succeeds exactly when the source is a file; the output gains that path and the table is unchanged |
| Walker.CopyAsWritten | main2.py:324-335 | `_copy` as written: it succeeds exactly when the source is a file and its directory already exists in the output (the top directory, or one an earlier output was written under), and then agrees with the corrected copy |
| Walker.SubdirectoryCopyFails | main2.py:330-331 | a document in a subdirectory that no earlier output created fails with file-not-found for that directory, where the corrected copy succeeds |
| Walker.CopyAsWrittenAgrees | main2.py:324-335 | once the directory exists, the copy as written and the corrected copy agree |
| Walker.CopyMakesDirectory | main2.py:347 | a sanity fact about the corrected copy: it writes the file under its directory, so that directory counts as existing in the output afterwards, as `_copy_static`'s `makedirs` leaves it |
| Walker.CopyStaticSpec | main2.py:337-366 | the output gains the static file's path and nothing else changes |
| Walker.Extract | main2.py:287-322 | extraction keeps the table consistent and free of zero-group patterns, and consumes only the lines given |
| Walker.ExtractAt | main2.py:295-322 | once a header is found, reading and registering its body keeps the table consistent and free of zero-group patterns, and consumes only the lines given |
| Walker.RegisterClosed | main2.py:298-322 | registering a balanced body keeps the same invariants |
| Walker.ExtractDefines | main2.py:287-322 | with a header, the returned text is the rest after the body, the lines consumed are counted, and the command is registered with that body |
| Walker.LineStepKeepsReady | main2.py:271-276 | reading a line keeps the table usable and moves on by at least one line, never past the end |
| Walker.LineStepDefines | main2.py:273-276 | a document line is stripped, has its definition registered, and is then expanded |
| Walker.LineStepExtends | main2.py:273-276 | reading a line never forgets a command |
| Walker.LineStep | main2.py:271-276 | one line keeps the table usable and moves on by at least one line, never past the end; a `.sty` line is only stripped of its comment, and moves on by one with the table unchanged |
| Walker.LinesFrom | main2.py:268-285 | the line loop keeps the table usable |
| Walker.LineThen | main2.py:271-285 | one turn of the loop keeps the table usable |
| Walker.IncludesSpec | main2.py:278-284 | handling a line's includes keeps the table usable |
| Walker.TexFrom | main2.py:278-281 | copying and walking the documents keeps the table usable |
| Walker.TexFromCopies | main2.py:278-281 | after success, every document from the current one on is in the output |
| Walker.StaticFromCopies | main2.py:282-284 | after success, every static file from the current one on is in the output |
| Walker.IncludesCopies | main2.py:278-284 | after success, every document and every static file the line includes is in the output |
| Walker.PlainLinesKeep | main2.py:268-285 | lines without definitions or includes leave the walk unchanged |
| Walker.ParseSpec | main2.py:260-285 | parsing keeps the table usable |
| Walker.Finish | main2.py:400-415 | a generator run out succeeds exactly when it raised nothing |
| Walker.StaticFrom | main2.py:282-284 | copying static files leaves the table unchanged |
| Walker.MoveOutput | main2.py:237-240 | after the rename the root's output is under the new name only, with the same contents |
| Walker.RenameTarget | main2.py:233-235 | the target starts with the rename, and equals it exactly when the rename has an extension; otherwise `.tex` is appended |
| Walker.CopyAllSpec | main2.py:225-241 | a finished copy ends with a usable table; an empty rename, falsy in Python, is no rename |
| Walker.ExtendsTrans | main2.py:260-285 | growth of the walk state is transitive |
| Walker.ParseExtends | main2.py:260-285 | a parse only adds outputs and commands, and keeps every output a copy of its source |
| Walker.LinesExtends | main2.py:268-285 | the line loop only adds outputs and commands |
| Walker.LineThenExtends | main2.py:271-285 | one turn of the loop only adds outputs and commands |
| Walker.IncludesExtends | main2.py:278-284 | handling a line's includes only adds outputs and commands |
| Walker.TexExtends | main2.py:278-281 | copying and walking the documents only adds outputs and commands |
| Walker.StaticExtends | main2.py:282-284 | copying static files only adds outputs |
| Walker.CopyAllWritesRoot | main2.py:225-241 | a finished copy requires the root to exist and has written its output: under its own name when the rename is absent or empty (every output then a faithful copy), or under the rename target |
| Walker.CopyAllRoundTrip | main2.py:225-241 | a root without definitions or includes, not renamed, yields exactly one output, the root's copy (comments stripped for a `.tex` root) under its own name, and an empty table |
| Walker.Copier.constructor | main2.py:201-223 | the copier starts with an empty table and nothing copied |
| Walker.Copier.CopyFile | main2.py:324-335 | the state after `_copy` is the copy specification's, or the same failure |
| Walker.Copier.CopyStatic | main2.py:337-366 | the state after `_copy_static` is the static copy specification's |
| Walker.Copier.Define | main2.py:302-320 | the dictionaries are updated as registration says, and fail as it does |
| Walker.Copier.ExtractDefinition | main2.py:287-322 | the method returns the extraction's text and consumed line count, or its failure, and installs its table |
| Walker.Copier.ExtractBody | main2.py:295-322 | once a header is found, the method returns the text after the body and the lines consumed, or the failure, exactly as `ExtractAt` specifies, and installs its table |
| Walker.Copier.ReadLine | main2.py:270-276 | the method returns one line step's text and next index and installs its table |
| Walker.Copier.ParseFile | main2.py:260-285 | the state after `_parse_file` is the parse specification's |
| Walker.Copier.ParseLines | main2.py:268-285 | the line loop computes the loop specification |
| Walker.Copier.ScanIncludes | main2.py:278-284 | the includes of a line are handled as specified: documents first, then static files |
| Walker.Copier.IncludeDocuments | main2.py:278-281 | each document is copied, then walked if it needs parsing |
| Walker.Copier.IncludeStatics | main2.py:282-284 | each static file is copied in turn |
| Walker.Copier.Copy | main2.py:225-241 | `copy` returns the root's output name and leaves the specified final state, or fails as specified; `if rename:` skips an empty rename |
| Legacy.Existing | main.py:310 | no more candidates than extensions |
| Legacy.ExistingMembers | main.py:310 | a candidate is exactly an existing `p + ext` for a listed extension |
| Legacy.ExistingSingle | main.py:310 | with one existing extension the candidates are exactly that path |
| Legacy.ExistingNone | main.py:310 | with none existing there are no candidates |
| Legacy.ExistingTwo | main.py:310 | two existing extensions give at least two candidates |
| Legacy.GetActualP | main.py:303-318 | the flag is set exactly for an existing path; None exactly for a missing path containing `#`; an error exactly when neither holds and the candidates are not exactly one |
| Legacy.GetActualPFound | main.py:303-312 | a path returned exists, and is `p` or `p` plus a listed extension |
| Legacy.GetActualPUnique | main.py:310-312 | with one existing extension the result is that path, unflagged |
| Legacy.GetActualPFails | main.py:313-318 | no existing extension, or two of them, raise |
| Legacy.ResolveWritten | main.py:253-265 | a different written extension raises the mismatch error. A completed path that exists is returned joined to the directory; a missing one gives None only if not required, and raises otherwise |
| Legacy.Hits | main.py:249-251 | one search result per include spec, in list order |
| Legacy.FirstHit | main.py:249-253 | the result is the first spec whose search matched |
| Legacy.IncludedSourceFileFirst | main.py:247-265 | the first matching spec, in list order, decides the result |
| Legacy.IncludedSourceFile | main.py:247-265 | a path returned is a file; the only failures are the extension mismatch and the missing file |
| Legacy.ContainsIncludeStatement | main.py:268-270 | a line contains an include statement exactly when one of the specs that `_included_source_file` tries matches it |
| Legacy.NoStatementNoSource | main.py:247-270 | a line without an include statement gives None |
| Legacy.IncludedImagesSound | main.py:238-244 | the `\includegraphics` paths come first, in order, and every path listed is the path group of an image include on the line |
| Legacy.PlainImageListed | main.py:238-244 | `\includegraphics{path}` with no earlier match lists that path first |
| Legacy.IncludedImages | main.py:238-244 | one path per match of either image directive on the line |
| Legacy.DefinitionCache.constructor | main.py:138-144 | the cache starts empty |
| Legacy.DefinitionCache.ConsumeAndParseNewcommand | main.py:160-170 | it fails without a header, leaving the cache unchanged. Otherwise it consumes a balanced definition, and caches it with an argument-matcher entry exactly when it references files; a kept definition of an empty name is cached and then fails as an invalid pattern, with no matcher added |
| Legacy.SumPrefix | main.py:413-417 | a running total never exceeds the full total |
| Legacy.GetSize | main.py:409-418 | the result is None exactly when the total exceeds the maximum (some file exists), and otherwise the total |
| Legacy.RmtreeSemiSafe | main.py:403-406 | deletion is refused exactly when the total exceeds `max_size_mb` MiB |

## Left out

- Reading, writing, copying and deleting real files, and text encodings. The file system is a
  map from path to its lines, and every file is readable. Retrying another encoding
  (`_open`, and `copy_all` in `main.py`) is therefore not modelled.
- `os.walk` and `os.path.getsize`: `Legacy.GetSize` takes the list of file sizes as a
  parameter, and `shutil.rmtree` is the successful result of `Legacy.RmtreeSemiSafe`.
- Legacy.GetSize: the sizes are given as one list in walk order; the directory traversal
  itself is not modelled.
- Python's recursion limit: the `depth` bound on nested parses and the `macroFuel` bound on
  expansion stand for it. The real limit counts interpreter frames, so the point at which the
  source gives up is not modelled exactly.
- The glob pattern in `_real_path_for_static_file` is read as "the path, a dot, then anything".
  Glob metacharacters inside the written path are taken literally, hidden files are not treated
  specially, and a directory never matches because the file system holds only files.
- Resolver.StaticFilesFrom: the relative path is computed by `str.replace` of the root directory
  followed by `lstrip` of separators (`main2.py:414`). The model takes the resolved path
  itself, so a root directory name that recurs inside the path is not modelled.
- `os.rename` failing, and absolute include paths that leave the output directory.
- Walker.CopyAllSpec: the output paths are the source-relative paths. Joining them to the
  output directory is not modelled.
- `_copy_static`'s PNG-to-JPG conversion in `main2.py` can never run: its extension set is
  empty and the method it would call does not exist. `main.py`'s PIL conversion is an
  external library. Neither is modelled.
- `main.py`'s walker (`_read_and_copy`, `_files_included_using_commands`, `copy_all`) refers
  to names that do not exist, so it cannot run; it is not modelled. `main.py`'s
  `_replace_all` belongs to that walker.
- Git hash lookup and insertion, `latexmk`, the `.bbl` handling, `tar`, command-line parsing,
  output-directory setup and the size report are external processes or output only.
- `_note_on_extensions` (`main2.py:457-458`) and the `print` calls only report.
- The model follows the code, except for the two defects listed under Findings, where the walk
  uses the corrected behaviour and a separate member models the code as written. Two further
  points where the code is narrower than one might expect:
  - `main2.py` returns a path with a written extension without comparing it to the allowed
    extensions (`main2.py:437-440`); only `main.py` rejects a mismatch
    (`Legacy.ResolveWritten`).
  - An invocation with the wrong number of arguments is never reported. The compiled pattern
    simply does not match it, so the assertion at `main2.py:386-389`, which `Macros.Activate`
    models as the `ArgumentCount` error, cannot fail (`Macros.ReplaceForMatch`).
- Walker.CopySpec: the walk copies a document into a subdirectory even when no earlier output
  created that directory. `_copy` as written has no `makedirs` and fails there; that behaviour
  is `Walker.CopyAsWritten` (see Findings).
- Walker.Copier.CopyFile: follows `Walker.CopySpec`, so it also succeeds where `_copy` as
  written fails for a missing output directory.
- Walker.CopyAllSpec: the walk it specifies uses the corrected copy, so a document in a new
  subdirectory does not stop it as it stops the source.
- Walker.Copier.Copy: follows `Walker.CopyAllSpec`, with the same corrected copy.
- Walker.Extract: registers with the corrected pattern, in which `[0]` gives the bare-name
  pattern (`Macros.Register`), not the pattern compiled as written
  (`Macros.RegisterAsWritten`). The walk therefore expands `\foo` defined with `[0]` where the
  source fails (see Findings).
- Walker.Copier.Define: updates the dictionaries with the corrected `[0]` pattern, as
  `Walker.Extract` does.
- Text.IsWordChar: ASCII letters, digits and `_` only. Python 3's `\w` and `\W` on `str` are
  Unicode-aware, so a letter such as `é` is a word character there and not here.
- Text.IsDigit: ASCII digits only. Python 3's `\d` also accepts other Unicode decimal digits,
  which `int()` reads too.
- Patterns.NewcommandShape: reads `[n]` with ASCII digits only. An arity written with other
  Unicode decimal digits, such as `[٣]`, is read by the source but not by the model.
- Patterns.NewcommandAt: the same ASCII-only digits for the arity.
- Patterns.InvocationAt: the character after a bare command must be outside the ASCII word
  characters. In the source `\fooé` is no invocation of `\foo`, because `é` is a Unicode word
  character; in the model it is one.
- Macros.RegisterWith: a name is compared as text. The source splices it unescaped into a
  regex (`main2.py:313`, `main2.py:316`), so a name holding regex metacharacters either does
  not compile (`\(` raises `re.error`) or matches other text and later fails the dictionary
  lookup (`\.`, `KeyError`). Only the empty name's compile failure is modelled.
- Walker.Copier.Define: the same literal reading of names as `Macros.RegisterWith`.
- Legacy.DefinitionCache.ConsumeAndParseNewcommand: the name is spliced unescaped into a regex
  (`main.py:170`). Metacharacters in a name are not modelled; only the empty name's compile
  failure is.
- Comments.StripDocIdempotent: idempotence is proved on line sequences. Re-reading a written
  file whose last line is the end marker followed by the extra newline splits it the same way,
  but a final marker line without a newline gains a blank line on a second pass.

## Findings

| source | as written | input that shows it | evidently intended | confidence | as-written member | corrected member |
|---|---|---|---|---|---|---|
| main2.py:324-335, main2.py:347 | `_copy` writes to `out_dir/relative_p` without creating its directory, which only `_copy_static` does | a root containing `\input{sections/intro}`, with `sections/intro.tex` present and no earlier output under `sections/` | the directory is created as for static files, and the document is copied | not executed | Walker.SubdirectoryCopyFails | Walker.CopyMakesDirectory |
| main2.py:310-316, main2.py:379-396 | an explicit `[0]` arity compiles the pattern `(\name)` with no second group, and expansion then asks for group 2 to append the following character | `\newcommand{\foo}[0]{bar}` followed by a line containing `\foo` | `[0]` behaves like a missing `[n]`: `\foo` expands to `bar` | not executed | Macros.ZeroArityAsWrittenFails | Macros.ZeroArityCorrectedExpands |
