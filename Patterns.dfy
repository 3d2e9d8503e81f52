/**
 * Recognisers for the fixed regular expressions of the tool, written out with Python's `re`
 * backtracking order: the include directives (`\input{…}`, `\includegraphics[…]{…}`, …), the
 * `\newcommand` header, and the invocation of a defined command. `.` never matches a newline,
 * so no group ever extends past the end of its line.
 */
module Patterns {
  import opened Failures
  import opened Text

  /** The first index at or after `i` that holds a newline, or `|s|`. */
  function LineEnd(s: string, i: nat): (j: nat)
    requires i <= |s|
    ensures i <= j <= |s| && (j == |s| || s[j] == '\n')
    decreases |s| - i
  {
    if i == |s| || s[i] == '\n' then i else LineEnd(s, i + 1)
  }

  /** No newline comes before `LineEnd`. */
  lemma {:induction false} LineEndClear(s: string, i: nat)
    requires i <= |s|
    ensures forall k :: i <= k < LineEnd(s, i) ==> s[k] != '\n'
    decreases |s| - i
  {
    if i < |s| && s[i] != '\n' {
      LineEndClear(s, i + 1);
    }
  }

  /** `LineEnd` is the first newline or the end. */
  lemma {:induction false} LineEndAt(s: string, i: nat, j: nat)
    requires i <= j <= |s| && (j == |s| || s[j] == '\n')
    requires forall k :: i <= k < j ==> s[k] != '\n'
    ensures LineEnd(s, i) == j
    decreases j - i
  {
    if i < j {
      LineEndAt(s, i + 1, j);
    }
  }

  /** Lazy `(.*?)}` started at `i`: the first `}` at or after `i`, unless a newline comes first. */
  function CloseAt(s: string, i: nat): (r: Option<nat>)
    requires i <= |s|
    ensures r.Some? ==> i <= r.value < |s| && s[r.value] == '}'
    decreases |s| - i
  {
    if i == |s| || s[i] == '\n' then None
    else if s[i] == '}' then Some(i)
    else CloseAt(s, i + 1)
  }

  /** `CloseAt` finds the first `}` of the line, and fails exactly when the line has none. */
  lemma {:induction false} CloseAtIsFirst(s: string, i: nat)
    requires i <= |s|
    ensures var r := CloseAt(s, i);
      && (r.Some? ==> forall k :: i <= k < r.value ==> s[k] != '}' && s[k] != '\n')
      && (r.None? ==> forall k :: i <= k < LineEnd(s, i) ==> s[k] != '}')
    decreases |s| - i
  {
    if i < |s| && s[i] != '\n' && s[i] != '}' {
      CloseAtIsFirst(s, i + 1);
    }
  }

  /** `CloseAt` stops at the first `}` when no newline comes before it. */
  lemma {:induction false} CloseAtFindsEnd(s: string, i: nat, c: nat)
    requires i <= c < |s| && s[c] == '}'
    requires forall k :: i <= k < c ==> s[k] != '}' && s[k] != '\n'
    ensures CloseAt(s, i) == Some(c)
    decreases c - i
  {
    if i < c {
      CloseAtFindsEnd(s, i + 1, c);
    }
  }

  // ---------------------------------------------------------------------------------------
  // Include directives: a literal command, an optional `[…]` group, then `{(.*?)}`

  /** How the optional `[…]` group is written: absent, `(\[.*?\])?` (main2.py) or
   *  `(\[.*\])?` (main.py). */
  datatype Options = NoOptions | LazyOptions | GreedyOptions

  datatype IncludePattern = IncludePattern(command: string, options: Options)

  /** A match: where it starts, the path group, and one past its closing `}`. */
  datatype IncludeMatch = IncludeMatch(start: nat, path: string, end: nat)

  /** `{` at `b`, then the path up to the first `}` of the line: where the path starts and
   *  where its `}` is. */
  function BracedPath(s: string, b: nat): (r: Option<(nat, nat)>)
    requires b <= |s|
    ensures r.Some? ==> r.value.0 == b + 1 && r.value.0 <= r.value.1 < |s|
    ensures r.Some? ==> s[b] == '{' && CloseAt(s, b + 1) == Some(r.value.1)
  {
    if b < |s| && s[b] == '{' then
      match CloseAt(s, b + 1)
      case Some(c) => Some((b + 1, c))
      case None => None
    else None
  }

  /** Whether the option group can end with the `]` at `q`: a braced path must follow. */
  predicate ClosesOptions(s: string, q: nat)
    requires q < |s|
  {
    s[q] == ']' && BracedPath(s, q + 1).Some?
  }

  /** Lazy `\[.*?\]`: the candidate closing `]` are tried from the left, in `[q, hi)`. */
  function LazyClose(s: string, q: nat, hi: nat): (r: Option<nat>)
    requires q <= hi <= |s|
    ensures r.Some? ==> q <= r.value < hi && ClosesOptions(s, r.value)
    decreases hi - q
  {
    if q == hi then None
    else if ClosesOptions(s, q) then Some(q)
    else LazyClose(s, q + 1, hi)
  }

  /** Greedy `\[.*\]`: the candidate closing `]` are tried from the right, in `[lo, hi)`. */
  function GreedyClose(s: string, lo: nat, hi: nat): (r: Option<nat>)
    requires lo <= hi <= |s|
    ensures r.Some? ==> lo <= r.value < hi && ClosesOptions(s, r.value)
    decreases hi - lo
  {
    if lo == hi then None
    else if ClosesOptions(s, hi - 1) then Some(hi - 1)
    else GreedyClose(s, lo, hi - 1)
  }

  /** The lazy group ends at the first candidate, and fails only when there is none. */
  lemma {:induction false} LazyCloseIsFirst(s: string, q: nat, hi: nat)
    requires q <= hi <= |s|
    ensures var r := LazyClose(s, q, hi);
      forall k :: q <= k < hi && (r.None? || k < r.value) ==> !ClosesOptions(s, k)
    decreases hi - q
  {
    if q < hi && !ClosesOptions(s, q) {
      LazyCloseIsFirst(s, q + 1, hi);
    }
  }

  /** The greedy group ends at the last candidate, and fails only when there is none. */
  lemma {:induction false} GreedyCloseIsLast(s: string, lo: nat, hi: nat)
    requires lo <= hi <= |s|
    ensures var r := GreedyClose(s, lo, hi);
      forall k :: lo <= k < hi && (r.None? || k > r.value) ==> !ClosesOptions(s, k)
    decreases hi - lo
  {
    if lo < hi && !ClosesOptions(s, hi - 1) {
      GreedyCloseIsLast(s, lo, hi - 1);
    }
  }

  /** Where the option group starting with the `[` at `k` ends, if it can. */
  function OptionsEnd(s: string, k: nat, options: Options): (r: Option<nat>)
    requires k < |s|
    ensures r.Some? ==> k < r.value < |s| && ClosesOptions(s, r.value)
    ensures r.Some? ==> r.value < LineEnd(s, k + 1)
  {
    var hi := LineEnd(s, k + 1);
    if options == LazyOptions then LazyClose(s, k + 1, hi) else GreedyClose(s, k + 1, hi)
  }

  /** Where the `{` before the path is, when the command ends at `k`. */
  function OpenBrace(s: string, k: nat, options: Options): (r: Option<nat>)
    requires k <= |s|
    ensures r.Some? ==> k <= r.value < |s| && BracedPath(s, r.value).Some?
    ensures r.Some? && r.value != k ==> options != NoOptions && s[k] == '['
  {
    if options != NoOptions && k < |s| && s[k] == '[' then
      match OptionsEnd(s, k, options)
      case Some(q) => Some(q + 1)
      case None => None
    else if BracedPath(s, k).Some? then Some(k)
    else None
  }

  /** The include pattern matched at exactly position `a`, if it matches there. */
  function MatchIncludeAt(s: string, a: nat, pat: IncludePattern): (r: Option<IncludeMatch>)
    ensures r.Some? ==> r.value.start == a && a < r.value.end <= |s|
  {
    if !OccursAt(s, pat.command, a) then None
    else match OpenBrace(s, a + |pat.command|, pat.options)
      case None => None
      case Some(b) =>
        var p := BracedPath(s, b).value;
        Some(IncludeMatch(a, s[p.0..p.1], p.1 + 1))
  }

  /** What a match looks like: the command, then either `{` at once or a `[` opening the
   *  options, then the path, with no `}` or newline in it, between `{` and `}`. */
  lemma MatchShape(s: string, a: nat, pat: IncludePattern)
    requires MatchIncludeAt(s, a, pat).Some?
    ensures var m := MatchIncludeAt(s, a, pat).value;
      var open := m.end - |m.path| - 2;
      && OccursAt(s, pat.command, a) && a + |pat.command| <= open
      && s[open] == '{' && s[m.end - 1] == '}' && m.path == s[open + 1..m.end - 1]
      && (forall k :: 0 <= k < |m.path| ==> m.path[k] != '}' && m.path[k] != '\n')
      && (open == a + |pat.command| || (pat.options != NoOptions && s[a + |pat.command|] == '['))
  {
    var b := OpenBrace(s, a + |pat.command|, pat.options).value;
    var c := CloseAt(s, b + 1).value;
    CloseAtIsFirst(s, b + 1);
    var m := MatchIncludeAt(s, a, pat).value;
    assert m.end == c + 1;
    assert m.path == s[b + 1..c];
    forall k | 0 <= k < |m.path|
      ensures m.path[k] != '}' && m.path[k] != '\n'
    {
      assert m.path[k] == s[b + 1 + k];
    }
  }

  /** No match of `pat` starts in `[lo, hi)`. */
  predicate NoMatchIn(s: string, pat: IncludePattern, lo: nat, hi: nat)
    decreases hi - lo
  {
    lo >= hi || (MatchIncludeAt(s, lo, pat).None? && NoMatchIn(s, pat, lo + 1, hi))
  }

  /** What `NoMatchIn` says about a single position. */
  lemma {:induction false} NoMatchAt(s: string, pat: IncludePattern, lo: nat, hi: nat, a: nat)
    requires NoMatchIn(s, pat, lo, hi) && lo <= a < hi
    ensures MatchIncludeAt(s, a, pat).None?
    decreases a - lo
  {
    if lo < a {
      NoMatchAt(s, pat, lo + 1, hi, a);
    }
  }

  /** The first match starting at or after `pos`. */
  function FirstMatchFrom(s: string, pat: IncludePattern, pos: nat): (r: Option<IncludeMatch>)
    ensures r.Some? ==> pos <= r.value.start && MatchIncludeAt(s, r.value.start, pat) == r
    decreases |s| + 1 - pos
  {
    if pos > |s| then None
    else match MatchIncludeAt(s, pos, pat)
      case Some(m) => Some(m)
      case None => FirstMatchFrom(s, pat, pos + 1)
  }

  /** Nothing matches before the first match; when there is none, nothing matches at all. */
  lemma {:induction false} FirstMatchIsLeftmost(s: string, pat: IncludePattern, pos: nat)
    ensures var r := FirstMatchFrom(s, pat, pos);
      && (r.Some? ==> NoMatchIn(s, pat, pos, r.value.start))
      && (r.None? ==> NoMatchIn(s, pat, pos, |s| + 1))
    decreases |s| + 1 - pos
  {
    if pos <= |s| && MatchIncludeAt(s, pos, pat).None? {
      FirstMatchIsLeftmost(s, pat, pos + 1);
    }
  }

  /** The search passes over a stretch without matches. */
  lemma {:induction false} FirstMatchSkips(s: string, pat: IncludePattern, pos: nat, a: nat)
    requires pos <= a && NoMatchIn(s, pat, pos, a)
    ensures FirstMatchFrom(s, pat, pos) == FirstMatchFrom(s, pat, a)
    decreases a - pos
  {
    if pos < a {
      FirstMatchSkips(s, pat, pos + 1, a);
    }
  }

  /** `pat.finditer(s)` from `pos`: the successive non-overlapping leftmost matches. */
  function FindAll(s: string, pat: IncludePattern, pos: nat): (ms: seq<IncludeMatch>)
    ensures forall i :: 0 <= i < |ms| ==> pos <= ms[i].start && MatchIncludeAt(s, ms[i].start, pat) == Some(ms[i])
    decreases |s| + 1 - pos
  {
    match FirstMatchFrom(s, pat, pos)
    case None => []
    case Some(m) => [m] + FindAll(s, pat, m.end)
  }

  /** Matches in order, without overlap: each ends at or before the start of every later one. */
  predicate InOrder(ms: seq<IncludeMatch>) {
    forall i, j :: 0 <= i < j < |ms| ==> ms[i].end <= ms[j].start
  }

  lemma InOrderCons(m: IncludeMatch, rest: seq<IncludeMatch>)
    requires InOrder(rest) && forall k :: 0 <= k < |rest| ==> m.end <= rest[k].start
    ensures InOrder([m] + rest)
  {
    var ms := [m] + rest;
    forall i, j | 0 <= i < j < |ms|
      ensures ms[i].end <= ms[j].start
    {
      assert ms[j] == rest[j - 1];
      if i > 0 {
        assert ms[i] == rest[i - 1];
      }
    }
  }

  /** The matches `finditer` lists come in order and do not overlap. */
  lemma {:induction false} FindAllInOrder(s: string, pat: IncludePattern, pos: nat)
    ensures InOrder(FindAll(s, pat, pos))
    decreases |s| + 1 - pos
  {
    var r := FirstMatchFrom(s, pat, pos);
    if r.Some? {
      var m := r.value;
      FindAllInOrder(s, pat, m.end);
      InOrderCons(m, FindAll(s, pat, m.end));
    }
  }

  /** `finditer` misses nothing: no match starts before the first one, between two
   *  consecutive ones, or after the last one. */
  lemma {:induction false} FindAllComplete(s: string, pat: IncludePattern, pos: nat)
    ensures var ms := FindAll(s, pat, pos);
      && (|ms| == 0 ==> NoMatchIn(s, pat, pos, |s| + 1))
      && (|ms| > 0 ==> NoMatchIn(s, pat, pos, ms[0].start))
      && (|ms| > 0 ==> NoMatchIn(s, pat, ms[|ms| - 1].end, |s| + 1))
      && (forall i :: 0 < i < |ms| ==> NoMatchIn(s, pat, ms[i - 1].end, ms[i].start))
    decreases |s| + 1 - pos
  {
    FirstMatchIsLeftmost(s, pat, pos);
    var r := FirstMatchFrom(s, pat, pos);
    if r.Some? {
      var m := r.value;
      var rest := FindAll(s, pat, m.end);
      FindAllComplete(s, pat, m.end);
      var ms := FindAll(s, pat, pos);
      assert ms == [m] + rest;
      forall i | 0 < i < |ms|
        ensures NoMatchIn(s, pat, ms[i - 1].end, ms[i].start)
      {
        if i > 1 {
          assert ms[i - 1] == rest[i - 2] && ms[i] == rest[i - 1];
        }
      }
    }
  }

  /** `pat.search(s)`: the leftmost match. */
  function Search(s: string, pat: IncludePattern): (r: Option<IncludeMatch>)
    ensures r.Some? ==> MatchIncludeAt(s, r.value.start, pat) == r
    ensures r == (if FindAll(s, pat, 0) == [] then None else Some(FindAll(s, pat, 0)[0]))
  {
    FirstMatchFrom(s, pat, 0)
  }

  /** The paths of `pat.findall(s)` (the path group of every match), left to right. */
  function FindAllPaths(s: string, pat: IncludePattern): (ps: seq<string>)
    ensures |ps| == |FindAll(s, pat, 0)|
    ensures forall i :: 0 <= i < |ps| ==> ps[i] == FindAll(s, pat, 0)[i].path
  {
    var ms := FindAll(s, pat, 0);
    seq(|ms|, i requires 0 <= i < |ms| => ms[i].path)
  }

  /** A directive written plainly, with no earlier match, is found with its path. */
  lemma PlainDirectiveFound(pre: string, command: string, path: string, post: string, options: Options)
    requires |command| > 0
    requires forall k :: 0 <= k < |path| ==> path[k] != '}' && path[k] != '\n'
    requires NoMatchIn(pre + command + "{" + path + "}" + post, IncludePattern(command, options), 0, |pre|)
    ensures var s := pre + command + "{" + path + "}" + post;
      Search(s, IncludePattern(command, options)) == Some(IncludeMatch(|pre|, path, |pre| + |command| + |path| + 2))
  {
    var s := pre + command + "{" + path + "}" + post;
    var pat := IncludePattern(command, options);
    PlainDirectiveMatches(pre, command, path, post, options);
    FirstMatchSkips(s, pat, 0, |pre|);
  }

  lemma PlainDirectiveMatches(pre: string, command: string, path: string, post: string, options: Options)
    requires forall k :: 0 <= k < |path| ==> path[k] != '}' && path[k] != '\n'
    ensures var s := pre + command + "{" + path + "}" + post;
      var a := |pre|;
      MatchIncludeAt(s, a, IncludePattern(command, options)) == Some(IncludeMatch(a, path, a + |command| + |path| + 2))
  {
    var s := pre + command + "{" + path + "}" + post;
    var a := |pre|;
    var k := a + |command|;
    assert s[a..k] == command;
    assert s[k] == '{';
    assert s[k + 1..k + 1 + |path|] == path;
    assert s[k + 1 + |path|] == '}';
    forall j | k + 1 <= j < k + 1 + |path|
      ensures s[j] != '}' && s[j] != '\n'
    {
      assert s[j] == path[j - k - 1];
    }
    CloseAtFindsEnd(s, k + 1, k + 1 + |path|);
    assert OpenBrace(s, k, options) == Some(k);
  }

  // ---------------------------------------------------------------------------------------
  // The \newcommand header: \\(re)?newcommand\*?{?(.*?)}?(\[(\d+)\])?{

  /** A match of the header: `numArgs` is the `[n]` group, `end` is one past the body's `{`. */
  datatype NewcommandMatch = NewcommandMatch(
    start: nat, isRenew: bool, nameStart: nat, name: string, numArgs: Option<nat>, end: nat)

  /** The end of the longest run of digits starting at `i`. */
  function DigitsEnd(s: string, i: nat): (j: nat)
    requires i <= |s|
    ensures i <= j <= |s| && (j == |s| || !IsDigit(s[j]))
    ensures AllDigits(s[i..j])
    decreases |s| - i
  {
    if i < |s| && IsDigit(s[i]) then DigitsEnd(s, i + 1) else i
  }

  /** `}?(\[(\d+)\])?{` at `q`: the `[n]` group and one past the `{`. */
  function HeaderTail(s: string, q: nat): (r: Option<(Option<nat>, nat)>)
    requires q <= |s|
    ensures r.Some? ==> q < r.value.1 <= |s| && s[r.value.1 - 1] == '{'
  {
    var b := if q < |s| && s[q] == '}' then q + 1 else q;
    if b < |s| && s[b] == '[' then
      var e := DigitsEnd(s, b + 1);
      if e > b + 1 && e + 1 < |s| && s[e] == ']' && s[e + 1] == '{' then
        Some((Some(ParseDecimal(s[b + 1..e])), e + 2))
      else None
    else if b < |s| && s[b] == '{' then Some((None, b + 1))
    else None
  }

  /** Lazy `(.*?)` for the name: the first name end in `[q, hi)` after which the tail matches. */
  function NameEnd(s: string, q: nat, hi: nat): (r: Option<nat>)
    requires q <= hi <= |s|
    ensures r.Some? ==> q <= r.value < hi && HeaderTail(s, r.value).Some?
    decreases hi - q
  {
    if q == hi then None
    else if HeaderTail(s, q).Some? then Some(q)
    else NameEnd(s, q + 1, hi)
  }

  /** The lazy name scan passes over positions where the tail does not match. */
  lemma {:induction false} NameEndSkips(s: string, q: nat, k: nat, hi: nat)
    requires q <= k <= hi <= |s|
    requires forall j :: q <= j < k ==> HeaderTail(s, j).None?
    ensures NameEnd(s, q, hi) == NameEnd(s, k, hi)
    decreases k - q
  {
    if q < k {
      NameEndSkips(s, q + 1, k, hi);
    }
  }

  /** `{?(.*?)` from `p`: first with the optional `{` taken, then without it. The result is
   *  where the name starts and where it ends. */
  function NameFrom(s: string, p: nat): (r: Option<(nat, nat)>)
    requires p <= |s|
    ensures r.Some? ==> p <= r.value.0 <= r.value.1 < |s| && r.value.1 < LineEnd(s, r.value.0)
    ensures r.Some? ==> HeaderTail(s, r.value.1).Some?
  {
    var braced := if p < |s| && s[p] == '{' then NameEnd(s, p + 1, LineEnd(s, p + 1)) else None;
    if braced.Some? then Some((p + 1, braced.value))
    else match NameEnd(s, p, LineEnd(s, p))
      case Some(q) => Some((p, q))
      case None => None
  }

  /** `\*?{?(.*?)` from `p`: the star, when allowed, is taken first; without it the name is
   *  tried from `p` itself. */
  function StarredNameFrom(s: string, p: nat, allowStar: bool): (r: Option<(nat, nat)>)
    requires p <= |s|
    ensures r.Some? ==> p <= r.value.0 <= r.value.1 < |s| && r.value.1 < LineEnd(s, r.value.0)
    ensures r.Some? ==> HeaderTail(s, r.value.1).Some?
  {
    var starred := if allowStar && p < |s| && s[p] == '*' then NameFrom(s, p + 1) else None;
    if starred.Some? then starred else NameFrom(s, p)
  }

  /** The keyword after the backslash: `renewcommand` or `newcommand`. */
  function Keyword(isRenew: bool): string {
    if isRenew then "\\renewcommand" else "\\newcommand"
  }

  /** The header matched at exactly position `a`; `allowStar` adds main2.py's `\*?`. */
  function NewcommandAt(s: string, a: nat, allowStar: bool): (r: Option<NewcommandMatch>)
    ensures r.Some? ==> r.value.start == a && a < r.value.nameStart
    ensures r.Some? ==> r.value.nameStart + |r.value.name| < r.value.end <= |s| && s[r.value.end - 1] == '{'
  {
    var renew := OccursAt(s, Keyword(true), a);
    if !renew && !OccursAt(s, Keyword(false), a) then None
    else
      var p0 := a + |Keyword(renew)|;
      var n := StarredNameFrom(s, p0, allowStar);
      if n.None? then None
      else
        var t := HeaderTail(s, n.value.1).value;
        Some(NewcommandMatch(a, renew, n.value.0, s[n.value.0..n.value.1], t.0, t.1))
  }

  /** What a header looks like: the keyword, the name on one line, the body's opening `{`. */
  lemma NewcommandShape(s: string, a: nat, allowStar: bool)
    requires NewcommandAt(s, a, allowStar).Some?
    ensures var m := NewcommandAt(s, a, allowStar).value;
      && OccursAt(s, Keyword(m.isRenew), a) && a + |Keyword(m.isRenew)| <= m.nameStart
      && s[m.end - 1] == '{' && m.name == s[m.nameStart..m.nameStart + |m.name|]
      && (forall k :: 0 <= k < |m.name| ==> m.name[k] != '\n')
  {
    HeaderKeyword(s, a, allowStar);
    HeaderName(s, a, allowStar);
  }

  lemma HeaderKeyword(s: string, a: nat, allowStar: bool)
    requires NewcommandAt(s, a, allowStar).Some?
    ensures var m := NewcommandAt(s, a, allowStar).value;
      OccursAt(s, Keyword(m.isRenew), a) && a + |Keyword(m.isRenew)| <= m.nameStart
  {
  }

  lemma HeaderName(s: string, a: nat, allowStar: bool)
    requires NewcommandAt(s, a, allowStar).Some?
    ensures var m := NewcommandAt(s, a, allowStar).value;
      && m.name == s[m.nameStart..m.nameStart + |m.name|]
      && (forall k :: 0 <= k < |m.name| ==> m.name[k] != '\n')
  {
    LineEndClear(s, NewcommandAt(s, a, allowStar).value.nameStart);
  }

  /** No header starts in `[lo, hi)`. */
  predicate NoHeaderIn(s: string, allowStar: bool, lo: nat, hi: nat)
    decreases hi - lo
  {
    lo >= hi || (NewcommandAt(s, lo, allowStar).None? && NoHeaderIn(s, allowStar, lo + 1, hi))
  }

  /** `_RE_NEWCOMMAND.search(s[pos..])`, positions counted in `s`: the leftmost header. */
  function SearchNewcommand(s: string, allowStar: bool, pos: nat): (r: Option<NewcommandMatch>)
    ensures r.Some? ==> pos <= r.value.start && NewcommandAt(s, r.value.start, allowStar) == r
    decreases |s| + 1 - pos
  {
    if pos > |s| then None
    else match NewcommandAt(s, pos, allowStar)
      case Some(m) => Some(m)
      case None => SearchNewcommand(s, allowStar, pos + 1)
  }

  /** The search finds the leftmost header, and finds one whenever there is one. */
  lemma {:induction false} SearchNewcommandIsLeftmost(s: string, allowStar: bool, pos: nat)
    ensures var r := SearchNewcommand(s, allowStar, pos);
      && (r.Some? ==> NoHeaderIn(s, allowStar, pos, r.value.start))
      && (r.None? ==> NoHeaderIn(s, allowStar, pos, |s| + 1))
    decreases |s| + 1 - pos
  {
    if pos <= |s| && NewcommandAt(s, pos, allowStar).None? {
      SearchNewcommandIsLeftmost(s, allowStar, pos + 1);
    }
  }

  /** A braced header `\newcommand{\name}[n]{` is read as written. */
  lemma BracedHeaderRead(s: string)
    requires s == "\\newcommand{\\imgs}[2]{"
    ensures NewcommandAt(s, 0, true) == Some(NewcommandMatch(0, false, 12, "\\imgs", Some(2), 22))
  {
    ExampleKeyword(s);
    ExampleName(s);
    assert s[11] == '{';
    assert StarredNameFrom(s, 11, true) == Some((12, 17));
    assert s[12..17] == "\\imgs";
  }

  lemma ExampleKeyword(s: string)
    requires s == "\\newcommand{\\imgs}[2]{"
    ensures OccursAt(s, Keyword(false), 0) && !OccursAt(s, Keyword(true), 0)
  {
    assert s[..11] == Keyword(false);
    assert s[1] != Keyword(true)[1];
  }

  lemma ExampleName(s: string)
    requires s == "\\newcommand{\\imgs}[2]{"
    ensures NameEnd(s, 12, LineEnd(s, 12)) == Some(17) && HeaderTail(s, 17) == Some((Some(2), 22))
  {
    LineEndAt(s, 12, 22);
    forall k | 12 <= k < 17
      ensures HeaderTail(s, k).None?
    {
      assert s[k] != '}' && s[k] != '[' && s[k] != '{';
    }
    ExampleArity(s);
    NameEndSkips(s, 12, 17, 22);
  }

  lemma ExampleArity(s: string)
    requires s == "\\newcommand{\\imgs}[2]{"
    ensures HeaderTail(s, 17) == Some((Some(2), 22))
  {
    assert DigitsEnd(s, 19) == 20;
    assert s[19..20] == "2";
    assert ParseDecimal("2") == 2 by {
      assert "2"[..0] == [];
    }
  }

  // ---------------------------------------------------------------------------------------
  // Invocations of a defined command

  /** The regex compiled for a command: `(\\name)(\W|$)`, or `(\\name)` followed by `n`
   *  times `{(.*?)}`. */
  datatype Matcher = Bare | Args(n: nat)

  /** An invocation: its arguments, the group after a bare name (if the regex has one), and
   *  one past its end. */
  datatype Invocation = Invocation(start: nat, args: seq<string>, trailer: Option<string>, end: nat)

  /** `n` times `{(.*?)}` from `pos`, backtracking: an argument is first closed at its first `}`,
   *  and extended to the next `}` of the line when the remaining arguments do not match. */
  function MatchArgs(s: string, pos: nat, n: nat): (r: Option<(seq<string>, nat)>)
    requires pos <= |s|
    ensures r.Some? ==> |r.value.0| == n && pos <= r.value.1 <= |s|
    ensures n == 0 ==> r == Some(([], pos))
    decreases n, 1
  {
    if n == 0 then Some(([], pos))
    else if pos < |s| && s[pos] == '{' then ArgCloseFrom(s, pos + 1, pos + 1, n)
    else None
  }

  /** The current argument starts at `start`; try closing it at the first `}` at or after `j`. */
  function ArgCloseFrom(s: string, start: nat, j: nat, n: nat): (r: Option<(seq<string>, nat)>)
    requires start <= j <= |s| && n >= 1
    ensures r.Some? ==> |r.value.0| == n && j < r.value.1 <= |s|
    decreases n, 0, |s| - j
  {
    if j == |s| || s[j] == '\n' then None
    else if s[j] == '}' then
      match MatchArgs(s, j + 1, n - 1)
      case Some((rest, e)) => Some(([s[start..j]] + rest, e))
      case None => ArgCloseFrom(s, start, j + 1, n)
    else ArgCloseFrom(s, start, j + 1, n)
  }

  /** No argument holds a newline. */
  predicate OnOneLine(args: seq<string>) {
    forall i, k :: 0 <= i < |args| && 0 <= k < |args[i]| ==> args[i][k] != '\n'
  }

  lemma OnOneLineCons(a: string, rest: seq<string>)
    requires (forall k :: 0 <= k < |a| ==> a[k] != '\n') && OnOneLine(rest)
    ensures OnOneLine([a] + rest)
  {
    var args := [a] + rest;
    forall i, k | 0 <= i < |args| && 0 <= k < |args[i]|
      ensures args[i][k] != '\n'
    {
      if i > 0 {
        assert args[i] == rest[i - 1];
      }
    }
  }

  /** `.` does not match a newline: the arguments of an invocation lie on one line. */
  lemma {:induction false} ArgsOnOneLine(s: string, pos: nat, n: nat)
    requires pos <= |s|
    ensures MatchArgs(s, pos, n).Some? ==> OnOneLine(MatchArgs(s, pos, n).value.0)
    decreases n, 1
  {
    if n > 0 && pos < |s| && s[pos] == '{' {
      ArgCloseOnOneLine(s, pos + 1, pos + 1, n);
    }
  }

  lemma {:induction false} ArgCloseOnOneLine(s: string, start: nat, j: nat, n: nat)
    requires start <= j <= |s| && n >= 1
    requires forall k :: start <= k < j ==> s[k] != '\n'
    ensures ArgCloseFrom(s, start, j, n).Some? ==> OnOneLine(ArgCloseFrom(s, start, j, n).value.0)
    decreases n, 0, |s| - j
  {
    if j < |s| && s[j] != '\n' {
      if s[j] == '}' && MatchArgs(s, j + 1, n - 1).Some? {
        ArgsOnOneLine(s, j + 1, n - 1);
        var a := s[start..j];
        assert forall k :: 0 <= k < |a| ==> a[k] == s[start + k];
        OnOneLineCons(a, MatchArgs(s, j + 1, n - 1).value.0);
      } else {
        ArgCloseOnOneLine(s, start, j + 1, n);
      }
    }
  }

  /** The invocation regex of `name` matched at exactly position `a`. */
  function InvocationAt(s: string, a: nat, name: string, m: Matcher): (r: Option<Invocation>)
    requires |name| > 0
    ensures r.Some? ==> r.value.start == a && OccursAt(s, name, a) && a < r.value.end <= |s|
    ensures r.Some? ==> (r.value.trailer.Some? <==> m == Bare)
    ensures r.Some? && m.Args? ==> |r.value.args| == m.n
    ensures r.Some? && m == Bare ==> r.value.args == [] && |r.value.trailer.value| <= 1
    ensures r.Some? && m == Bare && r.value.trailer.value != [] ==> !IsWordChar(r.value.trailer.value[0])
  {
    if !OccursAt(s, name, a) then None
    else
      var k := a + |name|;
      match m
      case Bare =>
        if k < |s| && !IsWordChar(s[k]) then Some(Invocation(a, [], Some([s[k]]), k + 1))
        else if k == |s| then Some(Invocation(a, [], Some([]), k))
        else None
      case Args(n) =>
        match MatchArgs(s, k, n)
        case Some((args, e)) => Some(Invocation(a, args, None, e))
        case None => None
  }

  /** The first invocation starting at or after `pos`. */
  function NextInvocation(s: string, pos: nat, name: string, m: Matcher): (r: Option<Invocation>)
    requires |name| > 0
    ensures r.Some? ==> pos <= r.value.start && InvocationAt(s, r.value.start, name, m) == r
    ensures r.Some? ==> forall a :: pos <= a < r.value.start ==> InvocationAt(s, a, name, m).None?
    ensures r.None? ==> forall a :: pos <= a ==> InvocationAt(s, a, name, m).None?
    decreases |s| + 1 - pos
  {
    if pos > |s| then
      assert forall a :: pos <= a ==> !OccursAt(s, name, a);
      None
    else match InvocationAt(s, pos, name, m)
      case Some(inv) => Some(inv)
      case None => NextInvocation(s, pos + 1, name, m)
  }

  /** Arguments written as `{a1}…{an}` with no `}` or newline inside are read as written. */
  lemma SimpleArgsRead(args: seq<string>, post: string)
    requires forall i :: 0 <= i < |args| ==> forall k :: 0 <= k < |args[i]| ==> args[i][k] != '}' && args[i][k] != '\n'
    ensures MatchArgs(Braced(args) + post, 0, |args|) == Some((args, |Braced(args)|))
  {
    var s := Braced(args) + post;
    assert s[0..|Braced(args)|] == Braced(args);
    ArgsReadAt(s, 0, args);
  }

  /** The same, for arguments written out at position `pos` of a line. */
  lemma {:induction false} ArgsReadAt(s: string, pos: nat, args: seq<string>)
    requires pos + |Braced(args)| <= |s| && s[pos..pos + |Braced(args)|] == Braced(args)
    requires forall i :: 0 <= i < |args| ==> forall k :: 0 <= k < |args[i]| ==> args[i][k] != '}' && args[i][k] != '\n'
    ensures var r := MatchArgs(s, pos, |args|);
      r.Some? && r.value.0 == args && r.value.1 == pos + |Braced(args)|
    decreases |args|
  {
    if |args| > 0 {
      var a, b := args[0], Braced(args[1..]);
      assert Braced(args) == "{" + a + "}" + b;
      var c := pos + 1 + |a|;
      BracedParts(s, pos, a, b);
      ArgsReadAt(s, c + 1, args[1..]);
      ArgCloseAt(s, pos + 1, pos + 1, c, |args|);
      assert [a] + args[1..] == args;
    }
  }

  /** Reading `{a}` then `b` at `pos`, where `a` holds no `}` and no newline. */
  lemma BracedParts(s: string, pos: nat, a: string, b: string)
    requires pos + |a| + 2 + |b| <= |s| && s[pos..pos + |a| + 2 + |b|] == "{" + a + "}" + b
    requires forall k :: 0 <= k < |a| ==> a[k] != '}' && a[k] != '\n'
    ensures s[pos] == '{' && s[pos + 1 + |a|] == '}'
    ensures forall k :: pos + 1 <= k < pos + 1 + |a| ==> s[k] != '}' && s[k] != '\n'
    ensures s[pos + 1..pos + 1 + |a|] == a && s[pos + 2 + |a|..pos + 2 + |a| + |b|] == b
  {
    var x := s[pos..pos + |a| + 2 + |b|];
    assert s[pos] == x[0];
    assert s[pos + 1 + |a|] == x[1 + |a|];
    forall k | pos + 1 <= k < pos + 1 + |a|
      ensures s[k] == a[k - pos - 1]
    {
      assert s[k] == x[k - pos];
    }
    forall k | 0 <= k < |b|
      ensures s[pos + 2 + |a| + k] == b[k]
    {
      assert s[pos + 2 + |a| + k] == x[2 + |a| + k];
    }
  }

  /** `{a1}…{an}` written out. */
  function Braced(args: seq<string>): (s: string)
    ensures |s| >= 2 * |args|
  {
    if args == [] then [] else "{" + args[0] + "}" + Braced(args[1..])
  }

  /** Closing the current argument at its first `}`, when the rest matches from there. */
  lemma {:induction false} ArgCloseAt(s: string, start: nat, j: nat, c: nat, n: nat)
    requires start <= j <= c < |s| && s[c] == '}' && n >= 1
    requires forall k :: start <= k < c ==> s[k] != '}' && s[k] != '\n'
    requires MatchArgs(s, c + 1, n - 1).Some?
    ensures var r, t := ArgCloseFrom(s, start, j, n), MatchArgs(s, c + 1, n - 1).value;
      r.Some? && r.value.0 == [s[start..c]] + t.0 && r.value.1 == t.1
    decreases c - j
  {
    if j < c {
      ArgCloseAt(s, start, j + 1, c, n);
    }
  }
}
