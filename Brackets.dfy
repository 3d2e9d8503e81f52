/**
 * The two bracket balancers that read a multi-line `\newcommand` body. Both strip comments from
 * every line they read and share the file's line iterator with their caller, so the lines they
 * read are never seen by the caller's own loop; the number of lines read is part of the result.
 */
module Brackets {
  import opened Failures
  import opened Text
  import opened Comments

  /** Curly brackets opened minus curly brackets closed. */
  function Depth(s: string): int {
    Count(s, '{') - Count(s, '}')
  }

  /** The depth after the first `k` characters of `s`. */
  function PrefixDepth(s: string, k: nat): int
    requires k <= |s|
  {
    CountPrefix(s, '{', k) - CountPrefix(s, '}', k)
  }

  /** Every non-empty prefix of `s` leaves a bracket open. */
  predicate StaysOpen(s: string) {
    forall k :: 1 <= k <= |s| ==> PrefixDepth(s, k) > 0
  }

  /** The stripped text of the first `n` lines of `ls`, concatenated. */
  function Stream(ls: seq<string>, n: nat, d: Dialect): string
    requires n <= |ls|
  {
    if n == 0 then [] else Stream(ls, n - 1, d) + Strip(ls[n - 1], d)
  }

  lemma DepthSnoc(s: string, c: char)
    ensures Depth(s + [c]) == Depth(s) + (if c == '{' then 1 else if c == '}' then -1 else 0)
  {
    CountConcat(s, [c], '{');
    CountConcat(s, [c], '}');
  }

  lemma StaysOpenSnoc(s: string, c: char)
    requires StaysOpen(s) && Depth(s + [c]) > 0
    ensures StaysOpen(s + [c])
  {
    forall k | 1 <= k <= |s| + 1
      ensures PrefixDepth(s + [c], k) > 0
    {
      if k <= |s| {
        assert PrefixDepth(s, k) > 0;
        CountPrefixOfConcat(s, [c], '{', k);
        CountPrefixOfConcat(s, [c], '}', k);
      }
    }
  }

  /** A line starting with `{` still starts with `{` once its comments are stripped. */
  lemma StripKeepsOpeningBracket(l: string, d: Dialect)
    requires l != [] && l[0] == '{'
    ensures var s := Strip(l, d); s != [] && s[0] == '{'
  {
    assert SkipSpaces(l, 0) == 0;
    if !IsLayoutLine(l) && FirstComment(l).Some? {
      var i := FirstComment(l).value;
      assert l[..i][0] == '{';
      TrimSpacesKeeps(l[..i], i, 0);
    }
  }

  // ---------------------------------------------------------------------------------------
  // main2.py

  /** Lines the main2.py balancer may read, the first one included. */
  const MaxLines: nat := 101

  /**
   * A closed bracket: the text strictly between the opening bracket and its match, what
   * follows the match on its line, and the index of that line (0 for the first line, which is
   * also how many lines were taken from the caller's iterator).
   */
  datatype Closed = Closed(body: string, remaining: string, used: nat)

  /** Python's `s[1:]`, which is empty for an empty `s`. */
  function Tail(s: string): (r: string)
    ensures s != [] ==> r == s[1..]
  {
    if s == [] then [] else s[1..]
  }

  /** The first index `p` from `i` at which the text read, `consumed + line[..p + 1]`, has
   *  depth zero. */
  function ZeroAt(consumed: string, line: string, i: nat): (r: Option<nat>)
    requires i <= |line|
    ensures r.Some? ==> i <= r.value < |line|
    decreases |line| - i
  {
    if i == |line| then None
    else if Depth(consumed + line[..i + 1]) == 0 then Some(i)
    else ZeroAt(consumed, line, i + 1)
  }

  /** main2.py's balancer once `n` lines are read, `consumed` being their stripped text. */
  function CloseFrom(ls: seq<string>, n: nat, consumed: string): (r: Result<Closed>)
    requires n <= |ls|
    ensures r.Err? ==> r.error == UnclosedBracket || r.error == LookaheadExceeded
    decreases |ls| - n
  {
    if n == |ls| then Err(UnclosedBracket)
    else if n >= MaxLines then Err(LookaheadExceeded)
    else
      var line := Strip(ls[n], Indented);
      match ZeroAt(consumed, line, 0)
      case Some(p) => Ok(Closed(Tail(consumed + line[..p]), line[p + 1..], n))
      case None => CloseFrom(ls, n + 1, consumed + line)
  }

  /** What `_consume_until_closing_bracket` of main2.py returns or raises. */
  function Balance(firstLine: string, following: seq<string>): (r: Result<Closed>)
    ensures !(firstLine != [] && firstLine[0] == '{' && firstLine[|firstLine| - 1] == '\n') ==> r == Err(MalformedDefinitionLine)
    ensures r.Err? ==> r.error in {MalformedDefinitionLine, UnclosedBracket, LookaheadExceeded}
  {
    if !(firstLine != [] && firstLine[0] == '{' && firstLine[|firstLine| - 1] == '\n') then Err(MalformedDefinitionLine)
    else CloseFrom([firstLine] + following, 0, "")
  }

  /** A text whose every prefix leaves a bracket open starts with an opening bracket. */
  lemma StaysOpenStartsWithBracket(s: string)
    requires StaysOpen(s) && s != []
    ensures s[0] == '{' && s == "{" + s[1..]
  {
    assert PrefixDepth(s, 1) > 0;
  }

  /** Where the scan stops, the text read so far splits into the bracketed body and the rest. */
  lemma ClosingSplit(consumed: string, line: string, p: nat)
    requires p < |line| && line[p] == '}'
    requires consumed + line[..p] != [] && StaysOpen(consumed + line[..p])
    requires Depth(consumed + line[..p + 1]) == 0
    ensures var body := (consumed + line[..p])[1..];
      && consumed + line == "{" + body + "}" + line[p + 1..]
      && StaysOpen("{" + body) && Depth("{" + body + "}") == 0
  {
    var upTo := consumed + line[..p];
    StaysOpenStartsWithBracket(upTo);
    assert upTo + [line[p]] == consumed + line[..p + 1];
    assert line == line[..p] + [line[p]] + line[p + 1..];
  }

  /** Scanning `line` from `i` on, while the text read so far leaves a bracket open: either the
   *  whole line leaves it open, or the scan stops at the `}` that closes it. */
  lemma {:induction false} ZeroAtFacts(consumed: string, line: string, i: nat)
    requires i <= |line|
    requires StaysOpen(consumed + line[..i])
    requires consumed + line[..i] == [] ==> line != [] && line[0] == '{'
    ensures ZeroAt(consumed, line, i).None? ==> StaysOpen(consumed + line)
    ensures ZeroAt(consumed, line, i).Some? ==>
      var p := ZeroAt(consumed, line, i).value;
      && line[p] == '}'
      && consumed + line[..p] != [] && StaysOpen(consumed + line[..p])
      && Depth(consumed + line[..p + 1]) == 0
    decreases |line| - i
  {
    if i == |line| {
      assert line[..i] == line;
    } else {
      var c := line[i];
      var read := consumed + line[..i];
      assert line[..i + 1] == line[..i] + [c];
      assert consumed + line[..i + 1] == read + [c];
      assert read != [] ==> PrefixDepth(read, |read|) > 0;
      DepthSnoc(read, c);
      if Depth(read + [c]) != 0 {
        StaysOpenSnoc(read, c);
        ZeroAtFacts(consumed, line, i + 1);
      }
    }
  }

  /** Characters other than brackets leave the depth as it is, so the scan passes over them. */
  lemma {:induction false} ZeroAtPlain(consumed: string, line: string, i: nat, j: nat)
    requires i <= j <= |line|
    requires forall k :: i <= k < j ==> line[k] != '{' && line[k] != '}'
    requires Depth(consumed + line[..i]) != 0
    ensures Depth(consumed + line[..j]) == Depth(consumed + line[..i])
    ensures ZeroAt(consumed, line, i) == ZeroAt(consumed, line, j)
    decreases j - i
  {
    if i < j {
      ZeroAtStep(consumed, line, i);
      ZeroAtPlain(consumed, line, i + 1, j);
    }
  }

  /** One more character read moves the depth by the bracket it is, if any. */
  lemma ZeroAtStep(consumed: string, line: string, i: nat)
    requires i < |line|
    ensures Depth(consumed + line[..i + 1])
      == Depth(consumed + line[..i]) + (if line[i] == '{' then 1 else if line[i] == '}' then -1 else 0)
  {
    assert consumed + line[..i + 1] == (consumed + line[..i]) + [line[i]];
    DepthSnoc(consumed + line[..i], line[i]);
  }

  /** The balancer from line `n` on, `consumed` being the stripped text of the lines before. */
  lemma {:induction false} CloseFromShape(ls: seq<string>, n: nat, consumed: string)
    requires n <= |ls| && n <= MaxLines
    requires consumed == Stream(ls, n, Indented) && StaysOpen(consumed)
    requires n == 0 && |ls| > 0 ==> Strip(ls[0], Indented) != [] && Strip(ls[0], Indented)[0] == '{'
    requires n > 0 ==> consumed != []
    ensures var r := CloseFrom(ls, n, consumed);
      && (r.Err? ==> r.error in {LookaheadExceeded, UnclosedBracket})
      && (r.Ok? ==>
            var c := r.value;
            && c.used < |ls| && c.used < MaxLines
            && Stream(ls, c.used, Indented) + Strip(ls[c.used], Indented) == "{" + c.body + "}" + c.remaining
            && |c.remaining| < |Strip(ls[c.used], Indented)|
            && StaysOpen("{" + c.body) && Depth("{" + c.body + "}") == 0)
      && (r == Err(UnclosedBracket) ==> |ls| <= MaxLines && StaysOpen(Stream(ls, |ls|, Indented)))
      && (r == Err(LookaheadExceeded) ==> |ls| > MaxLines && StaysOpen(Stream(ls, MaxLines, Indented)))
    decreases |ls| - n
  {
    if n < |ls| && n < MaxLines {
      var line := Strip(ls[n], Indented);
      assert consumed + line[..0] == consumed;
      ZeroAtFacts(consumed, line, 0);
      match ZeroAt(consumed, line, 0)
      case Some(p) =>
        ClosingSplit(consumed, line, p);
      case None =>
        assert Stream(ls, n + 1, Indented) == consumed + line;
        CloseFromShape(ls, n + 1, consumed + line);
    }
  }

  /**
   * What main2.py's balancer promises: the text read, comments stripped, is the opening bracket,
   * a body in which every prefix leaves it open, its closing bracket and the rest of the last
   * line read; the errors are a malformed first line and running out of lines.
   */
  lemma BalanceShape(firstLine: string, following: seq<string>)
    ensures var r := Balance(firstLine, following);
      && (r.Err? ==> r.error in {MalformedDefinitionLine, LookaheadExceeded, UnclosedBracket})
      && (r == Err(MalformedDefinitionLine) <==>
            !(firstLine != [] && firstLine[0] == '{' && firstLine[|firstLine| - 1] == '\n'))
      && (r.Ok? ==>
            var ls := [firstLine] + following;
            var c := r.value;
            && c.used < |ls| && c.used < MaxLines
            && Stream(ls, c.used, Indented) + Strip(ls[c.used], Indented) == "{" + c.body + "}" + c.remaining
            && |c.remaining| < |Strip(ls[c.used], Indented)|
            && StaysOpen("{" + c.body) && Depth("{" + c.body + "}") == 0)
      && (r == Err(UnclosedBracket) ==>
            var ls := [firstLine] + following;
            |ls| <= MaxLines && StaysOpen(Stream(ls, |ls|, Indented)))
      && (r == Err(LookaheadExceeded) ==>
            var ls := [firstLine] + following;
            |ls| > MaxLines && StaysOpen(Stream(ls, MaxLines, Indented)))
  {
    if firstLine != [] && firstLine[0] == '{' && firstLine[|firstLine| - 1] == '\n' {
      StripKeepsOpeningBracket(firstLine, Indented);
      CloseFromShape([firstLine] + following, 0, "");
    }
  }
  /** The lines the balancer reads past the first are among those that follow it. */
  lemma BalanceUsed(firstLine: string, following: seq<string>)
    ensures Balance(firstLine, following).Ok? ==> Balance(firstLine, following).value.used <= |following|
  {
    BalanceShape(firstLine, following);
  }


  /**
   * The inner loop of main2.py's balancer: walks `line`, the depth being that of `consumed` plus
   * the characters walked, and stops at the character that brings the depth to zero.
   */
  method ScanForClose(consumed: string, line: string) returns (closeAt: Option<nat>)
    ensures closeAt == ZeroAt(consumed, line, 0)
  {
    var depth := Depth(consumed);
    var i := 0;
    assert consumed + line[..0] == consumed;
    while i < |line|
      invariant 0 <= i <= |line|
      invariant depth == Depth(consumed + line[..i])
      invariant ZeroAt(consumed, line, 0) == ZeroAt(consumed, line, i)
    {
      var c := line[i];
      assert line[..i + 1] == line[..i] + [c];
      assert consumed + line[..i + 1] == consumed + line[..i] + [c];
      DepthSnoc(consumed + line[..i], c);
      if c == '{' {
        depth := depth + 1;
      } else if c == '}' {
        depth := depth - 1;
      }
      if depth == 0 {
        return Some(i);
      }
      i := i + 1;
    }
    return None;
  }

  /**
   * `_consume_until_closing_bracket` of main2.py: reads the stripped lines character by
   * character until the bracket opened by the first character is closed.
   */
  method ConsumeUntilClosingBracket(firstLine: string, following: seq<string>) returns (r: Result<Closed>)
    ensures r == Balance(firstLine, following)
  {
    if !(firstLine != [] && firstLine[0] == '{' && firstLine[|firstLine| - 1] == '\n') {
      return Err(MalformedDefinitionLine);
    }
    var ls := [firstLine] + following;
    var consumed := "";
    var n := 0;
    while n < |ls|
      invariant 0 <= n <= |ls|
      invariant CloseFrom(ls, n, consumed) == CloseFrom(ls, 0, "")
    {
      if n > 100 {
        return Err(LookaheadExceeded);
      }
      var line := Strip(ls[n], Indented);
      var closeAt := ScanForClose(consumed, line);
      if closeAt.Some? {
        var p := closeAt.value;
        return Ok(Closed(Tail(consumed + line[..p]), line[p + 1..], n));
      }
      consumed := consumed + line;
      n := n + 1;
    }
    return Err(UnclosedBracket);
  }

  // ---------------------------------------------------------------------------------------
  // main.py

  /** main.py's default bound on the lines read after the first one. */
  const MaxLookahead: nat := 1000

  /** The first line and the first `j` following lines, stripped and concatenated. */
  function Joined(l: string, following: seq<string>, j: nat): string
    requires j <= |following|
  {
    Strip(l, ColumnZero) + Stream(following, j, ColumnZero)
  }

  /** One more line joined: its stripped text is appended, and its brackets counted. */
  lemma JoinedNext(l: string, following: seq<string>, j: nat)
    requires j < |following|
    ensures var next := Strip(following[j], ColumnZero);
      && Joined(l, following, j + 1) == Joined(l, following, j) + next
      && Depth(Joined(l, following, j + 1)) == Depth(Joined(l, following, j)) + Depth(next)
  {
    var next := Strip(following[j], ColumnZero);
    var text := Joined(l, following, j);
    assert Joined(l, following, j + 1) == text + next;
    CountConcat(text, next, '{');
    CountConcat(text, next, '}');
  }

  /**
   * `_consume_until_closing_bracket` of main.py: appends whole stripped lines until the numbers
   * of opening and closing brackets agree. Returns the text and how many lines it took from the
   * caller's iterator.
   */
  method ConsumeUntilBalanced(l: string, following: seq<string>, maxLookahead: nat) returns (r: Result<(string, nat)>)
    ensures r.Err? ==> r.error in {MoreClosingThanOpening, LookaheadExceeded, UnclosedBracket}
    ensures r == Err(MoreClosingThanOpening) <==> Depth(Strip(l, ColumnZero)) < 0
    ensures r.Ok? ==>
      var (text, used) := r.value;
      && used <= |following| && used <= maxLookahead
      && text == Joined(l, following, used) && Depth(text) == 0
      && forall j :: 0 <= j < used ==> Depth(Joined(l, following, j)) != 0
    ensures r == Err(LookaheadExceeded) ==>
      && maxLookahead <= |following|
      && forall j :: 0 <= j <= maxLookahead ==> Depth(Joined(l, following, j)) != 0
    ensures r == Err(UnclosedBracket) ==>
      && |following| < maxLookahead
      && forall j :: 0 <= j <= |following| ==> Depth(Joined(l, following, j)) != 0
  {
    var text := Strip(l, ColumnZero);
    var numOpen, numClose := Count(text, '{'), Count(text, '}');
    if numOpen == numClose {
      assert text == Joined(l, following, 0);
      return Ok((text, 0));
    }
    if numClose > numOpen {
      return Err(MoreClosingThanOpening);
    }
    var used := 0;
    while numClose != numOpen
      invariant used <= |following| && used <= maxLookahead
      invariant text == Joined(l, following, used)
      invariant numOpen - numClose == Depth(text)
      invariant forall j :: 0 <= j < used ==> Depth(Joined(l, following, j)) != 0
      decreases |following| - used
    {
      if used + 1 > maxLookahead {
        return Err(LookaheadExceeded);
      }
      if used == |following| {
        return Err(UnclosedBracket);
      }
      var next := Strip(following[used], ColumnZero);
      JoinedNext(l, following, used);
      used := used + 1;
      if next == [] {
        assert text + next == text;
        continue;
      }
      text := text + next;
      numOpen := numOpen + Count(next, '{');
      numClose := numClose + Count(next, '}');
    }
    return Ok((text, used));
  }
}
