/**
 * The comment stripper of both versions of the tool. A line is rewritten on its own, knowing only
 * the line emitted before it; a document is rewritten line by line until the first emitted line
 * holding `\end{document}`.
 */
module Comments {
  import opened Failures
  import opened Text

  /** The two versions differ only in which lines count as whole-line comments. */
  datatype Dialect =
    | ColumnZero  // main.py: the `%` must be the first character
    | Indented    // main2.py: whitespace may precede the `%`

  /** The line that stands in for one or more removed comment lines. */
  const Placeholder: string := "%\n"

  const EndDocument: string := "\\end{document}"

  /** Python's `_END_DOCUMENT_MARKER in l`. */
  predicate HasEndMarker(l: string) {
    Contains(l, EndDocument)
  }

  /** `l.startswith('%')` in main.py, `l.lstrip().startswith('%')` in main2.py. */
  predicate IsCommentLine(l: string, d: Dialect) {
    var n := if d == ColumnZero then 0 else SkipSpaces(l, 0);
    n < |l| && l[n] == '%'
  }

  /** `l.rstrip().endswith('%')`: a `%` ending the line suppresses a line break, it is layout. */
  predicate IsLayoutLine(l: string) {
    var n := TrimSpaces(l, |l|);
    n > 0 && l[n - 1] == '%'
  }

  /** The two classifiers are Python's string tests, spelled with `lstrip` and `rstrip`. */
  lemma ClassifiersAreStringTests(l: string)
    ensures IsCommentLine(l, ColumnZero) <==> StartsWith(l, "%")
    ensures IsCommentLine(l, Indented) <==> StartsWith(LStrip(l), "%")
    ensures IsLayoutLine(l) <==> EndsWith(RStrip(l), "%")
  {
    var r := RStrip(l);
    if r != [] {
      assert r[|r| - 1..] == [r[|r| - 1]];
    }
  }

  /** Index `i` (never 0) holds a `%` that is not escaped as `\%`. */
  predicate IsCommentStart(l: string, i: int) {
    1 <= i < |l| && l[i] == '%' && l[i - 1] != '\\'
  }

  function FirstCommentFrom(l: string, i: nat): (r: Option<nat>)
    requires i >= 1
    ensures r.Some? ==> i <= r.value && IsCommentStart(l, r.value)
    ensures forall j :: i <= j && (r.None? || j < r.value) ==> !IsCommentStart(l, j)
    decreases |l| - i
  {
    if i >= |l| then None
    else if IsCommentStart(l, i) then Some(i)
    else FirstCommentFrom(l, i + 1)
  }

  /** The leftmost comment start of the line, if any. */
  function FirstComment(l: string): (r: Option<nat>)
    ensures r.Some? ==> IsCommentStart(l, r.value)
    ensures forall j :: (r.None? || j < r.value) ==> !IsCommentStart(l, j)
  {
    FirstCommentFrom(l, 1)
  }

  /**
   * `_get_leftmost_comment`: scans the indices from the end down to 1 and keeps the last
   * comment start seen, which is the leftmost one.
   */
  method GetLeftmostComment(l: string) returns (leftmost: Option<nat>)
    ensures leftmost.Some? ==> IsCommentStart(l, leftmost.value)
    ensures forall j :: (leftmost.None? || j < leftmost.value) ==> !IsCommentStart(l, j)
  {
    leftmost := None;
    var i := |l|;
    while i > 1
      invariant 0 <= i <= |l|
      invariant i >= 1 ==> leftmost == FirstCommentFrom(l, i)
      invariant i == 0 ==> l == [] && leftmost.None?
    {
      i := i - 1;
      if l[i] == '%' && l[i - 1] != '\\' {
        leftmost := Some(i);
      }
    }
  }

  /**
   * `strip_comments_from_line(l, l_prev)`: `None` means the line is dropped.
   *  - a whole-line comment becomes the placeholder, or is dropped right after a placeholder or
   *    an empty line;
   *  - a layout line is kept as it is;
   *  - otherwise the line is cut before its leftmost comment start, trailing whitespace removed
   *    and a newline put back; a line without comment start is kept.
   */
  function StripLine(l: string, prev: Option<string>, d: Dialect): (r: Option<string>)
    ensures r.None? <==> IsCommentLine(l, d) && (prev == Some(Placeholder) || prev == Some("\n"))
  {
    if IsCommentLine(l, d) then
      if prev == Some(Placeholder) || prev == Some("\n") then None else Some(Placeholder)
    else if IsLayoutLine(l) then Some(l)
    else match FirstComment(l)
      case None => Some(l)
      case Some(i) => Some(RStrip(l[..i]) + "\n")
  }

  /** `strip_comments_from_line(l)`: with no previous line, a line is never dropped. */
  function Strip(l: string, d: Dialect): (r: string)
    ensures StripLine(l, None, d) == Some(r)
  {
    StripLine(l, None, d).value
  }

  /** The rewriting of the remaining lines `ls`, `prev` being the last line written so far. */
  function StripFrom(ls: seq<string>, prev: Option<string>, d: Dialect): (r: seq<string>)
    ensures |r| <= |ls| + 1
    decreases |ls|
  {
    if ls == [] then []
    else match StripLine(ls[0], prev, d)
      case None => StripFrom(ls[1..], prev, d)
      case Some(l) =>
        if l == [] then StripFrom(ls[1..], prev, d)
        else if HasEndMarker(l) then [l, "\n"]
        else [l] + StripFrom(ls[1..], Some(l), d)
  }

  /** What `strip_comments` writes for a file whose lines are `ls`. */
  function StripDoc(ls: seq<string>, d: Dialect): (r: seq<string>)
    ensures |r| <= |ls| + 1
  {
    StripFrom(ls, None, d)
  }

  /** `strip_comments`: the loop carrying `l_prev`, stopping after the end-of-document line. */
  method StripComments(lines: seq<string>, d: Dialect) returns (written: seq<string>)
    ensures written == StripDoc(lines, d)
  {
    written := [];
    var prev: Option<string> := None;
    var rest := lines;
    while rest != []
      invariant written + StripFrom(rest, prev, d) == StripDoc(lines, d)
    {
      var l := StripLine(rest[0], prev, d);
      StripFromStep(rest, prev, d);
      if l.None? || l.value == [] {
        rest := rest[1..];
        continue;
      }
      if HasEndMarker(l.value) {
        written := written + [l.value, "\n"];
        return;
      }
      AppendAssoc(written, [l.value], StripFrom(rest[1..], l, d));
      written := written + [l.value];
      prev := l;
      rest := rest[1..];
    }
  }

  lemma AppendAssoc<T>(a: seq<T>, b: seq<T>, c: seq<T>)
    ensures (a + b) + c == a + (b + c)
  {
  }

  /** One step of `StripFrom`, with the rewritten line named. */
  lemma StripFromStep(ls: seq<string>, prev: Option<string>, d: Dialect)
    requires ls != []
    ensures var l := StripLine(ls[0], prev, d);
      && (l.None? || l.value == [] ==> StripFrom(ls, prev, d) == StripFrom(ls[1..], prev, d))
      && (l.Some? && l.value != [] && HasEndMarker(l.value) ==> StripFrom(ls, prev, d) == [l.value, "\n"])
      && (l.Some? && l.value != [] && !HasEndMarker(l.value) ==>
            StripFrom(ls, prev, d) == [l.value] + StripFrom(ls[1..], l, d))
  {
  }

  // ---------------------------------------------------------------------------------------
  // Properties of one line

  /** The stripped line never keeps a live comment: it is the placeholder, a layout line, or has
   *  no comment start left; and it only ever removes text from the end of the line. */
  lemma StripLineRemovesComments(l: string, prev: Option<string>, d: Dialect)
    requires StripLine(l, prev, d).Some?
    ensures var r := StripLine(l, prev, d).value;
      || r == Placeholder
      || (r == l && (IsLayoutLine(l) || FirstComment(l).None?))
      || (FirstComment(l).Some? && r == RStrip(l[..FirstComment(l).value]) + "\n"
          && FirstComment(r).None? && StartsWith(l, RStrip(r[..|r| - 1])))
  {
    var r := StripLine(l, prev, d).value;
    if !IsCommentLine(l, d) && !IsLayoutLine(l) && FirstComment(l).Some? {
      var i := FirstComment(l).value;
      var u := RStrip(l[..i]);
      assert r[..|r| - 1] == u;
      assert l[..|u|] == u;
      NoCommentStartInCut(l, i);
    }
  }

  /** Cutting before the leftmost comment start leaves no comment start. */
  lemma NoCommentStartInCut(l: string, i: nat)
    requires FirstComment(l) == Some(i)
    ensures FirstComment(RStrip(l[..i]) + "\n").None?
  {
    var u := RStrip(l[..i]);
    var r := u + "\n";
    forall j | 0 <= j < |r|
      ensures !IsCommentStart(r, j)
    {
      if 1 <= j < |u| {
        assert r[j] == u[j] == l[..i][j] == l[j];
        assert r[j - 1] == u[j - 1] == l[..i][j - 1] == l[j - 1];
        assert !IsCommentStart(l, j);
      }
    }
  }

  /** The cut rule: the line is cut exactly at its leftmost unescaped `%`. */
  lemma StripLineCutsAtLeftmost(l: string, prev: Option<string>, d: Dialect, i: nat)
    requires !IsCommentLine(l, d) && !IsLayoutLine(l)
    requires IsCommentStart(l, i)
    requires forall j :: 1 <= j < i ==> !IsCommentStart(l, j)
    ensures StripLine(l, prev, d) == Some(RStrip(l[..i]) + "\n")
  {
    var f := FirstComment(l);
    assert f.Some?;
    assert f.value == i;
  }

  /** A line is dropped exactly when it is a whole-line comment following a placeholder or an
   *  empty line; otherwise it is replaced by something. */
  lemma StripLineDropsOnlyRepeats(l: string, prev: Option<string>, d: Dialect)
    ensures StripLine(l, prev, d).None? <==>
      IsCommentLine(l, d) && (prev == Some(Placeholder) || prev == Some("\n"))
    ensures StripLine(l, prev, d) == Some(Placeholder) ==>
      prev != Some(Placeholder) && prev != Some("\n")
  {
    if StripLine(l, prev, d) == Some(Placeholder) {
      PlaceholderOnlyFromComment(l, prev, d);
    }
  }

  /** A line starting with `%` is a whole-line comment in both dialects. */
  lemma PercentFirstIsComment(l: string, d: Dialect)
    requires l != [] && l[0] == '%'
    ensures IsCommentLine(l, d)
  {
    assert SkipSpaces(l, 0) == 0;
  }

  /** Only a whole-line comment is ever turned into the placeholder. */
  lemma PlaceholderOnlyFromComment(l: string, prev: Option<string>, d: Dialect)
    requires StripLine(l, prev, d) == Some(Placeholder)
    ensures IsCommentLine(l, d)
  {
    if !IsCommentLine(l, d) {
      if !IsLayoutLine(l) && FirstComment(l).Some? {
        var i := FirstComment(l).value;
        var u := RStrip(l[..i]);
        assert u + "\n" == Placeholder;
        assert |u| == 1 && u[0] == (u + "\n")[0];
        assert l[0] == l[..i][0] == u[0] == '%';
        PercentFirstIsComment(l, d);
      } else {
        assert l == Placeholder;
        PercentFirstIsComment(l, d);
      }
      assert false;
    }
  }

  /** Skipping blanks never runs past a non-blank character of the first part. */
  lemma {:induction false} SkipSpacesConcat(s: string, t: string, i: nat)
    requires i <= |s| && exists k :: i <= k < |s| && !IsSpace(s[k])
    ensures SkipSpaces(s + t, i) == SkipSpaces(s, i)
    decreases |s| - i
  {
    assert (s + t)[i] == s[i];
    if IsSpace(s[i]) {
      var k :| i <= k < |s| && !IsSpace(s[k]);
      assert k != i;
      SkipSpacesConcat(s, t, i + 1);
    }
  }

  /** `lstrip` of a text with a non-blank character in its first part leaves the rest alone. */
  lemma LStripConcat(s: string, t: string)
    requires exists k :: 0 <= k < |s| && !IsSpace(s[k])
    ensures LStrip(s + t) == LStrip(s) + t
  {
    SkipSpacesConcat(s, t, 0);
    var j := SkipSpaces(s, 0);
    assert (s + t)[j..] == s[j..] + t;
  }

  /** A line cut before its first comment start is no whole-line comment. */
  lemma CutIsNoCommentLine(l: string, i: nat, d: Dialect)
    requires !IsCommentLine(l, d) && FirstComment(l) == Some(i)
    ensures !IsCommentLine(RStrip(l[..i]) + "\n", d)
  {
    var u := RStrip(l[..i]);
    var r := u + "\n";
    if u == [] {
      assert r == "\n";
      assert LStrip(r) == LStrip(r[1..]) && r[1..] == [];
    } else {
      assert r[0] == u[0] == l[..i][0] == l[0];
      if l[0] == '%' {
        PercentFirstIsComment(l, d);
      }
      match d
      case ColumnZero =>
      case Indented =>
        assert !IsSpace(u[|u| - 1]);
        LStripConcat(u, "\n");
        assert u == l[..|u|];
        assert u + l[|u|..] == l;
        LStripConcat(u, l[|u|..]);
        assert LStrip(r)[0] == LStrip(u)[0] == LStrip(l)[0];
    }
  }

  /** What a rewritten line becomes when rewritten again: itself, except that a placeholder is
   *  dropped after a placeholder or an empty line. */
  lemma StripLineStable(l: string, p: Option<string>, q: Option<string>, d: Dialect)
    requires StripLine(l, p, d).Some?
    ensures var r := StripLine(l, p, d).value;
      StripLine(r, q, d) ==
        if r == Placeholder && (q == Some(Placeholder) || q == Some("\n")) then None else Some(r)
  {
    var r := StripLine(l, p, d).value;
    if IsCommentLine(l, d) {
      PercentFirstIsComment(r, d);
    } else if !IsLayoutLine(l) && FirstComment(l).Some? {
      var i := FirstComment(l).value;
      CutIsNoCommentLine(l, i, d);
      NoCommentStartInCut(l, i);
      if r == Placeholder {
        PlaceholderOnlyFromComment(l, p, d);
      }
    }
  }

  /** The two dialects agree on every line that does not start with whitespace. */
  lemma DialectsAgreeWithoutIndent(l: string, prev: Option<string>)
    requires l == [] || !IsSpace(l[0])
    ensures StripLine(l, prev, ColumnZero) == StripLine(l, prev, Indented)
  {
    assert SkipSpaces(l, 0) == 0;
    assert IsCommentLine(l, ColumnZero) == IsCommentLine(l, Indented);
  }

  /** An indented comment line is a comment only for main2.py: main.py cuts it to an empty line. */
  lemma IndentedCommentDiffers()
    ensures StripLine(" %x\n", None, Indented) == Some(Placeholder)
    ensures StripLine(" %x\n", None, ColumnZero) == Some("\n")
  {
    var l := " %x\n";
    assert SkipSpaces(l, 0) == 1;
    assert LStrip(l) == "%x\n";
    assert IsCommentLine(l, Indented);
    assert !IsCommentLine(l, ColumnZero);
    assert TrimSpaces(l, 4) == 3;
    assert RStrip(l) == " %x";
    assert !IsLayoutLine(l);
    assert IsCommentStart(l, 1);
    assert FirstComment(l) == Some(1);
    assert l[..1] == " " && TrimSpaces(" ", 1) == 0 && RStrip(" ") == [];
    assert StripLine(l, None, ColumnZero) == Some(RStrip(l[..1]) + "\n");
    assert RStrip(l[..1]) + "\n" == "\n";
  }

  // ---------------------------------------------------------------------------------------
  // Properties of a document

  /** A placeholder is never written right after a placeholder or an empty line. */
  predicate NoRepeatedPlaceholder(out: seq<string>) {
    forall k :: 1 <= k < |out| && out[k] == Placeholder ==>
      out[k - 1] != Placeholder && out[k - 1] != "\n"
  }

  lemma {:induction false} StripFromNoRepeatedPlaceholder(ls: seq<string>, prev: Option<string>, d: Dialect)
    ensures var out := StripFrom(ls, prev, d);
      && NoRepeatedPlaceholder(out)
      && (|out| > 0 && out[0] == Placeholder ==> prev != Some(Placeholder) && prev != Some("\n"))
    decreases |ls|
  {
    if ls != [] {
      var s := StripLine(ls[0], prev, d);
      StripLineDropsOnlyRepeats(ls[0], prev, d);
      if s.None? || s.value == [] {
        StripFromNoRepeatedPlaceholder(ls[1..], prev, d);
      } else if !HasEndMarker(s.value) {
        StripFromNoRepeatedPlaceholder(ls[1..], s, d);
        var rest := StripFrom(ls[1..], s, d);
        var out := [s.value] + rest;
        forall k | 1 <= k < |out| && out[k] == Placeholder
          ensures out[k - 1] != Placeholder && out[k - 1] != "\n"
        {
          if k >= 2 {
            assert out[k] == rest[k - 1] && out[k - 1] == rest[k - 2];
          }
        }
      }
    }
  }

  /** `strip_comments` never writes a placeholder after a placeholder or an empty line. */
  lemma StripDocNoRepeatedPlaceholder(ls: seq<string>, d: Dialect)
    ensures NoRepeatedPlaceholder(StripDoc(ls, d))
  {
    StripFromNoRepeatedPlaceholder(ls, None, d);
  }

  /** The only written line holding the end-of-document marker is the one before last, and the
   *  last written line is the extra empty line. */
  predicate MarkerClosesOutput(out: seq<string>) {
    forall k :: 0 <= k < |out| && HasEndMarker(out[k]) ==> k == |out| - 2 && out[k + 1] == "\n"
  }

  lemma {:induction false} StripFromEndsAtMarker(ls: seq<string>, prev: Option<string>, d: Dialect)
    ensures MarkerClosesOutput(StripFrom(ls, prev, d))
    decreases |ls|
  {
    if ls != [] {
      var s := StripLine(ls[0], prev, d);
      if s.None? || s.value == [] {
        StripFromEndsAtMarker(ls[1..], prev, d);
      } else if HasEndMarker(s.value) {
        assert !HasEndMarker("\n");
      } else {
        StripFromEndsAtMarker(ls[1..], s, d);
        var rest := StripFrom(ls[1..], s, d);
        var out := [s.value] + rest;
        assert StripFrom(ls, prev, d) == out;
        forall k | 0 <= k < |out| && HasEndMarker(out[k])
          ensures k == |out| - 2 && out[k + 1] == "\n"
        {
          assert k >= 1 && out[k] == rest[k - 1];
          assert out[k + 1] == rest[k];
        }
      }
    }
  }

  lemma StripDocEndsAtMarker(ls: seq<string>, d: Dialect)
    ensures MarkerClosesOutput(StripDoc(ls, d))
  {
    StripFromEndsAtMarker(ls, None, d);
  }

  /** Once the marker line is written, no later input line can change the output. */
  lemma {:induction false} StripFromIgnoresTail(ls: seq<string>, more: seq<string>, prev: Option<string>, d: Dialect)
    requires exists k :: 0 <= k < |StripFrom(ls, prev, d)| && HasEndMarker(StripFrom(ls, prev, d)[k])
    ensures StripFrom(ls + more, prev, d) == StripFrom(ls, prev, d)
    decreases |ls|
  {
    var out := StripFrom(ls, prev, d);
    var k :| 0 <= k < |out| && HasEndMarker(out[k]);
    assert ls != [];
    assert (ls + more)[0] == ls[0] && (ls + more)[1..] == ls[1..] + more;
    var s := StripLine(ls[0], prev, d);
    if s.None? || s.value == [] {
      StripFromIgnoresTail(ls[1..], more, prev, d);
    } else if !HasEndMarker(s.value) {
      assert k >= 1 && out[k] == StripFrom(ls[1..], s, d)[k - 1];
      StripFromIgnoresTail(ls[1..], more, s, d);
    }
  }

  lemma StripDocIgnoresTail(ls: seq<string>, more: seq<string>, d: Dialect)
    requires exists k :: 0 <= k < |StripDoc(ls, d)| && HasEndMarker(StripDoc(ls, d)[k])
    ensures StripDoc(ls + more, d) == StripDoc(ls, d)
  {
    StripFromIgnoresTail(ls, more, None, d);
  }

  lemma {:induction false} StripFromIdempotent(ls: seq<string>, prev: Option<string>, d: Dialect)
    ensures StripFrom(StripFrom(ls, prev, d), prev, d) == StripFrom(ls, prev, d)
    decreases |ls|
  {
    if ls != [] {
      var s := StripLine(ls[0], prev, d);
      if s.None? || s.value == [] {
        StripFromIdempotent(ls[1..], prev, d);
      } else {
        var l := s.value;
        StripLineStable(ls[0], prev, prev, d);
        StripLineDropsOnlyRepeats(ls[0], prev, d);
        assert StripLine(l, prev, d) == Some(l);
        var out := StripFrom(ls, prev, d);
        if HasEndMarker(l) {
          assert out == [l, "\n"];
          assert out[1..] == ["\n"];
          assert StripFrom(out, prev, d) == [l, "\n"];
        } else {
          StripFromIdempotent(ls[1..], s, d);
          var rest := StripFrom(ls[1..], s, d);
          assert out == [l] + rest;
          assert out[0] == l && out[1..] == rest;
          assert StripFrom(out, prev, d) == [l] + StripFrom(rest, s, d);
        }
      }
    }
  }

  /** Stripping the written lines again writes them unchanged. */
  lemma StripDocIdempotent(ls: seq<string>, d: Dialect)
    ensures StripDoc(StripDoc(ls, d), d) == StripDoc(ls, d)
  {
    StripFromIdempotent(ls, None, d);
  }

  // ---------------------------------------------------------------------------------------
  // The examples of `test_strip`, which both versions share

  /** A `%` after a prefix without comment start, and not escaped, is the leftmost comment. */
  lemma FirstCommentAfter(pre: string, post: string)
    requires |pre| >= 1 && pre[|pre| - 1] != '\\' && FirstComment(pre).None?
    ensures FirstComment(pre + "%" + post) == Some(|pre|)
  {
    var l := pre + "%" + post;
    forall j | 1 <= j < |pre| ensures !IsCommentStart(l, j) {
      assert !IsCommentStart(pre, j);
      assert l[j] == pre[j] && l[j - 1] == pre[j - 1];
    }
    assert IsCommentStart(l, |pre|);
  }

  /** A text without `%` has no comment start. */
  lemma PlainNoComment(s: string)
    requires '%' !in s
    ensures FirstComment(s).None?
  {
    forall j | 1 <= j < |s| ensures !IsCommentStart(s, j) {
      assert s[j] in s;
    }
  }

  /** An escaped `\%` followed by text without `%` adds no comment start. */
  lemma EscapedNoComment(a: string, c: string)
    requires FirstComment(a).None? && '%' !in c && |a| >= 1 && a[|a| - 1] == '\\'
    ensures FirstComment(a + "%" + c).None?
  {
    var s := a + "%" + c;
    forall j | 1 <= j < |s| ensures !IsCommentStart(s, j) {
      if j < |a| {
        assert !IsCommentStart(a, j);
        assert s[j] == a[j] && s[j - 1] == a[j - 1];
      } else if j > |a| {
        assert s[j] == c[j - |a| - 1] && c[j - |a| - 1] in c;
      }
    }
  }

  /** A line `kept % post`, where `kept` has no comment start and the line does not end in
   *  `%`, keeps `kept` and a newline, in both dialects. */
  lemma CutExample(kept: string, post: string, d: Dialect)
    requires |kept| >= 1 && !IsSpace(kept[0]) && kept[0] != '%' && !IsSpace(kept[|kept| - 1])
    requires FirstComment(kept).None?
    requires |post| >= 2 && post[|post| - 1] == '\n' && post[|post| - 2] != '%' && !IsSpace(post[|post| - 2])
    ensures Strip(kept + " " + "%" + post, d) == kept + "\n"
  {
    var pre := kept + " ";
    forall j | 1 <= j < |pre| ensures !IsCommentStart(pre, j) {
      if j < |kept| {
        assert !IsCommentStart(kept, j);
        assert pre[j] == kept[j] && pre[j - 1] == kept[j - 1];
      }
    }
    var l := pre + "%" + post;
    FirstCommentAfter(pre, post);
    assert l[0] == kept[0];
    assert SkipSpaces(l, 0) == 0;
    assert l[|l| - 1] == post[|post| - 1] && l[|l| - 2] == post[|post| - 2];
    assert TrimSpaces(l, |l|) == |l| - 1;
    assert l[..|pre|] == pre;
    assert TrimSpaces(pre, |pre|) == |kept|;
    assert pre[..|kept|] == kept;
  }

  /** The first four cases: a plain line, a comment line, a layout line, a one-letter cut. */
  lemma StripTestShortCases(d: Dialect)
    ensures Strip("asdf\n", d) == "asdf\n"
    ensures Strip("%asdf\n", d) == "%\n"
    ensures Strip("layout{%  \n", d) == "layout{%  \n"
    ensures Strip("a%cc\n", d) == "a\n"
  {
    var layout := "layout{%  \n";
    assert SkipSpaces(layout, 0) == 0;
    assert !IsSpace(layout[7]);
    assert TrimSpaces(layout, 8) == 8;
    assert TrimSpaces(layout, 11) == 8;
    var cut := "a%cc\n";
    assert SkipSpaces(cut, 0) == 0;
    assert TrimSpaces(cut, 4) == 4;
    assert TrimSpaces(cut, 5) == 4;
    assert FirstCommentFrom(cut, 1) == Some(1);
    assert cut[..1] == "a";
    assert TrimSpaces("a", 1) == 1;
  }

  /** An inline comment: the line is cut before the first `%`. */
  lemma StripTestInline(d: Dialect)
    ensures Strip("inline comment" + " " + "%" + " starts here % oh another\n", d) == "inline comment" + "\n"
  {
    PlainNoComment("inline comment");
    CutExample("inline comment", " starts here % oh another\n", d);
  }

  /** An escaped `\%` is kept, and the line is cut at the first unescaped `%`. */
  lemma StripTestEscaped(d: Dialect)
    ensures Strip("percent \\" + "%" + " but then comment" + " " + "%" + " starts here % oh another\n", d)
      == "percent \\" + "%" + " but then comment" + "\n"
  {
    PlainNoComment("percent \\");
    EscapedNoComment("percent \\", " but then comment");
    CutExample("percent \\" + "%" + " but then comment", " starts here % oh another\n", d);
  }

  /** Two escaped `\%` are both kept. */
  lemma StripTestTwoEscaped(d: Dialect)
    ensures Strip("percent \\" + "%" + " \\" + "%" + " but then comment" + " " + "%" + " starts here % oh another\n", d)
      == "percent \\" + "%" + " \\" + "%" + " but then comment" + "\n"
  {
    PlainNoComment("percent \\");
    EscapedNoComment("percent \\", " \\");
    EscapedNoComment("percent \\" + "%" + " \\", " but then comment");
    CutExample("percent \\" + "%" + " \\" + "%" + " but then comment", " starts here % oh another\n", d);
  }
}
