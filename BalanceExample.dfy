/**
 * The worked example of main2.py's bracket balancer from its own test suite, followed through the
 * model line by line and bracket by bracket.
 */
module BalanceExample {
  import opened Failures
  import opened Text
  import opened Comments
  import opened Brackets

  /** A line without `%` is kept by the stripper. */
  lemma PlainLineStrips(l: string)
    requires forall i :: 0 <= i < |l| ==> l[i] != '%'
    ensures Strip(l, Indented) == l
  {
  }

  /** The comment of the second line is cut, with the space before it. */
  lemma SecondLineStrips()
    ensures Strip("foo} % something in a bracket\n", Indented) == "foo}\n"
  {
    var l2 := "foo} % something in a bracket\n";
    assert SkipSpaces(l2, 0) == 0;
    assert |l2| == 30 && l2[29] == '\n' && l2[28] == 't';
    assert TrimSpaces(l2, 29) == 29;
    assert !IsLayoutLine(l2);
    assert IsCommentStart(l2, 5);
    assert forall j :: 0 <= j < 5 ==> l2[j] != '%';
    var h := l2[..5];
    assert h == "foo} ";
    assert TrimSpaces(h, 5) == 4;
  }

  /** The first line read bracket by bracket: depth 1, 2, 1 and 2 after its four brackets. */
  lemma FirstLineSegment0(l1: string)
    requires l1 == "{hithere \\textbf{hi} \\textbf{oh\n"
    ensures Depth("" + l1[..0]) == 0 ==>
      ZeroAt("", l1, 0) == ZeroAt("", l1, 16) && Depth("" + l1[..16]) == 1
  {
    assert l1[0] == '{';
    ZeroAtStep("", l1, 0);
    if Depth("" + l1[..0]) == 0 {
      ZeroAtPlain("", l1, 1, 16);
    }
  }

  lemma FirstLineSegment1(l1: string)
    requires l1 == "{hithere \\textbf{hi} \\textbf{oh\n"
    ensures Depth("" + l1[..16]) == 1 ==>
      ZeroAt("", l1, 16) == ZeroAt("", l1, 19) && Depth("" + l1[..19]) == 2
  {
    assert l1[16] == '{';
    ZeroAtStep("", l1, 16);
    if Depth("" + l1[..16]) == 1 {
      ZeroAtPlain("", l1, 17, 19);
    }
  }

  lemma FirstLineSegment2(l1: string)
    requires l1 == "{hithere \\textbf{hi} \\textbf{oh\n"
    ensures Depth("" + l1[..19]) == 2 ==>
      ZeroAt("", l1, 19) == ZeroAt("", l1, 28) && Depth("" + l1[..28]) == 1
  {
    assert l1[19] == '}';
    ZeroAtStep("", l1, 19);
    if Depth("" + l1[..19]) == 2 {
      ZeroAtPlain("", l1, 20, 28);
    }
  }

  lemma FirstLineSegment3(l1: string)
    requires l1 == "{hithere \\textbf{hi} \\textbf{oh\n"
    ensures Depth("" + l1[..28]) == 1 ==>
      ZeroAt("", l1, 28) == ZeroAt("", l1, 32) && Depth("" + l1[..32]) == 2
  {
    assert l1[28] == '{';
    ZeroAtStep("", l1, 28);
    if Depth("" + l1[..28]) == 1 {
      ZeroAtPlain("", l1, 29, 32);
    }
  }

  /** The first line leaves two brackets open. */
  lemma FirstLineStaysOpen(l1: string)
    requires l1 == "{hithere \\textbf{hi} \\textbf{oh\n"
    ensures ZeroAt("", l1, 0) == None && Depth(l1) == 2
  {
    assert "" + l1[..0] == [];
    FirstLineSegment0(l1);
    FirstLineSegment1(l1);
    FirstLineSegment2(l1);
    FirstLineSegment3(l1);
    assert "" + l1[..32] == l1;
  }

  /** The stripped second line closes one of them. */
  lemma SecondLineStaysOpen(consumed: string, line: string)
    requires Depth(consumed) == 2 && line == "foo}\n"
    ensures ZeroAt(consumed, line, 0) == None && Depth(consumed + line) == 1
  {
    assert consumed + line[..0] == consumed;
    ZeroAtPlain(consumed, line, 0, 3);
    ZeroAtStep(consumed, line, 3);
    ZeroAtPlain(consumed, line, 4, 5);
    assert consumed + line[..5] == consumed + line;
  }

  /** The third line closes the last one at its sixth character. */
  lemma ThirdLineCloses(consumed: string, line: string)
    requires Depth(consumed) == 1 && line == "final} some more text \n"
    ensures ZeroAt(consumed, line, 0) == Some(5)
  {
    assert consumed + line[..0] == consumed;
    ZeroAtPlain(consumed, line, 0, 5);
    ZeroAtStep(consumed, line, 5);
  }

  lemma ThirdLineText(line: string)
    requires line == "final} some more text \n"
    ensures Strip(line, Indented) == line
    ensures line[..5] == "final" && line[6..] == " some more text \n"
  {
    PlainLineStrips(line);
  }

  lemma FirstLineText(first: string)
    requires first == "{hithere \\textbf{hi} \\textbf{oh\n"
    ensures first != [] && first[0] == '{' && first[|first| - 1] == '\n'
    ensures (first + "foo}\n")[1..] == "hithere \\textbf{hi} \\textbf{oh\n" + "foo}\n"
  {
    assert (first + "foo}\n")[1..] == first[1..] + "foo}\n";
  }

  /** The balancer's steps over the three lines. */
  lemma FirstLineStep(ls: seq<string>)
    requires |ls| == 3 && ls[0] == "{hithere \\textbf{hi} \\textbf{oh\n"
    ensures CloseFrom(ls, 0, "") == CloseFrom(ls, 1, ls[0]) && Depth(ls[0]) == 2
  {
    PlainLineStrips(ls[0]);
    FirstLineStaysOpen(ls[0]);
    assert "" + ls[0] == ls[0];
  }

  lemma SecondLineStep(ls: seq<string>, consumed: string)
    requires |ls| == 3 && ls[1] == "foo} % something in a bracket\n" && Depth(consumed) == 2
    ensures CloseFrom(ls, 1, consumed) == CloseFrom(ls, 2, consumed + "foo}\n")
    ensures Depth(consumed + "foo}\n") == 1
  {
    SecondLineStrips();
    SecondLineStaysOpen(consumed, "foo}\n");
  }

  lemma LastLineStep(ls: seq<string>, consumed: string)
    requires |ls| == 3 && ls[2] == "final} some more text \n" && Depth(consumed) == 1 && consumed != []
    ensures CloseFrom(ls, 2, consumed) == Ok(Closed(consumed[1..] + "final", " some more text \n", 2))
  {
    assert (consumed + "final")[1..] == consumed[1..] + "final";
    ThirdLineText(ls[2]);
    ThirdLineCloses(consumed, ls[2]);
  }

  /**
   * `test_consumme` of main2.py: the body spans three lines, keeps the nested brackets, loses
   * the comment of the second line, and the rest of the third line is handed back.
   */
  lemma TestConsumme(first: string, following: seq<string>)
    requires first == "{hithere \\textbf{hi} \\textbf{oh\n"
    requires following == ["foo} % something in a bracket\n", "final} some more text \n"]
    ensures Balance(first, following)
      == Ok(Closed("hithere \\textbf{hi} \\textbf{oh\n" + "foo}\n" + "final", " some more text \n", 2))
  {
    var ls := [first] + following;
    FirstLineText(first);
    FirstLineStep(ls);
    SecondLineStep(ls, first);
    LastLineStep(ls, first + "foo}\n");
  }
}
