/**
 * The handful of Python string and path operations the core relies on, stated on `seq<char>`:
 * `str.lstrip`/`rstrip` (with Python's whitespace set), `startswith`/`endswith`, `in`, `find`,
 * `count`, `int`/`str` on decimal digits, `os.path.splitext` and `os.path.join`.
 */
module Text {
  import opened Failures

  /** Python's `str.isspace()`: the characters that `strip`, `lstrip` and `rstrip` remove. */
  predicate IsSpace(c: char) {
    || c == ' ' || c == '\t' || c == '\n' || c == '\r' || c == '\U{0B}' || c == '\U{0C}'
    || ('\U{1C}' <= c <= '\U{1F}') || c == '\U{85}' || c == '\U{A0}' || c == '\U{1680}'
    || ('\U{2000}' <= c <= '\U{200A}') || c == '\U{2028}' || c == '\U{2029}'
    || c == '\U{202F}' || c == '\U{205F}' || c == '\U{3000}'
  }

  /** The index of the first character of `s` at or after `i` that is not whitespace, or `|s|`. */
  function SkipSpaces(s: string, i: nat): (j: nat)
    requires i <= |s|
    ensures i <= j <= |s|
    ensures j == |s| || !IsSpace(s[j])
    decreases |s| - i
  {
    if i < |s| && IsSpace(s[i]) then SkipSpaces(s, i + 1) else i
  }

  /** One past the last character of `s[..n]` that is not whitespace, or 0. */
  function TrimSpaces(s: string, n: nat): (j: nat)
    requires n <= |s|
    ensures j <= n
    ensures j == 0 || !IsSpace(s[j - 1])
  {
    if n > 0 && IsSpace(s[n - 1]) then TrimSpaces(s, n - 1) else n
  }

  /** Every character skipped is whitespace. */
  lemma {:induction false} SkipSpacesSkipsOnlySpaces(s: string, i: nat)
    requires i <= |s|
    ensures forall k :: i <= k < SkipSpaces(s, i) ==> IsSpace(s[k])
    decreases |s| - i
  {
    if i < |s| && IsSpace(s[i]) {
      SkipSpacesSkipsOnlySpaces(s, i + 1);
    }
  }

  /** Trimming stops at the last character before `n` that is not whitespace. */
  lemma {:induction false} TrimSpacesKeeps(s: string, n: nat, k: nat)
    requires k < n <= |s| && !IsSpace(s[k])
    ensures k < TrimSpaces(s, n)
    decreases n
  {
    if IsSpace(s[n - 1]) {
      TrimSpacesKeeps(s, n - 1, k);
    }
  }

  /** `s.lstrip()`: the longest suffix of `s` that does not start with whitespace. */
  function LStrip(s: string): (r: string)
    ensures |r| <= |s| && r == s[|s| - |r|..]
    ensures r == [] || !IsSpace(r[0])
  {
    s[SkipSpaces(s, 0)..]
  }

  /** `lstrip` removes whitespace and nothing else. */
  lemma LStripRemovesOnlySpaces(s: string)
    ensures forall k :: 0 <= k < |s| - |LStrip(s)| ==> IsSpace(s[k])
  {
    SkipSpacesSkipsOnlySpaces(s, 0);
  }

  /** `s.rstrip()`: the longest prefix of `s` that does not end with whitespace. */
  function RStrip(s: string): (r: string)
    ensures |r| <= |s| && r == s[..|r|]
    ensures r == [] || !IsSpace(r[|r| - 1])
  {
    s[..TrimSpaces(s, |s|)]
  }

  predicate StartsWith(s: string, prefix: string) {
    |prefix| <= |s| && s[..|prefix|] == prefix
  }

  predicate EndsWith(s: string, suffix: string) {
    |suffix| <= |s| && s[|s| - |suffix|..] == suffix
  }

  /** `t` occurs in `s` starting at index `k`. */
  predicate OccursAt(s: string, t: string, k: nat) {
    k + |t| <= |s| && s[k..k + |t|] == t
  }

  /** `s.find(t, from)`: the first occurrence of `t` in `s` at or after `from`. */
  function FindFrom(s: string, t: string, from: nat): (r: Option<nat>)
    ensures r.Some? ==> from <= r.value && OccursAt(s, t, r.value)
    ensures r.Some? ==> forall k :: from <= k < r.value ==> !OccursAt(s, t, k)
    ensures r.None? ==> forall k :: from <= k ==> !OccursAt(s, t, k)
    decreases |s| - from
  {
    if from + |t| > |s| then None
    else if s[from..from + |t|] == t then Some(from)
    else FindFrom(s, t, from + 1)
  }

  /** Python's `t in s`. */
  predicate Contains(s: string, t: string) {
    FindFrom(s, t, 0).Some?
  }

  /** How many of the first `n` characters of `s` are `c`. */
  function CountPrefix(s: string, c: char, n: nat): (k: nat)
    requires n <= |s|
    ensures k <= n
  {
    if n == 0 then 0 else CountPrefix(s, c, n - 1) + (if s[n - 1] == c then 1 else 0)
  }

  /** `s.count(c)` for one character. */
  function Count(s: string, c: char): (n: nat)
    ensures n <= |s|
  {
    CountPrefix(s, c, |s|)
  }

  /** Counting in a prefix only looks at that prefix. */
  lemma {:induction false} CountPrefixOfConcat(a: string, b: string, c: char, n: nat)
    requires n <= |a|
    ensures CountPrefix(a + b, c, n) == CountPrefix(a, c, n)
  {
    if n > 0 {
      CountPrefixOfConcat(a, b, c, n - 1);
    }
  }

  lemma {:induction false} CountConcatAt(a: string, b: string, c: char, n: nat)
    requires n <= |b|
    ensures CountPrefix(a + b, c, |a| + n) == Count(a, c) + CountPrefix(b, c, n)
  {
    if n == 0 {
      CountPrefixOfConcat(a, b, c, |a|);
    } else {
      CountConcatAt(a, b, c, n - 1);
    }
  }

  lemma CountConcat(a: string, b: string, c: char)
    ensures Count(a + b, c) == Count(a, c) + Count(b, c)
  {
    CountConcatAt(a, b, c, |b|);
  }

  /** Regex `\w` restricted to ASCII. */
  predicate IsWordChar(c: char) {
    ('a' <= c <= 'z') || ('A' <= c <= 'Z') || ('0' <= c <= '9') || c == '_'
  }

  /** Regex `\d` restricted to ASCII. */
  predicate IsDigit(c: char) {
    '0' <= c <= '9'
  }

  predicate AllDigits(s: string) {
    forall i :: 0 <= i < |s| ==> IsDigit(s[i])
  }

  function DigitValue(c: char): (d: nat)
    requires IsDigit(c)
    ensures d < 10
  {
    c as int - '0' as int
  }

  function Digit(d: nat): (c: char)
    requires d < 10
    ensures IsDigit(c) && DigitValue(c) == d
  {
    ('0' as int + d) as char
  }

  /** `int(ds)` for a non-empty string of decimal digits. */
  function ParseDecimal(ds: string): nat
    requires AllDigits(ds)
  {
    if ds == [] then 0 else ParseDecimal(ds[..|ds| - 1]) * 10 + DigitValue(ds[|ds| - 1])
  }

  /** `str(n)`: decimal digits without leading zeros. */
  function NatToString(n: nat): (s: string)
    ensures |s| >= 1 && AllDigits(s)
    ensures n < 10 <==> |s| == 1
  {
    if n < 10 then [Digit(n)] else NatToString(n / 10) + [Digit(n % 10)]
  }

  /** `int(str(n)) == n`. */
  lemma {:induction false} ParseNatToString(n: nat)
    ensures ParseDecimal(NatToString(n)) == n
  {
    if n >= 10 {
      ParseNatToString(n / 10);
      var s := NatToString(n);
      assert s[..|s| - 1] == NatToString(n / 10);
    }
  }

  /** The leading digit of `str(n)` is not `0` for `n >= 1`, and its value is at most `n`. */
  lemma {:induction false} LeadingDigit(n: nat)
    requires n >= 1
    ensures 1 <= DigitValue(NatToString(n)[0]) <= n
  {
    if n >= 10 {
      LeadingDigit(n / 10);
      assert NatToString(n)[0] == NatToString(n / 10)[0];
    }
  }

  /** The last index of `c` in `s`, or -1 (Python's `rfind`). */
  function LastIndex(s: string, c: char): (r: int)
    ensures -1 <= r < |s|
    ensures r >= 0 ==> s[r] == c
  {
    if s == [] then -1
    else if s[|s| - 1] == c then |s| - 1
    else LastIndex(s[..|s| - 1], c)
  }

  /** No `c` comes after `LastIndex(s, c)`. */
  lemma {:induction false} LastIndexIsLast(s: string, c: char)
    ensures forall j :: LastIndex(s, c) < j < |s| ==> s[j] != c
    decreases |s|
  {
    if s != [] && s[|s| - 1] != c {
      var s' := s[..|s| - 1];
      LastIndexIsLast(s', c);
      assert forall j :: 0 <= j < |s'| ==> s'[j] == s[j];
    }
  }

  /** An occurrence with none after it is the one `LastIndex` finds. */
  lemma {:induction false} LastIndexAt(s: string, c: char, i: nat)
    requires i < |s| && s[i] == c && forall j :: i < j < |s| ==> s[j] != c
    ensures LastIndex(s, c) == i
    decreases |s|
  {
    if i < |s| - 1 {
      var s' := s[..|s| - 1];
      LastIndexAt(s', c, i);
    }
  }

  /** Whether `s[lo..hi]` holds a character other than a dot. */
  function HasNonDot(s: string, lo: nat, hi: nat): (b: bool)
    requires lo <= hi <= |s|
    ensures b <==> exists k :: lo <= k < hi && s[k] != '.'
    decreases hi - lo
  {
    lo < hi && (s[lo] != '.' || HasNonDot(s, lo + 1, hi))
  }

  /**
   * `os.path.splitext(p)` on POSIX: the extension starts at the last dot of the last path
   * component, unless only dots precede that dot within the component (`.bashrc` has none).
   */
  function SplitExt(p: string): (r: (string, string))
    ensures r.0 + r.1 == p
    ensures r.1 == [] || r.1[0] == '.'
  {
    var sep := LastIndex(p, '/');
    var dot := LastIndex(p, '.');
    if dot > sep && HasNonDot(p, sep + 1, dot) then (p[..dot], p[dot..]) else (p, [])
  }

  /** An extension holds no further dot and no separator. */
  lemma SplitExtLast(p: string)
    ensures var e := SplitExt(p).1; forall k :: 1 <= k < |e| ==> e[k] != '.' && e[k] != '/'
  {
    LastIndexIsLast(p, '/');
    LastIndexIsLast(p, '.');
  }

  /** A dot at `d` starts the extension: no dot or separator follows it, and a character other
   *  than a dot precedes it within the same path component. */
  ghost predicate ExtStart(p: string, d: nat) {
    && d < |p| && p[d] == '.'
    && (forall k :: d < k < |p| ==> p[k] != '.' && p[k] != '/')
    && (exists k :: 0 <= k < d && p[k] != '.' && forall j :: k <= j < d ==> p[j] != '/')
  }

  /** A dot that starts the extension is where `splitext` splits. */
  lemma SplitExtFinds(p: string, d: nat)
    requires ExtStart(p, d)
    ensures SplitExt(p) == (p[..d], p[d..])
  {
    LastIndexAt(p, '.', d);
    var k: nat :| k < d && p[k] != '.' && forall j :: k <= j < d ==> p[j] != '/';
    var sep := LastIndex(p, '/');
    assert sep < k;
    assert HasNonDot(p, sep + 1, d) by {
      assert sep + 1 <= k < d && p[k] != '.';
    }
  }

  /** A non-empty extension starts at a dot of that kind. */
  lemma SplitExtFound(p: string)
    requires HasExt(p)
    ensures ExtStart(p, |SplitExt(p).0|)
  {
    var sep := LastIndex(p, '/');
    var dot := LastIndex(p, '.');
    LastIndexIsLast(p, '/');
    LastIndexIsLast(p, '.');
    assert dot > sep && HasNonDot(p, sep + 1, dot);
    var k: nat :| sep + 1 <= k < dot && p[k] != '.';
    assert forall j :: k <= j < dot ==> p[j] != '/';
  }

  /** `splitext` finds no extension exactly when no dot starts one. */
  lemma SplitExtEmpty(p: string)
    ensures SplitExt(p).1 == [] <==> forall d: nat :: !ExtStart(p, d)
  {
    if SplitExt(p).1 == [] {
      forall d: nat | ExtStart(p, d)
        ensures false
      {
        SplitExtFinds(p, d);
      }
    } else {
      SplitExtFound(p);
    }
  }

  /** `os.path.splitext(p)[1] != ''`. */
  predicate HasExt(p: string) {
    SplitExt(p).1 != []
  }

  /** `os.path.join(a, b)` on POSIX for two components. */
  function Join(a: string, b: string): (r: string)
    ensures EndsWith(r, b)
    ensures StartsWith(b, "/") ==> r == b
  {
    if StartsWith(b, "/") then b
    else if a == [] || EndsWith(a, "/") then a + b
    else a + "/" + b
  }

  /** A relative part is appended to the directory, with one separator between them. */
  lemma JoinRelative(a: string, b: string)
    requires !StartsWith(b, "/")
    ensures StartsWith(Join(a, b), a) && Join(a, b)[|a|..] == (if a == [] || EndsWith(a, "/") then b else "/" + b)
  {
  }
}
