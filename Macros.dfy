/**
 * The user-defined commands of a document: the table that `\newcommand` and `\renewcommand`
 * fill in, the substitution of arguments into a definition body, and the recursive expansion
 * of every defined command in a text (main2.py's `_resolve_definitions`).
 */
module Macros {
  import opened Failures
  import opened Text
  import opened Patterns

  /** A definition: the text between its defining brackets and its number of arguments. */
  datatype Definition = Definition(body: string, numArgs: nat)

  /**
   * The copier's two dictionaries, keyed by command name (with its backslash): the regex
   * compiled for each name and its definition. `order` is the dictionaries' insertion order,
   * which is the order in which expansion applies the regexes.
   */
  datatype Table = Table(order: seq<string>, matchers: map<string, Matcher>, definitions: map<string, Definition>)

  /** `order` lists the names in `keys`, each exactly once. */
  predicate Lists(order: seq<string>, keys: set<string>)
    decreases |order|
  {
    if order == [] then keys == {}
    else order[0] in keys && Lists(order[1..], keys - {order[0]})
  }

  /** A regex and a definition that belong together. */
  predicate Agrees(m: Matcher, numArgs: nat) {
    match m
    case Bare => numArgs == 0
    case Args(n) => n == numArgs
  }

  /** The two dictionaries have the same keys, listed once each in `order`, and every regex
   *  was compiled for its definition. */
  predicate Valid(t: Table) {
    && Lists(t.order, t.matchers.Keys)
    && t.matchers.Keys == t.definitions.Keys
    && (forall n {:trigger t.definitions[n]} :: n in t.matchers ==> |n| > 0 && Agrees(t.matchers[n], t.definitions[n].numArgs))
  }

  /** The tables of a fresh copier. */
  const Empty: Table := Table([], map[], map[])

  /** The number of arguments: the `[n]` group, or 0 without it. */
  function Arity(numArgs: Option<nat>): nat {
    match numArgs
    case None => 0
    case Some(n) => n
  }

  /** The regex main2.py compiles: without `[n]` a bare name, otherwise `n` argument groups;
   *  an explicit `[0]` compiles to `(\\name)` alone, which has no second group. */
  function MatcherAsWritten(numArgs: Option<nat>): (m: Matcher)
    ensures m == Bare <==> numArgs.None?
    ensures Agrees(m, Arity(numArgs))
  {
    match numArgs
    case None => Bare
    case Some(n) => Args(n)
  }

  /** The regex for a command of `Arity(numArgs)` arguments: `[0]` is read like no `[n]`. */
  function MatcherFor(numArgs: Option<nat>): (m: Matcher)
    ensures m == Bare <==> Arity(numArgs) == 0
    ensures Agrees(m, Arity(numArgs))
  {
    if Arity(numArgs) == 0 then Bare else Args(Arity(numArgs))
  }

  /** `xs` without `x`, the others in their order. */
  function Without(xs: seq<string>, x: string): (r: seq<string>)
    ensures |r| <= |xs|
  {
    if xs == [] then [] else (if xs[0] == x then [] else [xs[0]]) + Without(xs[1..], x)
  }

  /** A listed name is one of the keys, and every key is listed. */
  lemma {:induction false} ListsMember(order: seq<string>, keys: set<string>, n: string)
    requires Lists(order, keys)
    ensures n in order <==> n in keys
    decreases |order|
  {
    if order != [] {
      ListsMember(order[1..], keys - {order[0]}, n);
      assert n in order <==> n == order[0] || n in order[1..];
    }
  }

  /** Removing a name that is not listed changes nothing. */
  lemma {:induction false} WithoutAbsent(xs: seq<string>, x: string)
    requires x !in xs
    ensures Without(xs, x) == xs
  {
    if xs != [] {
      WithoutAbsent(xs[1..], x);
      assert xs == [xs[0]] + xs[1..];
    }
  }

  /** Removing a listed name from the list removes it from the keys. */
  lemma {:induction false} ListsWithout(order: seq<string>, keys: set<string>, x: string)
    requires Lists(order, keys)
    ensures Lists(Without(order, x), keys - {x})
    decreases |order|
  {
    if order != [] {
      var rest := Without(order[1..], x);
      ListsWithout(order[1..], keys - {order[0]}, x);
      if order[0] == x {
        ListsMember(order[1..], keys - {order[0]}, x);
        assert x !in order[1..];
        WithoutAbsent(order[1..], x);
        assert keys - {order[0]} == keys - {x};
        assert Without(order, x) == rest;
      } else {
        assert Without(order, x) == [order[0]] + rest;
        assert (keys - {x}) - {order[0]} == (keys - {order[0]}) - {x};
      }
    }
  }

  /** Appending a name that is not yet a key lists it too. */
  lemma {:induction false} ListsAppend(order: seq<string>, keys: set<string>, x: string)
    requires Lists(order, keys) && x !in keys
    ensures Lists(order + [x], keys + {x})
    decreases |order|
  {
    if order == [] {
      assert [] + [x] == [x];
      assert [x][1..] == [];
    } else {
      ListsAppend(order[1..], keys - {order[0]}, x);
      assert (order + [x])[1..] == order[1..] + [x];
      assert (keys + {x}) - {order[0]} == (keys - {order[0]}) + {x};
    }
  }

  /**
   * The table after `\newcommand` (or `\renewcommand` when `isRenew`) of `name` with regex `m`
   * and definition `d`: redefining without `\renewcommand` is refused, an empty name gives a
   * regex that does not compile, and otherwise the old entry, if any, is removed and the new
   * one goes last. Names are compared as text: no other name fails to compile here.
   */
  function RegisterWith(t: Table, isRenew: bool, name: string, m: Matcher, d: Definition): (r: Result<Table>)
    ensures r.Err? <==> (name in t.matchers && !isRenew) || name == []
    ensures r.Err? ==> r.error == (if name in t.matchers && !isRenew then Redefinition(name) else InvalidPattern(name))
    ensures r.Ok? ==> name in r.value.matchers && r.value.matchers[name] == m
    ensures r.Ok? ==> name in r.value.definitions && r.value.definitions[name] == d
    ensures r.Ok? ==> |r.value.order| > 0 && r.value.order[|r.value.order| - 1] == name
  {
    if name in t.matchers && !isRenew then Err(Redefinition(name))
    else if name == [] then Err(InvalidPattern(name))
    else Ok(Table(Without(t.order, name) + [name], t.matchers[name := m], t.definitions[name := d]))
  }

  /** Registering a name leaves every other command as it was. */
  lemma RegisterKeepsOthers(t: Table, isRenew: bool, name: string, m: Matcher, d: Definition)
    requires RegisterWith(t, isRenew, name, m, d).Ok?
    ensures var r := RegisterWith(t, isRenew, name, m, d).value;
      forall n :: n != name ==>
        && (n in r.matchers <==> n in t.matchers) && (n in r.definitions <==> n in t.definitions)
        && (n in t.matchers ==> r.matchers[n] == t.matchers[n])
        && (n in t.definitions ==> r.definitions[n] == t.definitions[n])
  {
  }

  /** `_extract_definition`'s update of the dictionaries. */
  function Register(t: Table, isRenew: bool, name: string, numArgs: Option<nat>, body: string): (r: Result<Table>)
    ensures r.Err? <==> (name in t.matchers && !isRenew) || name == []
    ensures r.Ok? ==> name in r.value.definitions && name in r.value.matchers
    ensures r.Ok? ==> r.value.definitions[name] == Definition(body, if numArgs.None? then 0 else numArgs.value)
    ensures r.Ok? ==> (r.value.matchers[name] == Bare <==> r.value.definitions[name].numArgs == 0)
  {
    RegisterWith(t, isRenew, name, MatcherFor(numArgs), Definition(body, Arity(numArgs)))
  }

  /** The same update with the regex main2.py actually compiles. */
  function RegisterAsWritten(t: Table, isRenew: bool, name: string, numArgs: Option<nat>, body: string): (r: Result<Table>)
    ensures r.Err? <==> (name in t.matchers && !isRenew) || name == []
    ensures r.Ok? ==> name in r.value.definitions && name in r.value.matchers
    ensures r.Ok? ==> r.value.definitions[name] == Definition(body, if numArgs.None? then 0 else numArgs.value)
    ensures r.Ok? ==> (r.value.matchers[name] == Bare <==> numArgs.None?)
  {
    RegisterWith(t, isRenew, name, MatcherAsWritten(numArgs), Definition(body, Arity(numArgs)))
  }

  /** Registering keeps the dictionaries consistent. */
  lemma RegisterKeepsValid(t: Table, isRenew: bool, name: string, m: Matcher, d: Definition)
    requires Valid(t) && Agrees(m, d.numArgs)
    requires RegisterWith(t, isRenew, name, m, d).Ok?
    ensures Valid(RegisterWith(t, isRenew, name, m, d).value)
  {
    var r := RegisterWith(t, isRenew, name, m, d).value;
    ListsWithout(t.order, t.matchers.Keys, name);
    ListsAppend(Without(t.order, name), t.matchers.Keys - {name}, name);
    assert r.matchers.Keys == (t.matchers.Keys - {name}) + {name};
  }

  /** No command of the table was compiled from an explicit `[0]`. */
  predicate NoZeroArity(t: Table) {
    forall n :: n in t.matchers ==> t.matchers[n] != Args(0)
  }

  /** The corrected registration never compiles the group-less regex. */
  lemma RegisterKeepsNoZeroArity(t: Table, isRenew: bool, name: string, numArgs: Option<nat>, body: string)
    requires NoZeroArity(t) && Register(t, isRenew, name, numArgs, body).Ok?
    ensures NoZeroArity(Register(t, isRenew, name, numArgs, body).value)
  {
    RegisterKeepsOthers(t, isRenew, name, MatcherFor(numArgs), Definition(body, Arity(numArgs)));
  }

  /** The corrected registration keeps a table usable for expansion. */
  lemma RegisterKeepsReady(t: Table, isRenew: bool, name: string, numArgs: Option<nat>, body: string)
    requires Valid(t) && NoZeroArity(t) && Register(t, isRenew, name, numArgs, body).Ok?
    ensures Valid(Register(t, isRenew, name, numArgs, body).value)
    ensures NoZeroArity(Register(t, isRenew, name, numArgs, body).value)
  {
    RegisterKeepsValid(t, isRenew, name, MatcherFor(numArgs), Definition(body, Arity(numArgs)));
    RegisterKeepsNoZeroArity(t, isRenew, name, numArgs, body);
  }

  // ---------------------------------------------------------------------------------------
  // `_replace_all`: substituting `#1`, `#2`, … in a definition body

  /**
   * The key `_replace_all` matches at `p` when there are `n` arguments: its regex is the
   * alternation `#1|#2|…|#n`, so the keys are tried in that order and the first that occurs
   * wins.
   */
  function FirstKey(s: string, p: nat, k: nat, n: nat): (r: Option<nat>)
    requires k >= 1
    ensures r.Some? ==> k <= r.value <= n && OccursAt(s, "#" + NatToString(r.value), p)
    decreases n + 1 - k
  {
    if k > n then None
    else if OccursAt(s, "#" + NatToString(k), p) then Some(k)
    else FirstKey(s, p, k + 1, n)
  }

  /** The reference rule: a `#` followed by a digit `d` with `1 <= d <= n` is the key `#d`;
   *  nothing else is a key. */
  function DigitKey(s: string, p: nat, n: nat): (r: Option<nat>)
    ensures r.Some? ==> 1 <= r.value <= 9 && r.value <= n
  {
    if p + 1 < |s| && s[p] == '#' && IsDigit(s[p + 1]) && 1 <= DigitValue(s[p + 1]) <= n
    then Some(DigitValue(s[p + 1])) else None
  }

  /** The alternation behaves as the digit rule: `#10` and above never match, because `#1`
   *  is tried first. */
  lemma KeyIsDigitKey(s: string, p: nat, n: nat)
    ensures FirstKey(s, p, 1, n) == DigitKey(s, p, n)
  {
    FirstKeyFrom(s, p, 1, n);
  }

  lemma {:induction false} FirstKeyFrom(s: string, p: nat, k: nat, n: nat)
    requires k >= 1
    requires p + 1 < |s| && s[p] == '#' && IsDigit(s[p + 1]) && 1 <= DigitValue(s[p + 1]) ==> k <= DigitValue(s[p + 1])
    ensures FirstKey(s, p, k, n) == DigitKey(s, p, n)
    decreases n + 1 - k
  {
    if k <= n {
      var key := "#" + NatToString(k);
      if k < 10 {
        assert key == ['#', Digit(k)];
        if OccursAt(s, key, p) {
          assert s[p..p + 2] == key;
          assert s[p] == '#' && s[p + 1] == Digit(k);
        } else {
          if p + 1 < |s| && s[p] == '#' && IsDigit(s[p + 1]) && DigitValue(s[p + 1]) == k {
            assert s[p + 1] == Digit(k);
            assert s[p..p + 2] == key;
          }
          FirstKeyFrom(s, p, k + 1, n);
        }
      } else {
        LeadingDigit(k);
        var lead := NatToString(k)[0];
        assert !OccursAt(s, key, p) by {
          assert key[1] == lead;
        }
        FirstKeyFrom(s, p, k + 1, n);
      }
    }
  }

  /** The key `_replace_all` matches at `p` for `n` arguments, if any. */
  function KeyAt(s: string, p: nat, n: nat): (r: Option<nat>)
    ensures r.Some? ==> 1 <= r.value <= n && OccursAt(s, "#" + NatToString(r.value), p)
  {
    FirstKey(s, p, 1, n)
  }

  /**
   * `_replace_all(body, {'#1': args[0], …})` from position `p`: one left-to-right pass in which
   * every key is replaced by its argument; the replacement text is not scanned again. It is
   * only called with at least one argument (an empty dictionary would compile the empty regex).
   */
  function Substitute(body: string, args: seq<string>, p: nat): (r: string)
    requires |args| > 0 && p <= |body|
    ensures (forall i :: p <= i < |body| ==> body[i] != '#') ==> r == body[p..]
    decreases |body| - p
  {
    if p == |body| then []
    else match KeyAt(body, p, |args|)
      case Some(k) => args[k - 1] + Substitute(body, args, p + 1 + |NatToString(k)|)
      case None =>
        assert body[p..] == [body[p]] + body[p + 1..];
        [body[p]] + Substitute(body, args, p + 1)
  }

  /** The reference substitution: the digit rule, a key always being two characters long. */
  function SubstituteDigits(body: string, args: seq<string>, p: nat): string
    requires |args| > 0 && p <= |body|
    decreases |body| - p
  {
    if p == |body| then []
    else match DigitKey(body, p, |args|)
      case Some(d) => args[d - 1] + SubstituteDigits(body, args, p + 2)
      case None => [body[p]] + SubstituteDigits(body, args, p + 1)
  }

  /** `_replace_all` substitutes by the digit rule. */
  lemma {:induction false} SubstituteIsDigitRule(body: string, args: seq<string>, p: nat)
    requires |args| > 0 && p <= |body|
    ensures Substitute(body, args, p) == SubstituteDigits(body, args, p)
    decreases |body| - p
  {
    if p < |body| {
      KeyIsDigitKey(body, p, |args|);
      match DigitKey(body, p, |args|)
      case Some(d) =>
        assert NatToString(d) == [Digit(d)];
        SubstituteIsDigitRule(body, args, p + 2);
      case None =>
        SubstituteIsDigitRule(body, args, p + 1);
    }
  }

  /** With ten arguments, `#10` is read as `#1` followed by `0`. */
  lemma TenthArgumentShadowed(args: seq<string>)
    requires |args| == 10
    ensures Substitute("#10", args, 0) == args[0] + "0"
  {
    SubstituteIsDigitRule("#10", args, 0);
    assert DigitKey("#10", 0, 10) == Some(1);
    assert DigitKey("#10", 2, 10).None?;
  }

  // ---------------------------------------------------------------------------------------
  // `_resolve_definitions`: expansion of every defined command

  /**
   * `_resolve_definitions(s)`: every regex of the table, in insertion order, replaces all of
   * its matches in the text left by the previous one. Each replacement is itself expanded
   * first, recursively; `fuel` bounds the depth of that recursion (Python's recursion limit).
   */
  function Resolve(t: Table, s: string, fuel: nat): (r: Result<string>)
    requires Valid(t)
    ensures t.order == [] ==> r == Ok(s)
    ensures r.Err? ==> r.error == RecursionLimit || r.error.NoSuchGroup?
    decreases fuel, 3
  {
    ApplyFrom(t, s, 0, fuel)
  }

  /** The regexes `order[k..]` applied in turn. */
  function ApplyFrom(t: Table, s: string, k: nat, fuel: nat): (r: Result<string>)
    requires Valid(t) && k <= |t.order|
    ensures r.Err? ==> r.error == RecursionLimit || r.error.NoSuchGroup?
    decreases fuel, 2, |t.order| - k
  {
    if k == |t.order| then Ok(s)
    else
      ListsMember(t.order, t.matchers.Keys, t.order[k]);
      match SubAll(t, t.order[k], s, 0, fuel)
      case Err(e) => Err(e)
      case Ok(s') => ApplyFrom(t, s', k + 1, fuel)
  }

  /** `regex.sub(repl, s[pos..])` for the regex of `name`: the matches left to right, each
   *  replaced by its expansion. */
  function SubAll(t: Table, name: string, s: string, pos: nat, fuel: nat): (r: Result<string>)
    requires Valid(t) && name in t.matchers && pos <= |s|
    ensures NextInvocation(s, pos, name, t.matchers[name]).None? ==> r == Ok(s[pos..])
    ensures r.Err? ==> r.error == RecursionLimit || r.error.NoSuchGroup?
    decreases fuel, 1, |s| - pos
  {
    match NextInvocation(s, pos, name, t.matchers[name])
    case None => Ok(s[pos..])
    case Some(inv) =>
      match ReplaceForMatch(t, name, inv, fuel)
      case Err(e) => Err(e)
      case Ok(rep) =>
        match SubAll(t, name, s, inv.end, fuel)
        case Err(e) => Err(e)
        case Ok(rest) => Ok(s[pos..inv.start] + rep + rest)
  }

  /** The invocation was found by the regex `m`: a trailer exactly for a bare command, and as
   *  many arguments as the regex has groups for them. */
  predicate FoundBy(inv: Invocation, m: Matcher) {
    && (inv.trailer.Some? <==> m == Bare)
    && (m.Args? ==> |inv.args| == m.n)
  }

  /** The text activated by one invocation: the body with its arguments substituted, or the
   *  body followed by the character after the name. An argument count that differs from the
   *  definition's is the `assert_exc` of `_replace_defs_for_match`. */
  function Activate(d: Definition, name: string, inv: Invocation): (r: Result<string>)
    ensures r.Err? <==> (d.numArgs == 0 && inv.trailer.None?) || (d.numArgs > 0 && |inv.args| != d.numArgs)
    ensures r.Err? && d.numArgs == 0 ==> r.error == NoSuchGroup(name)
    ensures r.Err? && d.numArgs > 0 ==> r.error == ArgumentCount(name, d.numArgs, |inv.args|)
    ensures d.numArgs == 0 && inv.trailer.Some? ==> r == Ok(d.body + inv.trailer.value)
  {
    if d.numArgs > 0 then
      if |inv.args| != d.numArgs then Err(ArgumentCount(name, d.numArgs, |inv.args|))
      else Ok(Substitute(d.body, inv.args, 0))
    else match inv.trailer
      case Some(tr) => Ok(d.body + tr)
      case None => Err(NoSuchGroup(name))
  }

  /** `_replace_defs_for_match`: the activated definition, itself resolved. The match comes
   *  from the name's own regex, so the argument count always agrees. */
  function ReplaceForMatch(t: Table, name: string, inv: Invocation, fuel: nat): (r: Result<string>)
    requires Valid(t) && name in t.matchers && FoundBy(inv, t.matchers[name])
    ensures fuel == 0 ==> r.Err?
    ensures r.Err? ==> r.error == RecursionLimit || r.error.NoSuchGroup?
    decreases fuel, 0
  {
    match Activate(t.definitions[name], name, inv)
    case Err(e) => Err(e)
    case Ok(activated) => if fuel == 0 then Err(RecursionLimit) else Resolve(t, activated, fuel - 1)
  }

  // ---------------------------------------------------------------------------------------
  // Properties of the expansion

  /** A text in which no defined name occurs comes back unchanged. */
  lemma ResolveWithoutNames(t: Table, s: string, fuel: nat)
    requires Valid(t)
    requires forall n :: n in t.matchers ==> !Contains(s, n)
    ensures Resolve(t, s, fuel) == Ok(s)
  {
    ApplyWithoutNames(t, s, 0, fuel);
  }

  lemma {:induction false} ApplyWithoutNames(t: Table, s: string, k: nat, fuel: nat)
    requires Valid(t) && k <= |t.order|
    requires forall n :: n in t.matchers ==> !Contains(s, n)
    ensures ApplyFrom(t, s, k, fuel) == Ok(s)
    decreases |t.order| - k
  {
    if k < |t.order| {
      var name := t.order[k];
      ListsMember(t.order, t.matchers.Keys, name);
      NoInvocationWithoutName(s, name, t.matchers[name]);
      assert s[0..] == s;
      ApplyWithoutNames(t, s, k + 1, fuel);
    }
  }

  /** A name that does not occur is never invoked. */
  lemma NoInvocationWithoutName(s: string, name: string, m: Matcher)
    requires |name| > 0 && !Contains(s, name)
    ensures NextInvocation(s, 0, name, m).None?
  {
  }

  /** With a single command in the table, expansion is the substitution of that command. */
  lemma ResolveOneName(t: Table, s: string, fuel: nat)
    requires Valid(t) && |t.order| == 1
    ensures Resolve(t, s, fuel) == SubAll(t, t.order[0], s, 0, fuel)
  {
    match SubAll(t, t.order[0], s, 0, fuel)
    case Err(e) =>
    case Ok(s') => assert ApplyFrom(t, s', 1, fuel) == Ok(s');
  }

  /** A text that is one invocation and nothing else is replaced by that invocation's text. */
  lemma SubAllWhole(t: Table, name: string, s: string, inv: Invocation, fuel: nat)
    requires Valid(t) && name in t.matchers
    requires NextInvocation(s, 0, name, t.matchers[name]) == Some(inv)
    requires inv.start == 0 && inv.end == |s|
    ensures SubAll(t, name, s, 0, fuel) == ReplaceForMatch(t, name, inv, fuel)
  {
    assert NextInvocation(s, |s|, name, t.matchers[name]).None? by {
      var r := NextInvocation(s, |s|, name, t.matchers[name]);
      assert r.Some? ==> OccursAt(s, name, r.value.start);
    }
    assert s[|s|..] == [];
    assert SubAll(t, name, s, |s|, fuel) == Ok([]);
    match ReplaceForMatch(t, name, inv, fuel)
    case Err(e) =>
    case Ok(rep) => assert s[0..0] + rep + [] == rep;
  }

  /** The table holding `\foo` defined as `bar` with an explicit `[0]`, as main2.py builds it. */
  lemma ZeroArityTableAsWritten()
    ensures var t := RegisterAsWritten(Empty, false, "\\foo", Some(0), "bar");
      && t.Ok? && Valid(t.value) && t.value.order == ["\\foo"]
      && t.value.matchers["\\foo"] == Args(0) && t.value.definitions["\\foo"] == Definition("bar", 0)
  {
    RegisterKeepsValid(Empty, false, "\\foo", Args(0), Definition("bar", 0));
  }

  /** Expanding a command with an explicit `[0]`, as main2.py compiles it, raises instead of
   *  producing the body. */
  lemma ZeroArityAsWrittenFails()
    ensures var t := RegisterAsWritten(Empty, false, "\\foo", Some(0), "bar");
      && t.Ok? && Valid(t.value)
      && Resolve(t.value, "\\foo", 1) == Err(NoSuchGroup("\\foo"))
  {
    ZeroArityTableAsWritten();
    var t := RegisterAsWritten(Empty, false, "\\foo", Some(0), "bar").value;
    var s := "\\foo";
    assert OccursAt(s, "\\foo", 0);
    var inv := Invocation(0, [], None, 4);
    assert MatchArgs(s, 4, 0) == Some(([], 4));
    assert InvocationAt(s, 0, "\\foo", Args(0)) == Some(inv);
    assert ReplaceForMatch(t, "\\foo", inv, 1) == Err(NoSuchGroup("\\foo"));
    SubAllWhole(t, "\\foo", s, inv, 1);
    ResolveOneName(t, s, 1);
  }

  /** The same table with `[0]` read as no arguments. */
  lemma ZeroArityTableCorrected()
    ensures var t := Register(Empty, false, "\\foo", Some(0), "bar");
      && t.Ok? && Valid(t.value) && t.value.order == ["\\foo"]
      && t.value.matchers["\\foo"] == Bare && t.value.definitions["\\foo"] == Definition("bar", 0)
  {
    RegisterKeepsValid(Empty, false, "\\foo", Bare, Definition("bar", 0));
  }

  /** With `[0]` read as no arguments, the same command expands to its body. */
  lemma ZeroArityCorrectedExpands()
    ensures var t := Register(Empty, false, "\\foo", Some(0), "bar");
      && t.Ok? && Valid(t.value)
      && Resolve(t.value, "\\foo", 1) == Ok("bar")
  {
    ZeroArityTableCorrected();
    var t := Register(Empty, false, "\\foo", Some(0), "bar").value;
    var s := "\\foo";
    assert OccursAt(s, "\\foo", 0);
    var inv := Invocation(0, [], Some([]), 4);
    assert InvocationAt(s, 0, "\\foo", Bare) == Some(inv);
    assert "bar" + [] == "bar";
    assert Activate(t.definitions["\\foo"], "\\foo", inv) == Ok("bar");
    assert !Contains("bar", "\\foo") by {
      assert FindFrom("bar", "\\foo", 0).None?;
    }
    ResolveWithoutNames(t, "bar", 0);
    assert ReplaceForMatch(t, "\\foo", inv, 1) == Ok("bar");
    SubAllWhole(t, "\\foo", s, inv, 1);
    ResolveOneName(t, s, 1);
  }

  /** With the corrected registration, expansion never fails for want of a group. */
  lemma {:induction false} ResolveHasGroups(t: Table, s: string, fuel: nat)
    requires Valid(t) && NoZeroArity(t)
    ensures !(Resolve(t, s, fuel).Err? && Resolve(t, s, fuel).error.NoSuchGroup?)
    decreases fuel, 3
  {
    ApplyHasGroups(t, s, 0, fuel);
  }

  lemma {:induction false} ApplyHasGroups(t: Table, s: string, k: nat, fuel: nat)
    requires Valid(t) && NoZeroArity(t) && k <= |t.order|
    ensures var r := ApplyFrom(t, s, k, fuel); !(r.Err? && r.error.NoSuchGroup?)
    decreases fuel, 2, |t.order| - k
  {
    if k < |t.order| {
      var name := t.order[k];
      ListsMember(t.order, t.matchers.Keys, name);
      SubAllHasGroups(t, name, s, 0, fuel);
      var r := SubAll(t, name, s, 0, fuel);
      if r.Ok? {
        ApplyHasGroups(t, r.value, k + 1, fuel);
      }
    }
  }

  lemma {:induction false} SubAllHasGroups(t: Table, name: string, s: string, pos: nat, fuel: nat)
    requires Valid(t) && NoZeroArity(t) && name in t.matchers && pos <= |s|
    ensures var r := SubAll(t, name, s, pos, fuel); !(r.Err? && r.error.NoSuchGroup?)
    decreases fuel, 1, |s| - pos
  {
    var next := NextInvocation(s, pos, name, t.matchers[name]);
    if next.Some? {
      var inv := next.value;
      ReplaceHasGroups(t, name, inv, fuel);
      if ReplaceForMatch(t, name, inv, fuel).Ok? {
        SubAllHasGroups(t, name, s, inv.end, fuel);
      }
    }
  }

  lemma {:induction false} ReplaceHasGroups(t: Table, name: string, inv: Invocation, fuel: nat)
    requires Valid(t) && NoZeroArity(t) && name in t.matchers && FoundBy(inv, t.matchers[name])
    ensures var r := ReplaceForMatch(t, name, inv, fuel); !(r.Err? && r.error.NoSuchGroup?)
    decreases fuel, 0
  {
    var a := Activate(t.definitions[name], name, inv);
    assert a.Ok?;
    if fuel > 0 {
      ResolveHasGroups(t, a.value, fuel - 1);
    }
  }

  /** The table holding `\a` defined as `\a`. */
  lemma SelfReferenceTable()
    ensures var t := Register(Empty, false, "\\a", None, "\\a");
      && t.Ok? && Valid(t.value) && t.value.order == ["\\a"]
      && t.value.matchers["\\a"] == Bare && t.value.definitions["\\a"] == Definition("\\a", 0)
  {
    RegisterKeepsValid(Empty, false, "\\a", Bare, Definition("\\a", 0));
  }

  /** A command whose body is its own invocation exhausts any recursion bound. */
  lemma {:induction false} SelfReferenceExhausts(fuel: nat)
    ensures var t := Register(Empty, false, "\\a", None, "\\a");
      t.Ok? && Valid(t.value) && Resolve(t.value, "\\a", fuel) == Err(RecursionLimit)
  {
    SelfReferenceTable();
    var t := Register(Empty, false, "\\a", None, "\\a").value;
    var s := "\\a";
    assert OccursAt(s, "\\a", 0);
    var inv := Invocation(0, [], Some([]), 2);
    assert InvocationAt(s, 0, "\\a", Bare) == Some(inv);
    assert s + [] == s;
    assert Activate(t.definitions["\\a"], "\\a", inv) == Ok(s);
    if fuel > 0 {
      SelfReferenceExhausts(fuel - 1);
    }
    assert ReplaceForMatch(t, "\\a", inv, fuel) == Err(RecursionLimit);
    SubAllWhole(t, "\\a", s, inv, fuel);
    ResolveOneName(t, s, fuel);
  }
}
