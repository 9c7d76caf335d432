/** Hand-written matchers for the regular expressions the core uses. `MatchAt(s, p)` is a match
    of `p` starting at `s[0]` (its first group), and `Search` is `re.search`: the leftmost such
    match. The count pattern `\(\d+\)` gets its own scanner because the core removes it. */
module Patterns {
  import opened Wrappers
  import opened Strings

  datatype CharClass =
    | Digit         // \d
    | Word          // \w
    | NotQuote      // [^"']
    | NotSpecial    // [^"'()]
    | NotClose      // [^)]
    | NotCloseLine  // a `.` that stops at the first `)`

  predicate InClass(c: char, k: CharClass)
  {
    match k
    case Digit => IsDigit(c)
    case Word => IsWordChar(c)
    case NotQuote => !IsQuote(c)
    case NotSpecial => !IsQuote(c) && c != '(' && c != ')'
    case NotClose => c != ')'
    case NotCloseLine => c != ')' && c != '\n'
  }

  predicate IsQuote(c: char) { c == '"' || c == '\'' }

  /** Length of the longest prefix of `s` whose characters are all in class `k`. */
  function Run(s: string, k: CharClass): (n: nat)
    ensures n <= |s|
    ensures forall j :: 0 <= j < n ==> InClass(s[j], k)
    ensures n < |s| ==> !InClass(s[n], k)
    decreases |s|
  {
    if s != [] && InClass(s[0], k) then 1 + Run(s[1..], k) else 0
  }

  // ---- `\(\d+\)` -------------------------------------------------------------------------

  /** Length of a `(digits)` group at the start of `s`, 0 when there is none. */
  function CountGroupLen(s: string): (n: nat)
    ensures n <= |s|
    ensures n > 0 ==> n >= 3 && s[0] == '(' && s[n - 1] == ')'
  {
    if s != [] && s[0] == '(' then
      var k := Run(s[1..], Digit);
      if k > 0 && 1 + k < |s| && s[1 + k] == ')' then k + 2 else 0
    else 0
  }

  /** `re.search(r'\(\d+\)', s)` succeeds */
  predicate HasCount(s: string)
    decreases |s|
  {
    CountGroupLen(s) > 0 || (s != [] && HasCount(s[1..]))
  }

  /** `re.sub(r'\(\d+\)', '', s)` */
  function RemoveCounts(s: string): (r: string)
    ensures !HasCount(s) ==> r == s
    ensures |r| <= |s| && (HasCount(s) ==> |r| + 3 <= |s|)
    decreases |s|
  {
    if s == [] then []
    else if CountGroupLen(s) > 0 then RemoveCounts(s[CountGroupLen(s)..])
    else [s[0]] + RemoveCounts(s[1..])
  }

  // ---- the selector patterns ---------------------------------------------------------------

  datatype Pattern =
    | RoleMarker     // \[role=["']([^"']+)["']\]
    | QuotedHasText  // :has-text\(["']([^"']+)["']\)
    | AttrValue      // \[(?:data-testid|id|class|aria-label)=["']([^"']*)["']\]
    | LazyHasText    // :has-text\((.+?)\)
    | LooseHasText   // :has-text\(["']?([^"'()]+)
    | ParenHasText   // :has-text\(([^)]+)\)
    | PageFragment   // /#/(\w+)

  /** The character every match of `p` starts with. */
  function Lead(p: Pattern): char
  {
    match p
    case RoleMarker => '['
    case AttrValue => '['
    case PageFragment => '/'
    case _ => ':'
  }

  /** `open` + quote + a run of non-quotes + quote + `close`, the run non-empty unless
      `allowEmpty`; the run is the group. */
  function QuotedAt(s: string, open: string, close: char, allowEmpty: bool): (m: Option<string>)
    ensures m.Some? ==> StartsWith(s, open) && |open| < |s|
  {
    if StartsWith(s, open) && |open| < |s| && IsQuote(s[|open|]) then
      var rest := s[|open| + 1..];
      var k := Run(rest, NotQuote);
      if (k > 0 || allowEmpty) && k + 1 < |rest| && rest[k + 1] == close then Some(rest[..k]) else None
    else None
  }

  const HasTextOpen := ":has-text("

  function MatchAt(s: string, p: Pattern): (m: Option<string>)
    ensures m.Some? ==> s != [] && s[0] == Lead(p)
  {
    match p
    case RoleMarker => QuotedAt(s, "[role=", ']', false)
    case QuotedHasText => QuotedAt(s, HasTextOpen, ')', false)
    case AttrValue =>
      var a := QuotedAt(s, "[data-testid=", ']', true);
      if a.Some? then a
      else
        var b := QuotedAt(s, "[id=", ']', true);
        if b.Some? then b
        else
          var c := QuotedAt(s, "[class=", ']', true);
          if c.Some? then c else QuotedAt(s, "[aria-label=", ']', true)
    case LazyHasText | LooseHasText | ParenHasText =>
      if StartsWith(s, HasTextOpen) then
        assert s[0] == s[..|HasTextOpen|][0];
        HasTextAt(s[|HasTextOpen|..], p)
      else None
    case PageFragment =>
      if StartsWith(s, "/#/") then
        assert s[0] == s[..3][0];
        var k := Run(s[3..], Word);
        if k > 0 then Some(s[3..3 + k]) else None
      else None
  }

  /** The group of the three unquoted `:has-text(` patterns, read from what follows the opening. */
  function HasTextAt(rest: string, p: Pattern): Option<string>
    requires p.LazyHasText? || p.LooseHasText? || p.ParenHasText?
  {
    match p
    case LazyHasText =>
      if rest != [] && rest[0] != '\n' then
        var k := Run(rest[1..], NotCloseLine);
        if 1 + k < |rest| && rest[1 + k] == ')' then Some(rest[..1 + k]) else None
      else None
    case LooseHasText =>
      if rest != [] && IsQuote(rest[0]) && Run(rest[1..], NotSpecial) > 0 then
        Some(rest[1..1 + Run(rest[1..], NotSpecial)])
      else if Run(rest, NotSpecial) > 0 then Some(rest[..Run(rest, NotSpecial)])
      else None
    case ParenHasText =>
      var k := Run(rest, NotClose);
      if k > 0 && k < |rest| then Some(rest[..k]) else None
  }

  /** `re.search(p, s)`, returning group 1 of the leftmost match. */
  function Search(s: string, p: Pattern): Option<string>
    decreases |s|
  {
    if MatchAt(s, p).Some? then MatchAt(s, p)
    else if s == [] then None
    else Search(s[1..], p)
  }

  /** The page `re.search(r'/#/(\w+)', s)` finds is a non-empty run of word characters. */
  lemma {:induction false} SearchPageFragment(s: string)
    ensures Search(s, PageFragment).Some? ==>
      var p := Search(s, PageFragment).value;
      p != [] && forall i :: 0 <= i < |p| ==> IsWordChar(p[i])
    decreases |s|
  {
    if MatchAt(s, PageFragment).Some? {
      assert StartsWith(s, "/#/");
      var k := Run(s[3..], Word);
      var p := s[3..3 + k];
      assert k > 0 && Search(s, PageFragment) == Some(p);
      forall i | 0 <= i < |p| ensures IsWordChar(p[i]) {
        assert p[i] == s[3..][i];
        assert InClass(s[3..][i], Word);
      }
    } else if s != [] {
      SearchPageFragment(s[1..]);
    }
  }

  /** A prefix that does not contain the pattern's first character cannot hold the leftmost
      match. */
  lemma {:induction false} SearchSkips(a: string, b: string, p: Pattern)
    requires forall i :: 0 <= i < |a| ==> a[i] != Lead(p)
    ensures Search(a + b, p) == Search(b, p)
    decreases |a|
  {
    if a != [] {
      var s := a + b;
      assert s[0] == a[0];
      assert MatchAt(s, p).None?;
      assert s[1..] == a[1..] + b;
      SearchSkips(a[1..], b, p);
      assert Search(s, p) == Search(s[1..], p);
    } else {
      assert a + b == b;
    }
  }

  // ---- other substitutions -----------------------------------------------------------------

  /** Length of a `[-_](Facet|facet|Dropdown|dropdown|Button|button)` match at the start of `s`. */
  function TypeSuffixLen(s: string): (n: nat)
    ensures n <= |s|
    ensures n > 0 ==> n >= 2
  {
    if s != [] && (s[0] == '-' || s[0] == '_') then
      var t := s[1..];
      if StartsWith(t, "Facet") || StartsWith(t, "facet") then 6
      else if StartsWith(t, "Dropdown") || StartsWith(t, "dropdown") then 9
      else if StartsWith(t, "Button") || StartsWith(t, "button") then 7
      else 0
    else 0
  }

  /** `re.sub(r'[-_](Facet|facet|Dropdown|dropdown|Button|button)', '', s)` */
  function RemoveTypeSuffixes(s: string): string
    decreases |s|
  {
    if s == [] then []
    else if TypeSuffixLen(s) > 0 then RemoveTypeSuffixes(s[TypeSuffixLen(s)..])
    else [s[0]] + RemoveTypeSuffixes(s[1..])
  }

  /** `re.sub(r'\s*(button|link|dropdown|tab|filter)$', '', s)` */
  function RemoveTrailingKind(s: string): string
  {
    if EndsWith(s, "button") then TrimEnd(s[..|s| - 6], Whitespace)
    else if EndsWith(s, "link") then TrimEnd(s[..|s| - 4], Whitespace)
    else if EndsWith(s, "dropdown") then TrimEnd(s[..|s| - 8], Whitespace)
    else if EndsWith(s, "tab") then TrimEnd(s[..|s| - 3], Whitespace)
    else if EndsWith(s, "filter") then TrimEnd(s[..|s| - 6], Whitespace)
    else s
  }

  // ---- facts about the count pattern ----------------------------------------------------

  /** The text of a `(digits)` group, e.g. `(1507)`. */
  predicate IsCountGroup(g: string)
  {
    |g| >= 3 && g[0] == '(' && g[|g| - 1] == ')' && forall i :: 1 <= i < |g| - 1 ==> IsDigit(g[i])
  }

  predicate ParenFree(s: string)
  {
    forall i :: 0 <= i < |s| ==> s[i] != '(' && s[i] != ')'
  }

  lemma CountGroupIsMatched(g: string, rest: string)
    requires IsCountGroup(g)
    ensures CountGroupLen(g + rest) == |g|
  {
    var s := g + rest;
    RunOfDigits(s[1..], |g| - 2);
  }

  lemma {:induction false} RunOfDigits(s: string, n: nat)
    requires n < |s| && !IsDigit(s[n]) && forall i :: 0 <= i < n ==> IsDigit(s[i])
    ensures Run(s, Digit) == n
    decreases n
  {
    if n > 0 {
      RunOfDigits(s[1..], n - 1);
    }
  }

  lemma CountGroupAlone(g: string)
    requires IsCountGroup(g)
    ensures RemoveCounts(g) == [] && HasCount(g)
  {
    assert g + [] == g;
    CountGroupIsMatched(g, []);
    assert g[|g|..] == [];
  }

  /** A count group after paren-free text: the text survives, the group goes. */
  lemma {:induction false} RemoveCountsAfterText(t: string, g: string)
    requires ParenFree(t) && IsCountGroup(g)
    ensures RemoveCounts(t + g) == t
    decreases |t|
  {
    if t == [] {
      CountGroupAlone(g);
      assert t + g == g;
    } else {
      var s := t + g;
      assert s[0] == t[0];
      assert CountGroupLen(s) == 0;
      assert s[1..] == t[1..] + g;
      RemoveCountsAfterText(t[1..], g);
      assert t == [t[0]] + t[1..];
    }
  }

  /** Each count group is deleted: text without `(` in front of it is kept as it is processed
      alone, and what follows it is processed on its own. */
  lemma {:induction false} RemoveCountsDeletesGroup(u: string, g: string, v: string)
    requires '(' !in u && IsCountGroup(g)
    ensures RemoveCounts(u + g + v) == RemoveCounts(u) + RemoveCounts(v)
    decreases |u|
  {
    if u == [] {
      assert u + g + v == g + v;
      CountGroupIsMatched(g, v);
      assert (g + v)[|g|..] == v;
    } else {
      var s := u + g + v;
      assert s[0] == u[0] && u[0] != '(';
      assert s[1..] == u[1..] + g + v;
      assert '(' !in u[1..] by { forall x | x in u[1..] ensures x in u { } }
      RemoveCountsDeletesGroup(u[1..], g, v);
      assert RemoveCounts(s) == [u[0]] + RemoveCounts(u[1..]) + RemoveCounts(v);
    }
  }

  lemma {:induction false} HasCountAfterText(t: string, g: string)
    requires IsCountGroup(g)
    ensures HasCount(t + g)
    decreases |t|
  {
    if t == [] {
      CountGroupAlone(g);
      assert t + g == g;
    } else {
      assert (t + g)[1..] == t[1..] + g;
      HasCountAfterText(t[1..], g);
    }
  }

  /** Paren-free text holds no count group. */
  lemma {:induction false} ParenFreeHasNoCount(t: string)
    requires ParenFree(t)
    ensures !HasCount(t)
    decreases |t|
  {
    if t != [] {
      ParenFreeHasNoCount(t[1..]);
    }
  }
}
