/** `_normalize_selector_for_dynamic_content`: a selector or description is split into its
    semantic type, the text it targets with every `(digits)` counter removed, and, when the
    text carried such a counter, a selector that matches the text with any counter value. */
module Normalizer {
  import opened Wrappers
  import opened Strings
  import opened Patterns

  /** `^(button|input|a|div|span|tab)`: the first of these tags, in this order, that starts `s`
      (a plain prefix test, so "about" yields "a"). */
  function TagPrefix(s: string): Option<string>
  {
    if StartsWith(s, "button") then Some("button")
    else if StartsWith(s, "input") then Some("input")
    else if StartsWith(s, "a") then Some("a")
    else if StartsWith(s, "div") then Some("div")
    else if StartsWith(s, "span") then Some("span")
    else if StartsWith(s, "tab") then Some("tab")
    else None
  }

  /** The leftmost match of `\[role=["']([^"']+)["']\]|^(button|input|a|div|span|tab)`:
      at the first position a role marker or a tag, further on only a role marker. */
  function SemanticType(s: string): Option<string>
  {
    var role := MatchAt(s, RoleMarker);
    if role.Some? then role
    else if TagPrefix(s).Some? then TagPrefix(s)
    else if s == [] then None
    else Search(s[1..], RoleMarker)
  }

  /** The quoted `:has-text('...')` content, else what follows a `text=` prefix, else all of `s`. */
  function TextContent(s: string): string
  {
    match Search(s, QuotedHasText)
    case Some(t) => t
    case None => if StartsWith(s, "text=") then s[5..] else s
  }

  /** `:has-text(/text\(\d+\)/)`: the text followed by any parenthesised number. */
  function CountPattern(text: string): string
  {
    ":has-text(/" + text + "\\(\\d+\\)/)"
  }

  function RoleQualifier(role: string): string
  {
    "[role=\"" + role + "\"]"
  }

  /** What goes before the count pattern: `tab`, `button` and `link` keep the tag form unless
      the input itself used a role marker; other types always become a role marker. */
  function Qualifier(s: string, semanticType: Option<string>): string
  {
    match semanticType
    case None => ""
    case Some(t) =>
      if (t == "tab" || t == "button" || t == "link") && !Contains(s, "[role=") then t else RoleQualifier(t)
  }

  datatype Normalized = Normalized(selector: string, semanticType: Option<string>, text: string)

  function Normalize(s: string): (r: Normalized)
    ensures r.semanticType == SemanticType(s)
    ensures !HasCount(TextContent(s)) ==> r.selector == s
    ensures HasCount(TextContent(s)) ==> EndsWith(r.selector, CountPattern(r.text))
    ensures HasCount(TextContent(s)) ==> r.selector == Qualifier(s, r.semanticType) + CountPattern(r.text)
    ensures r.text == Strip(RemoveCounts(TextContent(s)))
  {
    var semanticType := SemanticType(s);
    var text := TextContent(s);
    var normalizedText := Strip(RemoveCounts(text));
    var selector := if HasCount(text) then Qualifier(s, semanticType) + CountPattern(normalizedText) else s;
    Normalized(selector, semanticType, normalizedText)
  }

  // ---- properties -----------------------------------------------------------------------

  predicate QuoteFree(s: string)
  {
    forall i :: 0 <= i < |s| ==> !IsQuote(s[i])
  }

  predicate Lacks(s: string, c: char)
  {
    forall i :: 0 <= i < |s| ==> s[i] != c
  }

  /** Text that `Strip` leaves alone. */
  predicate Trimmed(s: string)
  {
    s == [] || (!IsSpace(s[0]) && !IsSpace(s[|s| - 1]))
  }

  lemma RunIs(s: string, k: CharClass, n: nat)
    requires n <= |s| && (n < |s| ==> !InClass(s[n], k))
    requires forall i :: 0 <= i < n ==> InClass(s[i], k)
    ensures Run(s, k) == n
  {
  }

  lemma RoleMarkerMatches(role: string, rest: string)
    requires role != [] && QuoteFree(role)
    ensures MatchAt(RoleQualifier(role) + rest, RoleMarker) == Some(role)
  {
    var s := RoleQualifier(role) + rest;
    var r := s[7..];
    assert r == role + "\"]" + rest;
    RunIs(r, NotQuote, |role|);
    assert r[..|role|] == role;
  }

  /** The loose `:has-text(` pattern reads a quoted text up to the first parenthesis. */
  lemma LooseHasTextMatches(t: string, rest: string)
    requires t != [] && QuoteFree(t) && ParenFree(t) && rest != [] && rest[0] == '('
    ensures MatchAt(HasTextOpen + "'" + t + rest, LooseHasText) == Some(t)
  {
    var s := HasTextOpen + "'" + t + rest;
    var r := s[|HasTextOpen|..];
    assert r == "'" + t + rest;
    assert r[1..] == t + rest;
    RunIs(t + rest, NotSpecial, |t|);
    assert r[1..1 + |t|] == t;
  }

  lemma QuotedHasTextMatches(t: string, rest: string)
    requires t != [] && QuoteFree(t)
    ensures MatchAt(HasTextOpen + "'" + t + "')" + rest, QuotedHasText) == Some(t)
  {
    var s := HasTextOpen + "'" + t + "')" + rest;
    var r := s[11..];
    assert r == t + "')" + rest;
    RunIs(r, NotQuote, |t|);
    assert r[..|t|] == t;
  }

  /** A role marker anywhere is the semantic type, unless something before it is one: the text
      before it has no `[` and does not start with a tag's first letter. */
  lemma {:induction false} RoleMarkerAnywhere(p: string, role: string, rest: string)
    requires role != [] && QuoteFree(role) && Lacks(p, '[')
    requires p == [] || p[0] !in "biadst"
    ensures SemanticType(p + RoleQualifier(role) + rest) == Some(role)
  {
    var m := RoleQualifier(role) + rest;
    RoleMarkerMatches(role, rest);
    if p == [] {
      assert p + RoleQualifier(role) + rest == m;
    } else {
      var s := p + RoleQualifier(role) + rest;
      assert s[0] == p[0];
      NoTagPrefix(s);
      assert s[1..] == p[1..] + m;
      SearchSkips(p[1..], m, RoleMarker);
      assert Search(m, RoleMarker) == Some(role);
    }
  }

  /** No tag starts with a character other than the tags' first letters. */
  lemma NoTagPrefix(s: string)
    requires s != [] && s[0] !in "biadst"
    ensures TagPrefix(s) == None
  {
    assert forall t :: t != [] && StartsWith(s, t) ==> t[0] == s[0] by {
      forall t | t != [] && StartsWith(s, t) ensures t[0] == s[0] { assert s[..|t|][0] == s[0]; }
    }
  }

  /** The tag test is a prefix test, so any input starting with "a" is typed "a". */
  lemma TagIsAPrefixNotAWord(rest: string)
    ensures SemanticType("a" + rest) == Some("a")
  {
    var s := "a" + rest;
    assert s[0] == 'a';
  }

  /** A role-qualified, counted `:has-text` selector normalizes to a role-qualified count
      pattern around the bare text; the counter value does not matter. */
  lemma RoleCountedSelector(role: string, n: string, g: string)
    requires role != [] && QuoteFree(role) && Lacks(role, ':')
    requires QuoteFree(n) && ParenFree(n) && Trimmed(n)
    requires IsCountGroup(g)
    ensures Normalize(RoleQualifier(role) + HasTextOpen + "'" + n + g + "')")
         == Normalized(RoleQualifier(role) + CountPattern(n), Some(role), n)
  {
    var q := RoleQualifier(role);
    var t := n + g;
    var r := HasTextOpen + "'" + t + "')";
    var s := q + r;
    assert s == q + HasTextOpen + "'" + n + g + "')";
    assert QuoteFree(t) by {
      forall i | 0 <= i < |t| ensures !IsQuote(t[i]) {
        if i >= |n| { assert t[i] == g[i - |n|]; }
      }
    }
    RoleMarkerMatches(role, r);
    assert SemanticType(s) == Some(role);
    assert Lacks(q, ':');
    SearchSkips(q, r, QuotedHasText);
    assert r == r + [];
    QuotedHasTextMatches(t, []);
    assert TextContent(s) == t;
    HasCountAfterText(n, g);
    RemoveCountsAfterText(n, g);
    StripUnchanged(n);
    assert Contains(s, "[role=");
  }

  lemma TextPrefixLacks(n: string, g: string)
    requires Lacks(n, ':') && Lacks(n, '[') && IsCountGroup(g)
    ensures Lacks("text=" + n + g, ':') && Lacks("text=" + n + g, '[')
  {
    var s := "text=" + n + g;
    forall i | 0 <= i < |s| ensures s[i] != ':' && s[i] != '[' {
      if 5 <= i < 5 + |n| { assert s[i] == n[i - 5]; }
      else if i >= 5 + |n| { assert s[i] == g[i - 5 - |n|]; }
    }
  }

  lemma TextHasNoTag(x: string)
    ensures TagPrefix("text=" + x) == None
  {
    var s := "text=" + x;
    assert s[0] == 't' && s[1] == 'e';
    assert !StartsWith(s, "tab") by { assert s[..3][1] == 'e'; }
    assert !StartsWith(s, "a") by { assert s[..1][0] == 't'; }
  }

  lemma TextPrefixUntyped(n: string, g: string)
    requires Lacks(n, ':') && Lacks(n, '[') && IsCountGroup(g)
    ensures SemanticType("text=" + n + g) == None
  {
    var s := "text=" + n + g;
    TextPrefixLacks(n, g);
    assert Lacks(s[1..], '[');
    assert s[1..] + [] == s[1..];
    SearchSkips(s[1..], [], RoleMarker);
    assert s == "text=" + (n + g);
    TextHasNoTag(n + g);
  }

  lemma TextPrefixContent(n: string, g: string)
    requires Lacks(n, ':') && Lacks(n, '[') && IsCountGroup(g)
    ensures TextContent("text=" + n + g) == n + g
  {
    var s := "text=" + n + g;
    TextPrefixLacks(n, g);
    assert s + [] == s;
    SearchSkips(s, [], QuotedHasText);
    assert s[..5] == "text=";
    assert s[5..] == n + g;
  }

  /** A `text=` description with a counter normalizes to the generic count pattern. */
  lemma TextCountedDescription(n: string, g: string)
    requires Lacks(n, ':') && Lacks(n, '[') && ParenFree(n) && Trimmed(n)
    requires IsCountGroup(g)
    ensures Normalize("text=" + n + g) == Normalized(CountPattern(n), None, n)
  {
    TextPrefixUntyped(n, g);
    TextPrefixContent(n, g);
    HasCountAfterText(n, g);
    RemoveCountsAfterText(n, g);
    StripUnchanged(n);
  }
}
