/** The agent's registry-facing logic: the registry check that answers a selector before any
    browser work, the helpers around it, and the two logs the agent appends to. */
module Agent {
  import opened Wrappers
  import opened Strings
  import opened Patterns
  import opened Normalizer
  import opened ElementMaps
  import opened Healing
  import opened Registry
  import opened Resolver

  // ---- `_sanitize_filename` -------------------------------------------------------------

  /** The characters the sanitizer deletes and those it turns into `_`. */
  const Deleted: set<char> := {'[', ']', '"', '\'', '#'}
  const Underscored: set<char> := {'/', '=', ':', '.', ' ', '(', ')'}

  /** The chain of single-character replacements, in the source's order. */
  function ReplaceSpecials(s: string): string
  {
    Underscores(Deletions(s))
  }

  /** The first five replacements delete characters. */
  function Deletions(s: string): string
  {
    var s1 := ReplaceAll(ReplaceAll(s, "[", ""), "]", "");
    var s2 := ReplaceAll(ReplaceAll(s1, "\"", ""), "'", "");
    ReplaceAll(s2, "#", "")
  }

  /** The other seven turn characters into `_`. */
  function Underscores(s: string): string
  {
    var s3 := ReplaceAll(s, "/", "_");
    var s4 := ReplaceAll(ReplaceAll(s3, "=", "_"), ":", "_");
    var s5 := ReplaceAll(s4, ".", "_");
    var s6 := ReplaceAll(s5, " ", "_");
    ReplaceAll(ReplaceAll(s6, "(", "_"), ")", "_")
  }

  /** Halving runs of underscores until no `__` is left. */
  function Collapse(s: string): string
    decreases |s|
  {
    if Contains(s, "__") then
      ReplaceAllShrinks(s, "__", "_");
      Collapse(ReplaceAll(s, "__", "_"))
    else s
  }

  function Sanitized(name: string): string
  {
    Collapse(ReplaceSpecials(name))
  }

  method SanitizeFilename(name0: string) returns (name: string)
    ensures name == Sanitized(name0)
  {
    name := ReplaceAll(name0, "[", "");
    name := ReplaceAll(name, "]", "");
    name := ReplaceAll(name, "\"", "");
    name := ReplaceAll(name, "'", "");
    name := ReplaceAll(name, "#", "");
    name := ReplaceAll(name, "/", "_");
    name := ReplaceAll(name, "=", "_");
    name := ReplaceAll(name, ":", "_");
    name := ReplaceAll(name, ".", "_");
    name := ReplaceAll(name, " ", "_");
    name := ReplaceAll(name, "(", "_");
    name := ReplaceAll(name, ")", "_");
    assert name == ReplaceSpecials(name0);
    while Contains(name, "__")
      invariant Collapse(name) == Sanitized(name0)
      decreases |name|
    {
      ReplaceAllShrinks(name, "__", "_");
      name := ReplaceAll(name, "__", "_");
    }
  }

  /** One replacement step removes `c` and adds nothing but `rep`. */
  lemma ReplaceStep(s: string, c: char, rep: string)
    requires c !in rep
    ensures c !in ReplaceAll(s, [c], rep)
    ensures forall x :: x in ReplaceAll(s, [c], rep) ==> x in s || x in rep
  {
    ReplaceCharGone(s, c, rep);
    ReplaceAllChars(s, [c], rep);
  }

  lemma DeletionsClean(s: string)
    ensures forall x :: x in Deletions(s) ==> x in s && x !in Deleted
  {
    var s1a := ReplaceAll(s, "[", ""); ReplaceStep(s, '[', "");
    var s1 := ReplaceAll(s1a, "]", ""); ReplaceStep(s1a, ']', "");
    var s2a := ReplaceAll(s1, "\"", ""); ReplaceStep(s1, '"', "");
    var s2 := ReplaceAll(s2a, "'", ""); ReplaceStep(s2a, '\'', "");
    var s3 := ReplaceAll(s2, "#", ""); ReplaceStep(s2, '#', "");
    assert s3 == Deletions(s);
  }

  lemma UnderscoresFirst(s: string)
    ensures var s4 := ReplaceAll(ReplaceAll(ReplaceAll(s, "/", "_"), "=", "_"), ":", "_");
      forall x :: x in s4 ==> (x in s || x == '_') && x != '/' && x != '=' && x != ':'
  {
    var s3 := ReplaceAll(s, "/", "_"); ReplaceStep(s, '/', "_");
    var s4a := ReplaceAll(s3, "=", "_"); ReplaceStep(s3, '=', "_");
    var s4 := ReplaceAll(s4a, ":", "_"); ReplaceStep(s4a, ':', "_");
  }

  lemma UnderscoresRest(s4: string)
    ensures var s6 := ReplaceAll(ReplaceAll(s4, ".", "_"), " ", "_");
      var s8 := ReplaceAll(ReplaceAll(s6, "(", "_"), ")", "_");
      forall x :: x in s8 ==> (x in s4 || x == '_') && x != '.' && x != ' ' && x != '(' && x != ')'
  {
    var s5 := ReplaceAll(s4, ".", "_"); ReplaceStep(s4, '.', "_");
    var s6 := ReplaceAll(s5, " ", "_"); ReplaceStep(s5, ' ', "_");
    var s7 := ReplaceAll(s6, "(", "_"); ReplaceStep(s6, '(', "_");
    var s8 := ReplaceAll(s7, ")", "_"); ReplaceStep(s7, ')', "_");
  }

  lemma UnderscoresClean(d: string)
    ensures forall x :: x in Underscores(d) ==>
      (x in d || x == '_') && x != '/' && x != '=' && x != ':' && x != '.' && x != ' ' && x != '(' && x != ')'
  {
    var s4 := ReplaceAll(ReplaceAll(ReplaceAll(d, "/", "_"), "=", "_"), ":", "_");
    var r := ReplaceAll(ReplaceAll(ReplaceAll(ReplaceAll(s4, ".", "_"), " ", "_"), "(", "_"), ")", "_");
    assert Underscores(d) == r;
    UnderscoresFirst(d);
    UnderscoresRest(s4);
    forall x | x in r
      ensures (x in d || x == '_') && x != '/' && x != '=' && x != ':' && x != '.' && x != ' ' && x != '(' && x != ')'
    {
      if x != '_' { assert x in s4; }
    }
  }

  lemma ReplaceSpecialsClean(s: string)
    ensures forall x :: x in ReplaceSpecials(s) ==> x !in Deleted && x !in Underscored
  {
    DeletionsClean(s);
    UnderscoresClean(Deletions(s));
  }

  lemma {:induction false} CollapseFacts(s: string)
    ensures !Contains(Collapse(s), "__")
    ensures forall x :: x in Collapse(s) ==> x in s || x == '_'
    decreases |s|
  {
    if Contains(s, "__") {
      var t := ReplaceAll(s, "__", "_");
      ReplaceAllShrinks(s, "__", "_");
      ReplaceAllChars(s, "__", "_");
      CollapseFacts(t);
    }
  }

  /** The sanitized name has none of the special characters and no `__`. */
  lemma SanitizedIsClean(name: string)
    ensures forall x :: x in Sanitized(name) ==> x !in Deleted && x !in Underscored
    ensures !Contains(Sanitized(name), "__")
  {
    ReplaceSpecialsClean(name);
    CollapseFacts(ReplaceSpecials(name));
  }

  lemma ReplaceAbsentChar(s: string, c: char, rep: string)
    requires c !in s
    ensures ReplaceAll(s, [c], rep) == s
  {
    MissingCharNotContained(s, [c], 0);
    ReplaceAllAbsent(s, [c], rep);
  }

  /** Sanitizing a sanitized name changes nothing. */
  lemma SanitizeIdempotent(name: string)
    ensures Sanitized(Sanitized(name)) == Sanitized(name)
  {
    var t := Sanitized(name);
    SanitizedIsClean(name);
    ReplaceAbsentChar(t, '[', ""); ReplaceAbsentChar(t, ']', "");
    ReplaceAbsentChar(t, '"', ""); ReplaceAbsentChar(t, '\'', "");
    ReplaceAbsentChar(t, '#', ""); ReplaceAbsentChar(t, '/', "_");
    ReplaceAbsentChar(t, '=', "_"); ReplaceAbsentChar(t, ':', "_");
    ReplaceAbsentChar(t, '.', "_"); ReplaceAbsentChar(t, ' ', "_");
    ReplaceAbsentChar(t, '(', "_"); ReplaceAbsentChar(t, ')', "_");
    assert ReplaceSpecials(t) == t;
  }

  // ---- `_get_domain_and_page` -----------------------------------------------------------

  /** The registry key of a page URL: the host (scheme removed, cut at the first `/` and then
      at the first `#`) and the word after `/#/`, or "home". An empty URL has none. */
  function DomainAndPage(url: string): Option<(string, string)>
  {
    if url == [] then None
    else
      var domain := Before(Before(ReplaceAll(ReplaceAll(url, "https://", ""), "http://", ""), '/'), '#');
      var page := match Search(url, PageFragment)
        case Some(p) => p
        case None => "home";
      Some((domain, page))
  }

  /** For every URL: none exactly when it is empty; otherwise the domain holds only characters
      of the URL and no `/` or `#`, and the page is the route's word when the URL has a `/#/`
      route and "home" when it has none. */
  lemma DomainAndPageShape(url: string)
    ensures DomainAndPage(url).None? <==> url == []
    ensures DomainAndPage(url).Some? ==>
      var d, p := DomainAndPage(url).value.0, DomainAndPage(url).value.1;
      (forall x :: x in d ==> x in url && x != '/' && x != '#')
      && (Search(url, PageFragment).None? ==> p == "home")
      && (Search(url, PageFragment).Some? ==> IsWord(p) && p == Search(url, PageFragment).value)
  {
    if url != [] {
      var s1 := ReplaceAll(url, "https://", "");
      var s2 := ReplaceAll(s1, "http://", "");
      ReplaceAllChars(url, "https://", "");
      ReplaceAllChars(s1, "http://", "");
      BeforeChars(s2, '/');
      BeforeChars(Before(s2, '/'), '#');
      SearchPageFragment(url);
    }
  }

  predicate HostChar(c: char) { IsAlnum(c) || c == '.' || c == '-' }

  lemma NoColonNoScheme(s: string)
    requires ':' !in s
    ensures ReplaceAll(s, "https://", "") == s && ReplaceAll(s, "http://", "") == s
  {
    MissingCharNotContained(s, "https://", 5);
    MissingCharNotContained(s, "http://", 4);
    ReplaceAllAbsent(s, "https://", "");
    ReplaceAllAbsent(s, "http://", "");
  }

  predicate IsHost(host: string) { forall i :: 0 <= i < |host| ==> HostChar(host[i]) }

  predicate IsWord(w: string) { w != [] && forall i :: 0 <= i < |w| ==> IsWordChar(w[i]) }

  lemma SchemeRemoved(host: string, page: string)
    requires IsHost(host) && IsWord(page)
    ensures ReplaceAll(ReplaceAll("https://" + host + "/#/" + page, "https://", ""), "http://", "") == host + "/#/" + page
  {
    var s2 := host + "/#/" + page;
    var url := "https://" + host + "/#/" + page;
    assert url == "https://" + s2;
    assert ':' !in s2 by {
      forall i | 0 <= i < |s2| ensures s2[i] != ':' {
        if i < |host| { assert s2[i] == host[i]; }
        else if i >= |host| + 3 { assert s2[i] == page[i - |host| - 3]; }
      }
    }
    assert StartsWith(url, "https://") && url[8..] == s2;
    assert ReplaceAll(url, "https://", "") == "" + ReplaceAll(s2, "https://", "");
    NoColonNoScheme(s2);
    assert "" + s2 == s2;
  }

  lemma DomainOfRoute(host: string, page: string)
    requires IsHost(host) && IsWord(page)
    ensures Before(Before(ReplaceAll(ReplaceAll("https://" + host + "/#/" + page, "https://", ""), "http://", ""), '/'), '#') == host
  {
    SchemeRemoved(host, page);
    var s2 := host + "/#/" + page;
    assert s2 == host + ['/'] + ("#/" + page);
    assert '/' !in host && '#' !in host by {
      forall i | 0 <= i < |host| ensures host[i] != '/' && host[i] != '#' { assert HostChar(host[i]); }
    }
    BeforeFirst(host, '/', "#/" + page);
    BeforeAbsent(host, '#');
  }

  lemma RouteMatches(page: string)
    requires IsWord(page)
    ensures MatchAt("/#/" + page, PageFragment) == Some(page)
  {
    var tail := "/#/" + page;
    assert tail[3..] == page;
    RunIs(page, Word, |page|);
    assert tail[3..3 + |page|] == page;
  }

  lemma HostSkipped(host: string, page: string)
    requires IsHost(host) && IsWord(page)
    ensures Search(host + "/#/" + page, PageFragment) == Some(page)
  {
    assert '/' !in host by {
      forall i | 0 <= i < |host| ensures host[i] != '/' { assert HostChar(host[i]); }
    }
    assert host + "/#/" + page == host + ("/#/" + page);
    SearchSkips(host, "/#/" + page, PageFragment);
    RouteMatches(page);
    assert Search("/#/" + page, PageFragment) == Some(page);
  }

  lemma SlashesSkipped(host: string, page: string)
    requires IsHost(host)
    ensures Search("//" + host + "/#/" + page, PageFragment) == Search(host + "/#/" + page, PageFragment)
  {
    var s2 := host + "/#/" + page;
    var u1 := "//" + host + "/#/" + page;
    assert MatchAt(u1, PageFragment).None? by { assert u1[1] == '/'; }
    var u2 := "/" + s2;
    assert u1[1..] == u2;
    assert MatchAt(u2, PageFragment).None? by {
      if host == [] { assert u2[1] == '/'; } else { assert u2[1] == host[0]; assert HostChar(host[0]); }
    }
    assert u2[1..] == s2;
  }

  lemma PageOfRoute(host: string, page: string)
    requires IsHost(host) && IsWord(page)
    ensures Search("https://" + host + "/#/" + page, PageFragment) == Some(page)
  {
    var rest := "//" + host + "/#/" + page;
    assert "https://" + host + "/#/" + page == "https:" + rest;
    SearchSkips("https:", rest, PageFragment);
    SlashesSkipped(host, page);
    HostSkipped(host, page);
  }

  /** A single-page-app URL yields its host and its route's first word. */
  lemma DomainAndPageOfRoute(host: string, page: string)
    requires IsHost(host) && IsWord(page)
    ensures DomainAndPage("https://" + host + "/#/" + page) == Some((host, page))
  {
    DomainOfRoute(host, page);
    PageOfRoute(host, page);
  }

  lemma BareHostDomain(host: string)
    requires IsHost(host)
    ensures Before(Before(ReplaceAll(ReplaceAll("https://" + host, "https://", ""), "http://", ""), '/'), '#') == host
  {
    var url := "https://" + host;
    assert ':' !in host && '/' !in host && '#' !in host by {
      forall i | 0 <= i < |host| ensures host[i] != ':' && host[i] != '/' && host[i] != '#' { assert HostChar(host[i]); }
    }
    assert StartsWith(url, "https://") && url[8..] == host;
    assert ReplaceAll(url, "https://", "") == "" + ReplaceAll(host, "https://", "");
    NoColonNoScheme(host);
    assert "" + host == host;
    BeforeAbsent(host, '/');
    BeforeAbsent(host, '#');
  }

  lemma BareHostNoRoute(host: string)
    requires IsHost(host) && host != []
    ensures Search("https://" + host, PageFragment) == None
  {
    var u1 := "//" + host;
    assert "https://" + host == "https:" + u1;
    SearchSkips("https:", u1, PageFragment);
    assert MatchAt(u1, PageFragment).None? by { assert u1[1] == '/'; }
    var u2 := "/" + host;
    assert u1[1..] == u2;
    assert MatchAt(u2, PageFragment).None? by { assert u2[1] == host[0]; assert HostChar(host[0]); }
    assert u2[1..] == host;
    assert '/' !in host by {
      forall i | 0 <= i < |host| ensures host[i] != '/' { assert HostChar(host[i]); }
    }
    assert host + [] == host;
    SearchSkips(host, [], PageFragment);
  }

  /** A URL without a `/#/` route is the "home" page of its host. */
  lemma BareHostIsHome(host: string)
    requires IsHost(host) && host != []
    ensures DomainAndPage("https://" + host) == Some((host, "home"))
  {
    BareHostDomain(host);
    BareHostNoRoute(host);
  }

  // ---- `_llm_choose_element`: reading the model's answer ---------------------------------

  /** A `\b(\d+)\b` match starting at `i`: a digit run with a word boundary on both sides. */
  function NumberAt(s: string, i: nat): Option<nat>
    requires i <= |s|
  {
    if i < |s| && IsDigit(s[i]) && (i == 0 || !IsWordChar(s[i - 1])) then
      var k := Run(s[i..], Digit);
      if i + k == |s| || !IsWordChar(s[i + k]) then
        assert forall j :: 0 <= j < k ==> IsDigit(s[i..][j]);
        Some(DigitsValue(s[i..][..k]))
      else None
    else None
  }

  /** The leftmost such match at or after `i`. */
  function FirstNumber(s: string, i: nat): Option<nat>
    requires i <= |s|
    decreases |s| - i
  {
    if i == |s| then None
    else if NumberAt(s, i).Some? then NumberAt(s, i)
    else FirstNumber(s, i + 1)
  }

  /** The chosen candidate: the first number in the answer when it indexes a candidate,
      else candidate 0. */
  function ChooseIndex(response: string, candidates: nat): (r: nat)
    ensures candidates > 0 ==> r < candidates
    ensures candidates == 0 ==> r == 0
  {
    match FirstNumber(response, 0)
    case Some(v) => if v < candidates then v else 0
    case None => 0
  }

  lemma {:induction false} FirstNumberSkips(s: string, i: nat, j: nat)
    requires i <= j <= |s|
    requires forall x :: i <= x < j ==> !IsDigit(s[x])
    ensures FirstNumber(s, i) == FirstNumber(s, j)
    decreases j - i
  {
    if i < j {
      FirstNumberSkips(s, i + 1, j);
    }
  }

  /** An answer made of free text without digits followed by a number picks that number when
      it is in range and candidate 0 otherwise. */
  lemma ChooseIndexReadsNumber(text: string, k: nat, candidates: nat)
    requires forall i :: 0 <= i < |text| ==> !IsDigit(text[i])
    requires text == [] || !IsWordChar(text[|text| - 1])
    ensures ChooseIndex(text + NatToString(k), candidates) == if k < candidates then k else 0
  {
    var d := NatToString(k);
    var s := text + d;
    FirstNumberSkips(s, 0, |text|);
    assert s[|text|..] == d;
    RunIs(d, Digit, |d|);
    assert d[..|d|] == d;
    DigitsValueOfNatToString(k);
    assert NumberAt(s, |text|) == Some(k);
  }

  // ---- `_generate_final_selector` --------------------------------------------------------

  /** The element properties read from the page; a missing attribute is `None`. */
  datatype Props = Props(
    tag: string,
    role: Option<string>,
    ariaExpanded: Option<string>,
    ariaSelected: Option<string>,
    name: Option<string>,
    id: string,
    dataTestId: Option<string>,
    text: string)

  predicate Truthy(o: Option<string>) { o.Some? && o.value != [] }

  /** The length of the longest all-digit suffix. */
  function TrailingDigits(s: string): (n: nat)
    ensures n <= |s|
    ensures forall i :: |s| - n <= i < |s| ==> IsDigit(s[i])
    ensures n < |s| ==> !IsDigit(s[|s| - n - 1])
  {
    if s != [] && IsDigit(s[|s| - 1]) then 1 + TrailingDigits(s[..|s| - 1]) else 0
  }

  /** `re.search(r'-\d+$', s)` */
  predicate EndsWithDashNumber(s: string)
  {
    var k := TrailingDigits(s);
    0 < k < |s| && s[|s| - k - 1] == '-'
  }

  predicate AllDigits(d: string)
  {
    forall i :: 0 <= i < |d| ==> IsDigit(d[i])
  }

  /** The test matches exactly the ids that end in `-` followed by one or more digits. */
  lemma DashNumberShape(s: string)
    ensures EndsWithDashNumber(s) <==> exists p, d :: s == p + "-" + d && d != [] && AllDigits(d)
  {
    var k := TrailingDigits(s);
    if EndsWithDashNumber(s) {
      var p, d := s[..|s| - k - 1], s[|s| - k..];
      assert s == p + "-" + d;
      assert AllDigits(d) by {
        forall i | 0 <= i < |d| ensures IsDigit(d[i]) { assert d[i] == s[|s| - k + i]; }
      }
    }
    if exists p, d :: s == p + "-" + d && d != [] && AllDigits(d) {
      var p, d :| s == p + "-" + d && d != [] && AllDigits(d);
      var m := |d|;
      assert s[|s| - m - 1] == '-';
      forall i | |s| - m <= i < |s| ensures IsDigit(s[i]) { assert s[i] == d[i - (|s| - m)]; }
      assert k == m;
    }
  }

  /** An id that is present, not a widget library's generated one, and without a numeric tail. */
  predicate StableId(id: string)
  {
    id != [] && !(StartsWith(id, "dropdown") || StartsWith(id, "checkbox") || StartsWith(id, "mui-") || StartsWith(id, "Mui"))
    && !EndsWithDashNumber(id)
  }

  function RoleHead(p: Props): string
    requires p.role.Some?
  {
    p.tag + "[role='" + p.role.value + "']"
  }

  /** The selector recorded for a clicked element, by the source's priority: role with text,
      test id, form name, stable id, text, role alone. */
  function FinalSelector(p: Props): (r: Option<string>)
    ensures p.text != [] ==> r.Some?
    ensures r.Some? ==> r.value != []
    ensures Truthy(p.role) && p.text != [] ==> StartsWith(r.value, RoleHead(p)) && EndsWith(r.value, p.text + "')")
    ensures !(Truthy(p.role) && p.text != []) && Truthy(p.dataTestId) ==> r == Some("[data-testid='" + p.dataTestId.value + "']")
    ensures r.None? <==> p.text == [] && !Truthy(p.role) && !Truthy(p.dataTestId) && !StableId(p.id)
                         && !(Truthy(p.name) && p.tag in ["input", "select", "textarea", "button"])
  {
    if Truthy(p.role) && p.text != [] then
      if p.ariaExpanded.Some? then Some(RoleHead(p) + "[aria-expanded]:has-text('" + p.text + "')")
      else if p.ariaSelected.Some? then Some(RoleHead(p) + "[aria-selected]:has-text('" + p.text + "')")
      else Some(RoleHead(p) + HasTextOpen + "'" + p.text + "')")
    else if Truthy(p.dataTestId) then Some("[data-testid='" + p.dataTestId.value + "']")
    else if Truthy(p.name) && p.tag in ["input", "select", "textarea", "button"] then Some(p.tag + "[name='" + p.name.value + "']")
    else if StableId(p.id) then Some("#" + p.id)
    else if p.text != [] then Some("text=" + p.text)
    else if Truthy(p.role) then Some(p.tag + "[role='" + p.role.value + "']")
    else None
  }

  /** A role-with-text selector gives its text back to the normalizer, so the next registry
      check of that selector finds the same text. */
  lemma FinalSelectorTextRoundTrip(p: Props)
    requires Truthy(p.role) && p.text != [] && p.ariaExpanded.None? && p.ariaSelected.None?
    requires Lacks(p.tag, ':') && Lacks(p.role.value, ':') && QuoteFree(p.text)
    ensures TextContent(FinalSelector(p).value) == p.text
  {
    var head := RoleHead(p);
    assert Lacks(head, ':') by {
      forall i | 0 <= i < |head| ensures head[i] != ':' {
        if i < |p.tag| { assert head[i] == p.tag[i]; }
        else if |p.tag| + 7 <= i < |p.tag| + 7 + |p.role.value| { assert head[i] == p.role.value[i - |p.tag| - 7]; }
      }
    }
    var rest := HasTextOpen + "'" + p.text + "')";
    assert FinalSelector(p).value == head + rest;
    SearchSkips(head, rest, QuotedHasText);
    assert rest == rest + [];
    QuotedHasTextMatches(p.text, []);
  }

  // ---- `_check_element_registry` ----------------------------------------------------------

  /** What the registry check decided: an exact entry, a fuzzy winner with its rebuilt
      selector, or nothing. */
  datatype Decision = Exact(selector: Option<string>) | Matched(name: string, outcome: Outcome) | NoMatch

  /** The fuzzy search over a loaded map: the best entry, if it scores at least 80. */
  function FuzzyDecision(es: Elements, desc: string): Decision
  {
    var q := MakeQuery(desc);
    var b := Pick(es, q, |es|);
    if b.index.Some? && b.score >= 80 then
      var w := b.index.value;
      Matched(es[w].0, WinnerSelector(es[w].0, es[w].1, q.semantic))
    else NoMatch
  }

  /** The decision from the state before the check: the exact lookup sees the cache after its
      warm-up; the fuzzy search sees the map on file. */
  function Resolve(cache: Cache, files: Store, domain: string, page: string, desc: string): Decision
  {
    var c1 := Warmed(cache, files, domain, page);
    var key, path := CacheKey(domain, page), MapPath(domain, page);
    if key in c1 && Has(c1[key].elements, desc) then Exact(Find(c1[key].elements, desc).value.selector)
    else if path !in files then NoMatch
    else FuzzyDecision(files[path].elements, desc)
  }

  /** The scoring loop and the winner's selector. */
  method FuzzyMatch(es: Elements, desc: string) returns (d: Decision)
    ensures d == FuzzyDecision(es, desc)
  {
    var q := MakeQuery(desc);
    var index, score := BestMatch(es, q);
    if index.None? || score < 80 {
      return NoMatch;
    }
    var (name, elem) := es[index.value];
    d := Matched(name, WinnerSelector(name, elem, q.semantic));
  }

  function Answer(d: Decision): Option<string>
  {
    match d
    case Exact(s) => s
    case Matched(_, Selected(s)) => s
    case _ => None
  }

  /** The exact lookup hits when the warmed cache has an entry under the description itself. */
  predicate ExactHit(cache: Cache, files: Store, domain: string, page: string, desc: string)
  {
    var c1 := Warmed(cache, files, domain, page);
    CacheKey(domain, page) in c1 && Has(c1[CacheKey(domain, page)].elements, desc)
  }

  /** The cache and files after the fuzzy half, starting from the warmed cache `c1`. */
  function AfterFuzzy(c1: Cache, files: Store, domain: string, page: string, desc: string, now: Timestamp): (Cache, Store)
  {
    var c2 := Loaded(c1, files, domain, page);
    var path := MapPath(domain, page);
    if path !in files then (c2, files)
    else AnsweredEffect(c2, files, domain, page, FuzzyDecision(files[path].elements, desc), now)
  }

  /** The cache and files after a fuzzy decision: only a match that yields an answer records usage. */
  function AnsweredEffect(cache: Cache, files: Store, domain: string, page: string, d: Decision, now: Timestamp): (Cache, Store)
  {
    match d
    case Matched(name, Selected(_)) => UsageEffect(cache, files, domain, page, name, now)
    case _ => (cache, files)
  }

  /** The cache and files after the check: every answered match records a usage hit. */
  function AfterCheck(cache: Cache, files: Store, domain: string, page: string, desc: string, now: Timestamp): (Cache, Store)
  {
    if domain == [] || page == [] then (cache, files)
    else
      var c1 := Warmed(cache, files, domain, page);
      if ExactHit(cache, files, domain, page, desc) then UsageEffect(c1, files, domain, page, desc, now)
      else AfterFuzzy(c1, files, domain, page, desc, now)
  }

  /** A fuzzy answer comes from a compatible entry scoring at least 80 that no other entry
      beats. */
  lemma MatchedIsStrongBest(es: Elements, desc: string)
    ensures var q := MakeQuery(desc);
      var b := Pick(es, q, |es|);
      FuzzyDecision(es, desc).Matched? ==>
      b.index.Some? && b.score >= 80
      && es[b.index.value].0 == FuzzyDecision(es, desc).name
      && ScoreAt(es[b.index.value], q) == Some(b.score)
      && (q.semantic.Some? ==> Compatible(q.semantic.value, es[b.index.value].0, es[b.index.value].1.etype))
      && forall j :: 0 <= j < |es| ==> NoBetter(es, q, j, b.index.value, b.score)
  {
    var q := MakeQuery(desc);
    PickSpec(es, q, |es|);
  }

  /** An element the agent discovered on its own. */
  datatype DiscoveredElement = DiscoveredElement(name: string, selector: string, etype: string, url: string)

  /** A tracked discovery, stamped when it was tracked. */
  datatype Discovery = Discovery(data: DiscoveryData, timestamp: Timestamp)

  class PlaywrightAgent {
    const registry: ElementRegistry
    var currentUrl: string
    var discoveredElements: seq<DiscoveredElement>
    var discoveries: seq<Discovery>

    constructor(registry0: ElementRegistry)
      ensures registry == registry0 && currentUrl == [] && discoveredElements == [] && discoveries == []
    {
      registry := registry0;
      currentUrl := [];
      discoveredElements := [];
      discoveries := [];
    }

    method RecordDiscoveredElement(name: string, selector: string, etype: string)
      modifies this`discoveredElements
      ensures discoveredElements == old(discoveredElements) + [DiscoveredElement(name, selector, etype, currentUrl)]
    {
      discoveredElements := discoveredElements + [DiscoveredElement(name, selector, etype, currentUrl)];
    }

    method TrackDiscovery(d: DiscoveryData, now: Timestamp)
      modifies this`discoveries
      ensures discoveries == old(discoveries) + [Discovery(d, now)]
    {
      discoveries := discoveries + [Discovery(d, now)];
    }

    /** The registry check for a page identified by `domain` and `page` (empty when the URL
        did not yield them). */
    method CheckElementRegistry(domain: string, page: string, desc: string, now: Timestamp) returns (r: Option<string>)
      requires registry.Valid()
      modifies registry
      ensures registry.Valid()
      ensures r == if domain == [] || page == [] then None
                   else Answer(Resolve(old(registry.cache), old(registry.files), domain, page, desc))
      ensures (registry.cache, registry.files) == AfterCheck(old(registry.cache), old(registry.files), domain, page, desc, now)
      ensures registry.baselines == old(registry.baselines)
    {
      if domain == [] || page == [] {
        return None;
      }
      var found;
      found, r := ExactLookup(domain, page, desc, now);
      if !found {
        r := FuzzyLookup(domain, page, desc, now);
      }
    }

    /** The exact half: an entry stored under the description answers with its selector. */
    method ExactLookup(domain: string, page: string, desc: string, now: Timestamp) returns (found: bool, r: Option<string>)
      requires registry.Valid()
      modifies registry
      ensures registry.Valid()
      ensures found == ExactHit(old(registry.cache), old(registry.files), domain, page, desc)
      ensures var c1 := Warmed(old(registry.cache), old(registry.files), domain, page);
        if found then
          r == Find(c1[CacheKey(domain, page)].elements, desc).value.selector
          && (registry.cache, registry.files) == UsageEffect(c1, old(registry.files), domain, page, desc, now)
        else
          registry.cache == c1 && registry.files == old(registry.files)
      ensures registry.baselines == old(registry.baselines)
    {
      var element := registry.GetElement(domain, page, desc);
      if element.None? {
        return false, None;
      }
      registry.UpdateUsage(domain, page, desc, now);
      return true, element.value.selector;
    }

    /** The fuzzy half, on the map as it is on file. */
    method FuzzyLookup(domain: string, page: string, desc: string, now: Timestamp) returns (r: Option<string>)
      requires registry.Valid()
      modifies registry
      ensures registry.Valid()
      ensures var path := MapPath(domain, page);
        r == if path in old(registry.files) then Answer(FuzzyDecision(old(registry.files)[path].elements, desc)) else None
      ensures (registry.cache, registry.files) == AfterFuzzy(old(registry.cache), old(registry.files), domain, page, desc, now)
      ensures registry.baselines == old(registry.baselines)
    {
      var loaded := registry.LoadMap(domain, page);
      if loaded.None? {
        return None;
      }
      r := AnswerFrom(domain, page, desc, loaded.value.elements, now);
    }

    /** The fuzzy match over the loaded elements, recording usage of the entry that answers. */
    method AnswerFrom(domain: string, page: string, desc: string, es: Elements, now: Timestamp) returns (r: Option<string>)
      requires registry.Valid()
      modifies registry
      ensures registry.Valid()
      ensures r == Answer(FuzzyDecision(es, desc))
      ensures (registry.cache, registry.files)
              == AnsweredEffect(old(registry.cache), old(registry.files), domain, page, FuzzyDecision(es, desc), now)
      ensures registry.baselines == old(registry.baselines)
    {
      var d := FuzzyMatch(es, desc);
      if !d.Matched? || d.outcome.Raised? {
        return None;
      }
      registry.UpdateUsage(domain, page, d.name, now);
      r := d.outcome.selector;
    }
  }
}
