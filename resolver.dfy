/** The fuzzy half of `_check_element_registry`: the description is cleaned into keywords,
    every compatible entry is scored, the best one is kept, and a winner's selector is
    rebuilt for its semantic type and any dynamic count. */
module Resolver {
  import opened Wrappers
  import opened Strings
  import opened Patterns
  import opened Normalizer
  import opened ElementMaps

  const Quotes: set<char> := {'"', '\''}

  /** Technical words that never count as keywords. */
  const StopWords: seq<string> := ["data", "testid", "aria", "label", "class", "button", "input", "span", "div"]

  /** The normalized text with selector syntax removed: an attribute value (without a
      `-Facet`-like suffix), else the text after `text=`, then the inside of `:has-text(...)`. */
  function CleanDescription(text: string): string
  {
    var a := match Search(text, AttrValue)
      case Some(v) => RemoveTypeSuffixes(v)
      case None => text;
    var b := if StartsWith(a, "text=") then a[5..] else a;
    if Contains(b, HasTextOpen) then
      match Search(b, LazyHasText)
      case Some(g) => Strip(StripChars(g, Quotes))
      case None => b
    else b
  }

  /** `re.sub(r"[^a-zA-Z0-9]", " ", s)` */
  function AlnumOnly(s: string): string
  {
    seq(|s|, i requires 0 <= i < |s| => if IsAlnum(s[i]) then s[i] else ' ')
  }

  /** A token the scorer keeps. */
  predicate IsKeyword(w: string)
  {
    |w| > 2 && w !in StopWords
  }

  /** The words of `ws` that are keywords, in order. */
  function KeepKeywords(ws: seq<string>): (ks: seq<string>)
    ensures forall k :: k in ks ==> k in ws && IsKeyword(k)
    ensures forall w :: w in ws && IsKeyword(w) ==> w in ks
  {
    if ws == [] then []
    else
      var rest := KeepKeywords(ws[1..]);
      assert forall k :: k in rest ==> k in ws by {
        forall k | k in rest ensures k in ws { assert k in ws[1..]; }
      }
      (if IsKeyword(ws[0]) then [ws[0]] else []) + rest
  }

  /** Lower-case alphanumeric tokens longer than two characters, stop words removed. */
  function Keywords(clean: string): seq<string>
  {
    KeepKeywords(Words(Lower(AlnumOnly(clean))))
  }

  /** Everything the scorer derives from the description. */
  datatype Query = Query(desc: string, descLower: string, descClean: string, keywords: seq<string>, semantic: Option<string>)

  function MakeQuery(desc: string): Query
  {
    var n := Normalize(desc);
    var ks := Keywords(CleanDescription(n.text));
    Query(desc, Lower(desc), Join(ks, " "), ks, n.semanticType)
  }

  /** A requested `tab` accepts tab or button entries whose name mentions "tab"; any other
      type must equal the entry's type, ignoring case. */
  predicate Compatible(semantic: string, name: string, etype: string)
  {
    var t := Lower(etype);
    if semantic == "tab" then (t == "tab" || t == "button") && Contains(Lower(name), "tab")
    else if semantic == "button" then t == "button"
    else t == semantic
  }

  predicate AnyStarts(n: string, ks: seq<string>) { exists k :: k in ks && StartsWith(n, k) }
  predicate AnyEnds(n: string, ks: seq<string>) { exists k :: k in ks && EndsWith(n, k) }
  predicate AnyIn(n: string, ks: seq<string>) { exists k :: k in ks && Contains(n, k) }

  /** The first rung of the ladder the entry reaches. */
  function BaseScore(name: string, e: Entry, q: Query): (s: int)
    ensures s in {0, 20, 40, 60, 70, 80, 100}
  {
    var n := Lower(name);
    if n == q.descLower || n == q.descClean then 100
    else if StartsWith(n, q.descClean) || AnyStarts(n, q.keywords) then 80
    else if EndsWith(n, q.descClean) || AnyEnds(n, q.keywords) then 70
    else if Contains(n, q.descClean) then 60
    else if AnyIn(n, q.keywords) then 40
    else if AnyIn(Lower(e.description), q.keywords) then 20
    else 0
  }

  /** `elem.get("selector", "")` */
  function SelectorText(e: Entry): string
  {
    match e.selector
    case Some(s) => s
    case None => ""
  }

  /** The ladder score with its bonuses and penalties. */
  function Score(name: string, e: Entry, q: Query): int
  {
    var sel := SelectorText(e);
    BaseScore(name, e, q)
    + (if (e.etype == "accordion" || e.etype == "dropdown") && Contains(q.descLower, "dropdown") then 10 else 0)
    + (if q.semantic.Some? && Lower(e.etype) == q.semantic.value then 15 else 0)
    - (if StartsWith(sel, "#") then 30 else 0)
    - (if q.semantic.None? && StartsWith(q.desc, "text=") && (StartsWith(sel, "button:") || StartsWith(sel, "[role=")) then 15 else 0)
  }

  /** `None` for an entry the type filter skips. */
  function ScoreAt(x: (string, Entry), q: Query): Option<int>
  {
    if q.semantic.Some? && !Compatible(q.semantic.value, x.0, x.1.etype) then None
    else Some(Score(x.0, x.1, q))
  }

  datatype Best = Best(index: Option<nat>, score: int)

  /** One iteration: a strictly higher score, or an equal one with a strictly shorter name,
      replaces the best so far. */
  function Step(b: Best, es: Elements, i: nat, q: Query): Best
    requires i < |es| && (b.index.Some? ==> b.index.value < |es|)
  {
    match ScoreAt(es[i], q)
    case None => b
    case Some(s) =>
      if s > b.score || (s == b.score && b.index.Some? && |es[i].0| < |es[b.index.value].0|) then Best(Some(i), s)
      else b
  }

  /** The best over the first `n` entries, starting from no match and score 0. */
  function Pick(es: Elements, q: Query, n: nat): (b: Best)
    requires n <= |es|
    ensures b.index.Some? ==> b.index.value < n
  {
    if n == 0 then Best(None, 0) else Step(Pick(es, q, n - 1), es, n - 1, q)
  }

  /** The scoring loop. */
  method BestMatch(es: Elements, q: Query) returns (index: Option<nat>, score: int)
    ensures Best(index, score) == Pick(es, q, |es|)
  {
    index, score := None, 0;
    var i := 0;
    while i < |es|
      invariant 0 <= i <= |es|
      invariant Best(index, score) == Pick(es, q, i)
    {
      var (name, e) := es[i];
      if q.semantic.Some? && !Compatible(q.semantic.value, name, e.etype) {
        i := i + 1;
        continue;
      }
      var s := Score(name, e, q);
      if s > score || (s == score && index.Some? && |name| < |es[index.value].0|) {
        score := s;
        index := Some(i);
      }
      i := i + 1;
    }
  }

  /** Entry `j` does not beat the winner `w` with score `s`: lower score, or the same score
      and a longer name, or the same score and length but not earlier. */
  predicate NoBetter(es: Elements, q: Query, j: nat, w: nat, s: int)
    requires j < |es| && w < |es|
  {
    match ScoreAt(es[j], q)
    case None => true
    case Some(sj) => sj < s || (sj == s && (|es[j].0| > |es[w].0| || (|es[j].0| == |es[w].0| && w <= j)))
  }

  /** What the loop selects over the first `n` entries: a compatible entry with a positive
      score that no entry beats; when none is selected, no compatible entry scored above 0. */
  predicate Selects(es: Elements, q: Query, n: nat, b: Best)
    requires n <= |es|
  {
    (b.index.None? ==> b.score == 0 && forall j :: 0 <= j < n && ScoreAt(es[j], q).Some? ==> ScoreAt(es[j], q).value <= 0)
    && (b.index.Some? ==>
          b.index.value < n && ScoreAt(es[b.index.value], q) == Some(b.score) && b.score > 0
          && forall j :: 0 <= j < n ==> NoBetter(es, q, j, b.index.value, b.score))
  }

  /** One step of the loop keeps `Selects`. */
  lemma StepSelects(es: Elements, q: Query, i: nat, prev: Best)
    requires i < |es| && Selects(es, q, i, prev)
    ensures Selects(es, q, i + 1, Step(prev, es, i, q))
  {
    var b := Step(prev, es, i, q);
    if b.index.Some? {
      var w := b.index.value;
      forall j | 0 <= j < i + 1 ensures NoBetter(es, q, j, w, b.score) {
        if b != prev {
          if j < i && prev.index.Some? {
            assert NoBetter(es, q, j, prev.index.value, prev.score);
          }
        } else if j == i {
          assert prev.index.Some?;
        }
      }
    }
  }

  /** The loop's choice, characterised. */
  lemma {:induction false} PickSpec(es: Elements, q: Query, n: nat)
    requires n <= |es|
    ensures Selects(es, q, n, Pick(es, q, n))
  {
    if n > 0 {
      PickSpec(es, q, n - 1);
      StepSelects(es, q, n - 1, Pick(es, q, n - 1));
    }
  }

  /** The type filter holds for the winner, and so does the ladder order. */
  lemma WinnerIsCompatible(es: Elements, q: Query)
    ensures var b := Pick(es, q, |es|);
      b.index.Some? && q.semantic.Some? ==>
        Compatible(q.semantic.value, es[b.index.value].0, es[b.index.value].1.etype)
  {
    PickSpec(es, q, |es|);
  }

  /** With no keywords left, every name starts with the empty cleaned description, so every
      entry reaches at least 80 before bonuses and penalties. */
  lemma NoKeywordsScoresAtLeast80(desc: string, name: string, e: Entry)
    requires MakeQuery(desc).keywords == []
    ensures BaseScore(name, e, MakeQuery(desc)) >= 80
  {
    var q := MakeQuery(desc);
    assert q.descClean == [];
    assert StartsWith(Lower(name), q.descClean);
  }

  // ---- the winner's selector (lines 258-332) ------------------------------------------

  /** The winner's selector, or `Raised` where the source's string operations meet a missing
      selector and the exception handler answers `None`. */
  datatype Outcome = Selected(selector: Option<string>) | Raised

  /** The count-free text for a counted name: `re.sub(r'\(\d+\)', '', kind-stripped name)`. */
  function NameText(name: string): string
  {
    Strip(RemoveCounts(RemoveTrailingKind(name)))
  }

  function CountedText(name: string, base: string): string
  {
    if Contains(base, HasTextOpen) then
      match Search(base, LooseHasText)
      case Some(t) => Strip(t)
      case None => NameText(name)
    else NameText(name)
  }

  function CountedSelector(semantic: Option<string>, base: string, text: string): string
  {
    match semantic
    case Some(st) =>
      if st == "tab" then RoleQualifier("tab") + CountPattern(text)
      else if st == "button" then "button" + CountPattern(text)
      else RoleQualifier(st) + CountPattern(text)
    case None =>
      if StartsWith(base, "button") then "button" + CountPattern(text) else CountPattern(text)
  }

  /** A stored selector without a role marker or the type as prefix gets the type put in
      front of its `:has-text(...)` part. */
  function QualifiedSelector(st: string, base: string): string
  {
    if !(Contains(base, "[role=") || StartsWith(base, st)) && Contains(base, HasTextOpen) then
      match Search(base, ParenHasText)
      case Some(tp) =>
        (if st == "tab" || st == "button" || st == "link" then st else RoleQualifier(st)) + HasTextOpen + tp + ")"
      case None => base
    else base
  }

  function WinnerSelector(name: string, e: Entry, semantic: Option<string>): Outcome
  {
    if e.discovery.Some? then Selected(e.selector)
    else if HasCount(name) then
      match e.selector
      case None => Raised
      case Some(b) => Selected(Some(CountedSelector(semantic, b, CountedText(name, b))))
    else
      match semantic
      case None => Selected(e.selector)
      case Some(st) =>
        match e.selector
        case None => Raised
        case Some(b) => Selected(Some(QualifiedSelector(st, b)))
  }

  lemma RemoveTrailingKindKeepsParen(s: string)
    requires s != [] && s[|s| - 1] == ')'
    ensures RemoveTrailingKind(s) == s
  {
    assert !EndsWith(s, "button") by { if |s| >= 6 { assert s[|s| - 6..][5] == s[|s| - 1]; } }
    assert !EndsWith(s, "link") by { if |s| >= 4 { assert s[|s| - 4..][3] == s[|s| - 1]; } }
    assert !EndsWith(s, "dropdown") by { if |s| >= 8 { assert s[|s| - 8..][7] == s[|s| - 1]; } }
    assert !EndsWith(s, "tab") by { if |s| >= 3 { assert s[|s| - 3..][2] == s[|s| - 1]; } }
    assert !EndsWith(s, "filter") by { if |s| >= 6 { assert s[|s| - 6..][5] == s[|s| - 1]; } }
  }

  /** Every counted winner without a discovery record and with a stored selector gets the count
      pattern around the text read from its selector or name. */
  lemma CountedWinnerPattern(name: string, e: Entry, semantic: Option<string>)
    requires e.discovery.None? && HasCount(name) && e.selector.Some?
    ensures var b := e.selector.value;
      WinnerSelector(name, e, semantic).Selected?
      && WinnerSelector(name, e, semantic).selector.Some?
      && EndsWith(WinnerSelector(name, e, semantic).selector.value, CountPattern(CountedText(name, b)))
  {
    var b := e.selector.value;
    var t := CountedText(name, b);
    var x := CountedSelector(semantic, b, t);
    var c := CountPattern(t);
    var q := x[..|x| - |c|];
    assert x == q + c;
    assert x[|x| - |c|..] == c;
  }

  /** A counted winner whose stored selector is `…:has-text('text(n)')`: the text is read from
      the selector up to the count, so the result matches that text with any count. */
  lemma CountedHasTextWinner(pre: string, n: string, g: string, name: string, e: Entry, semantic: Option<string>)
    requires Lacks(pre, ':') && n != [] && QuoteFree(n) && ParenFree(n) && Trimmed(n) && IsCountGroup(g)
    requires e.discovery.None? && HasCount(name)
    requires e.selector == Some(pre + HasTextOpen + "'" + n + g + "')")
    ensures WinnerSelector(name, e, semantic) == Selected(Some(CountedSelector(semantic, e.selector.value, n)))
  {
    var b := e.selector.value;
    var tail := g + "')";
    var rest := HasTextOpen + "'" + n + tail;
    assert b == pre + rest;
    assert b[|pre|..|pre| + |HasTextOpen|] == HasTextOpen;
    ContainsAt(b, HasTextOpen, |pre|);
    SearchSkips(pre, rest, LooseHasText);
    LooseHasTextMatches(n, tail);
    StripUnchanged(n);
  }

  /** A winner with a dynamic count and a plain stored selector gets a selector that matches
      its text with any count, whatever count its name was stored with. */
  lemma CountedWinnerIgnoresCount(n: string, g: string, e: Entry, semantic: Option<string>)
    requires ParenFree(n) && Trimmed(n) && IsCountGroup(g)
    requires e.discovery.None? && e.selector.Some? && !Contains(e.selector.value, HasTextOpen)
    ensures WinnerSelector(n + g, e, semantic) == Selected(Some(CountedSelector(semantic, e.selector.value, n)))
  {
    var s := n + g;
    assert s[|s| - 1] == g[|g| - 1];
    RemoveTrailingKindKeepsParen(s);
    HasCountAfterText(n, g);
    RemoveCountsAfterText(n, g);
    StripUnchanged(n);
  }
}
