/** `compare_maps` proper: the difference between a baseline map and the current one, and
    the regression risk it implies. */
module Comparator {
  import opened Wrappers
  import opened ElementMaps

  datatype Removed = Removed(name: string, selector: Option<string>)
  datatype Changed = Changed(name: string, oldSelector: Option<string>, newSelector: Option<string>)
  datatype Added = Added(name: string, selector: Option<string>, source: Option<string>)

  datatype Risk = Low | Medium | High | Critical

  datatype Report = Report(
    baselineVersion: nat,
    currentVersion: nat,
    changed: seq<Changed>,
    added: seq<Added>,
    removed: seq<Removed>,
    unchangedNames: seq<string>,
    riskLevel: Risk,
    breakingChanges: nat)

  /** CRITICAL above 5 breaking changes, HIGH above 2, MEDIUM above 0, else LOW. */
  function RiskLevel(breaking: nat): Risk
  {
    if breaking > 5 then Critical
    else if breaking > 2 then High
    else if breaking > 0 then Medium
    else Low
  }

  /** Baseline entries, in order, whose name the current map lacks. */
  function RemovedOf(b: Elements, c: Elements): seq<Removed>
  {
    if b == [] then []
    else
      var (n, e) := b[|b| - 1];
      RemovedOf(b[..|b| - 1], c) + if !Has(c, n) then [Removed(n, e.selector)] else []
  }

  /** Baseline entries, in order, present in the current map under another selector. */
  function ChangedOf(b: Elements, c: Elements): seq<Changed>
  {
    if b == [] then []
    else
      var (n, e) := b[|b| - 1];
      ChangedOf(b[..|b| - 1], c) +
        if Has(c, n) && e.selector != Find(c, n).value.selector then [Changed(n, e.selector, Find(c, n).value.selector)] else []
  }

  /** Names of baseline entries present in the current map under the same selector. */
  function UnchangedOf(b: Elements, c: Elements): seq<string>
  {
    if b == [] then []
    else
      var (n, e) := b[|b| - 1];
      UnchangedOf(b[..|b| - 1], c) + if Has(c, n) && e.selector == Find(c, n).value.selector then [n] else []
  }

  /** Current entries, in order, whose name the baseline lacks. */
  function AddedOf(c: Elements, b: Elements): seq<Added>
  {
    if c == [] then []
    else
      var (n, e) := c[|c| - 1];
      AddedOf(c[..|c| - 1], b) + if !Has(b, n) then [Added(n, e.selector, e.source)] else []
  }

  function ReportOf(baseline: ElementMap, current: ElementMap): Report
  {
    var b, c := baseline.elements, current.elements;
    var changed, removed := ChangedOf(b, c), RemovedOf(b, c);
    var breaking := |changed| + |removed|;
    Report(baseline.version, current.version, changed, AddedOf(c, b), removed, UnchangedOf(b, c),
           RiskLevel(breaking), breaking)
  }

  /** The two scans of `compare_maps`. */
  method Compare(baseline: ElementMap, current: ElementMap) returns (r: Report)
    ensures r == ReportOf(baseline, current)
  {
    var b, c := baseline.elements, current.elements;
    var changed: seq<Changed> := [];
    var removed: seq<Removed> := [];
    var same: seq<string> := [];
    var i := 0;
    while i < |b|
      invariant 0 <= i <= |b|
      invariant removed == RemovedOf(b[..i], c)
      invariant changed == ChangedOf(b[..i], c)
      invariant same == UnchangedOf(b[..i], c)
    {
      var (n, e) := b[i];
      assert b[..i + 1][..i] == b[..i];
      var found := Find(c, n);
      if found.None? {
        removed := removed + [Removed(n, e.selector)];
      } else if e.selector != found.value.selector {
        changed := changed + [Changed(n, e.selector, found.value.selector)];
      } else {
        same := same + [n];
      }
      i := i + 1;
    }
    assert b[..i] == b;
    var added: seq<Added> := [];
    var j := 0;
    while j < |c|
      invariant 0 <= j <= |c|
      invariant added == AddedOf(c[..j], b)
    {
      var (n, e) := c[j];
      assert c[..j + 1][..j] == c[..j];
      if !Has(b, n) {
        added := added + [Added(n, e.selector, e.source)];
      }
      j := j + 1;
    }
    assert c[..j] == c;
    var breaking := |changed| + |removed|;
    r := Report(baseline.version, current.version, changed, added, removed, same, RiskLevel(breaking), breaking);
  }

  // ---- properties -----------------------------------------------------------------------

  function RemovedNames(rs: seq<Removed>): seq<string>
  {
    seq(|rs|, i requires 0 <= i < |rs| => rs[i].name)
  }

  function ChangedNames(cs: seq<Changed>): seq<string>
  {
    seq(|cs|, i requires 0 <= i < |cs| => cs[i].name)
  }

  function AddedNames(xs: seq<Added>): seq<string>
  {
    seq(|xs|, i requires 0 <= i < |xs| => xs[i].name)
  }

  /** Every baseline entry lands in exactly one of removed, changed and unchanged. */
  lemma {:induction false} PartitionSizes(b: Elements, c: Elements)
    ensures |RemovedOf(b, c)| + |ChangedOf(b, c)| + |UnchangedOf(b, c)| == |b|
  {
    if b != [] {
      PartitionSizes(b[..|b| - 1], c);
    }
  }

  lemma HasSnoc(b: Elements, x: (string, Entry), n: string)
    ensures Has(b + [x], n) <==> Has(b, n) || x.0 == n
    ensures Has(b, n) ==> Find(b + [x], n) == Find(b, n)
    ensures !Has(b, n) && x.0 == n ==> Find(b + [x], n) == Some(x.1)
  {
    IndexOfAppend(b, x.0, x.1, n);
  }

  lemma UniquePrefix(b: Elements)
    requires UniqueNames(b) && b != []
    ensures UniqueNames(b[..|b| - 1]) && !Has(b[..|b| - 1], b[|b| - 1].0)
    ensures b == b[..|b| - 1] + [b[|b| - 1]]
  {
  }

  /** Which list a name lands in, stated through the two maps' lookups. */
  lemma {:induction false} Classify(b: Elements, c: Elements, n: string)
    requires UniqueNames(b)
    ensures n in RemovedNames(RemovedOf(b, c)) <==> Has(b, n) && !Has(c, n)
    ensures n in ChangedNames(ChangedOf(b, c)) <==>
      Has(b, n) && Has(c, n) && Find(b, n).value.selector != Find(c, n).value.selector
    ensures n in UnchangedOf(b, c) <==>
      Has(b, n) && Has(c, n) && Find(b, n).value.selector == Find(c, n).value.selector
  {
    if b != [] {
      var p, x := b[..|b| - 1], b[|b| - 1];
      UniquePrefix(b);
      Classify(p, c, n);
      HasSnoc(p, x, n);
      assert RemovedNames(RemovedOf(b, c)) ==
        RemovedNames(RemovedOf(p, c)) + (if !Has(c, x.0) then [x.0] else []);
      assert ChangedNames(ChangedOf(b, c)) ==
        ChangedNames(ChangedOf(p, c)) +
        (if Has(c, x.0) && x.1.selector != Find(c, x.0).value.selector then [x.0] else []);
    }
  }

  /** Added is exactly the current names the baseline lacks. */
  lemma {:induction false} AddedExactly(c: Elements, b: Elements, n: string)
    ensures n in AddedNames(AddedOf(c, b)) <==> Has(c, n) && !Has(b, n)
  {
    if c != [] {
      var p, x := c[..|c| - 1], c[|c| - 1];
      assert c == p + [x];
      AddedExactly(p, b, n);
      HasSnoc(p, x, n);
      assert AddedNames(AddedOf(c, b)) == AddedNames(AddedOf(p, b)) + (if !Has(b, x.0) then [x.0] else []);
    }
  }

  lemma {:induction false} SelfPrefix(c: Elements, k: nat)
    requires UniqueNames(c) && k <= |c|
    ensures RemovedOf(c[..k], c) == [] && ChangedOf(c[..k], c) == []
    ensures UnchangedOf(c[..k], c) == Names(c[..k])
    ensures AddedOf(c[..k], c) == []
  {
    if k > 0 {
      var p := c[..k];
      assert p[..k - 1] == c[..k - 1];
      SelfPrefix(c, k - 1);
      FindAt(c, k - 1);
      assert Names(p) == Names(c[..k - 1]) + [c[k - 1].0];
    }
  }

  /** Comparing a map with itself, which is what `compare_maps` does without a baseline
      version, reports no change and LOW risk. */
  lemma SelfCompare(m: ElementMap)
    requires UniqueNames(m.elements)
    ensures ReportOf(m, m) == Report(m.version, m.version, [], [], [], Names(m.elements), Low, 0)
  {
    SelfPrefix(m.elements, |m.elements|);
    assert m.elements[..|m.elements|] == m.elements;
  }

  /** One selector changed and one entry removed: two breaking changes, MEDIUM risk. */
  lemma ChangedAndRemovedIsMedium(a: Entry, b: Entry, a2: Entry, c: Entry, v: nat, w: nat)
    requires a.selector != a2.selector
    ensures var baseline := ElementMap("p", "u", v, None, None, [("A", a), ("B", b)], Statistics(2, 0, 0));
      var current := ElementMap("p", "u", w, None, None, [("A", a2), ("C", c)], Statistics(2, 0, 0));
      var r := ReportOf(baseline, current);
      r.removed == [Removed("B", b.selector)] && r.changed == [Changed("A", a.selector, a2.selector)]
      && r.added == [Added("C", c.selector, c.source)] && r.unchangedNames == []
      && r.breakingChanges == 2 && r.riskLevel == Medium
  {
    var bs: Elements := [("A", a), ("B", b)];
    var cs: Elements := [("A", a2), ("C", c)];
    assert bs[..1] == [("A", a)];
    assert cs[..1] == [("A", a2)];
    var b1: Elements := [("A", a)];
    var c1: Elements := [("A", a2)];
    assert b1[..0] == [] && c1[..0] == [];
    assert Find(cs, "A") == Some(a2);
    assert !Has(cs, "B") && !Has(bs, "C") && Has(bs, "A");
    assert ChangedOf(b1[..0], cs) == [];
    assert b1[0] == ("A", a);
    assert ChangedOf(b1, cs) == ChangedOf(b1[..0], cs) + [Changed("A", a.selector, a2.selector)];
    assert RemovedOf(b1, cs) == [] && ChangedOf(b1, cs) == [Changed("A", a.selector, a2.selector)];
    assert UnchangedOf(b1, cs) == [];
    assert RemovedOf(bs, cs) == [Removed("B", b.selector)];
    assert ChangedOf(bs, cs) == [Changed("A", a.selector, a2.selector)];
    assert UnchangedOf(bs, cs) == [];
    assert AddedOf(c1, bs) == [];
    assert AddedOf(cs, bs) == [Added("C", c.selector, c.source)];
  }
}
