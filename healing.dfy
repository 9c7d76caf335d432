/** `update_with_discovery`: the key-matching chain that decides which entry a successful
    discovery heals, and the healed map. */
module Healing {
  import opened Wrappers
  import opened Strings
  import opened ElementMaps

  /** What the agent reports after a successful discovery. */
  datatype DiscoveryData = DiscoveryData(
    name: string,
    originalQuery: string,
    finalSelector: Option<string>,
    discoveryMethod: Option<string>,
    metadata: map<string, string>)

  /** Strategy 3: one name contains the other, ignoring case. */
  predicate FuzzyHit(name: string, key: string)
  {
    Contains(Lower(key), Lower(name)) || Contains(Lower(name), Lower(key))
  }

  /** Strategy 4: the entry was stored for the same query or under the same selector. */
  predicate Seen(e: Entry, d: DiscoveryData)
  {
    e.query == Some(d.originalQuery) || e.selector == d.finalSelector
  }

  /** Position of the first key that fuzzily matches `name`. */
  function FirstFuzzy(es: Elements, name: string): (r: Option<nat>)
    ensures r.Some? ==> r.value < |es| && FuzzyHit(name, es[r.value].0)
    ensures r.Some? ==> forall j :: 0 <= j < r.value ==> !FuzzyHit(name, es[j].0)
    ensures r.None? ==> forall j :: 0 <= j < |es| ==> !FuzzyHit(name, es[j].0)
  {
    if es == [] then None
    else if FuzzyHit(name, es[0].0) then Some(0)
    else match FirstFuzzy(es[1..], name)
      case None => None
      case Some(i) => Some(i + 1)
  }

  /** Position of the first entry `Seen` for this discovery. */
  function FirstSeen(es: Elements, d: DiscoveryData): (r: Option<nat>)
    ensures r.Some? ==> r.value < |es| && Seen(es[r.value].1, d)
    ensures r.Some? ==> forall j :: 0 <= j < r.value ==> !Seen(es[j].1, d)
    ensures r.None? ==> forall j :: 0 <= j < |es| ==> !Seen(es[j].1, d)
  {
    if es == [] then None
    else if Seen(es[0].1, d) then Some(0)
    else match FirstSeen(es[1..], d)
      case None => None
      case Some(i) => Some(i + 1)
  }

  /** Strategies 1 to 3, tried in order: the exact name, the original query as a key (when it
      is not empty), the first fuzzy match. */
  function StrategyKey(es: Elements, d: DiscoveryData): Option<string>
  {
    if Has(es, d.name) then Some(d.name)
    else if d.originalQuery != "" && Has(es, d.originalQuery) then Some(d.originalQuery)
    else match FirstFuzzy(es, d.name)
      case Some(i) => Some(es[i].0)
      case None => None
  }

  /** Strategy 4 runs when strategies 1 to 3 found no key, or found the empty key, which the
      source's truth test treats as no key. */
  function ExistingKey(es: Elements, d: DiscoveryData): Option<string>
  {
    var s := StrategyKey(es, d);
    if s.Some? && s.value != "" then s
    else match FirstSeen(es, d)
      case Some(i) => Some(es[i].0)
      case None => None
  }

  datatype HealTarget = Update(key: string) | Create(key: string)

  /** The key that is healed: an existing non-empty key, else a new entry under the name. */
  function Target(es: Elements, d: DiscoveryData): (t: HealTarget)
    ensures t.Update? ==> Has(es, t.key) && t.key != ""
    ensures t.Create? ==> t.key == d.name
    ensures d.name != "" && Has(es, d.name) ==> t == Update(d.name)
    ensures d.name != "" && t.Create? ==> !Has(es, d.name)
    ensures t.Create? && !Has(es, "") ==> FirstFuzzy(es, d.name).None? && FirstSeen(es, d).None?
    ensures !Has(es, d.name) && d.originalQuery != "" && Has(es, d.originalQuery) ==> t == Update(d.originalQuery)
    ensures (d.name != "" || !Has(es, d.name)) && t.Create? && d.originalQuery != "" ==> !Has(es, d.originalQuery)
    ensures !Has(es, d.name) && !(d.originalQuery != "" && Has(es, d.originalQuery))
            && FirstFuzzy(es, d.name).Some? && es[FirstFuzzy(es, d.name).value].0 != ""
            ==> t == Update(es[FirstFuzzy(es, d.name).value].0)
    ensures !Has(es, d.name) && !(d.originalQuery != "" && Has(es, d.originalQuery)) && FirstFuzzy(es, d.name).None?
            && FirstSeen(es, d).Some? && es[FirstSeen(es, d).value].0 != ""
            ==> t == Update(es[FirstSeen(es, d).value].0)
  {
    var k := ExistingKey(es, d);
    if k.Some? && k.value != "" then Update(k.value) else Create(d.name)
  }

  /** The fields a discovery writes over an entry (`element.update({...})`). */
  function HealedEntry(e: Entry, d: DiscoveryData, now: Timestamp): Entry
  {
    e.(query := Some(d.originalQuery), selector := d.finalSelector, etype := "discovered",
       discovery := Some(DiscoveryRecord(d.discoveryMethod, d.metadata, now)),
       usageCount := e.usageCount + 1, lastUsed := Some(now))
  }

  /** Writes the discovery into the entry `t` names and updates the statistics and version. */
  function Apply(m: ElementMap, t: HealTarget, d: DiscoveryData, now: Timestamp): ElementMap
    requires t.Update? ==> Has(m.elements, t.key)
  {
    var before := if t.Update? then Find(m.elements, t.key).value else BlankEntry;
    var es := Put(m.elements, t.key, HealedEntry(before, d, now));
    m.(elements := es,
       statistics := m.statistics.(
         discoveredElements := m.statistics.discoveredElements + (if t.Create? then 1 else 0),
         totalElements := |es|),
       version := m.version + 1)
  }

  /** The in-memory edit of `update_with_discovery` on the page's map: only the chosen entry
      changes, and it carries the discovery. */
  function Heal(m: ElementMap, d: DiscoveryData, now: Timestamp): (r: ElementMap)
    ensures var t := Target(m.elements, d);
      var before := if t.Update? then Find(m.elements, t.key).value else BlankEntry;
      Find(r.elements, t.key) == Some(HealedEntry(before, d, now))
      && (forall k :: k != t.key ==> Find(r.elements, k) == Find(m.elements, k))
      && r.statistics.discoveredElements == m.statistics.discoveredElements + (if t.Create? then 1 else 0)
    ensures r.statistics.totalElements == |r.elements|
    ensures r.statistics.parsedElements == m.statistics.parsedElements
    ensures r.version == m.version + 1
    ensures r.page == m.page && r.url == m.url
    ensures UniqueNames(m.elements) ==> UniqueNames(r.elements)
  {
    Apply(m, Target(m.elements, d), d, now)
  }

  /** The edit of `update_with_discovery`, with the scanning strategies run as loops. */
  method HealMap(m: ElementMap, d: DiscoveryData, now: Timestamp) returns (r: ElementMap)
    requires UniqueNames(m.elements)
    ensures r == Heal(m, d, now) && UniqueNames(r.elements)
  {
    var t := MatchExistingKey(m.elements, d);
    r := Apply(m, t, d, now);
  }

  /** Strategies 1 to 3; strategy 3 scans the entries in order and stops at the first hit. */
  method MatchStrategyKey(es: Elements, d: DiscoveryData) returns (existing: Option<string>)
    ensures existing == StrategyKey(es, d)
  {
    if Has(es, d.name) {
      return Some(d.name);
    } else if d.originalQuery != "" && Has(es, d.originalQuery) {
      return Some(d.originalQuery);
    }
    existing := None;
    var i := 0;
    while i < |es|
      invariant 0 <= i <= |es|
      invariant forall j :: 0 <= j < i ==> !FuzzyHit(d.name, es[j].0)
    {
      if FuzzyHit(d.name, es[i].0) {
        assert FirstFuzzy(es, d.name) == Some(i);
        return Some(es[i].0);
      }
      i := i + 1;
    }
  }

  /** Strategy 4 scans the entries in order and stops at the first that has seen the discovery. */
  method MatchExistingKey(es: Elements, d: DiscoveryData) returns (t: HealTarget)
    ensures t == Target(es, d)
  {
    var existing := MatchStrategyKey(es, d);
    if existing.None? || existing.value == "" {
      var i := 0;
      while i < |es|
        invariant 0 <= i <= |es|
        invariant existing == StrategyKey(es, d)
        invariant forall j :: 0 <= j < i ==> !Seen(es[j].1, d)
      {
        if Seen(es[i].1, d) {
          existing := Some(es[i].0);
          assert FirstSeen(es, d) == Some(i);
          break;
        }
        i := i + 1;
      }
    }
    assert existing.Some? && existing.value != "" ==> existing == ExistingKey(es, d);
    if existing.Some? && existing.value != "" {
      t := Update(existing.value);
    } else {
      t := Create(d.name);
    }
  }

  // ---- properties -----------------------------------------------------------------------

  /** A discovery is counted exactly when no existing key matched; the map gains an entry
      when, in addition, the name is not already a key (it can be: the empty name is a key
      that the matching treats as no match, and the creation overwrites it). */
  lemma HealGrowsOnlyOnCreate(m: ElementMap, d: DiscoveryData, now: Timestamp)
    ensures var r := Heal(m, d, now);
      var created := Target(m.elements, d).Create?;
      (|r.elements| == |m.elements| + 1 <==> created && !Has(m.elements, d.name))
      && (r.statistics.discoveredElements == m.statistics.discoveredElements + 1 <==> created)
      && (!created ==> Names(r.elements) == Names(m.elements))
  {
    var t := Target(m.elements, d);
    var r := Heal(m, d, now);
    var before := if t.Update? then Find(m.elements, t.key).value else BlankEntry;
    assert r == Apply(m, t, d, now);
    assert r.elements == Put(m.elements, t.key, HealedEntry(before, d, now));
  }

  lemma FirstFuzzySameNames(a: Elements, b: Elements, name: string)
    requires |a| == |b| && forall j :: 0 <= j < |a| ==> a[j].0 == b[j].0
    ensures FirstFuzzy(a, name) == FirstFuzzy(b, name)
  {
    var x, y := FirstFuzzy(a, name), FirstFuzzy(b, name);
    if x.Some? && y.Some? {
      assert !(x.value < y.value) && !(y.value < x.value);
    }
  }

  lemma StrategyKeySameNames(a: Elements, b: Elements, d: DiscoveryData)
    requires |a| == |b| && forall j :: 0 <= j < |a| ==> a[j].0 == b[j].0
    ensures StrategyKey(a, d) == StrategyKey(b, d)
  {
    IndexOfSameNames(a, b, d.name);
    IndexOfSameNames(a, b, d.originalQuery);
    FirstFuzzySameNames(a, b, d.name);
  }

  /** When strategy 4 chose the key, the healed entry is still the first that has seen the
      discovery. */
  lemma SeenFirstAfterHeal(m: ElementMap, d: DiscoveryData, now: Timestamp)
    requires Target(m.elements, d).Update?
    requires var s := StrategyKey(m.elements, d); !(s.Some? && s.value != "")
    ensures var k := Target(m.elements, d).key;
      FirstSeen(Heal(m, d, now).elements, d) == IndexOf(m.elements, k)
  {
    var es := m.elements;
    var t := Target(es, d);
    var k := t.key;
    var i := FirstSeen(es, d).value;
    assert es[i].0 == k;
    var before := Find(es, k).value;
    assert Heal(m, d, now).elements == Put(es, k, HealedEntry(before, d, now));
    FirstSeenAtPut(es, k, HealedEntry(before, d, now), d);
  }

  /** Writing an entry that has seen the discovery over the first entry that had seen it keeps
      the position of the first one that has. */
  lemma FirstSeenAtPut(es: Elements, k: string, e: Entry, d: DiscoveryData)
    requires Seen(e, d) && FirstSeen(es, d).Some? && es[FirstSeen(es, d).value].0 == k
    ensures FirstSeen(Put(es, k, e), d) == IndexOf(es, k)
  {
    var es2 := Put(es, k, e);
    var idx := IndexOf(es, k).value;
    assert IndexOf(es2, k) == Some(idx) by { IndexOfSameNames(es, es2, k); }
    assert es2[idx].1 == e;
    assert forall j :: 0 <= j < idx ==> es2[j] == es[j];
  }

  /** Healing an existing entry keeps the entry's name where it was, so the key is found again. */
  lemma HealUpdateSameKey(m: ElementMap, d: DiscoveryData, now: Timestamp)
    requires d.name != "" && Target(m.elements, d).Update?
    ensures Target(Heal(m, d, now).elements, d) == Target(m.elements, d)
  {
    var es := m.elements;
    var es2 := Heal(m, d, now).elements;
    var k := Target(es, d).key;
    HealGrowsOnlyOnCreate(m, d, now);
    assert |es2| == |es| && forall j :: 0 <= j < |es| ==> es2[j].0 == es[j].0 by {
      forall j | 0 <= j < |es| ensures es2[j].0 == es[j].0 {
        assert Names(es2)[j] == Names(es)[j];
      }
    }
    StrategyKeySameNames(es, es2, d);
    var s := StrategyKey(es, d);
    if s.Some? && s.value != "" {
      assert ExistingKey(es2, d) == s;
    } else {
      SeenFirstAfterHeal(m, d, now);
      var idx := IndexOf(es, k).value;
      assert es2[idx].0 == k;
      assert ExistingKey(es2, d) == Some(k);
    }
  }

  /** Healing stays on the key it chose: the healed entry now has the query, so a second
      report of the same discovery finds the same key and adds nothing. */
  lemma HealTwiceSameKey(m: ElementMap, d: DiscoveryData, now1: Timestamp, now2: Timestamp)
    requires d.name != ""
    ensures var r := Heal(m, d, now1);
      Target(r.elements, d) == Update(Target(m.elements, d).key)
      && |Heal(r, d, now2).elements| == |r.elements|
  {
    var r := Heal(m, d, now1);
    HealGrowsOnlyOnCreate(m, d, now1);
    if Target(m.elements, d).Create? {
      assert Has(r.elements, d.name);
    } else {
      HealUpdateSameKey(m, d, now1);
    }
    HealGrowsOnlyOnCreate(r, d, now2);
  }
}
