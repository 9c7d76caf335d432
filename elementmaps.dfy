/** The element map of one page: a version, an ordered dictionary of named entries and a
    statistics record, with the edits the registry applies to it. */
module ElementMaps {
  import opened Wrappers

  /** An ISO-8601 timestamp; the model never looks inside it. */
  type Timestamp = string

  /** The `discovery` record that a healed entry carries. */
  datatype DiscoveryRecord = DiscoveryRecord(discoveryMethod: Option<string>, metadata: map<string, string>, discoveredAt: Timestamp)

  /** One element entry. An absent optional key is `None`; an absent `type` or `description`
      is the empty string, the value every reader substitutes for it. */
  datatype Entry = Entry(
    selector: Option<string>,
    etype: string,
    description: string,
    source: Option<string>,
    query: Option<string>,
    usageCount: nat,
    lastUsed: Option<Timestamp>,
    discoveredAt: Option<Timestamp>,
    discoveredIn: Option<string>,
    discovery: Option<DiscoveryRecord>)

  /** The entry `{}` that healing starts from when no existing key matched. */
  const BlankEntry := Entry(None, "", "", None, None, 0, None, None, None, None)

  /** The `elements` dictionary, in insertion order. */
  type Elements = seq<(string, Entry)>

  datatype Statistics = Statistics(totalElements: nat, parsedElements: nat, discoveredElements: nat)

  /** `version` counts tenths: 10 is "1.0". */
  datatype ElementMap = ElementMap(
    page: string,
    url: string,
    version: nat,
    timestamp: Option<Timestamp>,
    lastUpdated: Option<Timestamp>,
    elements: Elements,
    statistics: Statistics)

  function Names(es: Elements): (ns: seq<string>)
    ensures |ns| == |es| && forall i :: 0 <= i < |es| ==> ns[i] == es[i].0
  {
    seq(|es|, i requires 0 <= i < |es| => es[i].0)
  }

  /** Python dictionaries hold each key once. */
  predicate UniqueNames(es: Elements)
  {
    forall i, j :: 0 <= i < j < |es| ==> es[i].0 != es[j].0
  }

  /** Position of the first entry named `name`. */
  function IndexOf(es: Elements, name: string): (r: Option<nat>)
    ensures r.Some? ==> r.value < |es| && es[r.value].0 == name
    ensures r.Some? ==> forall j :: 0 <= j < r.value ==> es[j].0 != name
    ensures r.None? ==> forall j :: 0 <= j < |es| ==> es[j].0 != name
  {
    if es == [] then None
    else if es[0].0 == name then Some(0)
    else match IndexOf(es[1..], name)
      case None => None
      case Some(i) => Some(i + 1)
  }

  predicate Has(es: Elements, name: string)
  {
    IndexOf(es, name).Some?
  }

  /** `elements.get(name)` */
  function Find(es: Elements, name: string): (r: Option<Entry>)
    ensures r.Some? <==> Has(es, name)
    ensures r.Some? ==> exists i :: 0 <= i < |es| && es[i] == (name, r.value)
  {
    match IndexOf(es, name)
    case None => None
    case Some(i) => Some(es[i].1)
  }

  lemma FindAt(es: Elements, i: nat)
    requires UniqueNames(es) && i < |es|
    ensures Find(es, es[i].0) == Some(es[i].1)
  {
    var k := IndexOf(es, es[i].0);
    assert k.Some?;
  }

  /** `elements[name] = e`: a present key keeps its position, a new key goes last. */
  function Put(es: Elements, name: string, e: Entry): (r: Elements)
    ensures Find(r, name) == Some(e)
    ensures forall k :: k != name ==> Find(r, k) == Find(es, k)
    ensures |r| == if Has(es, name) then |es| else |es| + 1
    ensures forall j :: 0 <= j < |es| ==> r[j].0 == es[j].0
    ensures forall j :: 0 <= j < |es| && es[j].0 != name ==> r[j] == es[j]
    ensures UniqueNames(es) ==> UniqueNames(r)
  {
    match IndexOf(es, name)
    case Some(i) =>
      var r := es[i := (name, e)];
      assert IndexOf(r, name) == Some(i) by { IndexOfSameNames(es, r, name); }
      assert forall k :: k != name ==> IndexOf(r, k) == IndexOf(es, k) by {
        forall k | k != name ensures IndexOf(r, k) == IndexOf(es, k) { IndexOfSameNames(es, r, k); }
      }
      r
    case None =>
      var r := es + [(name, e)];
      assert forall k :: k != name ==> IndexOf(r, k) == IndexOf(es, k) by {
        forall k | k != name ensures IndexOf(r, k) == IndexOf(es, k) { IndexOfAppend(es, name, e, k); }
      }
      IndexOfAppend(es, name, e, name);
      r
  }

  /** `IndexOf` only looks at names. */
  lemma IndexOfSameNames(a: Elements, b: Elements, name: string)
    requires |a| == |b| && forall j :: 0 <= j < |a| ==> a[j].0 == b[j].0
    ensures IndexOf(a, name) == IndexOf(b, name)
  {
    var x, y := IndexOf(a, name), IndexOf(b, name);
    if x.Some? && y.Some? {
      assert !(x.value < y.value) && !(y.value < x.value);
    }
  }

  lemma IndexOfAppend(es: Elements, name: string, e: Entry, k: string)
    ensures IndexOf(es + [(name, e)], k) ==
      if IndexOf(es, k).Some? then IndexOf(es, k) else if k == name then Some(|es|) else None
  {
    var r := es + [(name, e)];
    var x, y := IndexOf(es, k), IndexOf(r, k);
    assert forall j :: 0 <= j < |es| ==> r[j] == es[j];
    assert r[|es|].0 == name;
    if x.Some? {
      assert y.Some?;
      assert !(x.value < y.value) && !(y.value < x.value);
    } else if y.Some? {
      assert y.value == |es|;
    } else {
      assert k != name;
    }
  }

  /** The map `add_element` and `update_with_discovery` create for a page that has none. */
  function NewElementMap(domain: string, page: string, now: Timestamp): (m: ElementMap)
    ensures m.version == 10 && m.elements == [] && m.statistics == Statistics(0, 0, 0)
  {
    ElementMap(page, "https://" + domain, 10, Some(now), None, [], Statistics(0, 0, 0))
  }

  /** The entry `add_element` stores: the caller's data marked as an LLM discovery. */
  function Discovered(data: Entry, testId: string, now: Timestamp): Entry
  {
    data.(source := Some("llm_discovery"), discoveredAt := Some(now), discoveredIn := Some(testId),
          usageCount := 1, lastUsed := Some(now))
  }

  /** The in-memory edit of `add_element`: store the entry under `name`, recount the total,
      count one more discovery and raise the version by a tenth. */
  function WithElement(m: ElementMap, name: string, data: Entry, testId: string, now: Timestamp): (r: ElementMap)
    ensures Find(r.elements, name).Some?
    ensures var e := Find(r.elements, name).value;
      e.source == Some("llm_discovery") && e.usageCount == 1 && e.discoveredIn == Some(testId)
      && e.selector == data.selector && e.etype == data.etype && e.description == data.description
    ensures forall k :: k != name ==> Find(r.elements, k) == Find(m.elements, k)
    ensures r.statistics.totalElements == |r.elements|
    ensures |r.elements| == if Has(m.elements, name) then |m.elements| else |m.elements| + 1
    ensures r.statistics.discoveredElements == m.statistics.discoveredElements + 1
    ensures r.statistics.parsedElements == m.statistics.parsedElements
    ensures r.version == m.version + 1
    ensures r.page == m.page && r.url == m.url
    ensures UniqueNames(m.elements) ==> UniqueNames(r.elements)
  {
    var es := Put(m.elements, name, Discovered(data, testId, now));
    m.(elements := es,
       statistics := m.statistics.(totalElements := |es|, discoveredElements := m.statistics.discoveredElements + 1),
       version := m.version + 1)
  }

  /** The in-memory edit of `update_usage` on a present entry: one more use, a new
      `last_used`; the version and the statistics stay as they are. */
  function RecordUsage(m: ElementMap, name: string, now: Timestamp): (r: ElementMap)
    ensures !Has(m.elements, name) ==> r == m
    ensures Has(m.elements, name) ==>
      var e := Find(m.elements, name).value;
      Find(r.elements, name) == Some(e.(usageCount := e.usageCount + 1, lastUsed := Some(now)))
    ensures forall k :: k != name ==> Find(r.elements, k) == Find(m.elements, k)
    ensures Names(r.elements) == Names(m.elements)
    ensures r.version == m.version && r.statistics == m.statistics
    ensures UniqueNames(m.elements) ==> UniqueNames(r.elements)
  {
    match Find(m.elements, name)
    case None => m
    case Some(e) =>
      var es := Put(m.elements, name, e.(usageCount := e.usageCount + 1, lastUsed := Some(now)));
      m.(elements := es)
  }

  /** `save_map` stamps `last_updated` and nothing else. */
  function Stamp(m: ElementMap, now: Timestamp): (r: ElementMap)
    ensures r.elements == m.elements && r.version == m.version && r.statistics == m.statistics
    ensures r.page == m.page && r.url == m.url && r.timestamp == m.timestamp
    ensures r.lastUpdated == Some(now)
  {
    m.(lastUpdated := Some(now))
  }

  /** `add_element` on a page without a map yields a map holding exactly the new entry, at
      version "1.1", with one element and one discovery counted. */
  lemma AddToNewMap(domain: string, page: string, name: string, data: Entry, testId: string, now: Timestamp)
    ensures var r := WithElement(NewElementMap(domain, page, now), name, data, testId, now);
      r.elements == [(name, Discovered(data, testId, now))] && r.version == 11
      && r.statistics == Statistics(1, 0, 1) && r.url == "https://" + domain
  {
  }

  /** Re-adding a present name overwrites its entry but still counts a discovery. */
  lemma ReAddCountsAgain(m: ElementMap, name: string, data: Entry, testId: string, now: Timestamp)
    requires Has(m.elements, name)
    ensures var r := WithElement(m, name, data, testId, now);
      |r.elements| == |m.elements| && r.statistics.discoveredElements == m.statistics.discoveredElements + 1
      && Find(r.elements, name) == Some(Discovered(data, testId, now))
  {
  }
}
