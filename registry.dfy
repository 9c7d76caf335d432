/** `ElementRegistry`: element maps stored per page, an in-memory cache of loaded maps, and
    baseline snapshots for regression comparison. */
module Registry {
  import opened Wrappers
  import opened Strings
  import opened ElementMaps
  import opened Healing
  import opened Comparator

  /** Where a page's map lives: the cleaned domain's directory and the file name. */
  datatype MapFile = MapFile(domainDir: string, fileName: string)

  /** The domain with every `https://`, then `http://`, then `#/` removed. */
  function CleanDomain(domain: string): string
  {
    ReplaceAll(ReplaceAll(ReplaceAll(domain, "https://", ""), "http://", ""), "#/", "")
  }

  function MapPath(domain: string, page: string): MapFile
  {
    MapFile(CleanDomain(domain), page + "_page.json")
  }

  /** The cache is keyed by the domain as given, not the cleaned one. */
  function CacheKey(domain: string, page: string): string
  {
    domain + ":" + page
  }

  /** A snapshot in the domain's `versions` directory, named by page and version. */
  datatype BaselineKey = BaselineKey(domain: string, page: string, version: nat)

  type Store = map<MapFile, ElementMap>
  type Cache = map<string, ElementMap>

  /** The cache after `load_map`: a map found on file replaces the cached one. */
  function Loaded(cache: Cache, files: Store, domain: string, page: string): Cache
  {
    var path := MapPath(domain, page);
    if path in files then cache[CacheKey(domain, page) := files[path]] else cache
  }

  /** The cache after `get_element`, which loads only on a cache miss. */
  function Warmed(cache: Cache, files: Store, domain: string, page: string): Cache
  {
    if CacheKey(domain, page) in cache then cache else Loaded(cache, files, domain, page)
  }

  /** The map that `add_element` and `update_with_discovery` edit: the cached one, else the
      one on file, else a new one. */
  function Working(cache: Cache, files: Store, domain: string, page: string, now: Timestamp): ElementMap
  {
    var key, path := CacheKey(domain, page), MapPath(domain, page);
    if key in cache then cache[key] else if path in files then files[path] else NewElementMap(domain, page, now)
  }

  /** The cache and files after `update_usage`: nothing but the warm-up when the element is
      absent, otherwise the element's use recorded and the map saved. */
  function UsageEffect(cache: Cache, files: Store, domain: string, page: string, name: string, now: Timestamp): (Cache, Store)
  {
    var c1 := Warmed(cache, files, domain, page);
    var key := CacheKey(domain, page);
    if key in c1 && Has(c1[key].elements, name) then
      var m := Stamp(RecordUsage(c1[key], name, now), now);
      (c1[key := m], files[MapPath(domain, page) := m])
    else (c1, files)
  }

  /** The result of `compare_maps`. Without a version the baseline is the current file. */
  function CompareOutcome(files: Store, baselines: map<BaselineKey, ElementMap>, domain: string, page: string,
                          baselineVersion: Option<nat>): Result<Report, string>
  {
    var path := MapPath(domain, page);
    if path !in files then Failure("Current map not found")
    else
      var baseline := match baselineVersion
        case None => Some(files[path])
        case Some(v) => if BaselineKey(domain, page, v) in baselines then Some(baselines[BaselineKey(domain, page, v)]) else None;
      match baseline
      case None => Failure("Baseline map not found")
      case Some(b) => Success(ReportOf(b, files[path]))
  }

  predicate UniqueCache(c: Cache)
  {
    forall k :: k in c ==> UniqueNames(c[k].elements)
  }

  predicate UniqueStore(s: Store)
  {
    forall p :: p in s ==> UniqueNames(s[p].elements)
  }

  predicate UniqueBaselines(s: map<BaselineKey, ElementMap>)
  {
    forall p :: p in s ==> UniqueNames(s[p].elements)
  }

  /** A second write under the same key overwrites the first. */
  lemma Overwritten(c: Cache, k: string, a: ElementMap, b: ElementMap)
    ensures c[k := a][k := b] == c[k := b]
  {
  }

  class ElementRegistry {
    var cache: Cache
    var files: Store
    var baselines: map<BaselineKey, ElementMap>

    /** Every stored map is a dictionary: its element names are distinct. */
    predicate Valid()
      reads this
    {
      UniqueCache(cache) && UniqueStore(files) && UniqueBaselines(baselines)
    }

    /** A registry over the maps already on file, with nothing cached. */
    constructor(files0: Store, baselines0: map<BaselineKey, ElementMap>)
      requires UniqueStore(files0) && UniqueBaselines(baselines0)
      ensures Valid()
      ensures cache == map[] && files == files0 && baselines == baselines0
    {
      cache := map[];
      files := files0;
      baselines := baselines0;
    }

    method LoadMap(domain: string, page: string) returns (r: Option<ElementMap>)
      requires Valid()
      modifies this`cache
      ensures Valid()
      ensures var path := MapPath(domain, page);
        r == if path in files then Some(files[path]) else None
      ensures cache == Loaded(old(cache), files, domain, page)
    {
      var path := MapPath(domain, page);
      if path !in files {
        return None;
      }
      r := Some(files[path]);
      cache := cache[CacheKey(domain, page) := files[path]];
    }

    method SaveMap(domain: string, page: string, m: ElementMap, now: Timestamp)
      requires Valid() && UniqueNames(m.elements)
      modifies this`cache, this`files
      ensures Valid()
      ensures files == old(files)[MapPath(domain, page) := Stamp(m, now)]
      ensures cache == old(cache)[CacheKey(domain, page) := Stamp(m, now)]
    {
      var stamped := Stamp(m, now);
      files := files[MapPath(domain, page) := stamped];
      cache := cache[CacheKey(domain, page) := stamped];
    }

    method GetElement(domain: string, page: string, name: string) returns (r: Option<Entry>)
      requires Valid()
      modifies this`cache
      ensures Valid()
      ensures cache == Warmed(old(cache), files, domain, page)
      ensures var key := CacheKey(domain, page);
        r == if key in cache then Find(cache[key].elements, name) else None
    {
      var key := CacheKey(domain, page);
      if key !in cache {
        var loaded := LoadMap(domain, page);
      }
      if key !in cache {
        return None;
      }
      r := Find(cache[key].elements, name);
    }

    /** The map an edit starts from, cached under its key: loaded on a cache miss, and a new
        map when there is none on file either. */
    method WorkingMap(domain: string, page: string, now: Timestamp) returns (m: ElementMap)
      requires Valid()
      modifies this`cache
      ensures Valid() && UniqueNames(m.elements)
      ensures m == Working(old(cache), files, domain, page, now)
      ensures cache == old(cache)[CacheKey(domain, page) := m]
    {
      var key := CacheKey(domain, page);
      if key !in cache {
        var loaded := LoadMap(domain, page);
        if loaded.None? {
          cache := cache[key := NewElementMap(domain, page, now)];
        }
      }
      m := cache[key];
    }

    method AddElement(domain: string, page: string, name: string, data: Entry, testId: string, now: Timestamp)
      requires Valid()
      modifies this`cache, this`files
      ensures Valid()
      ensures var m := Stamp(WithElement(Working(old(cache), old(files), domain, page, now), name, data, testId, now), now);
        cache == old(cache)[CacheKey(domain, page) := m] && files == old(files)[MapPath(domain, page) := m]
    {
      var m := WorkingMap(domain, page, now);
      SaveMap(domain, page, WithElement(m, name, data, testId, now), now);
      Overwritten(old(cache), CacheKey(domain, page), m, Stamp(WithElement(m, name, data, testId, now), now));
    }

    method UpdateUsage(domain: string, page: string, name: string, now: Timestamp)
      requires Valid()
      modifies this`cache, this`files
      ensures Valid()
      ensures (cache, files) == UsageEffect(old(cache), old(files), domain, page, name, now)
    {
      var e := GetElement(domain, page, name);
      if e.None? {
        return;
      }
      var key := CacheKey(domain, page);
      if key in cache {
        SaveMap(domain, page, RecordUsage(cache[key], name, now), now);
      }
    }

    method UpdateWithDiscovery(domain: string, page: string, d: DiscoveryData, now: Timestamp)
      requires Valid()
      modifies this`cache, this`files
      ensures Valid()
      ensures var m := Stamp(Heal(Working(old(cache), old(files), domain, page, now), d, now), now);
        cache == old(cache)[CacheKey(domain, page) := m] && files == old(files)[MapPath(domain, page) := m]
    {
      var m := WorkingMap(domain, page, now);
      var healed := HealMap(m, d, now);
      SaveMap(domain, page, healed, now);
      Overwritten(old(cache), CacheKey(domain, page), m, Stamp(healed, now));
    }

    method CompareMaps(domain: string, page: string, baselineVersion: Option<nat>) returns (r: Result<Report, string>)
      requires Valid()
      modifies this`cache
      ensures Valid()
      ensures cache == Loaded(old(cache), files, domain, page)
      ensures r == CompareOutcome(files, baselines, domain, page, baselineVersion)
    {
      var current := LoadMap(domain, page);
      if current.None? {
        return Failure("Current map not found");
      }
      var baseline: Option<ElementMap>;
      match baselineVersion {
        case Some(v) =>
          var bk := BaselineKey(domain, page, v);
          baseline := if bk in baselines then Some(baselines[bk]) else None;
        case None =>
          var path := MapPath(domain, page);
          baseline := if path in files then Some(files[path]) else None;
      }
      if baseline.None? {
        return Failure("Baseline map not found");
      }
      var report := Compare(baseline.value, current.value);
      r := Success(report);
    }

    method CreateBaseline(domain: string, page: string) returns (k: Option<BaselineKey>)
      requires Valid()
      modifies this`cache, this`baselines
      ensures Valid()
      ensures cache == Loaded(old(cache), files, domain, page)
      ensures var path := MapPath(domain, page);
        if path in files then
          k == Some(BaselineKey(domain, page, files[path].version)) && baselines == old(baselines)[k.value := files[path]]
        else
          k.None? && baselines == old(baselines)
    {
      var current := LoadMap(domain, page);
      if current.None? {
        return None;
      }
      var key := BaselineKey(domain, page, current.value.version);
      baselines := baselines[key := current.value];
      k := Some(key);
    }
  }

  // ---- properties -----------------------------------------------------------------------

  lemma {:induction false} ReplaceAllKeepsPrefix(p: string, s: string, pat: string, rep: string)
    requires pat != []
    requires forall i :: 0 <= i < |p| ==> !StartsWith((p + s)[i..], pat)
    ensures ReplaceAll(p + s, pat, rep) == p + ReplaceAll(s, pat, rep)
  {
    if p == [] {
      assert p + s == s;
    } else {
      var t := p + s;
      assert t[0..] == t;
      assert !StartsWith(t, pat);
      assert t[0] == p[0];
      assert t[1..] == p[1..] + s;
      forall i | 0 <= i < |p[1..]| ensures !StartsWith((p[1..] + s)[i..], pat) {
        assert (p[1..] + s)[i..] == t[i + 1..];
      }
      ReplaceAllKeepsPrefix(p[1..], s, pat, rep);
      assert ReplaceAll(t, pat, rep) == [p[0]] + ReplaceAll(t[1..], pat, rep);
      assert p == [p[0]] + p[1..];
    }
  }

  /** A URL scheme in front of the domain does not change where the map is stored. */
  lemma MapPathIgnoresScheme(domain: string, page: string)
    ensures MapPath("https://" + domain, page) == MapPath(domain, page)
    ensures MapPath("http://" + domain, page) == MapPath(domain, page)
  {
    var s := "https://" + domain;
    assert StartsWith(s, "https://") && s[8..] == domain;
    assert ReplaceAll(s, "https://", "") == ReplaceAll(domain, "https://", "");
    assert CleanDomain(s) == CleanDomain(domain);
    var h := "http://";
    forall i | 0 <= i < |h| ensures !StartsWith((h + domain)[i..], "https://") {
      var t := (h + domain)[i..];
      if i == 0 { assert t[4] == ':'; } else { assert t[0] == h[i]; }
    }
    ReplaceAllKeepsPrefix(h, domain, "https://", "");
    var x := ReplaceAll(domain, "https://", "");
    assert ReplaceAll(h + domain, "https://", "") == h + x;
    assert StartsWith(h + x, "http://") && (h + x)[7..] == x;
    assert ReplaceAll(h + x, "http://", "") == ReplaceAll(x, "http://", "");
    assert CleanDomain(h + domain) == CleanDomain(domain);
  }

  /** Two spellings of a domain, with and without a scheme, share a file but not a cache
      slot, so one of them can see a stale cached map. */
  lemma SchemeSpellingsShareFileOnly(domain: string, page: string)
    ensures MapPath("https://" + domain, page) == MapPath(domain, page)
    ensures CacheKey("https://" + domain, page) != CacheKey(domain, page)
  {
    MapPathIgnoresScheme(domain, page);
    assert |CacheKey("https://" + domain, page)| != |CacheKey(domain, page)|;
  }

  /** Distinct pages of a domain have distinct files. */
  lemma MapPathSeparatesPages(domain: string, p1: string, p2: string)
    requires MapPath(domain, p1) == MapPath(domain, p2)
    ensures p1 == p2
  {
    var f1, f2 := p1 + "_page.json", p2 + "_page.json";
    assert f1 == f2;
    assert |p1| == |p2|;
    assert p1 == f1[..|p1|] && p2 == f2[..|p2|];
  }

  /** `compare_maps` without a version compares the current file with itself. */
  lemma CompareWithoutVersion(files: Store, baselines: map<BaselineKey, ElementMap>, domain: string, page: string)
    requires UniqueStore(files)
    ensures var path := MapPath(domain, page);
      CompareOutcome(files, baselines, domain, page, None) ==
        if path in files then
          var m := files[path];
          Success(Report(m.version, m.version, [], [], [], Names(m.elements), Low, 0))
        else Failure("Current map not found")
  {
    var path := MapPath(domain, page);
    if path in files {
      SelfCompare(files[path]);
    }
  }

  /** A baseline taken by `create_baseline` compares with the unchanged map as LOW risk. */
  lemma BaselineOfCurrentIsLowRisk(files: Store, baselines: map<BaselineKey, ElementMap>, domain: string, page: string)
    requires UniqueStore(files) && MapPath(domain, page) in files
    ensures var m := files[MapPath(domain, page)];
      var k := BaselineKey(domain, page, m.version);
      CompareOutcome(files, baselines[k := m], domain, page, Some(m.version)) ==
        Success(Report(m.version, m.version, [], [], [], Names(m.elements), Low, 0))
  {
    SelfCompare(files[MapPath(domain, page)]);
  }
}
