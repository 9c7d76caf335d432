# Element registry and selector resolution, in Dafny

This project models the self-healing element registry of a Playwright test agent.

The registry stores one *element map* per page. A map names UI elements and gives each a
Playwright selector, a usage count and timestamps. The agent consults the registry before it
searches the live page.

- `utils/element_registry.py` is the registry: map paths, loading and saving through a cache,
  lookup, adding elements, recording usage, healing from a discovery, comparing against a
  baseline and snapshotting a baseline.
- `agent/bedrock_playwright_agent.py` holds the registry lookup the agent runs for a
  natural-language description (exact key, then keyword scoring), the selector normaliser for
  dynamic counts, the file-name sanitiser, the domain/page split of a URL, the parse of an LLM
  answer into a candidate index, the final-selector ladder, and the two lists the agent appends to.

Modules:

- `Wrappers`: `Option` and `Result`.
- `Strings`: Python string operations on `seq<char>` (`replace`, `strip`, `split`, `lower`,
  `startswith`, `in`).
- `Patterns`: hand-written matchers for the regular expressions the source uses (`re.search`
  is `Search`, one match attempt is `MatchAt`).
- `ElementMaps`: the map data model. `elements` is an ordered list of (name, entry) pairs with
  dictionary update (`Put`), and the version is counted in tenths (`10` is `"1.0"`).
- `Healing`: the four key-matching strategies of `update_with_discovery` and the resulting update.
- `Comparator`: `compare_maps`' classification and risk level.
- `Registry`: class `ElementRegistry`. Its fields are the cache of loaded maps, the map files and
  the baseline files. Its methods change them as the source does.
- `Resolver`: the keyword scoring and winner selection of `_check_element_registry`.
- `Agent`: the sanitiser, URL split, LLM index parse and final-selector ladder. It also holds class
  `PlaywrightAgent` with the lookup and the two lists.

`update_usage` does not increment the map version (`utils/element_registry.py:127-140`); every
other writer does.

## Model

| member | source | states |
|---|---|---|
| Registry.CleanDomain | utils/element_registry.py:23 | specification function: every `https://`, then `http://`, then `#/` removed, one pass each; `Registry.MapPathIgnoresScheme` proves a scheme does not matter |
| Registry.MapPath | utils/element_registry.py:20-26 | specification function: the cleaned domain's directory and `{page}_page.json`; characterised by `Registry.MapPathIgnoresScheme` and `Registry.MapPathSeparatesPages` |
| Registry.MapPathIgnoresScheme | utils/element_registry.py:20-26 | a domain with or without an `https://` or `http://` prefix maps to the same directory and file |
| Registry.SchemeSpellingsShareFileOnly | utils/element_registry.py:20-26 | two spellings of a domain share a map file but not a cache slot, because the cache key uses the raw domain |
| Registry.MapPathSeparatesPages | utils/element_registry.py:20-26 | different pages of one domain have different map files |
| Registry.ReplaceAllKeepsPrefix | utils/element_registry.py:23 | replacing in a string with a pattern-free prefix leaves that prefix in place |
| Registry.ElementRegistry.LoadMap | utils/element_registry.py:28-46 | returns the file's map exactly when the file exists; a found map replaces the cached one; the files are unchanged |
| Registry.ElementRegistry.SaveMap | utils/element_registry.py:48-63 | the stamped map is written to the file and to the cache slot, and nothing else changes |
| Registry.ElementRegistry.GetElement | utils/element_registry.py:65-77 | loads only on a cache miss, then returns the element stored under the name, or None when the map or the element is missing |
| Registry.ElementRegistry.WorkingMap | utils/element_registry.py:84-100 | the map edited is the cached one, else the one on file, else a new version-1.0 map; it is cached; element names stay unique |
| Registry.ElementRegistry.AddElement | utils/element_registry.py:79-125 | file and cache both receive the working map with the element stored under its name, the statistics and version bumped and the timestamp set |
| Registry.ElementRegistry.UpdateUsage | utils/element_registry.py:127-140 | a present element has its usage count incremented and its last-used time set, and the map is saved without a version bump; otherwise only the warm-up happens |
| Registry.ElementRegistry.UpdateWithDiscovery | utils/element_registry.py:142-259 | file and cache both receive the healed working map, stamped |
| Registry.ElementRegistry.CompareMaps | utils/element_registry.py:261-336 | reports "Current map not found" or "Baseline map not found", else the comparison of the baseline (the current file when no version is given) with the current map |
| Registry.ElementRegistry.CreateBaseline | utils/element_registry.py:338-360 | without a current map nothing is written and None is returned; otherwise the map is copied to the snapshot named by its version, and that name is returned |
| Registry.CompareWithoutVersion | utils/element_registry.py:270-276 | comparing with no version compares the current map with itself: low risk, nothing removed, changed or added |
| Registry.BaselineOfCurrentIsLowRisk | utils/element_registry.py:338-360 | right after a baseline is created, comparing against that version reports low risk and no breaking change |
| ElementMaps.IndexOf | utils/element_registry.py:65-77 | returns the first position holding the name, or None exactly when no entry has the name |
| ElementMaps.Find | utils/element_registry.py:65-77 | returns an entry exactly when the name is present, and it is the entry stored under the name |
| ElementMaps.FindAt | utils/element_registry.py:65-77 | with unique names, the entry at any position is the one found under its name |
| ElementMaps.Put | utils/element_registry.py:232 | dictionary assignment: the name maps to the new entry, every other name keeps its entry, an existing key keeps its position and a new one is appended, and uniqueness is kept |
| ElementMaps.NewElementMap | utils/element_registry.py:84-100 | a new map has version 1.0, no elements and zero statistics |
| ElementMaps.WithElement | utils/element_registry.py:102-120 | stores the discovered entry under the name and leaves the other names alone; total equals the element count; the discovered count and version go up by one |
| ElementMaps.RecordUsage | utils/element_registry.py:133-138 | only the named entry changes: its usage count goes up by one and its last-used time is set; an absent name leaves the map as it is; version and statistics are unchanged |
| ElementMaps.Stamp | utils/element_registry.py:54 | only the map's last-updated time changes: elements, version, statistics, page, url and creation timestamp are kept |
| ElementMaps.AddToNewMap | utils/element_registry.py:79-125 | adding to a new map gives a one-element map with version 1.1 and one discovered element |
| ElementMaps.ReAddCountsAgain | utils/element_registry.py:115-116 | re-adding an existing name keeps the element count yet increments the discovered count |
| Healing.FirstFuzzy | utils/element_registry.py:195-202 | the first key that contains the lower-cased name or is contained in it, with no earlier such key |
| Healing.FirstSeen | utils/element_registry.py:204-210 | the first entry whose query or selector equals the discovery's, with no earlier such entry |
| Healing.StrategyKey | utils/element_registry.py:184-202 | specification function: strategies 1 to 3 in order; `Healing.MatchStrategyKey` is proved equal to it and `Healing.Target` states its precedence |
| Healing.ExistingKey | utils/element_registry.py:184-210 | specification function: strategy 4 when strategies 1 to 3 give no non-empty key; `Healing.Target` states its precedence |
| Healing.HealedEntry | utils/element_registry.py:227-239 | specification function: the fields `element.update` writes, with the usage count incremented; `Healing.Heal` states where it is stored |
| Healing.Apply | utils/element_registry.py:213-251 | specification function: store the healed entry under the target key and update statistics and version; characterised by `Healing.Heal` |
| Healing.Target | utils/element_registry.py:184-225 | an update targets a present non-empty key; a creation uses the discovery's name; the strategies take precedence in order: an exact (non-empty) name, then the original query as a key, then the first fuzzy key, then the first entry that has seen the discovery; a creation (with a non-empty name or no empty key) means the original query is not a key |
| Healing.Heal | utils/element_registry.py:213-251 | the target entry is replaced by the healed entry; the discovered count goes up only on creation; total equals the element count; the version goes up by one |
| Healing.MatchStrategyKey | utils/element_registry.py:184-202 | strategies 1 to 3 (exact name, original query, first fuzzy key) compute the strategy key |
| Healing.MatchExistingKey | utils/element_registry.py:184-225 | the scan of all four strategies yields the target |
| Healing.HealMap | utils/element_registry.py:213-251 | the heal applied to the matched target, keeping names unique |
| Healing.HealGrowsOnlyOnCreate | utils/element_registry.py:213-247 | for every input: a discovery is counted exactly on creation; the element count grows by one exactly on creation of a name that is not yet a key; an update keeps the names |
| Healing.FirstFuzzySameNames | utils/element_registry.py:195-202 | fuzzy matching depends only on the keys, not the entries |
| Healing.StrategyKeySameNames | utils/element_registry.py:184-202 | strategies 1 to 3 depend only on the keys |
| Healing.FirstSeenAtPut | utils/element_registry.py:204-210 | after storing a discovered entry under a key no earlier entry has seen, strategy 4 finds that key |
| Healing.SeenFirstAfterHeal | utils/element_registry.py:204-232 | when strategy 4 chose the key, it chooses the same key after the heal |
| Healing.HealUpdateSameKey | utils/element_registry.py:184-232 | healing an existing element targets the same key when the discovery is repeated |
| Healing.HealTwiceSameKey | utils/element_registry.py:142-259 | repeating a discovery heals in place: the second heal does not add an element |
| Comparator.RiskLevel | utils/element_registry.py:322-331 | specification function: CRITICAL above 5 breaking changes, HIGH above 2, MEDIUM above 0, else LOW; `Comparator.ChangedAndRemovedIsMedium` and `Comparator.SelfCompare` exercise it |
| Comparator.ReportOf | utils/element_registry.py:284-336 | specification function: the report built from both loops and the risk level; characterised by `Comparator.Classify`, `Comparator.AddedExactly` and `Comparator.PartitionSizes` |
| Comparator.Compare | utils/element_registry.py:261-336 | the two loops and the risk ladder compute the report that the specification function gives |
| Comparator.PartitionSizes | utils/element_registry.py:298-313 | every baseline element is exactly one of removed, changed or unchanged |
| Comparator.Classify | utils/element_registry.py:298-313 | a name is removed iff only the baseline has it, changed iff both have it with different selectors, and unchanged iff both have it with the same selector |
| Comparator.AddedExactly | utils/element_registry.py:315-320 | a name is added iff only the current map has it |
| Comparator.HasSnoc | utils/element_registry.py:298-320 | membership in and lookup of an ordered dictionary grown by one entry |
| Comparator.UniquePrefix | utils/element_registry.py:298-320 | dropping the last entry keeps names unique and removes that name |
| Comparator.SelfPrefix | utils/element_registry.py:298-320 | a map compared with itself has no removed, changed or added element |
| Comparator.SelfCompare | utils/element_registry.py:261-336 | a map compared with itself is low risk and lists every element as unchanged |
| Comparator.ChangedAndRemovedIsMedium | utils/element_registry.py:322-334 | one changed and one removed element give two breaking changes, which is medium risk |
| Resolver.CleanDescription | agent/bedrock_playwright_agent.py:136-153 | specification function: an attribute value with every `-Facet`/`_button`-style type marker removed wherever it occurs, else the text after `text=`, then the inside of `:has-text(...)` stripped of quotes and spaces |
| Resolver.Compatible | agent/bedrock_playwright_agent.py:182-203 | specification function: the type filter (`tab` accepts tab or button entries named with "tab"; other types must equal the lower-cased entry type); `Resolver.WinnerIsCompatible` proves the winner passes it |
| Resolver.Score | agent/bedrock_playwright_agent.py:205-247 | specification function: the ladder score plus the dropdown and type bonuses, minus the id and generic-query penalties; `Resolver.PickSpec` proves the winner maximises it |
| Resolver.WinnerSelector | agent/bedrock_playwright_agent.py:258-332 | specification function: a discovered selector as stored, else the count-regex selector for a counted name, else the type-qualified selector; characterised by `Resolver.CountedWinnerPattern`, `Resolver.CountedWinnerIgnoresCount` and `Resolver.CountedHasTextWinner` |
| Resolver.KeepKeywords | agent/bedrock_playwright_agent.py:164-167 | the keywords kept are exactly the words longer than two characters that are not stop words: every kept word is such a word, and every such word is kept |
| Resolver.BaseScore | agent/bedrock_playwright_agent.py:205-227 | the base score is one of the ladder values 0, 20, 40, 60, 70, 80 or 100 |
| Resolver.Pick | agent/bedrock_playwright_agent.py:171-255 | any chosen index lies in the scanned prefix |
| Resolver.BestMatch | agent/bedrock_playwright_agent.py:171-255 | the scoring loop computes the winner and score that the specification function gives |
| Resolver.StepSelects | agent/bedrock_playwright_agent.py:250-252 | one loop iteration keeps the selection property for the longer prefix |
| Resolver.PickSpec | agent/bedrock_playwright_agent.py:171-252 | the winner passes the type filter with a positive score, and every other entry scores lower, or the same with a longer name, or the same with an equal-length name but comes later; with no winner, no entry that passes the filter scores above 0 |
| Resolver.WinnerIsCompatible | agent/bedrock_playwright_agent.py:183-203 | the winner passes the semantic-type filter |
| Resolver.NoKeywordsScoresAtLeast80 | agent/bedrock_playwright_agent.py:205-227 | a description without keywords gives every compatible element a base score of at least 80 |
| Resolver.RemoveTrailingKindKeepsParen | agent/bedrock_playwright_agent.py:271-276 | a name ending in `)` keeps its element-kind suffix |
| Resolver.CountedWinnerPattern | agent/bedrock_playwright_agent.py:276-309 | every counted winner with a stored selector and no discovery record gets a selector ending in the any-count regex around the text read from its selector or name |
| Resolver.CountedWinnerIgnoresCount | agent/bedrock_playwright_agent.py:276-309 | a winner named `text(n)` (text without parentheses or surrounding spaces) whose stored selector has no `:has-text(` gets the any-count selector for exactly `text` |
| Resolver.CountedHasTextWinner | agent/bedrock_playwright_agent.py:280-284 | a counted winner whose stored selector is `…:has-text('text(n)')` gets the any-count selector for exactly `text`, read from the selector |
| Normalizer.SemanticType | agent/bedrock_playwright_agent.py:347-354 | specification function: the leftmost role attribute or leading tag; characterised by `Normalizer.RoleMarkerAnywhere`, `Normalizer.TagIsAPrefixNotAWord` and `Normalizer.TextPrefixUntyped` |
| Normalizer.TextContent | agent/bedrock_playwright_agent.py:356-365 | specification function: the quoted `:has-text` argument, else the text after `text=`, else the selector; characterised by `Normalizer.TextPrefixContent` and `Agent.FinalSelectorTextRoundTrip` |
| Normalizer.Normalize | agent/bedrock_playwright_agent.py:340-389 | the semantic type is the extracted one; the text is the extracted text with every count removed and stripped; a selector without a count is returned unchanged; a selector with a count is the type qualifier followed by the any-count regex for that text |
| Normalizer.RoleMarkerMatches | agent/bedrock_playwright_agent.py:349 | a role attribute matches the role alternative of the type regex |
| Normalizer.LooseHasTextMatches | agent/bedrock_playwright_agent.py:282 | the loose `:has-text(` regex captures a quoted text up to its first parenthesis |
| Normalizer.QuotedHasTextMatches | agent/bedrock_playwright_agent.py:360 | a quoted `:has-text` argument is what the text regex captures |
| Normalizer.RoleMarkerAnywhere | agent/bedrock_playwright_agent.py:348-354 | a role attribute after a prefix that is neither a tag nor a role gives that role as the semantic type |
| Normalizer.NoTagPrefix | agent/bedrock_playwright_agent.py:349 | a selector whose first letter starts none of the tags has no tag prefix |
| Normalizer.TagIsAPrefixNotAWord | agent/bedrock_playwright_agent.py:349 | the tag alternative is not anchored at a word end: any selector starting with `a` has type `a` |
| Normalizer.RoleCountedSelector | agent/bedrock_playwright_agent.py:340-389 | a counted role `:has-text` selector normalises to the role with a count regex, the role and the text without the count |
| Normalizer.TextHasNoTag | agent/bedrock_playwright_agent.py:349 | a `text=` selector has no tag prefix |
| Normalizer.TextPrefixLacks | agent/bedrock_playwright_agent.py:348-365 | a `text=` selector built from text free of `:` and `[` contains neither |
| Normalizer.TextPrefixUntyped | agent/bedrock_playwright_agent.py:348-354 | a `text=` selector has no semantic type |
| Normalizer.TextPrefixContent | agent/bedrock_playwright_agent.py:357-365 | the text of a `text=` selector is what follows the prefix |
| Normalizer.TextCountedDescription | agent/bedrock_playwright_agent.py:340-389 | a counted `text=` selector normalises to the bare count regex, no type, and the text without the count |
| Patterns.Run | agent/bedrock_playwright_agent.py:349 | the longest prefix of one character class |
| Patterns.CountGroupLen | agent/bedrock_playwright_agent.py:368 | a count group starts with `(` and ends with `)` and has at least three characters |
| Patterns.RemoveCounts | agent/bedrock_playwright_agent.py:368 | text without a count is unchanged; removal never lengthens, and text with a count loses at least a `(d)` group's three characters |
| Patterns.RemoveCountsDeletesGroup | agent/bedrock_playwright_agent.py:368 | a count group preceded by `(`-free text is deleted, and the text on either side is processed independently |
| Patterns.MatchAt | agent/bedrock_playwright_agent.py:349 | a match starts with the pattern's leading character |
| Patterns.SearchPageFragment | agent/bedrock_playwright_agent.py:94 | the page the route regex captures is a non-empty run of word characters |
| Patterns.SearchSkips | agent/bedrock_playwright_agent.py:94 | a search skips a prefix that lacks the pattern's leading character |
| Patterns.CountGroupIsMatched | agent/bedrock_playwright_agent.py:368 | a digit group in parentheses matches the count regex over its whole length |
| Patterns.RunOfDigits | agent/bedrock_playwright_agent.py:368 | a digit run stops at the first non-digit |
| Patterns.CountGroupAlone | agent/bedrock_playwright_agent.py:368-371 | a lone count group has a count and is removed entirely |
| Patterns.RemoveCountsAfterText | agent/bedrock_playwright_agent.py:368 | removing counts from parenthesis-free text followed by a count leaves the text |
| Patterns.HasCountAfterText | agent/bedrock_playwright_agent.py:371 | text ending in a count group has a count |
| Patterns.ParenFreeHasNoCount | agent/bedrock_playwright_agent.py:371 | parenthesis-free text has no count |
| Agent.SanitizeFilename | agent/bedrock_playwright_agent.py:391-404 | the replacements and the collapsing loop compute the sanitised name |
| Agent.ReplaceStep | agent/bedrock_playwright_agent.py:394-400 | replacing a character removes it and introduces only the replacement's characters |
| Agent.DeletionsClean | agent/bedrock_playwright_agent.py:394-396 | after the deletions no bracket, quote or `#` remains |
| Agent.UnderscoresFirst | agent/bedrock_playwright_agent.py:396-397 | no `/`, `=` or `:` remains after the first three underscore replacements |
| Agent.UnderscoresRest | agent/bedrock_playwright_agent.py:398-400 | no `.`, space or parenthesis remains after the last four |
| Agent.UnderscoresClean | agent/bedrock_playwright_agent.py:396-400 | no character that becomes `_` remains, and no new character besides `_` appears |
| Agent.ReplaceSpecialsClean | agent/bedrock_playwright_agent.py:394-400 | after the replacements no special character remains |
| Agent.CollapseFacts | agent/bedrock_playwright_agent.py:402-403 | after the loop no `__` remains and only `_` may be new |
| Agent.SanitizedIsClean | agent/bedrock_playwright_agent.py:391-404 | the sanitised name has no special character and no double underscore |
| Agent.ReplaceAbsentChar | agent/bedrock_playwright_agent.py:394-400 | replacing an absent character changes nothing |
| Agent.SanitizeIdempotent | agent/bedrock_playwright_agent.py:391-404 | sanitising a sanitised name returns it unchanged |
| Agent.NoColonNoScheme | agent/bedrock_playwright_agent.py:90 | scheme removal leaves a string without `:` unchanged |
| Agent.SchemeRemoved | agent/bedrock_playwright_agent.py:90 | the scheme of an `https://host/#/page` URL is removed and the rest is kept |
| Agent.DomainOfRoute | agent/bedrock_playwright_agent.py:90 | the domain of `https://host/#/page` is the host |
| Agent.RouteMatches | agent/bedrock_playwright_agent.py:94 | the route regex matches `/#/page` and captures the page |
| Agent.HostSkipped | agent/bedrock_playwright_agent.py:94 | the route search passes over a host |
| Agent.SlashesSkipped | agent/bedrock_playwright_agent.py:94 | the route search passes over the scheme's slashes |
| Agent.PageOfRoute | agent/bedrock_playwright_agent.py:93-96 | the page of `https://host/#/page` is the page |
| Agent.DomainAndPageOfRoute | agent/bedrock_playwright_agent.py:78-98 | `https://host/#/page` splits into the host and the page |
| Agent.BareHostDomain | agent/bedrock_playwright_agent.py:90 | the domain of `https://host` is the host |
| Agent.BareHostNoRoute | agent/bedrock_playwright_agent.py:94 | the route regex does not match `https://host` |
| Agent.BareHostIsHome | agent/bedrock_playwright_agent.py:78-98 | `https://host` splits into the host and the page `home` |
| Agent.DomainAndPageShape | agent/bedrock_playwright_agent.py:78-98 | for every URL: no result exactly when it is empty; the domain holds only URL characters and no `/` or `#`; the page is the route's non-empty word when `/#/` matches, else `home` |
| Agent.DomainAndPage | agent/bedrock_playwright_agent.py:78-98 | specification function: the scheme-stripped URL cut at the first `/` then `#`, and the word after `/#/` or `home`; characterised by `Agent.DomainAndPageShape` |
| Agent.Sanitized | agent/bedrock_playwright_agent.py:391-404 | specification function: the twelve replacements, then `__` collapsed to `_` until none remains; characterised by `Agent.SanitizedIsClean` and `Agent.SanitizeIdempotent` |
| Agent.FirstNumber | agent/bedrock_playwright_agent.py:863 | specification function: the leftmost `\b(\d+)\b` match read as a number; characterised by `Agent.ChooseIndexReadsNumber` |
| Agent.ChooseIndex | agent/bedrock_playwright_agent.py:863-877 | the chosen index is a valid candidate index, or 0 when there are no candidates |
| Agent.FirstNumberSkips | agent/bedrock_playwright_agent.py:863 | the number search passes over characters that are not digits |
| Agent.ChooseIndexReadsNumber | agent/bedrock_playwright_agent.py:863-877 | an answer made of digit-free text that does not end in a word character, followed by the number k, chooses k when it is in range, else 0 |
| Agent.TrailingDigits | agent/bedrock_playwright_agent.py:928 | the counted suffix is all digits and the character before it, if any, is not a digit |
| Agent.DashNumberShape | agent/bedrock_playwright_agent.py:928 | the numeric-tail test holds exactly for ids of the form `…-` followed by one or more digits |
| Agent.FinalSelector | agent/bedrock_playwright_agent.py:908-940 | an element with text always gets a selector, and no selector is empty; role with text gives the role head around the text; otherwise a test id gives the test-id form; no selector exactly when there is no text, role, test id, form name or stable id |
| Agent.FinalSelectorTextRoundTrip | agent/bedrock_playwright_agent.py:908-940 | for the role-with-text strategy, the normaliser's text extraction reads back the element's text from the generated selector |
| Agent.FuzzyDecision | agent/bedrock_playwright_agent.py:171-332 | specification function: the best-scoring entry if it scores at least 80, with its rebuilt selector; characterised by `Agent.MatchedIsStrongBest` |
| Agent.Resolve | agent/bedrock_playwright_agent.py:113-338 | specification function: the exact entry on the warmed cache, else the fuzzy decision on the map file; the answer `Agent.PlaywrightAgent.CheckElementRegistry` returns |
| Agent.FuzzyMatch | agent/bedrock_playwright_agent.py:124-338 | the keyword scoring and winner construction compute the fuzzy decision |
| Agent.MatchedIsStrongBest | agent/bedrock_playwright_agent.py:250-258 | a fuzzy match names the entry the loop picked; that entry passes the type filter, scores at least 80, and no entry beats it |
| Agent.PlaywrightAgent.constructor | agent/bedrock_playwright_agent.py:33-56 | the agent starts with no URL, no recorded elements and no discoveries |
| Agent.PlaywrightAgent.RecordDiscoveredElement | agent/bedrock_playwright_agent.py:406-413 | appends exactly one record holding the current URL |
| Agent.PlaywrightAgent.TrackDiscovery | agent/bedrock_playwright_agent.py:946-958 | appends exactly one discovery with its timestamp |
| Agent.PlaywrightAgent.CheckElementRegistry | agent/bedrock_playwright_agent.py:105-338 | returns None without a domain and page, else the exact or fuzzy answer; the cache and files change as the loads and usage updates do; baselines are unchanged |
| Agent.PlaywrightAgent.ExactLookup | agent/bedrock_playwright_agent.py:113-121 | reports an exact hit exactly when the map in the warmed cache has an entry under the description; then returns that entry's selector and records its use; otherwise only the warm-up happens |
| Agent.PlaywrightAgent.FuzzyLookup | agent/bedrock_playwright_agent.py:123-338 | loads the map from file and answers from its elements |
| Agent.PlaywrightAgent.AnswerFrom | agent/bedrock_playwright_agent.py:250-338 | returns the fuzzy decision's answer and records the winner's use |
| Strings.DigitsValueOfNatToString | agent/bedrock_playwright_agent.py:865 | reading a printed number gives it back |
| Strings.NonSpaceRunIsSpaceFree | agent/bedrock_playwright_agent.py:164 | the word scanner stops at the first space |
| Strings.WordsAreNonEmptyAndSpaceFree | agent/bedrock_playwright_agent.py:164 | split words are non-empty and contain no space |
| Strings.ReplaceAllAbsent | utils/element_registry.py:23 | replacing an absent pattern changes nothing |
| Strings.ReplaceAllChars | agent/bedrock_playwright_agent.py:394-400 | a replacement introduces only the replacement's characters |
| Strings.ReplaceCharGone | agent/bedrock_playwright_agent.py:394-400 | replacing a character removes every occurrence |
| Strings.ReplaceAllShrinks | agent/bedrock_playwright_agent.py:402-403 | replacing with a shorter string never grows, and shrinks when the pattern occurs |
| Strings.BeforeAbsent | agent/bedrock_playwright_agent.py:90 | splitting at an absent separator keeps the whole string |
| Strings.BeforeChars | agent/bedrock_playwright_agent.py:90 | the part before the first separator holds no separator and only characters of the string |
| Strings.BeforeFirst | agent/bedrock_playwright_agent.py:90 | splitting keeps what precedes the first separator |
| Strings.StripUnchanged | agent/bedrock_playwright_agent.py:368 | stripping text without surrounding whitespace changes nothing |

## Left out

- File I/O, JSON encoding and decoding, directory creation and logging are not modelled. Map
  files and baseline snapshots are dictionaries keyed by path; a file that cannot be parsed is
  not modelled.
- Versions are counted in tenths. Python's float formatting (`f"{v + 0.1:.1f}"`) agrees on every
  version the code produces; a hand-edited version string that is not a decimal is not modelled.
- Timestamps are a parameter, one per call. The source reads the clock several times within
  one call.
- Entry metadata and discovery metadata are flat string maps. Nested JSON values are not
  modelled.
- A map or entry is never empty here, so Python's falsy empty dict cannot arise. A JSON `null`
  selector is modelled as a missing key; in the source `.get("selector", "")` on `null` gives
  `None`.
- `get_registry` (a process-wide singleton) is not modelled.
- Registry.ElementRegistry.UpdateWithDiscovery: the discovery record's fields are all given. The
  source's defaults for missing keys (`"unknown"` for the name and `""` for the query and the
  final selector, utils/element_registry.py:177-179) are values a caller passes explicitly.
- Aliasing is not modelled: maps are values. The source saves and caches the same dict object,
  so a later in-place edit changes both. The model writes the same value to both, so it
  observes the same result.
- Baseline snapshots are keyed by raw domain, page and version. The source's
  `versions/{page}_page_v{version}.json` path is not spelled out, and an empty
  `baseline_version` string (falsy, so treated as "no version") is modelled as `None`.
- `\d`, `\w` and `\s` are ASCII (plus the Latin-1 spaces), and lower-casing is ASCII. Python's
  `$` also matching before a trailing newline is not modelled.
- Registry.CleanDomain: this is Python's single pass of each `replace`, so a domain like `##//`
  still contains `#/` after cleaning, as in the source.
- The browser, Bedrock calls and the agent's tool loop are not modelled. The current URL, the
  LLM's answer and the element's DOM properties are parameters.
- Agent.ChooseIndex: the prompt construction and the LLM call of `_llm_choose_element` are left
  out; the model starts from the LLM's answer text.
- Agent.FinalSelector: the `aria-label` and `type` properties the script collects are unused
  by the ladder, and the JavaScript evaluation and its exception path are left out.
- Agent.PlaywrightAgent.CheckElementRegistry: the one exception path modelled is a winner
  without a selector. For a counted name (the `in` test at line 280) or a non-empty semantic
  type (the `in` test at line 314) the source raises; that outcome is `Raised`, and the handler
  at lines 335-338 answers `None` without recording usage. A selector-less winner with a
  discovery record, or with no count and no semantic type, is answered as `None` after usage is
  recorded (lines 268-269 and 328-330); that outcome is `Selected(None)`.
  A JSON `null` `type` or `description` cannot be represented (entries carry strings), so the
  `AttributeError` that `.lower()` on `None` would raise at lines 178 and 221 is not modelled.
  The `element_type_prefix` the source computes is only logged, so it is not modelled.
- Healing.HealUpdateSameKey, Healing.HealTwiceSameKey and Healing.Target: the key-stability
  facts and some precedence clauses assume a non-empty element name (or no empty key); an empty name or key is falsy in the source's matching
  and is modelled as such, but not characterised further.
