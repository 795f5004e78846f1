# SF movie locations: autocomplete, caches and request shaping

This project models the sequential core of a small web service. The service
answers prefix queries over San Francisco film titles and filming locations.
It sits in front of a SoQL (Socrata query language) data service.

The model has four parts:

- **Ternary search tree** (`TernaryTree`). `autocomplete.py` stores words in
  a tree of `Node`s. `add` reassigns each node's children to what the
  recursive call returns, so the tree is a datatype and insertion a function.
  The root object, whose character is the empty string, is the `Sentinel`
  holding the real tree on its right. The model proves three things:
  - insertion adds exactly the new word and keeps the ternary ordering;
  - `findString` answers membership;
  - prefix search is complete and sound against the set of stored words.
- **Autocomplete table** (`Autocomplete`). `fetchAutocomplete` builds two
  display maps from lower-cased key to the name as fetched. A name that starts
  with "a", "an" or "the" and whitespace also gets an alias key without the
  article. Then every non-empty key goes into a tree. `doAutocomplete` answers
  from one snapshot of the dataset, in ascending key order, ignoring case.
  The fetched records are a parameter.
- **Caches** (`Cache`, `LruSpec`, `Lru`, `Expiring`). `simplecache.py` has
  three caches:
  - `SimpleCache` is a map.
  - `LRUCache` is a class over real link objects in a circular doubly linked
    list with a sentinel `root`. Its methods rewire the links in place. A
    ghost sequence of links, newest first, ties them to the pure description
    in `LruSpec`, and the lemmas about `get` and `put` are proved there.
  - `ExpiringCache` holds entries with an expiry time. The clock is an
    integer parameter `now`.
- **Request-side string logic** (`SfMovies`, `SoQL`). From `sfmovies.py`:
  the merge of title and location suggestions, and the input validator. From
  `soqlinterface.py`:
  - the URL that `doGet` assembles clause by clause;
  - the argument shaping of the searches;
  - the `relation` formatter.

  URL encoding and decoding are function parameters.

Text primitives are in `Text`:

- `lower()` is ASCII case folding.
- `strip()` trims ASCII whitespace.
- `\s` is the same whitespace class.
- String order is Python's lexicographic code-point order.
- `sorted` of a set of strings is modelled as a function.

Where the code and its comments disagree, the model follows the code:

- `add` reads `string[0]` first, so an empty word raises. The operations
  that insert or look up a word therefore require a non-empty word, and
  every caller only passes non-empty keys.
- `fetchAutocomplete` always replaces the dataset, even when no record
  contributed a key (`Autocomplete.NothingContributed`).
- `ExpiringCache.put` only ever applies the default time to live. Naming
  `ttlseconds` ends in a NameError.
- `ExpiringCache.__contains__` subscripts the entry before its `None` check,
  so a missing key is a TypeError.
- `illegalInput` falls off its end, returning `None`, when the input's first
  tick is at index 0.

## Model

| member | source | states |
|---|---|---|
| Text.Lower | autocomplete.py:166 | `lower()` keeps the length, leaves no upper-case letter and changes nothing else |
| Text.LowerIdempotent | autocomplete.py:206-211 | lower-casing twice equals lower-casing once, so the query is case-insensitive |
| Text.StripFixed | sfmovies.py:324-326 | a string equals its `strip()` exactly when it is empty or starts and ends with non-whitespace |
| Text.SortedList | autocomplete.py:207-211 | `sorted(list(s))` is strictly ascending and holds exactly the elements of `s` |
| TernaryTree.Empty | autocomplete.py:31-36 | a fresh root stores no word and satisfies the ordering |
| TernaryTree.Add | autocomplete.py:43-55 | insertion yields a node whose words are the old words plus `w`; the siblings gain `w[0]` |
| TernaryTree.AddOrdered | autocomplete.py:47-54 | insertion keeps the ternary ordering: smaller characters to the left, larger to the right |
| TernaryTree.AddString | autocomplete.py:38-41 | inserting through the sentinel adds `w` to the words on its right and keeps the tree valid |
| TernaryTree.AddPresent | autocomplete.py:47-55 | re-adding a stored word returns the identical tree |
| TernaryTree.FindString | autocomplete.py:71-83 | the search loop returns 1 exactly when `w` is stored, 0 otherwise |
| TernaryTree.DfsCollects | autocomplete.py:57-67 | `spdfs` collects exactly the words of the subtree, spelled after the match so far |
| TernaryTree.CompleteCollects | autocomplete.py:91-118 | `autocomplete` collects exactly the stored words that start with the query |
| TernaryTree.GetAutocomplete | autocomplete.py:122-125 | on a valid tree: the stored words starting with `s`; nothing for an empty `s` |
| TernaryTree.AddedWordIsOffered | autocomplete.py:43-55 | completeness: after adding `w`, each non-empty prefix of `w` (itself included) offers `w` |
| TernaryTree.OffersOnlyAddedWords | autocomplete.py:94-125 | soundness: every suggestion was stored and starts with a non-empty query |
| Autocomplete.EmptyDataset | autocomplete.py:144-148 | the initial dataset: empty maps and empty trees, consistent with each other |
| Autocomplete.ArticleRemainder | autocomplete.py:173-175 | the article match succeeds exactly on "a", "an" or "the" followed by whitespace; the captured rest is shorter, has no newline and does not start with whitespace |
| Autocomplete.ArticleStripped | autocomplete.py:173-175 | an article, whitespace and a rest give that rest up to its first newline |
| Autocomplete.KeysOfArticle | autocomplete.py:163-177 | a name whose lowered form is an article, whitespace and a one-line rest contributes the lowered name and the rest |
| Autocomplete.Enter | autocomplete.py:163-185 | one field adds its keys (lowered name, alias); each maps to the name as fetched; other keys keep their value |
| Autocomplete.DisplayMapKeySource | autocomplete.py:162-185 | every key of the built map was contributed by some record |
| Autocomplete.DisplayMapHasKey | autocomplete.py:162-185 | every key a record contributes is in the built map |
| Autocomplete.DisplayMapLastWins | autocomplete.py:162-185 | a shared key shows the name of the last record contributing it |
| Autocomplete.NothingContributed | autocomplete.py:162-195 | records without titles or locations give an empty map, which is still published |
| Autocomplete.InsertKeys | autocomplete.py:189-194 | the insertion loop leaves a valid tree storing exactly the non-empty keys |
| Autocomplete.Build | autocomplete.py:150-194 | the built dataset is consistent and its maps are the display maps of the records in order |
| Autocomplete.Suggest | autocomplete.py:206-211 | one result list: the display strings of the map keys starting with the prefix, in ascending key order |
| Autocomplete.Query | autocomplete.py:200-212 | both result lists, for the lower-cased query |
| Autocomplete.QueryIgnoresCase | autocomplete.py:206-211 | a query and its lower-cased form get the same answer |
| Autocomplete.QueryOffersKey | autocomplete.py:200-212 | a stored title key starting with the lowered query has its display string in the answer |
| Autocomplete.QuerySingleTitle | autocomplete.py:206-208 | when only one title key matches, the title list is exactly its display string |
| Autocomplete.QueryNoTitle | autocomplete.py:206-208 | when no title key matches, the title list is empty |
| Autocomplete.ArticleTitleFound | autocomplete.py:163-178 | a title starting with an article is found by a query for the rest ("Jitney" finds "A Jitney") |
| Autocomplete.AutocompleteTable.constructor | autocomplete.py:133-148 | the table starts with the empty, consistent dataset |
| Autocomplete.AutocompleteTable.FetchAutocomplete | autocomplete.py:150-195 | the records' display maps and matching trees replace the dataset, whatever the records held |
| Autocomplete.AutocompleteTable.DoAutocomplete | autocomplete.py:200-212 | the answer is `Query` of the one dataset snapshot read |
| Cache.Find | simplecache.py:45 | `dict.get`: an entry exactly for a stored key, and it is the stored one |
| Cache.FindAfterStore | simplecache.py:54-57 | storing under a key changes what that key finds and nothing else |
| Cache.SimpleCache.constructor | simplecache.py:36-38 | a new cache is empty |
| Cache.SimpleCache.Get | simplecache.py:42-52 | `get` returns the stored entry or None and changes nothing |
| Cache.SimpleCache.Put | simplecache.py:54-57 | `put` makes the key find the entry; every other key finds what it found before |
| Cache.SimpleCache.Clear | simplecache.py:59-60 | `clear` leaves a map in which no key finds anything |
| Cache.SimpleCache.Contains | simplecache.py:62-63 | `in` holds exactly when `get` would find an entry |
| LruSpec.Lookup | simplecache.py:99-116 | the value under a key, absent exactly when no entry has the key |
| LruSpec.Capacity | simplecache.py:131-134 | the size `put` keeps to is at least one and at least `maxsize` |
| LruSpec.Evict | simplecache.py:131-134 | eviction keeps a prefix of the entries, newest first |
| LruSpec.EvictRemovesLast | simplecache.py:131-134 | when the table is full, eviction drops exactly the oldest entry |
| LruSpec.WithoutAt | simplecache.py:111-113 | with unique keys, unlinking a key removes exactly its one position |
| LruSpec.LookupAt | simplecache.py:99-116 | with unique keys, the lookup of a key finds the value at its position |
| LruSpec.TouchAt | simplecache.py:111-115 | a hit moves its entry to the front, the others keeping their relative order |
| LruSpec.PromotePermutes | simplecache.py:111-115 | moving an entry to the front is a permutation |
| LruSpec.PromoteLookups | simplecache.py:111-115 | moving an entry to the front changes no key's value |
| LruSpec.TouchPermutes | simplecache.py:99-116 | a `get` keeps the same entries and unique keys, and the same size |
| LruSpec.TouchKeepsLookups | simplecache.py:99-116 | a `get` changes no key's value |
| LruSpec.TouchTwice | simplecache.py:99-116 | a second `get` of the same key changes nothing more |
| LruSpec.InsertUnique | simplecache.py:123-142 | `put` of a new key keeps the keys unique |
| LruSpec.EvictLookups | simplecache.py:131-134 | after eviction every key finds its old value, except the evicted oldest key |
| LruSpec.InsertLookups | simplecache.py:123-142 | after `put` of a new key: it finds its value, others keep theirs unless evicted as oldest, and the size stays within capacity |
| Lru.MaxSize | simplecache.py:82-84 | a missing or zero `maxsize` means 1024, any other value is kept |
| Lru.UniquePairs | simplecache.py:88-94 | distinct links indexed by their own keys hold distinct keys |
| Lru.LRUCache.constructor | simplecache.py:78-94 | an empty dict, a root linked to itself and the given or default `maxsize` |
| Lru.LRUCache.ContentsAgree | simplecache.py:88-94 | the dict and the list agree: a key is stored exactly when the list holds it, once, with that value |
| Lru.LRUCache.Contains | simplecache.py:62-63 | `in` holds exactly when the list holds the key |
| Lru.LRUCache.Unlink | simplecache.py:111-113 | after unlinking position `i`, the ring runs through the other links |
| Lru.LRUCache.RemoveNotThreadSafe | simplecache.py:177-193 | no-op for a missing link or the root; otherwise the link leaves the ring and its key the dict |
| Lru.LRUCache.MoveToNewestNotThreadSafe | simplecache.py:195-205 | no-op for a missing link or the root; otherwise the link is linked in as the newest |
| Lru.LRUCache.Get | simplecache.py:99-121 | a hit returns the value and moves the entry to newest (`Touch`); a miss returns None and changes nothing |
| Lru.LRUCache.Refresh | simplecache.py:111-115 | the hit path moves the link's position to the front of the list |
| Lru.LRUCache.HitContents | simplecache.py:99-116 | in terms of entries, a hit on a link finds its value and is `Touch` of its key |
| Lru.LRUCache.Put | simplecache.py:123-148 | `put` of a new key: evict the oldest when full, then the entry is newest (`Insert`), the table staying valid |
| Lru.LRUCache.EvictOldest | simplecache.py:131-134 | removing `root`'s newer neighbour drops the oldest entry and makes room |
| Lru.LRUCache.LinkNewest | simplecache.py:137-142 | a new link is stored under its key in front of the former newest |
| Lru.LRUCache.LinkInFront | simplecache.py:140-142 | the root and the former newest now point back at the new link |
| Lru.LRUCache.Clear | simplecache.py:150-160 | an empty dict and a root linked to itself |
| Lru.LRUCache.Dump | simplecache.py:162-172 | the walk from the root lists the keys newest to oldest; the count is their number |
| Expiring.Fetch | simplecache.py:222-233 | a value exactly for a present key whose time has not come, and it is that entry's value |
| Expiring.Unexpired | simplecache.py:262-272 | the table after cleaning: exactly the entries whose time has not come, unchanged |
| Expiring.CleanKeepsFetches | simplecache.py:262-272 | cleaning changes no later `get` |
| Expiring.CleanIdempotent | simplecache.py:262-272 | cleaning twice at the same time equals cleaning once |
| Expiring.FetchAfterStore | simplecache.py:249-252 | a value stored with time to live `ttl` is found until `now + ttl`, not from then on |
| Expiring.ExpiringCache.constructor | simplecache.py:216-220 | an empty table with the given default time to live |
| Expiring.ExpiringCache.Get | simplecache.py:222-236 | the answer is `Fetch`; an expired entry is deleted, otherwise nothing changes |
| Expiring.ExpiringCache.Put | simplecache.py:239-259 | `ttlseconds` gives a NameError; a default at or below zero stores nothing; otherwise the entry expires at `defaultExp + now` |
| Expiring.ExpiringCache.Clean | simplecache.py:262-275 | the loop leaves exactly `Unexpired` of the old table |
| Expiring.ExpiringCache.Contains | simplecache.py:280-295 | a missing key is a TypeError; a present one is in exactly when `get` would find it |
| SfMovies.MergedSplits | sfmovies.py:546-564 | the merge consumes both lists: titles tagged "ts" in order, locations tagged "ls" in order, total length the sum |
| SfMovies.MergedPermutes | sfmovies.py:546-564 | the merged values are a permutation of titles and locations together |
| SfMovies.TieGoesToLocation | sfmovies.py:557-562 | on equal heads the location comes first |
| SfMovies.MergedAbove | sfmovies.py:546-564 | a lower bound of both inputs bounds every merged value |
| SfMovies.MergedAscending | sfmovies.py:551-562 | two ascending inputs merge into ascending values |
| SfMovies.MergeSuggestions | sfmovies.py:546-564 | the loop produces exactly `Merged` of the two lists |
| SfMovies.DoAutocomplete | sfmovies.py:535-566 | an empty input gives no suggestions; otherwise the merge of the table's answer; `query` is always "Unit" |
| SfMovies.IndexOf | sfmovies.py:332 | `index`: the first position of the character, absent (ValueError) exactly when it does not occur |
| SfMovies.IllegalInput | sfmovies.py:321-336 | an empty input is accepted with ""; the function falls off its end only when the decoded input's first tick is at index 0 |
| SfMovies.IllegalInputRefuses | sfmovies.py:321-336 | a message is returned exactly for non-empty input whose decoded form is padded or has a tick not at index 0 |
| SfMovies.IllegalInputAccepts | sfmovies.py:321-336 | "" is returned exactly for empty input, or a stripped decoded form without a tick |
| SfMovies.LeadingTickPasses | sfmovies.py:331-336 | with a tick first and no trailing whitespace, the function falls off its end whatever follows |
| SoQL.Param | soqlinterface.py:51-64 | a truthy clause gives one parameter, name then encoded value; an absent or empty one gives none |
| SoQL.Params | soqlinterface.py:49-66 | the parameter list always ends with `$limit=50000` |
| SoQL.QueryStringJoins | soqlinterface.py:49-66 | the query string is "?" and the parameters joined by "&" |
| SoQL.ParamsRecoverable | soqlinterface.py:49-66 | when the encoder never yields "&", the query string splits back into exactly the parameters appended |
| SoQL.AddClause | soqlinterface.py:51-64 | one `if (clause)` step appends the clause's parameter with the right separator and updates `queryChar` |
| SoQL.SearchParams | soqlinterface.py:113-119 | a search selects the three fields, filters `key='value'` and orders by `antiKey` unless it is empty |
| SoQL.SoQLInterface.constructor | soqlinterface.py:32-33 | the base URL is `http://host/resource/dataset.json` |
| SoQL.SoQLInterface.DoGetUrl | soqlinterface.py:43-66 | the URL is the base URL then select, where, group, order (each only when truthy) and the limit |
| SoQL.SoQLInterface.DoSearch | soqlinterface.py:113-119 | the URL of `SearchParams` and the given expiry |
| SoQL.SoQLInterface.DoLocationSearch | soqlinterface.py:127-130 | filter on locations, order by title, keep a day; four parameters |
| SoQL.SoQLInterface.DoTitleSearch | soqlinterface.py:138-140 | filter on title, order by locations, default expiry; four parameters |
| SoQL.Relation | soqlinterface.py:150-160 | with `is` read as equality: a postfix verb follows the left value, an aggregate is a call around it, "AS" sits between the values, any other verb is a parenthesised infix |
| SoQL.RelationNullFallsThrough | soqlinterface.py:152-159 | with `is` as CPython's identity test, "IS NULL" and "IS NOT NULL" (not interned, as they hold a space) fall through to the infix branch; "AS" (interned) behaves as with equality |
| SoQL.RelationAsRunAgrees | soqlinterface.py:150-160 | for every other verb, the identity and the equality readings of `is` give the same relation |
| SoQL.RelationGluesNull | soqlinterface.py:152-153 | where the postfix branch is reached, `relation("IS NULL", "title")` reads as the words "titleIS" and "NULL" |
| SoQL.RelationSpacedSeparates | soqlinterface.py:150-160 | with the space, the left value stays a word of its own before a postfix verb or "AS" |

## Left out

- Concurrency. The semaphores of both caches and the "atomic swap" of `self.dataset` are left out; every method runs alone.
- Time. `time.time()` is the integer parameter `now`. Fractional seconds are not modelled.
- The network and JSON. These cover the HTTP request, JSON decoding, the error and don't-cache handling, the result cache lookup and store in `doGet` (soqlinterface.py:69-110), and the fetch inside `fetchAutocomplete`. The model takes the fetched records as a parameter and returns the URL instead of the result.
- `UrlEncoder.encode`/`decode` (`quote_plus`/`unquote_plus`). They are uninterpreted function parameters.
- Unicode `lower()`, `strip()` and `\s`. These are modelled on ASCII only.
- Python's regex engine. The article match is written out: "a", "an" or "the", whitespace, the rest up to the first newline.
- Logging. `INFOPRINT`/`MUSTPRINT`, the random `cacheid` and `ISLEVEL` are left out. `dump` returns its lines instead of printing them.
- Lru.LRUCache.Put: requires a key that is not stored. The source links a second cell for a stored key and strands the first, so a later eviction can delete a live key or raise a `KeyError`. This stale-cell behaviour is not modelled.
- Lru.LRUCache.RemoveNotThreadSafe: when the link is neither missing nor the root, it must be on the list at the given ghost position. A link from elsewhere is not modelled.
- Lru.LRUCache.MoveToNewestNotThreadSafe: the link must be off the list, as it is whenever `get` calls it.
- Expiring.ExpiringCache.Put: a `Default` sentinel and a `None` default time to live are not modelled. The default is an integer. With `None` the source raises a TypeError when it adds the time.
- `ExpiringCache.dump` and `LRUCache.clean` (a no-op) are not part of the core.
- SoQL.RelationAsRun: identity of strings is modelled as equal text plus an interned literal (identifier characters only). A caller that passes the very object of a non-interned constant is not modelled, and neither is `str()` of non-string values. The values are strings.
- SfMovies.IllegalInput: a `None` input is the empty string (both are falsy). The function's own result is described by `IllegalInputRefuses`, `IllegalInputAccepts` and `LeadingTickPasses`.
- The web handler, the HTML and JavaScript it writes, routing, `GoogleMapInterface` and the logging helpers of `BaseImport.py` are outside the modelled core.

## Findings

| source | as written | input that shows it | evidently intended | confidence | as-written member | corrected member |
|---|---|---|---|---|---|---|
| soqlinterface.py:152 | `verb is "IS NULL" or verb is "IS NOT NULL"` tests object identity against constants CPython does not intern, since they hold a space | `relation("IS NULL", "title")` falls through to the infix branch and gives "(title IS NULL )" | the postfix branch taken for these verbs, an equality test | medium, not executed | SoQL.RelationNullFallsThrough | SoQL.RelationSpacedSeparates |
| soqlinterface.py:153 | when the postfix branch is reached (`is` holding as equality), it glues the verb to the left value: `str(leftvalue) + verb` | `relation("IS NULL", "title")` under the equality reading gives "titleIS NULL" | "title IS NULL", with a space before the verb as the other branches have | medium, not executed | SoQL.RelationGluesNull | SoQL.RelationSpacedSeparates |
