/**
 * AutocompleteTable of autocomplete.py: the dataset of two display maps and
 * two ternary trees, rebuilt from a list of records and queried by prefix.
 * The network fetch that supplies the records is replaced by a parameter.
 */
module Autocomplete {
  import opened Wrappers
  import opened Text
  import opened TernaryTree

  /** One result of the dataset query: `result.get('title')`, `result.get('locations')`. */
  datatype Record = Record(title: Option<string>, locations: Option<string>)

  /** The dict `self.dataset`: keys are lower-cased names, values the names as fetched. */
  datatype Dataset = Dataset(
    allTitles: map<string, string>,
    allLocations: map<string, string>,
    titleAutocomplete: Index,
    locationAutocomplete: Index)

  /** The two lists `doAutocomplete` returns. */
  datatype Matches = Matches(title: seq<string>, locations: seq<string>)

  /** Each tree is ordered and stores exactly the non-empty keys of its display map. */
  ghost predicate Consistent(d: Dataset) {
    && Valid(d.titleAutocomplete) && Valid(d.locationAutocomplete)
    && Words(d.titleAutocomplete.right) == d.allTitles.Keys - {""}
    && Words(d.locationAutocomplete.right) == d.allLocations.Keys - {""}
  }

  function EmptyDataset(): (d: Dataset)
    ensures Consistent(d)
  {
    Dataset(map[], map[], Empty(), Empty())
  }

  // ---------------------------------------------------------------------------
  // re.match("(a|an|the)\s+(.*)", s)

  /** The alternative `art` matches at the start of `s` and `\s` matches right after it. */
  predicate ArticleAt(s: string, art: string) {
    art <= s && |s| > |art| && IsSpace(s[|art|])
  }

  /** What `(.*)` captures: everything up to the first newline. */
  function UpToNewline(s: string): (r: string)
    ensures r <= s && '\n' !in r
    ensures |r| < |s| ==> s[|r|] == '\n'
  {
    if s == [] || s[0] == '\n' then [] else [s[0]] + UpToNewline(s[1..])
  }

  /**
   * `m.group(2)` when the match succeeds. The greedy `\s+` takes the whole
   * run of whitespace after the article, and `.*` then always matches.
   */
  function ArticleRemainder(s: string): (r: Option<string>)
    ensures r.Some? <==> ArticleAt(s, "a") || ArticleAt(s, "an") || ArticleAt(s, "the")
    ensures r.Some? ==> |r.value| < |s| && '\n' !in r.value
    ensures r.Some? && r.value != [] ==> !IsSpace(r.value[0])
  {
    if ArticleAt(s, "a") then Some(UpToNewline(TrimLeft(s[1..])))
    else if ArticleAt(s, "an") then Some(UpToNewline(TrimLeft(s[2..])))
    else if ArticleAt(s, "the") then Some(UpToNewline(TrimLeft(s[3..])))
    else None
  }

  lemma {:induction false} UpToNewlineWhole(s: string)
    requires '\n' !in s
    ensures UpToNewline(s) == s
  {
    if s != [] {
      UpToNewlineWhole(s[1..]);
    }
  }

  lemma {:induction false} TrimLeftGap(gap: string, w: string)
    requires forall i :: 0 <= i < |gap| ==> IsSpace(gap[i])
    requires w == [] || !IsSpace(w[0])
    ensures TrimLeft(gap + w) == w
  {
    if gap != [] {
      assert (gap + w)[1..] == gap[1..] + w;
      TrimLeftGap(gap[1..], w);
    }
  }

  /**
   * An article, a run of whitespace and a rest that does not start with
   * whitespace: the match yields the rest up to its first newline.
   */
  lemma {:induction false} ArticleStripped(art: string, gap: string, w: string)
    requires art == "a" || art == "an" || art == "the"
    requires gap != [] && forall i :: 0 <= i < |gap| ==> IsSpace(gap[i])
    requires w == [] || !IsSpace(w[0])
    ensures ArticleRemainder(art + gap + w) == Some(UpToNewline(w))
  {
    var s := art + gap + w;
    assert s == art + (gap + w);
    assert s[|art|] == gap[0] && art <= s;
    assert s[|art|..] == gap + w by {
      assert forall i :: 0 <= i < |gap + w| ==> s[|art|..][i] == (gap + w)[i];
    }
    TrimLeftGap(gap, w);
    if art == "a" {
      assert ArticleAt(s, "a");
    } else if art == "an" {
      assert s[1] == 'n';
      assert !ArticleAt(s, "a") && ArticleAt(s, "an");
    } else {
      assert s[0] == 't';
      assert !ArticleAt(s, "a") && !ArticleAt(s, "an") && ArticleAt(s, "the");
    }
  }

  // ---------------------------------------------------------------------------
  // The display maps built by the first loop of fetchAutocomplete

  function OptionSet(o: Option<string>): set<string> {
    if o.Some? then {o.value} else {}
  }

  /** The keys one field (`t` or `loc`) contributes: its lower-cased form and the article-stripped rest. */
  function KeysOf(v: Option<string>): set<string> {
    if v.Some? && v.value != "" then
      var lc := Lower(v.value);
      {lc} + OptionSet(ArticleRemainder(lc))
    else
      {}
  }

  /** `newset[lc] = t`, then `newset[rest] = t` when there is an article-stripped `rest`. */
  function EnterKeys(m: map<string, string>, lc: string, alias: Option<string>, t: string): (r: map<string, string>)
    ensures r.Keys == m.Keys + {lc} + OptionSet(alias)
    ensures forall k :: k in {lc} + OptionSet(alias) ==> r[k] == t
    ensures forall k :: k in m && k !in {lc} + OptionSet(alias) ==> r[k] == m[k]
  {
    var m1 := m[lc := t];
    match alias
    case Some(rest) => m1[rest := t]
    case None => m1
  }

  /** One iteration of the record loop for one field: every key of the field now maps to it. */
  function Enter(m: map<string, string>, v: Option<string>): (r: map<string, string>)
    ensures r.Keys == m.Keys + KeysOf(v)
    ensures v.Some? ==> forall k :: k in KeysOf(v) ==> r[k] == v.value
    ensures forall k :: k in m && k !in KeysOf(v) ==> r[k] == m[k]
  {
    if v.Some? && v.value != "" then
      var lc := Lower(v.value);
      EnterKeys(m, lc, ArticleRemainder(lc), v.value)
    else
      m
  }

  /** The display map after processing the fields `vs` in order. */
  function DisplayMap(vs: seq<Option<string>>): map<string, string> {
    if vs == [] then map[] else Enter(DisplayMap(vs[..|vs| - 1]), vs[|vs| - 1])
  }

  function TitlesOf(records: seq<Record>): (r: seq<Option<string>>)
    ensures |r| == |records| && forall i :: 0 <= i < |r| ==> r[i] == records[i].title
  {
    seq(|records|, i requires 0 <= i < |records| => records[i].title)
  }

  function LocationsOf(records: seq<Record>): (r: seq<Option<string>>)
    ensures |r| == |records| && forall i :: 0 <= i < |r| ==> r[i] == records[i].locations
  {
    seq(|records|, i requires 0 <= i < |records| => records[i].locations)
  }

  /** Every key of the display map was contributed by some field. */
  lemma {:induction false} DisplayMapKeySource(vs: seq<Option<string>>, k: string)
    requires k in DisplayMap(vs)
    ensures exists i :: 0 <= i < |vs| && k in KeysOf(vs[i])
  {
    var init := vs[..|vs| - 1];
    if k !in KeysOf(vs[|vs| - 1]) {
      DisplayMapKeySource(init, k);
      var i :| 0 <= i < |init| && k in KeysOf(init[i]);
      assert vs[i] == init[i];
    }
  }

  /** Every key a field contributes is in the display map. */
  lemma {:induction false} DisplayMapHasKey(vs: seq<Option<string>>, k: string, i: int)
    requires 0 <= i < |vs| && k in KeysOf(vs[i])
    ensures k in DisplayMap(vs)
  {
    var init := vs[..|vs| - 1];
    if i < |vs| - 1 {
      assert init[i] == vs[i];
      DisplayMapHasKey(init, k, i);
    }
  }

  /** A shared key keeps the display string of the last field that contributes it. */
  lemma {:induction false} DisplayMapLastWins(vs: seq<Option<string>>, k: string, i: int)
    requires 0 <= i < |vs| && k in KeysOf(vs[i])
    requires forall j :: i < j < |vs| ==> k !in KeysOf(vs[j])
    ensures k in DisplayMap(vs) && DisplayMap(vs)[k] == vs[i].value
  {
    var init := vs[..|vs| - 1];
    if i < |vs| - 1 {
      DisplayMapLastWins(init, k, i);
    }
  }

  /** Records that contribute nothing give an empty map (and the build still publishes it). */
  lemma {:induction false} NothingContributed(vs: seq<Option<string>>)
    requires forall i :: 0 <= i < |vs| ==> KeysOf(vs[i]) == {}
    ensures DisplayMap(vs) == map[]
  {
    if vs != [] {
      NothingContributed(vs[..|vs| - 1]);
    }
  }

  // ---------------------------------------------------------------------------
  // fetchAutocomplete

  /** The `for title in newset['allTitles'].keys(): if (title): addString(title)` loop. */
  method InsertKeys(keys: set<string>) returns (root: Index)
    ensures Valid(root)
    ensures Words(root.right) == keys - {""}
  {
    root := Empty();
    var todo := keys;
    while todo != {}
      invariant todo <= keys
      invariant Valid(root)
      invariant Words(root.right) == (keys - todo) - {""}
      decreases |todo|
    {
      var k :| k in todo;
      if k != "" {
        root := AddString(root, k);
      }
      todo := todo - {k};
    }
  }

  /**
   * The body of fetchAutocomplete up to the final assignment: the display
   * maps from the records in order, then both trees from the maps' keys.
   */
  method Build(records: seq<Record>) returns (d: Dataset)
    ensures Consistent(d)
    ensures d.allTitles == DisplayMap(TitlesOf(records))
    ensures d.allLocations == DisplayMap(LocationsOf(records))
  {
    var allTitles: map<string, string> := map[];
    var allLocations: map<string, string> := map[];
    var i := 0;
    while i < |records|
      invariant 0 <= i <= |records|
      invariant allTitles == DisplayMap(TitlesOf(records[..i]))
      invariant allLocations == DisplayMap(LocationsOf(records[..i]))
    {
      FieldsStep(records, i);
      var t := records[i].title;
      ghost var titlesBefore := allTitles;
      if t.Some? && t.value != "" {
        var lct := Lower(t.value);
        allTitles := allTitles[lct := t.value];
        var m := ArticleRemainder(lct);
        if m.Some? {
          allTitles := allTitles[m.value := t.value];
        }
      }
      assert allTitles == Enter(titlesBefore, t);
      var loc := records[i].locations;
      ghost var locationsBefore := allLocations;
      if loc.Some? && loc.value != "" {
        var lcl := Lower(loc.value);
        allLocations := allLocations[lcl := loc.value];
        var m := ArticleRemainder(lcl);
        if m.Some? {
          allLocations := allLocations[m.value := loc.value];
        }
      }
      assert allLocations == Enter(locationsBefore, loc);
      i := i + 1;
    }
    assert records[..i] == records;
    var titleTree := InsertKeys(allTitles.Keys);
    var locationTree := InsertKeys(allLocations.Keys);
    d := Dataset(allTitles, allLocations, titleTree, locationTree);
  }

  /** Processing one more record extends both display maps by one `Enter`. */
  lemma FieldsStep(records: seq<Record>, i: int)
    requires 0 <= i < |records|
    ensures DisplayMap(TitlesOf(records[..i + 1])) == Enter(DisplayMap(TitlesOf(records[..i])), records[i].title)
    ensures DisplayMap(LocationsOf(records[..i + 1])) == Enter(DisplayMap(LocationsOf(records[..i])), records[i].locations)
  {
    assert TitlesOf(records[..i + 1])[..i] == TitlesOf(records[..i]);
    assert LocationsOf(records[..i + 1])[..i] == LocationsOf(records[..i]);
  }

  // ---------------------------------------------------------------------------
  // doAutocomplete

  /** The keys of `m` that start with `p`; none for an empty `p`. */
  function KeysStartingWith(m: map<string, string>, p: string): (r: set<string>)
    ensures r <= m.Keys
  {
    if p == [] then {} else set k | k in m && p <= k
  }

  /** `map(lambda k: m[k], keys)` */
  function Display(m: map<string, string>, keys: seq<string>): (r: seq<string>)
    requires forall i :: 0 <= i < |keys| ==> keys[i] in m
    ensures |r| == |keys| && forall i :: 0 <= i < |keys| ==> r[i] == m[keys[i]]
  {
    seq(|keys|, i requires 0 <= i < |keys| => m[keys[i]])
  }

  /** `map(lambda k: m[k], sorted(list(ks)))` */
  function DisplaySorted(m: map<string, string>, ks: set<string>): seq<string>
    requires ks <= m.Keys
  {
    var keys := SortedList(ks);
    assert forall i :: 0 <= i < |keys| ==> keys[i] in ks;
    Display(m, keys)
  }

  /**
   * One list of `doAutocomplete`: the tree's matches for `p`, sorted, each
   * mapped to its display string. The tree answers exactly as a scan of the
   * display map's keys would.
   */
  function Suggest(root: Index, m: map<string, string>, p: string): (r: seq<string>)
    requires Valid(root) && Words(root.right) == m.Keys - {""}
    ensures r == DisplaySorted(m, KeysStartingWith(m, p))
  {
    var found := GetAutocomplete(root, p);
    assert found == KeysStartingWith(m, p);
    DisplaySorted(m, found)
  }

  /**
   * `doAutocomplete` on one snapshot: the display strings of the keys that
   * start with the lower-cased query, in ascending key order.
   */
  function Query(d: Dataset, s: string): (r: Matches)
    requires Consistent(d)
    ensures r.title == DisplaySorted(d.allTitles, KeysStartingWith(d.allTitles, Lower(s)))
    ensures r.locations == DisplaySorted(d.allLocations, KeysStartingWith(d.allLocations, Lower(s)))
  {
    var p := Lower(s);
    Matches(Suggest(d.titleAutocomplete, d.allTitles, p),
            Suggest(d.locationAutocomplete, d.allLocations, p))
  }

  /** Upper and lower case in the query give the same answer. */
  lemma QueryIgnoresCase(d: Dataset, s: string)
    requires Consistent(d)
    ensures Query(d, s) == Query(d, Lower(s))
  {
    LowerIdempotent(s);
  }

  /** A query that is a prefix of a stored key lists that key's display string. */
  lemma {:induction false} QueryOffersKey(d: Dataset, s: string, k: string)
    requires Consistent(d) && s != [] && k in d.allTitles && Lower(s) <= k
    ensures d.allTitles[k] in Query(d, s).title
  {
    var keys := SortedList(KeysStartingWith(d.allTitles, Lower(s)));
    assert k in keys;
    var i :| 0 <= i < |keys| && keys[i] == k;
    assert Query(d, s).title[i] == d.allTitles[k];
  }

  lemma SingletonSorted(k: string)
    ensures SortedList({k}) == [k]
  {
    var r := SortedList({k});
    assert |r| == 1 && r[0] in {k};
  }

  /** A name whose lower-cased form is an article, whitespace and a one-line rest gives two keys. */
  lemma KeysOfArticle(n: string, art: string, gap: string, w: string)
    requires art == "a" || art == "an" || art == "the"
    requires gap != [] && forall i :: 0 <= i < |gap| ==> IsSpace(gap[i])
    requires w == [] || !IsSpace(w[0])
    requires '\n' !in w
    requires Lower(n) == art + gap + w
    ensures KeysOf(Some(n)) == {Lower(n), w}
  {
    ArticleStripped(art, gap, w);
    UpToNewlineWhole(w);
  }

  lemma DisplayMapOne(v: Option<string>)
    ensures DisplayMap([v]) == Enter(map[], v)
  {
    assert [v][..0] == [];
  }

  /** A query that only one title key starts with lists only that key's display string. */
  lemma QuerySingleTitle(d: Dataset, s: string, k: string)
    requires Consistent(d)
    requires KeysStartingWith(d.allTitles, Lower(s)) == {k}
    ensures Query(d, s).title == [d.allTitles[k]]
  {
    SingletonSorted(k);
  }

  /** A query that no title key starts with lists no title. */
  lemma QueryNoTitle(d: Dataset, s: string)
    requires Consistent(d)
    requires forall k :: k in d.allTitles ==> !(Lower(s) <= k)
    ensures Query(d, s).title == []
  {
    assert KeysStartingWith(d.allTitles, Lower(s)) == {};
  }

  /**
   * A title that starts with an article is found by a query for the rest
   * ("Jitney" finds "A Jitney"), provided the full key does not also start
   * with that rest.
   */
  lemma ArticleTitleFound(d: Dataset, n: string, art: string, gap: string, w: string, q: string)
    requires Consistent(d)
    requires art == "a" || art == "an" || art == "the"
    requires gap != [] && forall i :: 0 <= i < |gap| ==> IsSpace(gap[i])
    requires w != [] && !IsSpace(w[0]) && '\n' !in w
    requires Lower(n) == art + gap + w && !(w <= Lower(n))
    requires d.allTitles == DisplayMap([Some(n)]) && Lower(q) == w
    ensures Query(d, q).title == [n]
  {
    ArticleMap(n, art, gap, w);
    OnlyKeyStartingWith(d.allTitles, Lower(n), w);
    QuerySingleTitle(d, q, w);
  }

  /** Of two keys, only `w` starts with `w` when the other does not. */
  lemma OnlyKeyStartingWith(m: map<string, string>, other: string, w: string)
    requires m.Keys == {other, w} && w != [] && !(w <= other)
    ensures KeysStartingWith(m, w) == {w}
  {
    assert w in KeysStartingWith(m, w);
  }

  /** The title map of the one title `n`: its full key and the key without the article, both showing `n`. */
  lemma ArticleMap(n: string, art: string, gap: string, w: string)
    requires art == "a" || art == "an" || art == "the"
    requires gap != [] && forall i :: 0 <= i < |gap| ==> IsSpace(gap[i])
    requires w != [] && !IsSpace(w[0]) && '\n' !in w
    requires Lower(n) == art + gap + w
    ensures DisplayMap([Some(n)]).Keys == {Lower(n), w} && DisplayMap([Some(n)])[w] == n
  {
    KeysOfArticle(n, art, gap, w);
    DisplayMapOne(Some(n));
  }

  /** The table whose `dataset` is replaced by one assignment at the end of each rebuild. */
  class AutocompleteTable {
    var dataset: Dataset

    ghost predicate Valid()
      reads this
    {
      Consistent(dataset)
    }

    constructor ()
      ensures Valid() && dataset == EmptyDataset()
    {
      dataset := EmptyDataset();
    }

    /**
     * `fetchAutocomplete`, with the fetched list as a parameter. The new
     * dataset replaces the old one whatever the records held, even when
     * none of them contributed a key.
     */
    method FetchAutocomplete(records: seq<Record>)
      requires Valid()
      modifies this
      ensures Valid()
      ensures dataset.allTitles == DisplayMap(TitlesOf(records))
      ensures dataset.allLocations == DisplayMap(LocationsOf(records))
    {
      var newset := Build(records);
      dataset := newset;
    }

    /** `doAutocomplete`: reads `self.dataset` once and answers from that snapshot. */
    method DoAutocomplete(s: string) returns (r: Matches)
      requires Valid()
      ensures r == Query(dataset, s)
    {
      var snapshot := dataset;
      r := Query(snapshot, s);
    }
  }
}
