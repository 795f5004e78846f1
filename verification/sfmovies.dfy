/**
 * The request-side string logic of MainPage in sfmovies.py: the merge of
 * the title and location suggestions into the list the autocomplete widget
 * shows, and the validator of typed input. URL decoding is a parameter.
 */
module SfMovies {
  import opened Wrappers
  import opened Text
  import opened Autocomplete

  /** One `{'value': ..., 'data': ...}` record; `data` is "ts" for a title, "ls" for a location. */
  datatype Suggestion = Suggestion(value: string, data: string)

  /**
   * The order the merge loop emits: while both lists have items the title
   * goes first only when the location is greater; once one list is empty
   * the other follows in order.
   */
  function Merged(titles: seq<string>, locations: seq<string>): seq<Suggestion>
    decreases |titles| + |locations|
  {
    if titles == [] && locations == [] then []
    else if titles == [] then [Suggestion(locations[0], "ls")] + Merged(titles, locations[1..])
    else if locations == [] then [Suggestion(titles[0], "ts")] + Merged(titles[1..], locations)
    else if Below(titles[0], locations[0]) then [Suggestion(titles[0], "ts")] + Merged(titles[1..], locations)
    else [Suggestion(locations[0], "ls")] + Merged(titles, locations[1..])
  }

  /** The values of the records carrying the tag `data`, in output order. */
  function Tagged(s: seq<Suggestion>, data: string): (r: seq<string>)
    ensures |r| <= |s|
  {
    if s == [] then []
    else (if s[0].data == data then [s[0].value] else []) + Tagged(s[1..], data)
  }

  function Values(s: seq<Suggestion>): (r: seq<string>)
    ensures |r| == |s| && forall i :: 0 <= i < |s| ==> r[i] == s[i].value
  {
    seq(|s|, i requires 0 <= i < |s| => s[i].value)
  }

  /** Python's `a <= b` on strings. */
  predicate AtMost(a: string, b: string) {
    a == b || Below(a, b)
  }

  /** Ascending, equal neighbours allowed. */
  predicate NonDescending(s: seq<string>) {
    forall i, j :: 0 <= i < j < |s| ==> AtMost(s[i], s[j])
  }

  /**
   * The merge consumes both lists: the titles come out tagged "ts" in their
   * own order, the locations tagged "ls" in theirs, and nothing else.
   */
  lemma {:induction false} MergedSplits(titles: seq<string>, locations: seq<string>)
    ensures Tagged(Merged(titles, locations), "ts") == titles
    ensures Tagged(Merged(titles, locations), "ls") == locations
    ensures |Merged(titles, locations)| == |titles| + |locations|
    decreases |titles| + |locations|
  {
    var m := Merged(titles, locations);
    if titles == [] && locations == [] {
    } else if titles == [] || (locations != [] && !Below(titles[0], locations[0])) {
      MergedSplits(titles, locations[1..]);
      assert m[1..] == Merged(titles, locations[1..]);
      assert locations == [locations[0]] + locations[1..];
    } else {
      MergedSplits(titles[1..], locations);
      assert m[1..] == Merged(titles[1..], locations);
      assert titles == [titles[0]] + titles[1..];
    }
  }

  lemma ValuesCons(x: Suggestion, s: seq<Suggestion>)
    ensures Values([x] + s) == [x.value] + Values(s)
  {
  }

  /** The merged values are the two lists' values together, each as often as it occurs. */
  lemma {:induction false} MergedPermutes(titles: seq<string>, locations: seq<string>)
    ensures multiset(Values(Merged(titles, locations))) == multiset(titles) + multiset(locations)
    decreases |titles| + |locations|
  {
    if titles == [] && locations == [] {
    } else if titles == [] || (locations != [] && !Below(titles[0], locations[0])) {
      var rest := Merged(titles, locations[1..]);
      MergedPermutes(titles, locations[1..]);
      ValuesCons(Suggestion(locations[0], "ls"), rest);
      assert locations == [locations[0]] + locations[1..];
      assert multiset(locations) == multiset{locations[0]} + multiset(locations[1..]);
    } else {
      var rest := Merged(titles[1..], locations);
      MergedPermutes(titles[1..], locations);
      ValuesCons(Suggestion(titles[0], "ts"), rest);
      assert titles == [titles[0]] + titles[1..];
      assert multiset(titles) == multiset{titles[0]} + multiset(titles[1..]);
    }
  }

  /** On a tie the location is emitted first. */
  lemma TieGoesToLocation(titles: seq<string>, locations: seq<string>)
    requires titles != [] && locations != [] && titles[0] == locations[0]
    ensures Merged(titles, locations)[0] == Suggestion(locations[0], "ls")
  {
    BelowIrreflexive(titles[0]);
  }

  lemma AtMostTransitive(a: string, b: string, c: string)
    requires AtMost(a, b) && AtMost(b, c)
    ensures AtMost(a, c)
  {
    if a != b && b != c {
      BelowTransitive(a, b, c);
    }
  }

  /** Every value of the merge is at least `low` when every input is. */
  lemma MergedAbove(titles: seq<string>, locations: seq<string>, low: string)
    requires forall i :: 0 <= i < |titles| ==> AtMost(low, titles[i])
    requires forall i :: 0 <= i < |locations| ==> AtMost(low, locations[i])
    ensures forall i :: 0 <= i < |Merged(titles, locations)| ==> AtMost(low, Merged(titles, locations)[i].value)
  {
    var v := Values(Merged(titles, locations));
    MergedPermutes(titles, locations);
    forall i | 0 <= i < |v|
      ensures AtMost(low, v[i])
    {
      assert v[i] in multiset(titles) + multiset(locations);
    }
  }

  /** A value at most the first of an ascending list is at most all of it. */
  lemma AtMostAll(low: string, s: seq<string>)
    requires NonDescending(s) && s != [] && AtMost(low, s[0])
    ensures forall i :: 0 <= i < |s| ==> AtMost(low, s[i])
  {
    forall i | 0 < i < |s|
      ensures AtMost(low, s[i])
    {
      AtMostTransitive(low, s[0], s[i]);
    }
  }

  /** A value at most everything of an ascending list can go in front of it. */
  lemma ConsNonDescending(head: string, s: seq<string>)
    requires NonDescending(s) && forall i :: 0 <= i < |s| ==> AtMost(head, s[i])
    ensures NonDescending([head] + s)
  {
    var v := [head] + s;
    forall i, j | 0 <= i < j < |v|
      ensures AtMost(v[i], v[j])
    {
      assert v[j] == s[j - 1];
      if i > 0 {
        assert v[i] == s[i - 1];
      }
    }
  }

  /** Merging two ascending lists gives ascending values. */
  lemma {:induction false} MergedAscending(titles: seq<string>, locations: seq<string>)
    requires NonDescending(titles) && NonDescending(locations)
    ensures NonDescending(Values(Merged(titles, locations)))
    decreases |titles| + |locations|
  {
    if titles == [] && locations == [] {
      return;
    }
    if titles == [] || (locations != [] && !Below(titles[0], locations[0])) {
      var head, rest := locations[0], Merged(titles, locations[1..]);
      MergedAscending(titles, locations[1..]);
      if titles != [] {
        BelowTotal(titles[0], locations[0]);
        AtMostAll(head, titles);
      }
      MergedAbove(titles, locations[1..], head);
      ConsNonDescending(head, Values(rest));
      ValuesCons(Suggestion(head, "ls"), rest);
    } else {
      var head, rest := titles[0], Merged(titles[1..], locations);
      MergedAscending(titles[1..], locations);
      if locations != [] {
        AtMostAll(head, locations);
      }
      MergedAbove(titles[1..], locations, head);
      ConsNonDescending(head, Values(rest));
      ValuesCons(Suggestion(head, "ts"), rest);
    }
  }

  lemma AppendShift<T>(a: seq<T>, x: T, b: seq<T>)
    ensures (a + [x]) + b == a + ([x] + b)
  {
  }

  /**
   * The merge loop of `doAutocomplete`: pops the smaller head (the location
   * on a tie) until both lists are empty.
   */
  method MergeSuggestions(titles: seq<string>, locations: seq<string>) returns (outputlist: seq<Suggestion>)
    ensures outputlist == Merged(titles, locations)
  {
    var ts, ls := titles, locations;
    outputlist := [];
    while |ts| > 0 || |ls| > 0
      invariant outputlist + Merged(ts, ls) == Merged(titles, locations)
      decreases |ts| + |ls|
    {
      ghost var before, ts0, ls0 := outputlist, ts, ls;
      var title := if ts == [] then None else Some(ts[0]);
      var location := if ls == [] then None else Some(ls[0]);
      var record;
      if title.None? {
        record := Suggestion(ls[0], "ls");
        ls := ls[1..];
      } else if location.None? {
        record := Suggestion(ts[0], "ts");
        ts := ts[1..];
      } else if Below(title.value, location.value) {
        record := Suggestion(ts[0], "ts");
        ts := ts[1..];
      } else {
        record := Suggestion(ls[0], "ls");
        ls := ls[1..];
      }
      assert Merged(ts0, ls0) == [record] + Merged(ts, ls);
      outputlist := outputlist + [record];
      AppendShift(before, record, Merged(ts, ls));
    }
  }

  /** `holder.dictObj` after `doAutocomplete`. */
  datatype Reply = Reply(query: string, suggestions: seq<Suggestion>)

  /**
   * `doAutocomplete(inp, holder)`: an empty input matches nothing, any
   * other is looked up in the table; the two lists are then merged, and
   * `query` is always "Unit".
   */
  method DoAutocomplete(inp: string, table: AutocompleteTable) returns (r: Reply)
    requires table.Valid()
    ensures r.query == "Unit"
    ensures inp == [] ==> r.suggestions == []
    ensures inp != [] ==>
              var m := Query(table.dataset, inp);
              r.suggestions == Merged(m.title, m.locations)
  {
    var matches;
    if inp == [] {
      matches := Matches([], []);
    } else {
      matches := table.DoAutocomplete(inp);
    }
    var outputlist := MergeSuggestions(matches.title, matches.locations);
    r := Reply("Unit", outputlist);
  }

  // ---------------------------------------------------------------------------
  // illegalInput

  /** `s.index(c)`, with None where Python raises ValueError. */
  function IndexOf(s: string, c: char): (r: Option<nat>)
    ensures r.None? <==> c !in s
    ensures r.Some? ==> r.value < |s| && s[r.value] == c && c !in s[..r.value]
  {
    if s == [] then None
    else if s[0] == c then Some(0)
    else match IndexOf(s[1..], c)
      case None => None
      case Some(i) => assert s[..i + 1] == [s[0]] + s[1..][..i]; Some(i + 1)
  }

  function PaddedMessage(searchType: string, d: string): string {
    searchType + " query \"" + d + "\" must not have padded input"
  }

  function TickMessage(searchType: string, d: string): string {
    "Can't find " + searchType + " \"" + d + "\", SFMovie Database does not support queries with ticks in them"
  }

  /**
   * `illegalInput(inp, searchType)`: Some(message), "" meaning accepted, or
   * None where the function falls off its end (a tick at index 0). `decode`
   * is the URL decoder.
   */
  function IllegalInput(inp: string, searchType: string, decode: string -> string): (r: Option<string>)
    ensures inp == [] ==> r == Some("")
    ensures r.None? ==> inp != [] && IndexOf(decode(inp), '\'') == Some(0)
  {
    if inp == [] then Some("")
    else
      var decodedString := decode(inp);
      if decodedString != Strip(decodedString) then Some(PaddedMessage(searchType, decodedString))
      else match IndexOf(decodedString, '\'')
        case None => Some("")
        case Some(i) => if i > 0 then Some(TickMessage(searchType, decodedString)) else None
  }

  /**
   * The input is refused (a non-empty message) exactly when it is non-empty
   * and its decoded form either starts or ends with whitespace, or holds a
   * tick that is not its first character.
   */
  lemma IllegalInputRefuses(inp: string, searchType: string, decode: string -> string)
    ensures var r := IllegalInput(inp, searchType, decode);
            var d := decode(inp);
            (r.Some? && r.value != []) <==>
              inp != [] && d != [] && (IsSpace(d[0]) || IsSpace(d[|d| - 1]) || (d[0] != '\'' && '\'' in d))
  {
    var d := decode(inp);
    StripFixed(d);
    if inp != [] && d != [] && d == Strip(d) && d[0] != '\'' && '\'' in d {
      var i := IndexOf(d, '\'').value;
      assert i != 0;
    }
  }

  /**
   * The input is accepted outright (the empty message) exactly when it is
   * empty, or its decoded form is already stripped and holds no tick.
   */
  lemma IllegalInputAccepts(inp: string, searchType: string, decode: string -> string)
    ensures var d := decode(inp);
            IllegalInput(inp, searchType, decode) == Some("") <==> inp == [] || (d == Strip(d) && '\'' !in d)
  {
    var d := decode(inp);
    if inp != [] && d != Strip(d) {
      assert |PaddedMessage(searchType, d)| > 0;
    } else if inp != [] && '\'' in d {
      var i := IndexOf(d, '\'').value;
      if i > 0 {
        assert |TickMessage(searchType, d)| > 0;
      }
    }
  }

  /** With a tick first, the rest of the input is never looked at: no tick error, whatever follows. */
  lemma LeadingTickPasses(inp: string, searchType: string, decode: string -> string)
    requires inp != [] && decode(inp) != [] && decode(inp)[0] == '\''
    requires !IsSpace(decode(inp)[|decode(inp)| - 1])
    ensures IllegalInput(inp, searchType, decode) == None
  {
    StripFixed(decode(inp));
  }
}
