/**
 * The request shaping of soqlinterface.py: the base URL, the query string
 * `doGet` appends clause by clause, the argument shaping of the searches,
 * and the `relation` formatter. The URL encoder is a parameter; the HTTP
 * request, JSON decoding and the result cache are left out.
 */
module SoQL {
  import opened Wrappers

  /** `"http://" + hostname + "/resource/" + datasetname + ".json"` */
  function BaseUrl(hostname: string, datasetname: string): string {
    "http://" + hostname + "/resource/" + datasetname + ".json"
  }

  /** Python truthiness of an optional clause: absent and empty both count as false. */
  predicate Truthy(clause: Option<string>) {
    clause.Some? && clause.value != []
  }

  /** The parameter `name=encoded value` for a truthy clause, nothing otherwise. */
  function Param(name: string, clause: Option<string>, encode: string -> string): (r: seq<string>)
    ensures |r| == (if Truthy(clause) then 1 else 0)
    ensures Truthy(clause) ==> r[0] == name + encode(clause.value)
  {
    if Truthy(clause) then [name + encode(clause.value)] else []
  }

  const Limit := "$limit=50000"

  /** The parameters in the order `doGet` appends them, the limit always last. */
  function Params(selectClause: Option<string>, whereClause: Option<string>, groupClause: Option<string>,
                  orderClause: Option<string>, encode: string -> string): (r: seq<string>)
    ensures r != [] && r[|r| - 1] == Limit
  {
    Param("$select=", selectClause, encode) + Param("$where=", whereClause, encode)
    + Param("$group=", groupClause, encode) + Param("$order=", orderClause, encode) + [Limit]
  }

  /** The string `doGet` builds by `url += queryChar + param`, `queryChar` being "?" first and "&" after. */
  function QueryString(ps: seq<string>): string {
    if ps == [] then ""
    else QueryString(ps[..|ps| - 1]) + (if |ps| == 1 then "?" else "&") + ps[|ps| - 1]
  }

  lemma QueryStringSnoc(ps: seq<string>, p: string)
    ensures QueryString(ps + [p]) == QueryString(ps) + (if ps == [] then "?" else "&") + p
  {
    assert (ps + [p])[..|ps|] == ps;
  }

  /** The pieces joined with `sep` between neighbours. */
  function Join(ps: seq<string>, sep: char): string
    requires ps != []
  {
    if |ps| == 1 then ps[0] else ps[0] + [sep] + Join(ps[1..], sep)
  }

  /** `s.split(sep)`: the maximal runs between separators, always at least one. */
  function Split(s: string, sep: char): (r: seq<string>)
    ensures r != []
  {
    if s == [] then [""]
    else
      var rest := Split(s[1..], sep);
      if s[0] == sep then [""] + rest else [[s[0]] + rest[0]] + rest[1..]
  }

  lemma {:induction false} JoinSnoc(ps: seq<string>, p: string, sep: char)
    requires ps != []
    ensures Join(ps + [p], sep) == Join(ps, sep) + [sep] + p
  {
    if |ps| > 1 {
      JoinSnoc(ps[1..], p, sep);
      assert (ps + [p])[1..] == ps[1..] + [p];
    }
  }

  /** The first parameter follows a "?" and every later one an "&". */
  lemma {:induction false} QueryStringJoins(ps: seq<string>)
    requires ps != []
    ensures QueryString(ps) == "?" + Join(ps, '&')
  {
    if |ps| > 1 {
      var init := ps[..|ps| - 1];
      QueryStringJoins(init);
      JoinSnoc(init, ps[|ps| - 1], '&');
      assert init + [ps[|ps| - 1]] == ps;
    }
  }

  /** A string without the separator splits into itself. */
  lemma {:induction false} SplitPlain(s: string, sep: char)
    requires sep !in s
    ensures Split(s, sep) == [s]
  {
    if s != [] {
      SplitPlain(s[1..], sep);
      assert [s[0]] + s[1..] == s;
    }
  }

  /** A separator-free piece in front of a separator comes off as one field. */
  lemma {:induction false} SplitFront(a: string, sep: char, t: string)
    requires sep !in a
    ensures Split(a + [sep] + t, sep) == [a] + Split(t, sep)
  {
    if a != [] {
      SplitFront(a[1..], sep, t);
      assert (a + [sep] + t)[1..] == a[1..] + [sep] + t;
      assert (a + [sep] + t)[0] == a[0] != sep;
      assert [a[0]] + a[1..] == a;
    } else {
      assert a + [sep] + t == [sep] + t;
      assert ([sep] + t)[1..] == t;
    }
  }

  /** Splitting undoes joining when no piece holds the separator. */
  lemma {:induction false} SplitJoin(ps: seq<string>, sep: char)
    requires ps != [] && forall i :: 0 <= i < |ps| ==> sep !in ps[i]
    ensures Split(Join(ps, sep), sep) == ps
  {
    if |ps| == 1 {
      SplitPlain(ps[0], sep);
    } else {
      SplitJoin(ps[1..], sep);
      SplitFront(ps[0], sep, Join(ps[1..], sep));
      assert [ps[0]] + ps[1..] == ps;
    }
  }

  /**
   * When the encoder never yields an "&" (URL encoding escapes it), the
   * query string after the "?" splits at "&" back into exactly the
   * parameters `doGet` appended.
   */
  lemma ParamsRecoverable(selectClause: Option<string>, whereClause: Option<string>, groupClause: Option<string>,
                          orderClause: Option<string>, encode: string -> string)
    requires forall s :: '&' !in encode(s)
    ensures var ps := Params(selectClause, whereClause, groupClause, orderClause, encode);
            var q := QueryString(ps);
            q[0] == '?' && Split(q[1..], '&') == ps
  {
    var ps := Params(selectClause, whereClause, groupClause, orderClause, encode);
    QueryStringJoins(ps);
    ParamFree("$select=", selectClause, encode);
    ParamFree("$where=", whereClause, encode);
    ParamFree("$group=", groupClause, encode);
    ParamFree("$order=", orderClause, encode);
    assert '&' !in Limit;
    assert QueryString(ps)[1..] == Join(ps, '&');
    SplitJoin(ps, '&');
  }

  /** A parameter built from a name and an encoded value holds an "&" only if one of them does. */
  lemma ParamFree(name: string, clause: Option<string>, encode: string -> string)
    requires '&' !in name && forall s :: '&' !in encode(s)
    ensures forall i :: 0 <= i < |Param(name, clause, encode)| ==> '&' !in Param(name, clause, encode)[i]
  {
  }

  /** Appending `queryChar + param` to the URL appends `param` to the query string. */
  lemma AppendParam(url: string, base: string, ps: seq<string>, queryChar: string, param: string)
    requires url == base + QueryString(ps) && queryChar == (if ps == [] then "?" else "&")
    ensures url + (queryChar + param) == base + QueryString(ps + [param])
  {
    QueryStringSnoc(ps, param);
  }

  const Fields := "locations, title, release_year"

  /**
   * The parameters of a search: the three fields, the equality on `key`,
   * the order by `antiKey` (dropped when it is empty), the limit.
   */
  function SearchParams(key: string, value: string, antiKey: string, encode: string -> string): (r: seq<string>)
    ensures r == Params(Some(Fields), Some(key + "='" + value + "'"), None, Some(antiKey), encode)
  {
    ["$select=" + encode(Fields), "$where=" + encode(key + "='" + value + "'")]
    + (if antiKey == [] then [] else ["$order=" + encode(antiKey)]) + [Limit]
  }

  /**
   * One `if (clause): url += queryChar + name + encode(clause); queryChar = "&"`
   * of `doGet`: a truthy clause becomes the next parameter of the query string.
   */
  method AddClause(base: string, url: string, queryChar: string, name: string, clause: Option<string>,
                   encode: string -> string, ghost ps: seq<string>) returns (url': string, queryChar': string)
    requires url == base + QueryString(ps) && queryChar == (if ps == [] then "?" else "&")
    ensures url' == base + QueryString(ps + Param(name, clause, encode))
    ensures queryChar' == (if ps + Param(name, clause, encode) == [] then "?" else "&")
  {
    url', queryChar' := url, queryChar;
    if Truthy(clause) {
      var param := name + encode(clause.value);
      AppendParam(url, base, ps, queryChar, param);
      url' := url + (queryChar + param);
      queryChar' := "&";
    } else {
      assert ps + Param(name, clause, encode) == ps;
    }
  }

  /** The arguments `doSearch` passes on, and the expiry it was given. */
  datatype Request = Request(url: string, cacheExpiration: Option<int>)

  class SoQLInterface {
    const baseurl: string

    constructor (hostname: string, datasetname: string)
      ensures baseurl == BaseUrl(hostname, datasetname)
    {
      baseurl := BaseUrl(hostname, datasetname);
    }

    /**
     * The URL `doGet` requests: the base URL, then select, where, group and
     * order (each only when truthy, each value encoded), then the limit.
     */
    method DoGetUrl(selectClause: Option<string>, whereClause: Option<string>, orderClause: Option<string>,
                    groupClause: Option<string>, encode: string -> string) returns (url: string)
      ensures url == baseurl + QueryString(Params(selectClause, whereClause, groupClause, orderClause, encode))
    {
      url := baseurl;
      var queryChar := "?";
      ghost var ps: seq<string> := [];
      url, queryChar := AddClause(baseurl, url, queryChar, "$select=", selectClause, encode, ps);
      ps := ps + Param("$select=", selectClause, encode);
      url, queryChar := AddClause(baseurl, url, queryChar, "$where=", whereClause, encode, ps);
      ps := ps + Param("$where=", whereClause, encode);
      url, queryChar := AddClause(baseurl, url, queryChar, "$group=", groupClause, encode, ps);
      ps := ps + Param("$group=", groupClause, encode);
      url, queryChar := AddClause(baseurl, url, queryChar, "$order=", orderClause, encode, ps);
      ps := ps + Param("$order=", orderClause, encode);
      AppendParam(url, baseurl, ps, queryChar, Limit);
      url := url + (queryChar + Limit);
      assert [] + Param("$select=", selectClause, encode) == Param("$select=", selectClause, encode);
    }

    /** `doSearch`: select three fields where `key` equals `value`, ordered by `antiKey` when it is not empty. */
    method DoSearch(key: string, value: string, antiKey: string, cacheExpiration: Option<int>,
                    encode: string -> string) returns (r: Request)
      ensures r.cacheExpiration == cacheExpiration
      ensures r.url == baseurl + QueryString(SearchParams(key, value, antiKey, encode))
    {
      var url := DoGetUrl(Some(Fields), Some(key + "='" + value + "'"), Some(antiKey), None, encode);
      r := Request(url, cacheExpiration);
    }

    /** `doLocationSearch`: the films shot at `value`, ordered by title, kept a day. */
    method DoLocationSearch(value: string, encode: string -> string) returns (r: Request)
      ensures r.cacheExpiration == Some(86400)
      ensures r.url == baseurl + QueryString(SearchParams("locations", value, "title", encode))
      ensures |SearchParams("locations", value, "title", encode)| == 4
    {
      r := DoSearch("locations", value, "title", Some(86400), encode);
    }

    /** `doTitleSearch`: the locations of the film `value`, ordered by location, with the default expiry. */
    method DoTitleSearch(value: string, encode: string -> string) returns (r: Request)
      ensures r.cacheExpiration == None
      ensures r.url == baseurl + QueryString(SearchParams("title", value, "locations", encode))
      ensures |SearchParams("title", value, "locations", encode)| == 4
    {
      r := DoSearch("title", value, "locations", None, encode);
    }
  }

  // ---------------------------------------------------------------------------
  // relation(verb, leftvalue, rightvalue="")

  /** The verbs written as a function call around the left value. */
  predicate IsAggregate(verb: string) {
    verb in ["sum", "count", "avg", "min", "max"]
  }

  /**
   * `relation` with `is` read as equality: a postfix verb follows the left
   * value, an aggregate is a call around it, "AS" sits between the two
   * values, and any other verb is a parenthesised infix.
   */
  function Relation(verb: string, left: string, right: string): (r: string)
    ensures verb == "IS NULL" || verb == "IS NOT NULL" ==> left <= r && r[|left|..] == verb
    ensures IsAggregate(verb) ==> verb <= r && r[|r| - 1] == ')'
    ensures verb == "AS" ==> left <= r && r[|left|..] == " AS " + right
    ensures verb != "IS NULL" && verb != "IS NOT NULL" && !IsAggregate(verb) && verb != "AS" ==>
              |r| >= 2 && r[0] == '(' && r[|r| - 1] == ')'
  {
    if verb == "IS NULL" || verb == "IS NOT NULL" then left + verb
    else if IsAggregate(verb) then verb + "(" + left + ")"
    else if verb == "AS" then left + " " + verb + " " + right
    else "(" + left + " " + verb + " " + right + ")"
  }

  /** A character an identifier may hold. */
  predicate IsNameChar(c: char) {
    'a' <= c <= 'z' || 'A' <= c <= 'Z' || '0' <= c <= '9' || c == '_'
  }

  /**
   * CPython 2 interns a string constant made of identifier characters only,
   * so every such constant with the same text is one shared object.
   */
  predicate Interned(literal: string) {
    forall i :: 0 <= i < |literal| ==> IsNameChar(literal[i])
  }

  /**
   * `verb is literal` for a verb the caller wrote as a constant of its own:
   * the same object exactly when the texts are equal and the literal is
   * interned.
   */
  predicate Is(verb: string, literal: string) {
    verb == literal && Interned(literal)
  }

  /** `relation` with `is` as the identity test CPython performs. */
  function RelationAsRun(verb: string, left: string, right: string): string {
    if Is(verb, "IS NULL") || Is(verb, "IS NOT NULL") then left + verb
    else if IsAggregate(verb) then verb + "(" + left + ")"
    else if Is(verb, "AS") then left + " " + verb + " " + right
    else "(" + left + " " + verb + " " + right + ")"
  }

  /**
   * Run by CPython, the postfix verbs, which hold a space and so are not
   * interned, fail their identity tests and fall through to the infix
   * branch; "AS" is interned and behaves as with equality.
   */
  lemma RelationNullFallsThrough(left: string, right: string)
    ensures RelationAsRun("IS NULL", left, right) == "(" + left + " IS NULL " + right + ")"
    ensures RelationAsRun("IS NOT NULL", left, right) == "(" + left + " IS NOT NULL " + right + ")"
    ensures RelationAsRun("AS", left, right) == Relation("AS", left, right)
    ensures RelationAsRun("IS NULL", "title", "") == "(title IS NULL )"
  {
    assert !IsNameChar("IS NULL"[2]) && !IsNameChar("IS NOT NULL"[2]);
    assert Interned("AS");
  }

  /** Apart from the two postfix verbs, identity and equality give the same relation. */
  lemma RelationAsRunAgrees(verb: string, left: string, right: string)
    requires verb != "IS NULL" && verb != "IS NOT NULL"
    ensures RelationAsRun(verb, left, right) == Relation(verb, left, right)
  {
    assert Interned("AS");
  }

  /** `relation` with the space the postfix verbs need before them. */
  function RelationSpaced(verb: string, left: string, right: string): string {
    if verb == "IS NULL" || verb == "IS NOT NULL" then left + " " + verb
    else if IsAggregate(verb) then verb + "(" + left + ")"
    else if verb == "AS" then left + " " + verb + " " + right
    else "(" + left + " " + verb + " " + right + ")"
  }

  /**
   * Where the postfix branch is reached (`is` holding as equality),
   * `relation("IS NULL", "title")` is the single word "titleIS" followed by "NULL".
   */
  lemma RelationGluesNull()
    ensures Split(Relation("IS NULL", "title", ""), ' ') == ["titleIS", "NULL"]
  {
    var r := Relation("IS NULL", "title", "");
    assert ' ' !in "titleIS" && ' ' !in "NULL";
    SplitFront("titleIS", ' ', "NULL");
    SplitPlain("NULL", ' ');
    assert r == "titleIS" + [' '] + "NULL";
  }

  /**
   * With the space, a postfix relation on a left value without spaces reads
   * as that value followed by the words of the verb, and the infix forms
   * keep the left value a word of its own as well.
   */
  lemma RelationSpacedSeparates(verb: string, left: string, right: string)
    requires ' ' !in left && !IsAggregate(verb)
    ensures verb == "IS NULL" || verb == "IS NOT NULL" ==>
              Split(RelationSpaced(verb, left, right), ' ') == [left] + Split(verb, ' ')
    ensures verb == "AS" ==>
              Split(RelationSpaced(verb, left, right), ' ') == [left] + Split(verb + " " + right, ' ')
  {
    if verb == "IS NULL" || verb == "IS NOT NULL" {
      SplitFront(left, ' ', verb);
      assert RelationSpaced(verb, left, right) == left + [' '] + verb;
    } else if verb == "AS" {
      SplitFront(left, ' ', verb + " " + right);
      assert RelationSpaced(verb, left, right) == left + [' '] + (verb + " " + right);
    }
  }
}
