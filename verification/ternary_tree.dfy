/**
 * The ternary search tree of autocomplete.py (class Node).
 *
 * A node holds one character, an end-of-word flag and three children:
 * `left` and `right` are siblings at the same character position (smaller and
 * larger characters), `center` continues with the next character. The source
 * reassigns a node's children to whatever the recursive `add` returns, so a
 * tree is modelled as a value and `Add` returns the updated subtree.
 */
module TernaryTree {

  datatype Tree = Nil | Node(ch: char, flag: bool, left: Tree, center: Tree, right: Tree)

  /**
   * The object the source calls the root: `Node()`, whose character is the
   * empty string. Every character compares greater than the empty string, so
   * its left child, centre child and flag are never set and all content hangs
   * off its right child.
   */
  datatype Index = Sentinel(right: Tree)

  /** The words stored in a tree: the paths that end on a flagged node. */
  function Words(t: Tree): set<string> {
    match t
    case Nil => {}
    case Node(c, f, l, m, r) =>
      Words(l) + Words(r) + (if f then {[c]} else {}) + Prefixed([c], Words(m))
  }

  function Prefixed(p: string, s: set<string>): set<string> {
    set w | w in s :: p + w
  }

  function WithPrefix(s: set<string>, p: string): set<string> {
    set w | w in s && p <= w
  }

  /** The characters of a node and of its `left`/`right` siblings. */
  function Siblings(t: Tree): set<char> {
    match t
    case Nil => {}
    case Node(c, _, l, _, r) => {c} + Siblings(l) + Siblings(r)
  }

  /** The ternary ordering: siblings reached through `left` are smaller, through `right` larger. */
  ghost predicate Ordered(t: Tree) {
    match t
    case Nil => true
    case Node(c, _, l, m, r) =>
      && (forall x :: x in Siblings(l) ==> x < c)
      && (forall x :: x in Siblings(r) ==> c < x)
      && Ordered(l) && Ordered(m) && Ordered(r)
  }

  ghost predicate Valid(root: Index) {
    Ordered(root.right)
  }

  function Empty(): (root: Index)
    ensures Valid(root) && Words(root.right) == {}
  {
    Sentinel(Nil)
  }

  lemma {:induction false} WordsStartInSiblings(t: Tree, w: string)
    requires w in Words(t)
    ensures w != [] && w[0] in Siblings(t)
  {
    match t
    case Node(c, f, l, m, r) =>
      if w in Words(l) {
        WordsStartInSiblings(l, w);
      } else if w in Words(r) {
        WordsStartInSiblings(r, w);
      }
  }

  lemma PrefixedSingle(c: char, s: set<string>, w: string)
    ensures w in Prefixed([c], s) <==> |w| > 0 && w[0] == c && w[1..] in s
  {
    if |w| > 0 && w[0] == c && w[1..] in s {
      assert w == [c] + w[1..];
    }
  }

  /** Which part of an ordered node a non-empty word can only be found in. */
  lemma WordsAt(t: Tree, s: string)
    requires t.Node? && Ordered(t) && s != []
    ensures s[0] < t.ch ==> (s in Words(t) <==> s in Words(t.left))
    ensures t.ch < s[0] ==> (s in Words(t) <==> s in Words(t.right))
    ensures s[0] == t.ch ==>
              (s in Words(t) <==> (|s| == 1 && t.flag) || (|s| > 1 && s[1..] in Words(t.center)))
  {
    PrefixedSingle(t.ch, Words(t.center), s);
    if s in Words(t.left) {
      WordsStartInSiblings(t.left, s);
    }
    if s in Words(t.right) {
      WordsStartInSiblings(t.right, s);
    }
    if |s| == 1 {
      assert s == [s[0]];
      if s[1..] in Words(t.center) {
        WordsStartInSiblings(t.center, s[1..]);
      }
    }
  }

  /**
   * `add(string, node)`: the subtree after inserting `w` below `t`. The source
   * reads `string[0]` first, so an empty word raises; callers never pass one.
   */
  function Add(t: Tree, w: string): (r: Tree)
    requires w != []
    ensures r.Node?
    ensures Words(r) == Words(t) + {w}
    ensures Siblings(r) == Siblings(t) + {w[0]}
    decreases |w|, t
  {
    var key := w[0];
    var node := if t.Nil? then Node(key, false, Nil, Nil, Nil) else t;
    if key < node.ch then
      node.(left := Add(node.left, w))
    else if key > node.ch then
      node.(right := Add(node.right, w))
    else if |w| == 1 then
      assert w == [node.ch];
      node.(flag := true)
    else
      var r := node.(center := Add(node.center, w[1..]));
      assert Prefixed([node.ch], Words(r.center)) == Prefixed([node.ch], Words(node.center)) + {w} by {
        assert w == [node.ch] + w[1..];
      }
      r
  }

  /** Insertion keeps the ternary ordering: the new character lands on the side its comparison chose. */
  lemma {:induction false} AddOrdered(t: Tree, w: string)
    requires w != []
    ensures Ordered(t) ==> Ordered(Add(t, w))
    decreases |w|, t
  {
    if t.Node? {
      if w[0] < t.ch {
        AddOrdered(t.left, w);
      } else if w[0] > t.ch {
        AddOrdered(t.right, w);
      } else if |w| > 1 {
        AddOrdered(t.center, w[1..]);
      }
    } else if |w| > 1 {
      AddOrdered(Nil, w[1..]);
    }
  }

  /** `addString`: insert through the sentinel, which sends every word to its right. */
  function AddString(root: Index, w: string): (r: Index)
    requires w != []
    ensures Words(r.right) == Words(root.right) + {w}
    ensures Valid(root) ==> Valid(r)
  {
    AddOrdered(root.right, w);
    Sentinel(Add(root.right, w))
  }

  /** Re-adding a stored word reuses every node and rewrites a flag that is already set. */
  lemma {:induction false} AddPresent(t: Tree, w: string)
    requires w != [] && Ordered(t) && w in Words(t)
    ensures Add(t, w) == t
    decreases |w|, t
  {
    WordsStartInSiblings(t, w);
    WordsAt(t, w);
    if w[0] < t.ch {
      AddPresent(t.left, w);
    } else if w[0] > t.ch {
      AddPresent(t.right, w);
    } else if |w| > 1 {
      AddPresent(t.center, w[1..]);
    }
  }

  /** `findString`: 1 when `w` is stored, 0 otherwise. An empty `w` raises in the source. */
  method FindString(root: Index, w: string) returns (r: int)
    requires w != []
    requires Valid(root)
    ensures r == (if w in Words(root.right) then 1 else 0)
  {
    // The first comparison, against the sentinel's empty character, always goes right.
    var temp := root.right;
    var i := 0;
    while temp != Nil
      invariant 0 <= i < |w|
      invariant Ordered(temp)
      invariant w in Words(root.right) <==> w[i..] in Words(temp)
      decreases |w| - i, temp
    {
      WordsAt(temp, w[i..]);
      if w[i] < temp.ch {
        temp := temp.left;
      } else if w[i] > temp.ch {
        temp := temp.right;
      } else {
        i := i + 1;
        if i == |w| {
          return if temp.flag then 1 else 0;
        }
        assert w[i - 1..][1..] == w[i..];
        temp := temp.center;
      }
    }
    return 0;
  }

  function AllButLast(s: string): string {
    if s == [] then [] else s[..|s| - 1]
  }

  /**
   * `spdfs(match, setHolder)`: the words below `t`, spelled from `matched`,
   * which ends with `t`'s own character. Siblings replace that last character.
   * (The source's early return for a leaf adds nothing, so it is not separate here.)
   */
  function Dfs(t: Tree, matched: string): set<string>
    requires t.Node?
    decreases t
  {
    (if t.flag then {matched} else {})
    + (if t.center.Node? then Dfs(t.center, matched + [t.center.ch]) else {})
    + (if t.right.Node? then Dfs(t.right, AllButLast(matched) + [t.right.ch]) else {})
    + (if t.left.Node? then Dfs(t.left, AllButLast(matched) + [t.left.ch]) else {})
  }

  lemma PrefixedAppend(p: string, c: char, s: set<string>)
    ensures Prefixed(p + [c], s) == Prefixed(p, Prefixed([c], s))
  {
    forall x | x in Prefixed(p + [c], s)
      ensures x in Prefixed(p, Prefixed([c], s))
    {
      var w :| w in s && x == p + [c] + w;
      assert [c] + w in Prefixed([c], s);
      assert x == p + ([c] + w);
    }
    forall x | x in Prefixed(p, Prefixed([c], s))
      ensures x in Prefixed(p + [c], s)
    {
      var v :| v in Prefixed([c], s) && x == p + v;
      var w :| w in s && v == [c] + w;
      assert x == p + [c] + w;
    }
  }

  lemma PrefixedUnion(p: string, a: set<string>, b: set<string>)
    ensures Prefixed(p, a + b) == Prefixed(p, a) + Prefixed(p, b)
  {
  }

  /** The words of a node, spelled after `p`, split the way `Dfs` visits them. */
  lemma PrefixedWords(t: Tree, p: string)
    requires t.Node?
    ensures Prefixed(p, Words(t))
         == (if t.flag then {p + [t.ch]} else {})
          + Prefixed(p + [t.ch], Words(t.center))
          + Prefixed(p, Words(t.right))
          + Prefixed(p, Words(t.left))
  {
    var c := t.ch;
    var f := if t.flag then {[c]} else {};
    PrefixedUnion(p, Words(t.left) + Words(t.right) + f, Prefixed([c], Words(t.center)));
    PrefixedUnion(p, Words(t.left) + Words(t.right), f);
    PrefixedUnion(p, Words(t.left), Words(t.right));
    PrefixedAppend(p, c, Words(t.center));
    assert Prefixed(p, f) == if t.flag then {p + [c]} else {} by {
      assert t.flag ==> p + [c] in Prefixed(p, f);
    }
  }

  /** The traversal collects exactly the words of the subtree, spelled after `p`. */
  lemma {:induction false} DfsCollects(t: Tree, p: string)
    requires t.Node?
    ensures Dfs(t, p + [t.ch]) == Prefixed(p, Words(t))
    decreases t
  {
    var c := t.ch;
    assert AllButLast(p + [c]) == p;
    if t.center.Node? {
      DfsCollects(t.center, p + [c]);
    }
    if t.right.Node? {
      DfsCollects(t.right, p);
    }
    if t.left.Node? {
      DfsCollects(t.left, p);
    }
    PrefixedWords(t, p);
  }

  /**
   * `autocomplete(string, match, setHolder)`: follows `s` down the tree and,
   * at the node of its last character, collects that word (if flagged) and
   * everything below its centre child. Results are spelled after `matched`.
   */
  function Complete(t: Tree, s: string, matched: string): set<string>
    requires t.Node?
    decreases |s|, t
  {
    if |s| > 0 then
      var key := s[0];
      if key < t.ch then
        if t.left.Nil? then {} else Complete(t.left, s, matched)
      else if key > t.ch then
        if t.right.Nil? then {} else Complete(t.right, s, matched)
      else if |s| == 1 then
        (if t.flag then {matched + [t.ch]} else {})
        + (if t.center.Node? then Dfs(t.center, matched + [t.ch] + [t.center.ch]) else {})
      else if t.center.Node? then
        Complete(t.center, s[1..], matched + [key])
      else
        {}
    else
      {}
  }

  /** The search finds every stored word that starts with `s`, and nothing else. */
  lemma {:induction false} CompleteCollects(t: Tree, s: string, matched: string)
    requires t.Node? && Ordered(t) && s != []
    ensures Complete(t, s, matched) == Prefixed(matched, WithPrefix(Words(t), s))
    decreases |s|, t
  {
    var c := t.ch;
    var all := WithPrefix(Words(t), s);
    forall w | w in Words(t) && s <= w
      ensures w != [] && w[0] == s[0]
    {
      WordsStartInSiblings(t, w);
    }
    if s[0] < c {
      forall w ensures w in all <==> w in WithPrefix(Words(t.left), s) {
        if w != [] && w[0] == s[0] { WordsAt(t, w); }
      }
      if t.left.Node? {
        CompleteCollects(t.left, s, matched);
      }
    } else if s[0] > c {
      forall w ensures w in all <==> w in WithPrefix(Words(t.right), s) {
        if w != [] && w[0] == s[0] { WordsAt(t, w); }
      }
      if t.right.Node? {
        CompleteCollects(t.right, s, matched);
      }
    } else if |s| == 1 {
      var rest := Words(t.center);
      forall w ensures w in all <==> (w == [c] && t.flag) || w in Prefixed([c], rest) {
        PrefixedSingle(c, rest, w);
        if w != [] && w[0] == s[0] {
          WordsAt(t, w);
          if |w| == 1 { assert w == [c]; }
        }
      }
      if t.center.Node? {
        DfsCollects(t.center, matched + [c]);
        PrefixedAppend(matched, c, rest);
      }
      assert Prefixed(matched, all)
          == (if t.flag then {matched + [c]} else {}) + Prefixed(matched, Prefixed([c], rest));
    } else {
      var rest := WithPrefix(Words(t.center), s[1..]);
      forall w ensures w in all <==> w in Prefixed([c], rest) {
        PrefixedSingle(c, rest, w);
        if w != [] && w[0] == s[0] {
          WordsAt(t, w);
          if |w| > 1 {
            assert s <= w <==> s[1..] <= w[1..];
          }
        }
      }
      PrefixedAppend(matched, c, rest);
      if t.center.Node? {
        CompleteCollects(t.center, s[1..], matched + [c]);
      }
    }
  }

  lemma PrefixedEmpty(s: set<string>)
    ensures Prefixed([], s) == s
  {
    assert forall w: string :: [] + w == w;
  }

  lemma SearchFromSentinel(t: Tree, s: string)
    requires t.Node? && s != []
    ensures Ordered(t) ==> Complete(t, s, []) == WithPrefix(Words(t), s)
  {
    if Ordered(t) {
      CompleteCollects(t, s, []);
      PrefixedEmpty(WithPrefix(Words(t), s));
    }
  }

  /**
   * `getAutocomplete(string)`: the stored words starting with `s`; none for
   * an empty `s`, whose search never leaves the sentinel.
   */
  function GetAutocomplete(root: Index, s: string): (r: set<string>)
    ensures Valid(root) ==> r == if s == [] then {} else WithPrefix(Words(root.right), s)
  {
    if |s| > 0 then
      if root.right.Nil? then {}
      else
        SearchFromSentinel(root.right, s);
        Complete(root.right, s, [])
    else
      {}
  }

  /** Completeness: an added word is offered for each of its non-empty prefixes, itself included. */
  lemma AddedWordIsOffered(root: Index, w: string, p: string)
    requires Valid(root) && w != [] && p != [] && p <= w
    ensures w in GetAutocomplete(AddString(root, w), p)
  {
  }

  /** Soundness: every suggestion was added and starts with the query. */
  lemma OffersOnlyAddedWords(root: Index, p: string, w: string)
    requires Valid(root) && w in GetAutocomplete(root, p)
    ensures p != [] && p <= w && w in Words(root.right)
  {
  }
}
