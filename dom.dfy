/** The page's live content tree as an arena: node `i` has kind
    `nodes[i]`, parent `parent[i]` (-1 when it has none) and the ordered
    child list `children[i]`. Queries here are the DOM calls the script
    makes: `closest`, `contains`, `nextSibling`, `nextElementSibling`,
    `firstElementChild`, `querySelector(All)`. */
module Dom {
  import opened Seqs

  datatype Tag = Heading(rank: nat) | Section | Header | Main | Other

  /** A text node, an element from the page's markup (its tag and its
      `id`, "" when absent), or a content group: the
      `<div data-collapsible-content>` the sectionizer creates. */
  datatype Node = Text | Element(tag: Tag, id: string) | Group

  /** `levels[tagName]` of the sectionizer: 1, 2, 3 for H1, H2, H3 and
      0 (JavaScript's `undefined`) for every other node. */
  function Level(n: Node): (l: nat)
    ensures l <= 3
    ensures l > 0 <==> n.Element? && n.tag.Heading? && 1 <= n.tag.rank <= 3
  {
    if n.Element? && n.tag.Heading? && 1 <= n.tag.rank <= 3 then n.tag.rank else 0
  }

  predicate IsElement(n: Node) { !n.Text? }
  predicate IsH123(n: Node) { Level(n) > 0 }
  predicate IsSection(n: Node) { n.Element? && n.tag == Section }
  predicate IsHeader(n: Node) { n.Element? && n.tag == Header }
  predicate IsMain(n: Node) { n.Element? && n.tag == Main }
  /** Matches the selector `#toc`. */
  predicate IsToc(n: Node) { n.Element? && n.id == "toc" }

  datatype Tree = Tree(nodes: seq<Node>, parent: seq<int>, children: seq<seq<nat>>)

  /** Every member of `s` names a node of `t`. */
  predicate InTree(t: Tree, s: seq<nat>) {
    forall i | 0 <= i < |s| :: s[i] < |t.nodes|
  }

  /** Parent and child lists agree and no list repeats a node. */
  ghost predicate Shaped(t: Tree) {
    && |t.parent| == |t.nodes|
    && |t.children| == |t.nodes|
    && ParentsInRange(t)
    && ParentsList(t)
    && ChildrenPointBack(t)
    && ListsDistinct(t)
  }

  ghost predicate ParentsInRange(t: Tree)
    requires |t.parent| == |t.nodes|
  {
    forall x | 0 <= x < |t.nodes| :: -1 <= t.parent[x] < |t.nodes|
  }

  /** Every node with a parent is on that parent's child list. */
  ghost predicate ParentsList(t: Tree)
    requires |t.parent| == |t.nodes| == |t.children| && ParentsInRange(t)
  {
    forall x {:trigger Listed(t, x)} | 0 <= x < |t.nodes| && t.parent[x] >= 0 :: Listed(t, x)
  }

  /** An attached node is listed by its parent. */
  lemma InParentList(t: Tree, x: nat)
    requires Shaped(t) && x < |t.nodes| && t.parent[x] >= 0
    ensures x in t.children[t.parent[x]]
  {
    assert Listed(t, x);
  }

  /** `x` appears among its parent's children. */
  ghost predicate Listed(t: Tree, x: nat)
    requires |t.parent| == |t.nodes| == |t.children| && ParentsInRange(t)
    requires x < |t.nodes| && t.parent[x] >= 0
  {
    x in t.children[t.parent[x]]
  }

  /** Every listed child names its list's owner as parent. */
  ghost predicate ChildrenPointBack(t: Tree)
    requires |t.parent| == |t.nodes| == |t.children|
  {
    forall q, i | 0 <= q < |t.nodes| && 0 <= i < |t.children[q]| ::
      t.children[q][i] < |t.nodes| && t.parent[t.children[q][i]] == q
  }

  ghost predicate ListsDistinct(t: Tree)
    requires |t.children| == |t.nodes|
  {
    forall q {:trigger NoDup(t.children[q])} | 0 <= q < |t.nodes| :: NoDup(t.children[q])
  }

  lemma ChildrenInTree(t: Tree, q: nat)
    requires Shaped(t) && q < |t.nodes|
    ensures InTree(t, t.children[q])
  {
  }

  /** `depth` is each node's distance from the top of its tree, so
      following parents always ends: the arena has no cycles. */
  ghost predicate Ranked(t: Tree, depth: seq<nat>) {
    && Shaped(t)
    && |depth| == |t.nodes|
    && (forall x | 0 <= x < |t.nodes| && t.parent[x] >= 0 :: depth[x] == depth[t.parent[x]] + 1)
  }

  lemma ChildIndex(t: Tree, q: nat, x: nat)
    requires Shaped(t) && q < |t.nodes| && x in t.children[q]
    ensures x < |t.nodes| && t.parent[x] == q
  {
    var i :| 0 <= i < |t.children[q]| && t.children[q][i] == x;
  }

  /** `a.contains(x)`: `a` is `x` or one of its ancestors. */
  function Contains(t: Tree, ghost depth: seq<nat>, a: nat, x: nat): bool
    requires Ranked(t, depth) && x < |t.nodes|
    decreases depth[x]
  {
    x == a || (t.parent[x] >= 0 && Contains(t, depth, a, t.parent[x]))
  }

  /** `x.closest(sel)`: the nearest ancestor-or-self matching `p`, -1 if none. */
  function Closest(t: Tree, ghost depth: seq<nat>, x: nat, p: Node -> bool): (r: int)
    requires Ranked(t, depth) && x < |t.nodes|
    ensures -1 <= r < |t.nodes|
    ensures r >= 0 ==> p(t.nodes[r]) && Contains(t, depth, r, x)
    ensures r < 0 ==> forall a | 0 <= a < |t.nodes| && Contains(t, depth, a, x) :: !p(t.nodes[a])
    decreases depth[x]
  {
    if p(t.nodes[x]) then x
    else if t.parent[x] < 0 then -1
    else Closest(t, depth, t.parent[x], p)
  }

  /** `x.nextSibling`, -1 for null. */
  function NextSibling(t: Tree, x: nat): (r: int)
    requires Shaped(t) && x < |t.nodes|
    ensures -1 <= r < |t.nodes|
    ensures r >= 0 ==> t.parent[x] >= 0 && t.parent[r] == t.parent[x]
  {
    if t.parent[x] < 0 then -1
    else
      InParentList(t, x);
      var r := After(t.children[t.parent[x]], x);
      if r >= 0 then ChildIndex(t, t.parent[x], r); r else r
  }

  /** The position in `s` of its first element (non-text node), -1 if
      there is none. */
  function FirstElementAt(t: Tree, s: seq<nat>): (i: int)
    requires InTree(t, s)
    ensures -1 <= i < |s|
    ensures i >= 0 ==> IsElement(t.nodes[s[i]])
  {
    if s == [] then -1
    else if IsElement(t.nodes[s[0]]) then 0
    else
      var j := FirstElementAt(t, s[1..]);
      if j < 0 then -1 else j + 1
  }

  /** Any element of `s` is found, and none is skipped: the position
      picked is at or before every element's. */
  lemma {:induction false} FirstElementAtFirst(t: Tree, s: seq<nat>, k: nat)
    requires InTree(t, s) && k < |s| && IsElement(t.nodes[s[k]])
    ensures 0 <= FirstElementAt(t, s) <= k
  {
    if !IsElement(t.nodes[s[0]]) {
      assert s[1..][k - 1] == s[k];
      FirstElementAtFirst(t, s[1..], k - 1);
    }
  }

  /** The first element of `s`, -1 if none. */
  function FirstElementIn(t: Tree, s: seq<nat>): (r: int)
    requires InTree(t, s)
    ensures -1 <= r < |t.nodes|
    ensures r >= 0 ==> IsElement(t.nodes[r])
  {
    var i := FirstElementAt(t, s);
    if i < 0 then -1 else s[i]
  }

  /** In a list without repeats, an element followed directly by an
      element `g` is the only position whose next element is `g`. */
  lemma ElementSuccessorUnique(t: Tree, c: seq<nat>, i: nat, j: nat)
    requires InTree(t, c) && NoDup(c) && i < |c| && j + 1 < |c|
    requires IsElement(t.nodes[c[j]])
    requires FirstElementIn(t, c[i + 1..]) == c[j + 1]
    ensures i == j
  {
    var s := c[i + 1..];
    var k := FirstElementAt(t, s);
    assert c[i + 1 + k] == c[j + 1];
    if j > i {
      assert s[j - i - 1] == c[j];
      FirstElementAtFirst(t, s, j - i - 1);
    }
  }

  /** The siblings that follow `x`, in order. */
  function FollowingSiblings(t: Tree, x: nat): (s: seq<nat>)
    requires Shaped(t) && x < |t.nodes|
    ensures InTree(t, s)
  {
    if t.parent[x] < 0 then []
    else
      InParentList(t, x);
      var c := t.children[t.parent[x]];
      var i := IndexOf(c, x);
      c[i + 1..]
  }

  /** `x.nextElementSibling`, -1 for null. */
  function NextElementSibling(t: Tree, x: nat): (r: int)
    requires Shaped(t) && x < |t.nodes|
    ensures -1 <= r < |t.nodes|
  {
    FirstElementIn(t, FollowingSiblings(t, x))
  }

  /** `next` gives a node number or -1 for every node of `t`. */
  predicate Links(t: Tree, next: seq<int>) {
    |next| == |t.nodes| && forall x | 0 <= x < |next| :: -1 <= next[x] < |t.nodes|
  }

  /** `next` holds every node's `nextElementSibling`, read off the tree
      once; a fact about one entry is drawn only where a proof names
      `NextElementSibling` of that node. */
  ghost predicate NextTable(t: Tree, next: seq<int>)
    requires Shaped(t)
  {
    && Links(t, next)
    && forall x {:trigger NextElementSibling(t, x)} | 0 <= x < |t.nodes| ::
         next[x] == NextElementSibling(t, x)
  }

  /** The `nextElementSibling` of every node. */
  function NextElementSiblings(t: Tree): (next: seq<int>)
    requires Shaped(t)
    ensures NextTable(t, next)
  {
    seq(|t.nodes|, x requires 0 <= x < |t.nodes| => NextElementSibling(t, x))
  }

  /** `x.firstElementChild`, -1 for null. */
  function FirstElementChild(t: Tree, x: nat): (r: int)
    requires Shaped(t) && x < |t.nodes|
    ensures -1 <= r < |t.nodes|
  {
    FirstElementIn(t, t.children[x])
  }

  /** The subtrees rooted at `ns`, each in document (pre-)order. The
      descent stops after `fuel` levels; in a tree of n nodes no path is
      longer than n, so callers pass the node count. */
  function Preorder(t: Tree, ns: seq<nat>, fuel: nat): (r: seq<nat>)
    requires Shaped(t) && InTree(t, ns)
    ensures InTree(t, r)
    decreases fuel, |ns|
  {
    if ns == [] then []
    else
      [ns[0]]
      + (if fuel == 0 then [] else Preorder(t, t.children[ns[0]], fuel - 1))
      + Preorder(t, ns[1..], fuel)
  }

  /** The descendants of `x` in document order (`x.querySelectorAll('*')`). */
  function Descendants(t: Tree, x: nat): (r: seq<nat>)
    requires Shaped(t) && x < |t.nodes|
    ensures InTree(t, r)
  {
    Preorder(t, t.children[x], |t.nodes|)
  }

  /** The members of `ns` matching `p`, order kept. */
  function Select(t: Tree, ns: seq<nat>, p: Node -> bool): (r: seq<nat>)
    requires InTree(t, ns)
    ensures InTree(t, r)
    ensures forall i | 0 <= i < |r| :: r[i] in ns && p(t.nodes[r[i]])
    ensures forall i | 0 <= i < |ns| && p(t.nodes[ns[i]]) :: ns[i] in r
  {
    if ns == [] then []
    else (if p(t.nodes[ns[0]]) then [ns[0]] else []) + Select(t, ns[1..], p)
  }

  /** `Select` keeps order: the matches of `a + b` are the matches of `a`
      followed by the matches of `b`. */
  lemma {:induction false} SelectAppend(t: Tree, a: seq<nat>, b: seq<nat>, p: Node -> bool)
    requires InTree(t, a) && InTree(t, b)
    ensures InTree(t, a + b)
    ensures Select(t, a + b, p) == Select(t, a, p) + Select(t, b, p)
  {
    if a == [] {
      assert a + b == b;
    } else {
      assert (a + b)[1..] == a[1..] + b;
      SelectAppend(t, a[1..], b, p);
    }
  }

  /** The first match `Select` returns is the first node of `ns` that
      matches. */
  lemma {:induction false} SelectFirst(t: Tree, ns: seq<nat>, p: Node -> bool)
    requires InTree(t, ns)
    ensures var r := Select(t, ns, p);
      r != [] ==> r[0] in ns && forall i | 0 <= i < IndexOf(ns, r[0]) :: !p(t.nodes[ns[i]])
  {
    var r := Select(t, ns, p);
    if ns != [] && !p(t.nodes[ns[0]]) {
      SelectFirst(t, ns[1..], p);
      if r != [] {
        assert r[0] != ns[0];
        var k := IndexOf(ns[1..], r[0]);
        IndexOfFirst(ns, r[0], k + 1);
      }
    }
  }

  /** `x.querySelector(sel)`: the first descendant of `x` matching `p`, -1 if none. */
  function QueryFirst(t: Tree, x: nat, p: Node -> bool): (r: int)
    requires Shaped(t) && x < |t.nodes|
    ensures -1 <= r < |t.nodes|
  {
    var s := Select(t, Descendants(t, x), p);
    if s == [] then -1 else s[0]
  }

  lemma {:induction false} ContainsDepth(t: Tree, depth: seq<nat>, a: nat, x: nat)
    requires Ranked(t, depth) && x < |t.nodes| && Contains(t, depth, a, x)
    ensures a < |t.nodes| && depth[a] <= depth[x]
    ensures a != x ==> depth[a] < depth[x]
    decreases depth[x]
  {
    if x != a {
      ContainsDepth(t, depth, a, t.parent[x]);
    }
  }

  lemma {:induction false} ContainsTransitive(t: Tree, depth: seq<nat>, a: nat, b: nat, x: nat)
    requires Ranked(t, depth) && b < |t.nodes| && x < |t.nodes|
    requires Contains(t, depth, a, b) && Contains(t, depth, b, x)
    ensures Contains(t, depth, a, x)
    decreases depth[x]
  {
    if x != b {
      ContainsTransitive(t, depth, a, b, t.parent[x]);
    }
  }

  /** The ancestors of a node form a chain: two of them are nested. */
  lemma {:induction false} ContainsLinear(t: Tree, depth: seq<nat>, a: nat, b: nat, x: nat)
    requires Ranked(t, depth) && x < |t.nodes|
    requires Contains(t, depth, a, x) && Contains(t, depth, b, x)
    ensures a < |t.nodes| && b < |t.nodes|
    ensures Contains(t, depth, a, b) || Contains(t, depth, b, a)
    decreases depth[x]
  {
    ContainsDepth(t, depth, a, x);
    ContainsDepth(t, depth, b, x);
    if x != a && x != b {
      ContainsLinear(t, depth, a, b, t.parent[x]);
    }
  }

  /** Two distinct children of one node do not contain one another. */
  lemma SiblingsApart(t: Tree, depth: seq<nat>, a: nat, b: nat)
    requires Ranked(t, depth) && a < |t.nodes| && b < |t.nodes| && a != b
    requires t.parent[a] >= 0 && t.parent[a] == t.parent[b]
    ensures !Contains(t, depth, a, b)
  {
    if Contains(t, depth, a, b) {
      ContainsDepth(t, depth, a, b);
    }
  }

  lemma NextSiblingIsElementSibling(t: Tree, x: nat)
    requires Shaped(t) && x < |t.nodes|
    requires NextSibling(t, x) >= 0 && IsElement(t.nodes[NextSibling(t, x)])
    ensures NextElementSibling(t, x) == NextSibling(t, x)
  {
    var c := t.children[t.parent[x]];
    var i := IndexOf(c, x);
    assert FollowingSiblings(t, x) == c[i + 1..];
    assert c[i + 1..][0] == c[i + 1];
  }

  /** Two nodes with the same following sibling are the same node. */
  lemma NextSiblingInjective(t: Tree, a: nat, b: nat)
    requires Shaped(t) && a < |t.nodes| && b < |t.nodes|
    requires NextSibling(t, a) >= 0 && NextSibling(t, a) == NextSibling(t, b)
    ensures a == b
  {
    var q := t.parent[a];
    var c := t.children[q];
    InParentList(t, a);
    InParentList(t, b);
    assert NoDup(c);
    var i, j := IndexOf(c, a), IndexOf(c, b);
    assert c[i + 1] == c[j + 1];
  }

  lemma NextElementSiblingParent(t: Tree, x: nat)
    requires Shaped(t) && x < |t.nodes| && NextElementSibling(t, x) >= 0
    ensures t.parent[x] >= 0 && t.parent[NextElementSibling(t, x)] == t.parent[x]
  {
    InParentList(t, x);
    var q := t.parent[x];
    var c := t.children[q];
    var i := IndexOf(c, x);
    var s := c[i + 1..];
    assert FollowingSiblings(t, x) == s;
    var k := FirstElementAt(t, s);
    assert s[k] in c by { assert s[k] == c[i + 1 + k]; }
    ChildIndex(t, q, s[k]);
  }
}
