/** Collapse state of the page: which content groups are hidden, what
    each heading's `aria-expanded` says, and the operations that change
    them (a heading's `toggle`, the Collapse/Expand All button). */
module Collapse {
  import opened Seqs
  import opened Dom

  /** Per node: carries class `is-hidden`; its `aria-expanded` reads
      "true"; carries class `collapsible-heading`. */
  datatype Marks = Marks(hidden: seq<bool>, expanded: seq<bool>, collapsible: seq<bool>)

  predicate Fits(t: Tree, f: Marks) {
    |f.hidden| == |t.nodes| && |f.expanded| == |t.nodes| && |f.collapsible| == |t.nodes|
  }

  /** The content group a heading controls: its next element sibling
      (`next[h]`) when that is a group, -1 otherwise. */
  function GroupOf(t: Tree, next: seq<int>, h: nat): (g: int)
    requires Links(t, next) && h < |t.nodes|
    ensures -1 <= g < |t.nodes|
  {
    if next[h] >= 0 && t.nodes[next[h]].Group? then next[h] else -1
  }

  /** A collapsible heading is an H1-H3 whose very next sibling is its
      content group, and its `aria-expanded` says the group is shown. */
  ghost predicate SyncedAt(t: Tree, f: Marks, h: nat)
    requires Shaped(t) && Fits(t, f) && h < |t.nodes|
  {
    && IsH123(t.nodes[h])
    && NextSibling(t, h) >= 0
    && t.nodes[NextSibling(t, h)].Group?
    && f.expanded[h] == !f.hidden[NextSibling(t, h)]
  }

  ghost predicate Synced(t: Tree, f: Marks)
    requires Shaped(t) && Fits(t, f)
  {
    forall h | 0 <= h < |t.nodes| && f.collapsible[h] :: SyncedAt(t, f, h)
  }

  /** In a synced page a collapsible heading's group is its next sibling. */
  lemma GroupOfSynced(t: Tree, next: seq<int>, f: Marks, h: nat)
    requires Shaped(t) && NextTable(t, next) && Fits(t, f) && h < |t.nodes| && SyncedAt(t, f, h)
    ensures GroupOf(t, next, h) == NextSibling(t, h) >= 0
  {
    NextSiblingIsElementSibling(t, h);
    assert next[h] == NextElementSibling(t, h);
  }

  /** Distinct collapsible headings of a synced page own distinct groups. */
  lemma GroupsDistinct(t: Tree, next: seq<int>, f: Marks, a: nat, b: nat)
    requires Shaped(t) && NextTable(t, next) && Fits(t, f) && a < |t.nodes| && b < |t.nodes| && a != b
    requires SyncedAt(t, f, a) && SyncedAt(t, f, b)
    ensures GroupOf(t, next, a) != GroupOf(t, next, b)
  {
    GroupOfSynced(t, next, f, a);
    GroupOfSynced(t, next, f, b);
    if NextSibling(t, a) == NextSibling(t, b) {
      NextSiblingInjective(t, a, b);
    }
  }

  /** A heading's `toggle`: when its next element sibling is a content
      group, the group's `is-hidden` becomes the old `aria-expanded` and
      `aria-expanded` flips; otherwise nothing changes. */
  function Toggled(t: Tree, next: seq<int>, f: Marks, h: nat): (r: Marks)
    requires Links(t, next) && Fits(t, f) && h < |t.nodes|
    ensures Fits(t, r) && r.collapsible == f.collapsible
  {
    var g := GroupOf(t, next, h);
    if g < 0 then f
    else Marks(f.hidden[g := f.expanded[h]], f.expanded[h := !f.expanded[h]], f.collapsible)
  }

  /** Toggling a collapsible heading shows a hidden group or hides a
      shown one, reports it in `aria-expanded`, and touches nothing else. */
  lemma ToggleFlips(t: Tree, next: seq<int>, f: Marks, h: nat)
    requires Shaped(t) && NextTable(t, next) && Fits(t, f) && h < |t.nodes| && f.collapsible[h] && Synced(t, f)
    ensures var g := NextSibling(t, h); var r := Toggled(t, next, f, h);
      && g >= 0
      && r.hidden[g] == !f.hidden[g]
      && r.expanded[h] == !f.expanded[h]
      && r.expanded[h] == !r.hidden[g]
      && (forall x | 0 <= x < |t.nodes| && x != g :: r.hidden[x] == f.hidden[x])
      && (forall x | 0 <= x < |t.nodes| && x != h :: r.expanded[x] == f.expanded[x])
  {
    GroupOfSynced(t, next, f, h);
  }

  /** Toggling keeps every collapsible heading in step with its group. */
  lemma ToggleKeepsSynced(t: Tree, next: seq<int>, f: Marks, h: nat)
    requires Shaped(t) && NextTable(t, next) && Fits(t, f) && h < |t.nodes| && Synced(t, f)
    ensures Synced(t, Toggled(t, next, f, h))
  {
    var r := Toggled(t, next, f, h);
    forall h0 | 0 <= h0 < |t.nodes| && r.collapsible[h0] ensures SyncedAt(t, r, h0) {
      ToggleKeepsSyncedAt(t, next, f, h, h0);
    }
  }

  lemma ToggleKeepsSyncedAt(t: Tree, next: seq<int>, f: Marks, h: nat, h0: nat)
    requires Shaped(t) && NextTable(t, next) && Fits(t, f) && h < |t.nodes| && h0 < |t.nodes| && f.collapsible[h0]
    requires SyncedAt(t, f, h0)
    ensures SyncedAt(t, Toggled(t, next, f, h), h0)
  {
    var g := GroupOf(t, next, h);
    if g >= 0 && h0 != h && NextSibling(t, h0) == g {
      assert next[h] == NextElementSibling(t, h);
      ElementFollowedBy(t, h, h0);
    }
  }

  /** An element directly followed by an element `g` is the only
      node whose next element sibling is `g`. */
  lemma ElementFollowedBy(t: Tree, h: nat, h0: nat)
    requires Shaped(t) && h < |t.nodes| && h0 < |t.nodes|
    requires IsElement(t.nodes[h0])
    requires NextSibling(t, h0) >= 0 && IsElement(t.nodes[NextSibling(t, h0)])
    requires NextElementSibling(t, h) == NextSibling(t, h0)
    ensures h == h0
  {
    var g := NextSibling(t, h0);
    NextElementSiblingParent(t, h);
    var q := t.parent[h];
    var c := t.children[q];
    assert t.parent[h0] == q;
    InParentList(t, h);
    InParentList(t, h0);
    assert InTree(t, c) && NoDup(c) by { ChildrenInTree(t, q); }
    var i, j := IndexOf(c, h), IndexOf(c, h0);
    assert j + 1 < |c| && c[j + 1] == g by { AfterAt(c, j); }
    assert FirstElementIn(t, c[i + 1..]) == g by {
      assert FollowingSiblings(t, h) == c[i + 1..];
    }
    ElementSuccessorUnique(t, c, i, j);
  }

  /** Toggling a collapsible heading twice restores the page. */
  lemma ToggleTwice(t: Tree, next: seq<int>, f: Marks, h: nat)
    requires Shaped(t) && NextTable(t, next) && Fits(t, f) && h < |t.nodes| && f.collapsible[h] && Synced(t, f)
    ensures Toggled(t, next, Toggled(t, next, f, h), h) == f
  {
    GroupOfSynced(t, next, f, h);
    var r := Toggled(t, next, Toggled(t, next, f, h), h);
    assert r.hidden == f.hidden;
    assert r.expanded == f.expanded;
  }

  /** A node the selector `main h1.collapsible-heading, main
      h2.collapsible-heading, main h3.collapsible-heading` matches. */
  predicate IsHead(t: Tree, ghost depth: seq<nat>, f: Marks, x: nat)
    requires Ranked(t, depth) && Fits(t, f) && x < |t.nodes|
  {
    f.collapsible[x] && IsH123(t.nodes[x]) && t.parent[x] >= 0 && Closest(t, depth, t.parent[x], IsMain) >= 0
  }

  /** The members of `ns` that are heads, order kept. */
  function HeadsIn(t: Tree, ghost depth: seq<nat>, f: Marks, ns: seq<nat>): (r: seq<nat>)
    requires Ranked(t, depth) && Fits(t, f) && InTree(t, ns)
    ensures InTree(t, r)
    ensures forall i | 0 <= i < |r| :: r[i] in ns && IsHead(t, depth, f, r[i])
    ensures forall i | 0 <= i < |ns| && IsHead(t, depth, f, ns[i]) :: ns[i] in r
  {
    if ns == [] then []
    else (if IsHead(t, depth, f, ns[0]) then [ns[0]] else []) + HeadsIn(t, depth, f, ns[1..])
  }

  /** `HeadsIn` keeps order: the heads of `a + b` are the heads of `a`
      followed by the heads of `b`. */
  lemma {:induction false} HeadsInAppend(t: Tree, depth: seq<nat>, f: Marks, a: seq<nat>, b: seq<nat>)
    requires Ranked(t, depth) && Fits(t, f) && InTree(t, a) && InTree(t, b)
    ensures InTree(t, a + b)
    ensures HeadsIn(t, depth, f, a + b) == HeadsIn(t, depth, f, a) + HeadsIn(t, depth, f, b)
  {
    if a == [] {
      assert a + b == b;
    } else {
      assert (a + b)[1..] == a[1..] + b;
      HeadsInAppend(t, depth, f, a[1..], b);
    }
  }

  /** Which nodes are heads depends only on the `collapsible-heading`
      marks, not on what is hidden or expanded. */
  lemma {:induction false} HeadsInMarks(t: Tree, depth: seq<nat>, f: Marks, f': Marks, ns: seq<nat>)
    requires Ranked(t, depth) && Fits(t, f) && Fits(t, f') && InTree(t, ns) && f.collapsible == f'.collapsible
    ensures HeadsIn(t, depth, f, ns) == HeadsIn(t, depth, f', ns)
  {
    if ns != [] {
      HeadsInMarks(t, depth, f, f', ns[1..]);
    }
  }

  /** The heads of a page do not depend on what is hidden or expanded. */
  lemma HeadsSameMarks(t: Tree, depth: seq<nat>, f: Marks, f': Marks)
    requires Ranked(t, depth) && Fits(t, f) && Fits(t, f') && |t.nodes| > 0 && f.collapsible == f'.collapsible
    ensures Heads(t, depth, f) == Heads(t, depth, f')
  {
    HeadsInMarks(t, depth, f, f', DocumentOrder(t));
  }

  /** The whole document, node 0 being its root, in document order. */
  function DocumentOrder(t: Tree): (r: seq<nat>)
    requires Shaped(t) && |t.nodes| > 0
    ensures InTree(t, r)
  {
    Preorder(t, [0], |t.nodes|)
  }

  /** `document.querySelectorAll` of the heads selector. */
  function Heads(t: Tree, ghost depth: seq<nat>, f: Marks): (r: seq<nat>)
    requires Ranked(t, depth) && Fits(t, f) && |t.nodes| > 0
    ensures InTree(t, r)
    ensures forall i | 0 <= i < |r| :: IsHead(t, depth, f, r[i])
  {
    HeadsIn(t, depth, f, DocumentOrder(t))
  }

  /** The heads outside `#toc`, order kept (`getHeads`). */
  function OutsideToc(t: Tree, ghost depth: seq<nat>, hs: seq<nat>): (r: seq<nat>)
    requires Ranked(t, depth) && InTree(t, hs)
    ensures InTree(t, r)
  {
    if hs == [] then []
    else (if Closest(t, depth, hs[0], IsToc) < 0 then [hs[0]] else []) + OutsideToc(t, depth, hs[1..])
  }

  /** `getHeads` keeps exactly the listed heads that are not inside `#toc`. */
  lemma {:induction false} OutsideTocMeans(t: Tree, depth: seq<nat>, hs: seq<nat>)
    requires Ranked(t, depth) && InTree(t, hs)
    ensures var r := OutsideToc(t, depth, hs);
      && (forall i | 0 <= i < |r| :: r[i] in hs && Closest(t, depth, r[i], IsToc) < 0)
      && (forall i | 0 <= i < |hs| && Closest(t, depth, hs[i], IsToc) < 0 :: hs[i] in r)
    decreases |hs|
  {
    if hs != [] {
      OutsideTocMeans(t, depth, hs[1..]);
      assert forall i | 1 <= i < |hs| :: hs[i] == hs[1..][i - 1];
    }
  }

  /** `allCollapsed`: every listed heading has a next element sibling
      and that sibling is hidden (true of an empty list). */
  function AllCollapsed(t: Tree, next: seq<int>, f: Marks, hs: seq<nat>): bool
    requires Links(t, next) && Fits(t, f) && InTree(t, hs)
  {
    if hs == [] then true
    else next[hs[0]] >= 0 && f.hidden[next[hs[0]]] && AllCollapsed(t, next, f, hs[1..])
  }

  /** `allCollapsed` holds exactly when every listed heading's next
      element sibling exists and is hidden. */
  lemma {:induction false} AllCollapsedMeans(t: Tree, next: seq<int>, f: Marks, hs: seq<nat>)
    requires Links(t, next) && Fits(t, f) && InTree(t, hs)
    ensures AllCollapsed(t, next, f, hs) <==> forall i | 0 <= i < |hs| :: next[hs[i]] >= 0 && f.hidden[next[hs[i]]]
    decreases |hs|
  {
    if hs != [] {
      AllCollapsedMeans(t, next, f, hs[1..]);
      assert forall i | 1 <= i < |hs| :: hs[i] == hs[1..][i - 1];
    }
  }

  /** One step of `setAll`: a heading followed by a content group shows
      or hides it and says so in `aria-expanded`. */
  function SetOne(t: Tree, next: seq<int>, f: Marks, h: nat, expand: bool): (r: Marks)
    requires Links(t, next) && Fits(t, f) && h < |t.nodes|
    ensures Fits(t, r) && r.collapsible == f.collapsible
  {
    var g := GroupOf(t, next, h);
    if g < 0 then f else Marks(f.hidden[g := !expand], f.expanded[h := expand], f.collapsible)
  }

  /** `setAll(expand)` over the headings `hs`, first to last. */
  function SetAll(t: Tree, next: seq<int>, f: Marks, hs: seq<nat>, expand: bool): (r: Marks)
    requires Links(t, next) && Fits(t, f) && InTree(t, hs)
    ensures Fits(t, r) && r.collapsible == f.collapsible
    decreases |hs|
  {
    if hs == [] then f
    else SetOne(t, next, SetAll(t, next, f, hs[..|hs| - 1], expand), hs[|hs| - 1], expand)
  }

  /** After `setAll(expand)` every listed heading that owns a group says
      `expand` and its group is hidden exactly when `expand` is false;
      nodes that are neither listed nor such a group keep their marks. */
  lemma {:induction false} SetAllEffect(t: Tree, next: seq<int>, f: Marks, hs: seq<nat>, expand: bool)
    requires Links(t, next) && Fits(t, f) && InTree(t, hs)
    ensures var r := SetAll(t, next, f, hs, expand);
      && (forall i | 0 <= i < |hs| && GroupOf(t, next, hs[i]) >= 0 ::
            r.expanded[hs[i]] == expand && r.hidden[GroupOf(t, next, hs[i])] == !expand)
      && (forall x | 0 <= x < |t.nodes| && x !in hs :: r.expanded[x] == f.expanded[x])
      && (forall x | 0 <= x < |t.nodes| && (forall i | 0 <= i < |hs| :: GroupOf(t, next, hs[i]) != x) ::
            r.hidden[x] == f.hidden[x])
    decreases |hs|
  {
    if hs != [] {
      var a := hs[..|hs| - 1];
      SetAllEffect(t, next, f, a, expand);
      forall i | 0 <= i < |a| ensures a[i] == hs[i] && a[i] in hs { }
    }
  }

  /** `setAll` keeps a synced page synced when it runs over collapsible headings. */
  lemma {:induction false} SetAllKeepsSynced(t: Tree, next: seq<int>, f: Marks, hs: seq<nat>, expand: bool)
    requires Shaped(t) && NextTable(t, next) && Fits(t, f) && InTree(t, hs) && Synced(t, f)
    requires forall i | 0 <= i < |hs| :: f.collapsible[hs[i]]
    ensures Synced(t, SetAll(t, next, f, hs, expand))
    decreases |hs|
  {
    if hs != [] {
      var a := hs[..|hs| - 1];
      SetAllKeepsSynced(t, next, f, a, expand);
      SetOneKeepsSynced(t, next, SetAll(t, next, f, a, expand), hs[|hs| - 1], expand);
    }
  }

  lemma SetOneKeepsSynced(t: Tree, next: seq<int>, f: Marks, h: nat, expand: bool)
    requires Shaped(t) && NextTable(t, next) && Fits(t, f) && h < |t.nodes| && Synced(t, f) && f.collapsible[h]
    ensures Synced(t, SetOne(t, next, f, h, expand))
  {
    var r := SetOne(t, next, f, h, expand);
    GroupOfSynced(t, next, f, h);
    forall h0 | 0 <= h0 < |t.nodes| && r.collapsible[h0] ensures SyncedAt(t, r, h0) {
      assert SyncedAt(t, f, h0);
      if h0 != h {
        GroupsDistinct(t, next, f, h, h0);
        GroupOfSynced(t, next, f, h0);
      }
    }
  }

  /** Text of the Collapse/Expand All button (`syncCollapseBtn`). */
  function Label(collapsed: bool): (s: string)
    ensures s == "Expand All" <==> collapsed
  {
    if collapsed then "Expand All" else "Collapse All"
  }

  /** A press of Collapse/Expand All on a synced page flips its state:
      when not every listed group is hidden they all become hidden, and
      when every one was hidden, none stays hidden. */
  lemma ClickFlips(t: Tree, next: seq<int>, f: Marks, hs: seq<nat>)
    requires Shaped(t) && NextTable(t, next) && Fits(t, f) && InTree(t, hs) && Synced(t, f)
    requires forall i | 0 <= i < |hs| :: f.collapsible[hs[i]]
    ensures var expand := AllCollapsed(t, next, f, hs); var r := SetAll(t, next, f, hs, expand);
      && Synced(t, r)
      && AllCollapsed(t, next, r, hs) == (!expand || hs == [])
      && (forall i | 0 <= i < |hs| :: r.expanded[hs[i]] == expand)
  {
    var expand := AllCollapsed(t, next, f, hs);
    var r := SetAll(t, next, f, hs, expand);
    AllCollapsedMeans(t, next, f, hs);
    AllCollapsedMeans(t, next, r, hs);
    SetAllEffect(t, next, f, hs, expand);
    SetAllKeepsSynced(t, next, f, hs, expand);
    forall i | 0 <= i < |hs| ensures GroupOf(t, next, hs[i]) == next[hs[i]] >= 0 {
      assert SyncedAt(t, f, hs[i]);
      GroupOfSynced(t, next, f, hs[i]);
      assert next[hs[i]] == NextElementSibling(t, hs[i]);
    }
    if expand && hs != [] {
      assert !r.hidden[next[hs[0]]];
    }
  }

  /** After a press, `getHeads()` lists the same heads, so the label the
      button then shows names the opposite of what the press did. */
  lemma ClickRelabels(t: Tree, depth: seq<nat>, f: Marks)
    requires Ranked(t, depth) && Fits(t, f) && |t.nodes| > 0 && Synced(t, f)
    ensures var next := NextElementSiblings(t); var hs := OutsideToc(t, depth, Heads(t, depth, f));
      var expand := AllCollapsed(t, next, f, hs); var r := SetAll(t, next, f, hs, expand);
      && Synced(t, r)
      && OutsideToc(t, depth, Heads(t, depth, r)) == hs
      && AllCollapsed(t, next, r, hs) == (!expand || hs == [])
  {
    var next := NextElementSiblings(t);
    var hs := OutsideToc(t, depth, Heads(t, depth, f));
    var r := SetAll(t, next, f, hs, AllCollapsed(t, next, f, hs));
    OutsideTocMeans(t, depth, Heads(t, depth, f));
    HeadsInMarks(t, depth, f, r, DocumentOrder(t));
    forall i | 0 <= i < |hs| ensures f.collapsible[hs[i]] {
      var j :| 0 <= j < |Heads(t, depth, f)| && Heads(t, depth, f)[j] == hs[i];
    }
    ClickFlips(t, next, f, hs);
  }
}
