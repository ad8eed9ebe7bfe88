/** A small page on which `expandToReveal` as written leaves the target
    hidden: `main` holds an H1 section whose group holds a collapsed H2
    section, whose group holds the target H3 `#c`. */
module Findings {
  import opened Seqs
  import opened Dom
  import opened Collapse
  import opened Reveal
  import Pages

  /** 0 root, 1 `main`, 2 H1, 3 its group, 4 H2 (inside 3), 5 its
      group, 6 the target H3 (inside 5). */
  function NestedPage(): Tree {
    Tree([Element(Other, ""), Element(Main, ""), Element(Heading(1), ""), Group,
          Element(Heading(2), ""), Group, Element(Heading(3), "c")],
         [-1, 0, 1, 1, 3, 3, 5],
         [[1], [2, 3], [], [4, 5], [], [6], []])
  }

  function NestedDepth(): seq<nat> { [0, 1, 2, 2, 3, 3, 4] }

  /** Both sections collapsed, both headings saying so. */
  function BothCollapsed(): Marks {
    Marks([false, false, false, true, false, true, false],
          [false, false, false, false, false, false, false],
          [false, false, true, false, true, false, false])
  }

  lemma NestedPageRanked()
    ensures Ranked(NestedPage(), NestedDepth())
  {
    NestedListed();
    NestedPointsBack();
    NestedDistinct();
  }

  lemma NestedListed()
    ensures ParentsInRange(NestedPage()) && ParentsList(NestedPage())
  {
    var t := NestedPage();
    forall x | 0 <= x < 7 && t.parent[x] >= 0 ensures Listed(t, x) {
      assert t.children[t.parent[x]][IndexIn(x)] == x;
    }
  }

  lemma NestedPointsBack()
    ensures ChildrenPointBack(NestedPage())
  {
  }

  lemma NestedDistinct()
    ensures ListsDistinct(NestedPage())
  {
    var t := NestedPage();
    forall q | 0 <= q < 7 ensures NoDup(t.children[q]) { }
  }

  /** Where node `x` sits in its parent's list. */
  function IndexIn(x: nat): nat {
    if x == 3 || x == 5 then 1 else 0
  }

  lemma NestedNext()
    ensures Ranked(NestedPage(), NestedDepth())
    ensures NextTable(NestedPage(), NestedNextTable())
  {
    NestedPageRanked();
    var t := NestedPage();
    var next := NestedNextTable();
    forall x | 0 <= x < 7 ensures next[x] == NextElementSibling(t, x) {
      if t.parent[x] >= 0 {
        assert t.children[t.parent[x]][IndexIn(x)] == x;
        IndexOfUnique(t.children[t.parent[x]], x, IndexIn(x));
      }
    }
  }

  function NestedNextTable(): seq<int> { [-1, -1, 3, -1, 5, -1, -1] }

  lemma NestedSynced()
    ensures Ranked(NestedPage(), NestedDepth()) && Synced(NestedPage(), BothCollapsed())
  {
    NestedPageRanked();
    var t := NestedPage();
    var f := BothCollapsed();
    forall h | 0 <= h < 7 && f.collapsible[h] ensures SyncedAt(t, f, h) {
      assert t.children[t.parent[h]][0] == h;
      IndexOfUnique(t.children[t.parent[h]], h, 0);
    }
  }

  /** The page in document order is 0 to 6. */
  lemma NestedOrder()
    ensures Ranked(NestedPage(), NestedDepth())
    ensures DocumentOrder(NestedPage()) == Range(0, 7)
  {
    NestedPageRanked();
    OrderOfShape(NestedPage());
  }

  /** Node `i` is the `i`-th in document order. */
  lemma NestedOrderAt()
    ensures Ranked(NestedPage(), NestedDepth())
    ensures var o := DocumentOrder(NestedPage()); |o| == 7 && forall i | 0 <= i < 7 :: o[i] == i
  {
    NestedOrder();
    RangeAt(0, 7);
  }

  /** The nodes `a` to `b - 1` in increasing order. */
  function Range(a: nat, b: nat): (r: seq<nat>)
    requires a <= b
    ensures |r| == b - a
    decreases b - a
  {
    if a == b then [] else [a] + Range(a + 1, b)
  }

  lemma {:induction false} RangeAt(a: nat, b: nat)
    requires a <= b
    ensures forall i | 0 <= i < b - a :: Range(a, b)[i] == a + i
    decreases b - a
  {
    if a < b {
      RangeAt(a + 1, b);
      assert Range(a, b)[1..] == Range(a + 1, b);
    }
  }

  /** A tree with the child lists of the nested page lists its nodes 0 to
      6 in document order. */
  lemma OrderOfShape(t: Tree)
    requires Shaped(t) && |t.nodes| == 7
    requires t.children == [[1], [2, 3], [], [4, 5], [], [6], []]
    ensures DocumentOrder(t) == Range(0, 7)
  {
    WalkFromOne(t);
    PreorderOne(t, 0, 7);
  }

  /** The walk from the body (node 1) covers nodes 1 to 6. */
  lemma WalkFromOne(t: Tree)
    requires Shaped(t) && |t.nodes| == 7
    requires t.children == [[1], [2, 3], [], [4, 5], [], [6], []]
    ensures Preorder(t, [1], 6) == Range(1, 7)
  {
    WalkFromThree(t);
    PreorderTwo(t, 2, 3, 5);
    PreorderOne(t, 2, 5);
    PreorderOne(t, 1, 6);
    assert Preorder(t, [2], 5) == [2];
  }

  /** The walk from the H1's section (node 3) covers nodes 3 to 6. */
  lemma WalkFromThree(t: Tree)
    requires Shaped(t) && |t.nodes| == 7
    requires t.children == [[1], [2, 3], [], [4, 5], [], [6], []]
    ensures Preorder(t, [3], 5) == Range(3, 7)
  {
    PreorderOne(t, 6, 3);
    PreorderOne(t, 5, 4);
    PreorderTwo(t, 4, 5, 4);
    PreorderOne(t, 4, 4);
    PreorderOne(t, 3, 5);
  }

  /** With both sections collapsed the heads, in document order, are the
      H1 and the H2. */
  lemma NestedHeads()
    ensures Ranked(NestedPage(), NestedDepth())
    ensures Heads(NestedPage(), NestedDepth(), BothCollapsed()) == [2, 4]
  {
    NestedOrderAt();
    NestedHeadsMarked();
    HeadsOfShape(NestedPage(), NestedDepth(), BothCollapsed());
  }

  /** A seven-node page listed 0 to 6 whose only heads are 2 and 4 has
      heads [2, 4]. */
  lemma HeadsOfShape(t: Tree, d: seq<nat>, f: Marks)
    requires Ranked(t, d) && Fits(t, f) && |t.nodes| == 7
    requires |DocumentOrder(t)| == 7 && forall i | 0 <= i < 7 :: DocumentOrder(t)[i] == i
    requires forall x | 0 <= x < 7 :: IsHead(t, d, f, x) <==> x == 2 || x == 4
    ensures Heads(t, d, f) == [2, 4]
  {
    var ns := DocumentOrder(t);
    HeadsFrom(t, d, f, ns, 0);
    assert ns[0..] == ns;
    Pair(2, 4);
    assert HeadsAfter(0) == [2] + [4];
  }

  /** The heads of such a page from position `k` of its order on. */
  lemma {:induction false} HeadsFrom(t: Tree, d: seq<nat>, f: Marks, ns: seq<nat>, k: nat)
    requires Ranked(t, d) && Fits(t, f) && |t.nodes| == 7 && InTree(t, ns) && |ns| == 7 && k <= 7
    requires forall i | 0 <= i < 7 :: ns[i] == i
    requires forall x | 0 <= x < 7 :: IsHead(t, d, f, x) <==> x == 2 || x == 4
    ensures InTree(t, ns[k..])
    ensures HeadsIn(t, d, f, ns[k..]) == HeadsAfter(k)
    decreases 7 - k
  {
    if k == 7 {
      assert ns[k..] == [];
    } else {
      HeadsFrom(t, d, f, ns, k + 1);
      var s := ns[k..];
      assert s[0] == k && s[1..] == ns[k + 1..];
      var b := IsHead(t, d, f, k);
      assert HeadsIn(t, d, f, s) == (if b then [k] else []) + HeadsIn(t, d, f, ns[k + 1..]);
      HeadsAfterStep(k, b);
    }
  }

  /** The heads among positions `k` to 6 when only 2 and 4 are heads. */
  function HeadsAfter(k: nat): (r: seq<nat>)
    ensures 2 in r <==> k <= 2
  {
    (if k <= 2 then [2] else []) + (if k <= 4 then [4] else [])
  }

  lemma HeadsAfterStep(k: nat, b: bool)
    requires k < 7 && (b <==> k == 2 || k == 4)
    ensures (if b then [k] else []) + HeadsAfter(k + 1) == HeadsAfter(k)
  {
  }

  lemma Pair(x: nat, y: nat)
    ensures [x] + [y] == [x, y]
  {
  }

  /** The H1 and the H2 are heads: both are marked and inside `main`;
      no other node is marked. */
  lemma NestedHeadsMarked()
    ensures Ranked(NestedPage(), NestedDepth())
    ensures forall x | 0 <= x < 7 :: IsHead(NestedPage(), NestedDepth(), BothCollapsed(), x) <==> x == 2 || x == 4
  {
    NestedPageRanked();
    var t := NestedPage();
    var d := NestedDepth();
    assert Closest(t, d, 1, IsMain) == 1;
    assert Closest(t, d, 3, IsMain) == 1;
  }

  /** The `nextElementSibling` table of the page is the one above. */
  lemma NestedNextSiblings()
    ensures Ranked(NestedPage(), NestedDepth())
    ensures NextElementSiblings(NestedPage()) == NestedNextTable()
  {
    NestedNext();
  }

  /** The walk over a single node: the node, then its subtree. */
  lemma PreorderOne(t: Tree, x: nat, fuel: nat)
    requires Shaped(t) && x < |t.nodes| && fuel > 0
    ensures Preorder(t, [x], fuel) == [x] + Preorder(t, t.children[x], fuel - 1)
  {
    assert [x][1..] == [];
  }

  /** The walk over two siblings: the first's, then the second's. */
  lemma PreorderTwo(t: Tree, x: nat, y: nat, fuel: nat)
    requires Shaped(t) && x < |t.nodes| && y < |t.nodes|
    ensures Preorder(t, [x, y], fuel) == Preorder(t, [x], fuel) + Preorder(t, [y], fuel)
  {
    assert [x, y][1..] == [y];
    assert [x][1..] == [];
  }

  /** From `#c` the walk goes to the H1 (the first heading in document
      order whose group holds `#c`) and stops there. */
  lemma NestedPath()
    ensures Ranked(NestedPage(), NestedDepth())
    ensures NextTable(NestedPage(), NestedNextTable())
    ensures RevealPath(NestedPage(), NestedDepth(), NestedNextTable(), [2, 4], 6) == [2]
  {
    NestedNext();
    var t := NestedPage();
    var depth := NestedDepth();
    var next := NestedNextTable();
    assert Contains(t, depth, 3, 6);
    assert FirstOpener(t, depth, next, [2, 4], 6) == 2;
    assert !Contains(t, depth, 3, 2) && !Contains(t, depth, 5, 2);
    assert FirstOpener(t, depth, next, [2, 4], 2) == -1;
  }

  /** `expandToReveal(#c)` as written stops after opening the H1: the H2's
      group, which contains `#c`, stays hidden, and a second call opens
      nothing more. The corrected reveal opens both. Stated over the
      heads and `nextElementSibling` table the page computes. */
  lemma RevealLeavesInnerHidden()
    ensures Ranked(NestedPage(), NestedDepth()) && NestedPage().parent[0] == -1
    ensures var t := NestedPage(); var d := NestedDepth(); var f := BothCollapsed();
      var next := NextElementSiblings(t); var hs := Heads(t, d, f);
      var once := OpenAll(t, next, f, RevealPath(t, d, next, hs, 6));
      && Synced(t, f)
      && LinkTarget(t, "#c") == 6
      && Contains(t, d, 5, 6)
      && once.hidden[5]
      && RevealPath(t, d, next, Heads(t, d, once), 6) == [2]
      && OpenAll(t, next, once, [2]).hidden[5]
      && SetOne(t, next, once, 6, true).hidden[5]
      && !OpenAll(t, next, f, Enclosing(t, d, next, hs, 6)).hidden[5]
  {
    NestedCorrected();
    NestedReveal();
    NestedHeads();
    NestedNextSiblings();
    NestedLinkTarget();
    var t := NestedPage();
    var d := NestedDepth();
    var f := BothCollapsed();
    var next := NextElementSiblings(t);
    var once := OpenAll(t, next, f, [2]);
    HeadsSameMarks(t, d, f, once);
  }

  /** The corrected reveal of `#c`, over the heads and table the page
      computes, shows the H2's group. */
  lemma NestedCorrected()
    ensures Ranked(NestedPage(), NestedDepth())
    ensures var t := NestedPage(); var d := NestedDepth(); var f := BothCollapsed();
      var next := NextElementSiblings(t);
      !OpenAll(t, next, f, Enclosing(t, d, next, Heads(t, d, f), 6)).hidden[5]
  {
    NestedOpenBoth();
    NestedHeads();
    NestedNextSiblings();
  }

  /** What `TocClick("#c")` promises on the nested page leaves the H2's
      group hidden. */
  lemma NestedClick()
    ensures Ranked(NestedPage(), NestedDepth())
    ensures var t := NestedPage(); var d := NestedDepth(); var f := BothCollapsed();
      var next := NextElementSiblings(t);
      && LinkTarget(t, "#c") == 6
      && SetOne(t, next, OpenAll(t, next, f, RevealPath(t, d, next, Heads(t, d, f), 6)), 6, true).hidden[5]
  {
    RevealLeavesInnerHidden();
  }

  /** The same facts over the hand-listed heads [2, 4] and table. */
  lemma NestedReveal()
    ensures Ranked(NestedPage(), NestedDepth())
    ensures var t := NestedPage(); var next := NestedNextTable(); var f := BothCollapsed();
      && NextTable(t, next)
      && Synced(t, f)
      && RevealPath(t, NestedDepth(), next, [2, 4], 6) == [2]
      && Contains(t, NestedDepth(), 5, 6)
      && OpenAll(t, next, f, [2]).hidden[5]
      && OpenAll(t, next, OpenAll(t, next, f, [2]), [2]).hidden[5]
      && Enclosing(t, NestedDepth(), next, [2, 4], 6) == [2, 4]
      && !OpenAll(t, next, f, [2, 4]).hidden[5]
  {
    NestedSynced();
    NestedPath();
    NestedOpenOuter();
    NestedOpenBoth();
  }

  /** A link to `#c` targets the H3. */
  lemma NestedLinkTarget()
    ensures Ranked(NestedPage(), NestedDepth())
    ensures LinkTarget(NestedPage(), "#c") == 6
  {
    NestedOrderAt();
    NestedIds();
    LinkTargetOfShape(NestedPage());
  }

  /** Only the H3 has the id `c`. */
  lemma NestedIds()
    ensures |NestedPage().nodes| == 7
    ensures forall x | 0 <= x < 7 :: HasId(NestedPage().nodes[x], "c") <==> x == 6
  {
  }

  /** On a seven-node page listed 0 to 6 where only node 6 has the id
      `c`, a link to `#c` targets node 6. */
  lemma LinkTargetOfShape(t: Tree)
    requires Shaped(t) && |t.nodes| == 7
    requires |DocumentOrder(t)| == 7 && forall i | 0 <= i < 7 :: DocumentOrder(t)[i] == i
    requires forall x | 0 <= x < 7 :: HasId(t.nodes[x], "c") <==> x == 6
    ensures LinkTarget(t, "#c") == 6
  {
    assert "#c"[1..] == "c";
    assert IsIdent("c");
    assert DocumentOrder(t)[6] == 6;
  }

  /** Opening the H1 alone, once or twice, leaves the H2's group hidden. */
  lemma NestedOpenOuter()
    ensures var t := NestedPage(); var next := NestedNextTable(); var f := BothCollapsed();
      && OpenAll(t, next, f, [2]).hidden[5]
      && OpenAll(t, next, OpenAll(t, next, f, [2]), [2]).hidden[5]
  {
    assert [2][..0] == [];
  }

  /** Both headings enclose `#c`, and opening both shows the H2's group. */
  lemma NestedOpenBoth()
    ensures Ranked(NestedPage(), NestedDepth())
    ensures var t := NestedPage(); var next := NestedNextTable(); var f := BothCollapsed();
      && Contains(t, NestedDepth(), 5, 6)
      && Enclosing(t, NestedDepth(), next, [2, 4], 6) == [2, 4]
      && !OpenAll(t, next, f, [2, 4]).hidden[5]
  {
    NestedPageRanked();
    var t := NestedPage();
    var depth := NestedDepth();
    assert Contains(t, depth, 5, 6);
    assert Contains(t, depth, 3, 6);
    assert [2, 4][..1] == [2];
    assert [2][..0] == [];
  }

  /** On a page showing this document with both sections collapsed, a
      click on the table-of-contents link `#c` is handled (the default is
      prevented) and still leaves the H2's group, around `#c`, hidden. */
  method ClickLeavesInnerHidden(p: Pages.Page) returns (prevented: bool)
    requires p.Valid() && p.Doc() == NestedPage() && p.depth == NestedDepth() && p.Flags() == BothCollapsed()
    modifies p`hidden, p`expanded, p`chrome
    ensures p.Valid() && p.Doc() == NestedPage()
    ensures prevented && p.hidden[5]
  {
    ghost var t, d, f := p.Doc(), p.depth, p.Flags();
    ghost var next := NextElementSiblings(t);
    ghost var g := SetOne(t, next, OpenAll(t, next, f, RevealPath(t, d, next, Heads(t, d, f), 6)), 6, true);
    NestedClick();
    assert LinkTarget(t, "#c") == 6 && g.hidden[5];
    prevented := p.TocClick("#c");
    assert p.Flags() == g;
  }

  /** On the same page the corrected reveal of `#c` shows that group. */
  method CorrectedShowsInner(p: Pages.Page)
    requires p.Valid() && p.Doc() == NestedPage() && p.depth == NestedDepth() && p.Flags() == BothCollapsed()
    modifies p`hidden, p`expanded
    ensures p.Valid() && p.Doc() == NestedPage()
    ensures !p.hidden[5]
  {
    NestedCorrected();
    p.RevealEnclosing(6);
  }
}
