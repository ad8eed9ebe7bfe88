/** The sectionizer: for each H1-H3 of `main` it collects the content
    that belongs to the heading, moves it into a new content group placed
    right after the heading, and makes the heading collapsible. This
    module states each step as a function of the tree; the methods of
    `Pages.Page` are proved against these functions. */
module Outline {
  import opened Seqs
  import opened Dom
  import opened Surgery
  import opened Collapse

  /** The scan's stopping rule: an H1-H3 whose level is at most `level`.
      Text nodes, other elements and deeper headings never stop it. */
  predicate Stops(n: Node, level: nat) {
    Level(n) > 0 && Level(n) <= level
  }

  /** What the `while (sib)` loop collects from the siblings `s`: the
      longest prefix of `s` holding no node that stops the scan. */
  function ScanRun(t: Tree, s: seq<nat>, level: nat): (r: seq<nat>)
    requires InTree(t, s)
    ensures |r| <= |s| && r == s[..|r|]
    ensures forall i | 0 <= i < |r| :: !Stops(t.nodes[r[i]], level)
    ensures |r| < |s| ==> Stops(t.nodes[s[|r|]], level)
  {
    if s == [] || Stops(t.nodes[s[0]], level) then []
    else [s[0]] + ScanRun(t, s[1..], level)
  }

  /** A `<section>` whose first element child is an H1-H3 deeper than
      `level`: one the heading absorbs. */
  predicate Absorbable(t: Tree, x: nat, level: nat)
    requires Shaped(t) && x < |t.nodes|
  {
    && IsSection(t.nodes[x])
    && var e := FirstElementChild(t, x); e >= 0 && Level(t.nodes[e]) > level
  }

  /** What the `while (sec ...)` loop collects from the element siblings
      `s`: the longest prefix of absorbable sections. */
  function AbsorbRun(t: Tree, s: seq<nat>, level: nat): (r: seq<nat>)
    requires Shaped(t) && InTree(t, s)
    ensures |r| <= |s| && r == s[..|r|]
    ensures forall i | 0 <= i < |r| :: Absorbable(t, r[i], level)
    ensures |r| < |s| ==> !Absorbable(t, s[|r|], level)
  {
    if s == [] || !Absorbable(t, s[0], level) then []
    else [s[0]] + AbsorbRun(t, s[1..], level)
  }

  /** The elements (non-text nodes) of `s`, order kept. */
  function ElementsIn(t: Tree, s: seq<nat>): (r: seq<nat>)
    requires InTree(t, s)
    ensures InTree(t, r)
  {
    if s == [] then []
    else (if IsElement(t.nodes[s[0]]) then [s[0]] else []) + ElementsIn(t, s[1..])
  }

  /** The element siblings after `x`, in order: what repeated
      `nextElementSibling` visits. */
  function ElementsAfter(t: Tree, x: nat): (r: seq<nat>)
    requires Shaped(t) && x < |t.nodes|
    ensures InTree(t, r)
  {
    ElementsIn(t, FollowingSiblings(t, x))
  }

  /** The section `h` leads, if any: its closest `<section>`, when the
      first H1-H3 inside that section is `h` itself; -1 otherwise. */
  function LedSection(t: Tree, ghost depth: seq<nat>, h: nat): (ps: int)
    requires Ranked(t, depth) && h < |t.nodes|
    ensures -1 <= ps < |t.nodes|
    ensures ps >= 0 ==> IsSection(t.nodes[ps]) && Contains(t, depth, ps, h)
  {
    var ps := Closest(t, depth, h, IsSection);
    if ps >= 0 && QueryFirst(t, ps, IsH123) == h then ps else -1
  }

  /** The siblings the forward scan from `h` collects. */
  function ScanOf(t: Tree, h: nat): (r: seq<nat>)
    requires Shaped(t) && h < |t.nodes|
    ensures InTree(t, r)
  {
    ScanRun(t, FollowingSiblings(t, h), Level(t.nodes[h]))
  }

  /** The sections `h` absorbs: none unless it leads its section. */
  function AbsorbedOf(t: Tree, ghost depth: seq<nat>, h: nat): (r: seq<nat>)
    requires Ranked(t, depth) && h < |t.nodes|
    ensures InTree(t, r)
  {
    var ps := LedSection(t, depth, h);
    if ps >= 0 then AbsorbRun(t, ElementsAfter(t, ps), Level(t.nodes[h])) else []
  }

  /** Everything moved under `h`: the scanned siblings, then the absorbed
      sections. */
  function ToMove(t: Tree, ghost depth: seq<nat>, h: nat): (m: seq<nat>)
    requires Ranked(t, depth) && h < |t.nodes|
    ensures InTree(t, m)
  {
    ScanOf(t, h) + AbsorbedOf(t, depth, h)
  }

  /** Headings the sectionizer leaves alone: inside `<header>`, not an
      H1-H3, or inside `#toc`. */
  predicate Skipped(t: Tree, ghost depth: seq<nat>, h: nat)
    requires Ranked(t, depth) && h < |t.nodes|
  {
    Closest(t, depth, h, IsHeader) >= 0 || Level(t.nodes[h]) == 0 || Closest(t, depth, h, IsToc) >= 0
  }

  /** The siblings after `x` are distinct siblings of `x`, other than `x`. */
  lemma FollowingSiblingsFacts(t: Tree, x: nat)
    requires Shaped(t) && x < |t.nodes|
    ensures var s := FollowingSiblings(t, x);
      && NoDup(s)
      && (s != [] ==> t.parent[x] >= 0)
      && forall i | 0 <= i < |s| :: t.parent[s[i]] == t.parent[x] && s[i] != x
  {
    if t.parent[x] >= 0 {
      InParentList(t, x);
      var c := t.children[t.parent[x]];
      assert NoDup(c);
      var j := IndexOf(c, x);
      var s := c[j + 1..];
      forall i | 0 <= i < |s| ensures t.parent[s[i]] == t.parent[x] && s[i] != x {
        assert s[i] == c[j + 1 + i];
        ChildIndex(t, t.parent[x], s[i]);
      }
      forall u, v | 0 <= u < v < |s| ensures s[u] != s[v] {
        assert s[u] == c[j + 1 + u] && s[v] == c[j + 1 + v];
      }
    }
  }

  /** Keeping the elements of a list without repeats leaves distinct
      members of that list. */
  lemma {:induction false} ElementsInNoDup(t: Tree, s: seq<nat>)
    requires InTree(t, s) && NoDup(s)
    ensures NoDup(ElementsIn(t, s))
    ensures forall k | 0 <= k < |ElementsIn(t, s)| :: ElementsIn(t, s)[k] in s
  {
    if s != [] {
      var rest := s[1..];
      assert NoDup(rest) by {
        forall u, v | 0 <= u < v < |rest| ensures rest[u] != rest[v] {
          assert rest[u] == s[u + 1] && rest[v] == s[v + 1];
        }
      }
      ElementsInNoDup(t, rest);
      var e := ElementsIn(t, rest);
      assert s[0] !in rest;
      forall k | 0 <= k < |e| ensures e[k] in rest && e[k] != s[0] { }
    }
  }

  /** The scanned siblings are distinct siblings of `h`, not `h` itself. */
  lemma ScanFacts(t: Tree, h: nat)
    requires Shaped(t) && h < |t.nodes|
    ensures var r := ScanOf(t, h);
      && NoDup(r)
      && (r != [] ==> t.parent[h] >= 0)
      && forall i | 0 <= i < |r| :: t.parent[r[i]] == t.parent[h] && r[i] != h
  {
    var s := FollowingSiblings(t, h);
    var r := ScanOf(t, h);
    FollowingSiblingsFacts(t, h);
    PrefixNoDup(s, |r|);
    forall i | 0 <= i < |r| ensures t.parent[r[i]] == t.parent[h] && r[i] != h {
      assert r[i] == s[i];
    }
  }

  /** The absorbed sections are distinct siblings of the led section. */
  lemma AbsorbedFacts(t: Tree, depth: seq<nat>, h: nat)
    requires Ranked(t, depth) && h < |t.nodes|
    ensures var a := AbsorbedOf(t, depth, h); var ps := LedSection(t, depth, h);
      && NoDup(a)
      && (a != [] ==> ps >= 0 && t.parent[ps] >= 0)
      && forall k | 0 <= k < |a| ::
           IsSection(t.nodes[a[k]]) && t.parent[a[k]] == t.parent[ps] && a[k] != ps
  {
    var ps := LedSection(t, depth, h);
    if ps >= 0 {
      var s := FollowingSiblings(t, ps);
      var e := ElementsAfter(t, ps);
      var a := AbsorbedOf(t, depth, h);
      FollowingSiblingsFacts(t, ps);
      ElementsInNoDup(t, s);
      PrefixNoDup(e, |a|);
      forall k | 0 <= k < |a| ensures t.parent[a[k]] == t.parent[ps] && a[k] != ps {
        assert a[k] == e[k];
        var i :| 0 <= i < |s| && s[i] == e[k];
      }
      if a != [] {
        assert e[0] in s;
      }
    }
  }

  /** A node inside `ps` and a sibling of `ps` do not contain one another. */
  lemma BesideApart(t: Tree, depth: seq<nat>, ps: nat, y: nat, x: nat)
    requires Ranked(t, depth) && ps < |t.nodes| && y < |t.nodes| && x < |t.nodes| && y != ps
    requires t.parent[y] >= 0 && t.parent[y] == t.parent[ps] && Contains(t, depth, ps, x)
    ensures !Contains(t, depth, y, x) && !Contains(t, depth, x, y)
  {
    SiblingsApart(t, depth, y, ps);
    SiblingsApart(t, depth, ps, y);
    if Contains(t, depth, y, x) {
      ContainsLinear(t, depth, y, ps, x);
    }
    if Contains(t, depth, x, y) {
      ContainsTransitive(t, depth, ps, x, y);
    }
  }

  /** Where the moved nodes sit: the scanned ones are children of `h`'s
      parent `p`, the absorbed ones are siblings of a section `ps` that
      contains `h`. */
  ghost predicate Placed(t: Tree, depth: seq<nat>, h: nat, ps: int, r: seq<nat>, a: seq<nat>)
    requires Ranked(t, depth) && h < |t.nodes| && InTree(t, r) && InTree(t, a)
  {
    && t.parent[h] >= 0
    && NoDup(r) && NoDup(a)
    && (forall i | 0 <= i < |r| :: t.parent[r[i]] == t.parent[h] && r[i] != h)
    && (a != [] ==> 0 <= ps < |t.nodes| && ps != h && Contains(t, depth, ps, h) && t.parent[ps] >= 0)
    && (forall k | 0 <= k < |a| :: t.parent[a[k]] == t.parent[ps] && a[k] != ps)
  }

  lemma PlacedMovable(t: Tree, depth: seq<nat>, h: nat, ps: int, r: seq<nat>, a: seq<nat>)
    requires Ranked(t, depth) && h < |t.nodes| && InTree(t, r) && InTree(t, a)
    requires Placed(t, depth, h, ps, r, a)
    ensures Movable(t, depth, h, r + a)
  {
    var m := r + a;
    var p := t.parent[h];
    if a != [] {
      assert Contains(t, depth, ps, p);
    }
    forall i | 0 <= i < |m| ensures m[i] < |t.nodes| && t.parent[m[i]] >= 0 && m[i] != h {
      if i >= |r| {
        assert m[i] == a[i - |r|];
        assert Contains(t, depth, ps, p);
        ContainsDepth(t, depth, ps, p);
      }
    }
    forall i, j | 0 <= i < j < |m| ensures m[i] != m[j] {
      if j < |r| {
        assert m[i] == r[i] && m[j] == r[j];
      } else if i >= |r| {
        assert m[i] == a[i - |r|] && m[j] == a[j - |r|];
      } else {
        assert m[j] == a[j - |r|];
        assert Contains(t, depth, ps, p);
        ContainsDepth(t, depth, ps, p);
      }
    }
    forall i, j | 0 <= i < |m| && 0 <= j < |m| && i != j ensures !Contains(t, depth, m[i], m[j]) {
      if i < |r| && j < |r| {
        assert m[i] == r[i] && m[j] == r[j];
        SiblingsApart(t, depth, m[i], m[j]);
      } else if i >= |r| && j >= |r| {
        assert m[i] == a[i - |r|] && m[j] == a[j - |r|];
        SiblingsApart(t, depth, m[i], m[j]);
      } else if i < |r| {
        assert m[j] == a[j - |r|];
        assert Contains(t, depth, ps, m[i]);
        BesideApart(t, depth, ps, m[j], m[i]);
      } else {
        assert m[i] == a[i - |r|];
        assert Contains(t, depth, ps, m[j]);
        BesideApart(t, depth, ps, m[i], m[j]);
      }
    }
    forall i | 0 <= i < |m| ensures !Contains(t, depth, m[i], p) {
      if i < |r| {
        if Contains(t, depth, m[i], p) {
          ContainsDepth(t, depth, m[i], p);
        }
      } else {
        assert m[i] == a[i - |r|];
        assert Contains(t, depth, ps, p);
        BesideApart(t, depth, ps, m[i], p);
      }
    }
  }

  /** What a heading collects can be moved under it: the run keeps the
      tree a forest (no moved node contains another or the heading's
      parent). */
  lemma ToMoveMovable(t: Tree, depth: seq<nat>, h: nat)
    requires Ranked(t, depth) && h < |t.nodes| && IsH123(t.nodes[h]) && ToMove(t, depth, h) != []
    ensures Movable(t, depth, h, ToMove(t, depth, h))
  {
    var r := ScanOf(t, h);
    var a := AbsorbedOf(t, depth, h);
    var ps := LedSection(t, depth, h);
    ScanFacts(t, h);
    AbsorbedFacts(t, depth, h);
    if a != [] {
      assert h != ps;
    }
    PlacedMovable(t, depth, h, ps, r, a);
  }

  /** In the scanned run, each node is the next sibling of the one before
      it (of `h` for the first). */
  lemma ScanNeighbours(t: Tree, h: nat, i: nat)
    requires Shaped(t) && h < |t.nodes| && i < |ScanOf(t, h)|
    ensures var r := ScanOf(t, h); NextSibling(t, if i == 0 then h else r[i - 1]) == r[i]
  {
    var r := ScanOf(t, h);
    ScanFacts(t, h);
    var p := t.parent[h];
    InParentList(t, h);
    var c := t.children[p];
    assert NoDup(c);
    var j := IndexOf(c, h);
    assert r[i] == c[j + 1 + i];
    if i == 0 {
      AfterAt(c, j);
    } else {
      assert r[i - 1] == c[j + i];
      AfterAt(c, j + i);
    }
  }

  /** The scan does not stop right after a node whose next sibling
      cannot stop it. */
  lemma ScanContinues(t: Tree, h: nat, i: nat)
    requires Shaped(t) && h < |t.nodes| && i < |ScanOf(t, h)|
    requires NextSibling(t, ScanOf(t, h)[i]) >= 0
    requires !Stops(t.nodes[NextSibling(t, ScanOf(t, h)[i])], Level(t.nodes[h]))
    ensures i + 1 < |ScanOf(t, h)| && ScanOf(t, h)[i + 1] == NextSibling(t, ScanOf(t, h)[i])
  {
    var r := ScanOf(t, h);
    var s := FollowingSiblings(t, h);
    assert r[i] == s[i];
    SiblingWalk(t, h, i + 1);
  }

  /** The marks once `h` is collapsible with a fresh, shown group
      numbered `|f.hidden|`: class `collapsible-heading` and
      `aria-expanded="true"` on `h`, no `is-hidden` on the group. */
  function Enhanced(f: Marks, h: nat): (r: Marks)
    requires h < |f.expanded| && h < |f.collapsible|
    ensures |r.hidden| == |f.hidden| + 1 && |r.expanded| == |f.expanded| + 1
    ensures |r.collapsible| == |f.collapsible| + 1
  {
    Marks(f.hidden + [false], f.expanded[h := true] + [false], f.collapsible[h := true] + [false])
  }

  /** One heading of the sectionizer: nothing changes when the heading is
      skipped or collects nothing; otherwise what it collects is wrapped
      in a shown group right after it and it becomes collapsible. */
  function SectionizeOne(t: Tree, ghost depth: seq<nat>, f: Marks, h: nat): (r: (Tree, Marks))
    requires Ranked(t, depth) && Fits(t, f) && h < |t.nodes|
    ensures Shaped(r.0) && Fits(r.0, r.1) && |r.0.nodes| >= |t.nodes|
  {
    if Skipped(t, depth, h) then (t, f)
    else
      var m := ToMove(t, depth, h);
      if m == [] then (t, f)
      else
        ToMoveMovable(t, depth, h);
        WrappedShaped(t, h, m);
        (Wrapped(t, h, m), Enhanced(f, h))
  }

  /** The depths of the tree `SectionizeOne` returns. */
  ghost function DepthAfter(t: Tree, depth: seq<nat>, f: Marks, h: nat): seq<nat>
    requires Ranked(t, depth) && Fits(t, f) && h < |t.nodes|
  {
    var m := ToMove(t, depth, h);
    if Skipped(t, depth, h) || m == [] then depth
    else
      ToMoveMovable(t, depth, h);
      NewDepth(t, depth, h, m)
  }

  /** Sectionizing a heading keeps the tree a forest. */
  lemma SectionizeOneRanked(t: Tree, depth: seq<nat>, f: Marks, h: nat)
    requires Ranked(t, depth) && Fits(t, f) && h < |t.nodes|
    ensures Ranked(SectionizeOne(t, depth, f, h).0, DepthAfter(t, depth, f, h))
  {
    var m := ToMove(t, depth, h);
    if !Skipped(t, depth, h) && m != [] {
      ToMoveMovable(t, depth, h);
      WrappedRanked(t, depth, h, m);
    }
  }

  /** A heading that is sectionized ends up collapsible, followed by a
      shown content group holding exactly what it collected, in order. */
  lemma SectionizeOneWraps(t: Tree, depth: seq<nat>, f: Marks, h: nat)
    requires Ranked(t, depth) && Fits(t, f) && h < |t.nodes|
    requires !Skipped(t, depth, h) && ToMove(t, depth, h) != []
    ensures var r := SectionizeOne(t, depth, f, h); var g := |t.nodes|;
      && r.0.nodes == t.nodes + [Group]
      && r.0.children[g] == ToMove(t, depth, h)
      && NextSibling(r.0, h) == g
      && r.1.collapsible[h] && r.1.expanded[h] && !r.1.hidden[g]
      && SyncedAt(r.0, r.1, h)
  {
    ToMoveMovable(t, depth, h);
    WrappedHeadingNext(t, h, ToMove(t, depth, h));
  }

  /** Sectionizing a heading keeps every collapsible heading in step
      with its group. */
  lemma SectionizeOneSynced(t: Tree, depth: seq<nat>, f: Marks, h: nat)
    requires Ranked(t, depth) && Fits(t, f) && h < |t.nodes| && Synced(t, f)
    ensures Synced(SectionizeOne(t, depth, f, h).0, SectionizeOne(t, depth, f, h).1)
  {
    var m := ToMove(t, depth, h);
    if !Skipped(t, depth, h) && m != [] {
      var r := SectionizeOne(t, depth, f, h);
      forall h0 | 0 <= h0 < |r.0.nodes| && r.1.collapsible[h0] ensures SyncedAt(r.0, r.1, h0) {
        if h0 == h {
          SectionizeOneWraps(t, depth, f, h);
        } else {
          assert h0 < |t.nodes| && f.collapsible[h0];
          assert SyncedAt(t, f, h0);
          SectionizeKeepsSyncedAt(t, depth, f, h, h0);
        }
      }
    }
  }

  lemma SectionizeKeepsSyncedAt(t: Tree, depth: seq<nat>, f: Marks, h: nat, h0: nat)
    requires Ranked(t, depth) && Fits(t, f) && h < |t.nodes| && h0 < |t.nodes| && h0 != h
    requires !Skipped(t, depth, h) && ToMove(t, depth, h) != []
    requires SyncedAt(t, f, h0)
    ensures var r := SectionizeOne(t, depth, f, h); SyncedAt(r.0, r.1, h0)
  {
    var m := ToMove(t, depth, h);
    ToMoveMovable(t, depth, h);
    assert SectionizeOne(t, depth, f, h) == (Wrapped(t, h, m), Enhanced(f, h));
    if h0 in m {
      MovedKeepsGroup(t, depth, h, h0);
    } else {
      StayingKeepsGroup(t, depth, h, h0);
    }
  }

  /** A moved heading is followed by its group inside the new group too. */
  lemma MovedKeepsGroup(t: Tree, depth: seq<nat>, h: nat, h0: nat)
    requires Ranked(t, depth) && h < |t.nodes| && h0 < |t.nodes| && IsH123(t.nodes[h])
    requires Movable(t, depth, h, ToMove(t, depth, h)) && h0 in ToMove(t, depth, h)
    requires IsH123(t.nodes[h0]) && NextSibling(t, h0) >= 0 && t.nodes[NextSibling(t, h0)].Group?
    ensures Shaped(Wrapped(t, h, ToMove(t, depth, h)))
    ensures NextSibling(Wrapped(t, h, ToMove(t, depth, h)), h0) == NextSibling(t, h0)
  {
    var r := ScanOf(t, h);
    var a := AbsorbedOf(t, depth, h);
    var m := r + a;
    var k :| 0 <= k < |m| && m[k] == h0;
    if k >= |r| {
      assert false;
    }
    assert m[k] == r[k];
    ScanContinues(t, h, k);
    assert m[k + 1] == r[k + 1];
    WrappedMovedNext(t, h, m, k);
  }

  /** A heading that stays put keeps its group as next sibling: the group
      cannot have been moved without the heading. */
  lemma StayingKeepsGroup(t: Tree, depth: seq<nat>, h: nat, h0: nat)
    requires Ranked(t, depth) && h < |t.nodes| && h0 < |t.nodes| && h0 != h
    requires Movable(t, depth, h, ToMove(t, depth, h)) && h0 !in ToMove(t, depth, h)
    requires NextSibling(t, h0) >= 0 && t.nodes[NextSibling(t, h0)].Group?
    ensures Shaped(Wrapped(t, h, ToMove(t, depth, h)))
    ensures NextSibling(Wrapped(t, h, ToMove(t, depth, h)), h0) == NextSibling(t, h0)
  {
    var r := ScanOf(t, h);
    var a := AbsorbedOf(t, depth, h);
    var m := r + a;
    var g0 := NextSibling(t, h0);
    if g0 in m {
      var k :| 0 <= k < |m| && m[k] == g0;
      if k >= |r| {
        assert false;
      }
      assert m[k] == r[k];
      ScanNeighbours(t, h, k);
      if k == 0 {
        NextSiblingInjective(t, h0, h);
        assert false;
      } else {
        assert m[k - 1] == r[k - 1];
        NextSiblingInjective(t, h0, r[k - 1]);
        assert false;
      }
    }
    WrappedKeepsNext(t, h, m, h0);
  }

  /** The sectionizer's `headings.forEach`, over the headings `hs` listed
      before any of them is processed. */
  function SectionizeAll(t: Tree, ghost depth: seq<nat>, f: Marks, hs: seq<nat>): (r: (Tree, Marks))
    requires Ranked(t, depth) && Fits(t, f) && InTree(t, hs)
    ensures Shaped(r.0) && Fits(r.0, r.1) && |r.0.nodes| >= |t.nodes|
    decreases |hs|
  {
    if hs == [] then (t, f)
    else
      var r := SectionizeOne(t, depth, f, hs[0]);
      SectionizeOneRanked(t, depth, f, hs[0]);
      SectionizeAll(r.0, DepthAfter(t, depth, f, hs[0]), r.1, hs[1..])
  }

  /** The depths of the tree `SectionizeAll` returns. */
  ghost function DepthAfterAll(t: Tree, depth: seq<nat>, f: Marks, hs: seq<nat>): seq<nat>
    requires Ranked(t, depth) && Fits(t, f) && InTree(t, hs)
    decreases |hs|
  {
    if hs == [] then depth
    else
      var r := SectionizeOne(t, depth, f, hs[0]);
      SectionizeOneRanked(t, depth, f, hs[0]);
      DepthAfterAll(r.0, DepthAfter(t, depth, f, hs[0]), r.1, hs[1..])
  }

  /** The whole pass keeps the tree a forest and every collapsible
      heading in step with its group. */
  lemma {:induction false} SectionizeAllKeeps(t: Tree, depth: seq<nat>, f: Marks, hs: seq<nat>)
    requires Ranked(t, depth) && Fits(t, f) && InTree(t, hs) && Synced(t, f)
    ensures var r := SectionizeAll(t, depth, f, hs);
      Ranked(r.0, DepthAfterAll(t, depth, f, hs)) && Synced(r.0, r.1)
    decreases |hs|
  {
    if hs != [] {
      var r := SectionizeOne(t, depth, f, hs[0]);
      SectionizeOneRanked(t, depth, f, hs[0]);
      SectionizeOneSynced(t, depth, f, hs[0]);
      SectionizeAllKeeps(r.0, DepthAfter(t, depth, f, hs[0]), r.1, hs[1..]);
    }
  }

  /** `document.querySelector('main')`: the first `<main>` in document
      order, -1 if none. */
  function MainOf(t: Tree): (r: int)
    requires Shaped(t) && |t.nodes| > 0
    ensures -1 <= r < |t.nodes|
    ensures r >= 0 ==> IsMain(t.nodes[r])
  {
    var s := Select(t, DocumentOrder(t), IsMain);
    if s == [] then -1 else s[0]
  }

  /** `main.querySelectorAll('h1, h2, h3')`. */
  function HeadingsOf(t: Tree, main: nat): (r: seq<nat>)
    requires Shaped(t) && main < |t.nodes|
    ensures InTree(t, r) && forall i | 0 <= i < |r| :: IsH123(t.nodes[r[i]])
  {
    Select(t, Descendants(t, main), IsH123)
  }

  /** The sectionizer run on page load: nothing happens without a
      `<main>`. */
  function Sectionize(t: Tree, ghost depth: seq<nat>, f: Marks): (r: (Tree, Marks))
    requires Ranked(t, depth) && Fits(t, f) && |t.nodes| > 0
    ensures Shaped(r.0) && Fits(r.0, r.1)
  {
    var main := MainOf(t);
    if main < 0 then (t, f) else SectionizeAll(t, depth, f, HeadingsOf(t, main))
  }

  /** Every collapsible heading reads expanded. */
  predicate AllOpen(f: Marks) {
    forall h | 0 <= h < |f.collapsible| && f.collapsible[h] :: h < |f.expanded| && f.expanded[h]
  }

  /** Sectionizing one heading leaves every collapsible heading expanded:
      the heading it enhances starts expanded and no other mark moves. */
  lemma SectionizeOneOpen(t: Tree, depth: seq<nat>, f: Marks, h: nat)
    requires Ranked(t, depth) && Fits(t, f) && h < |t.nodes| && AllOpen(f)
    ensures AllOpen(SectionizeOne(t, depth, f, h).1)
  {
    var r := SectionizeOne(t, depth, f, h);
    if !Skipped(t, depth, h) && ToMove(t, depth, h) != [] {
      assert r.1 == Enhanced(f, h);
      forall x | 0 <= x < |r.1.collapsible| && r.1.collapsible[x] ensures x < |r.1.expanded| && r.1.expanded[x] {
        if x != h {
          assert x < |f.collapsible| && f.collapsible[x];
        }
      }
    }
  }

  /** The whole pass leaves every collapsible heading expanded. */
  lemma {:induction false} SectionizeAllOpen(t: Tree, depth: seq<nat>, f: Marks, hs: seq<nat>)
    requires Ranked(t, depth) && Fits(t, f) && InTree(t, hs) && AllOpen(f)
    ensures AllOpen(SectionizeAll(t, depth, f, hs).1)
    decreases |hs|
  {
    if hs != [] {
      var r := SectionizeOne(t, depth, f, hs[0]);
      SectionizeOneRanked(t, depth, f, hs[0]);
      SectionizeOneOpen(t, depth, f, hs[0]);
      SectionizeAllOpen(r.0, DepthAfter(t, depth, f, hs[0]), r.1, hs[1..]);
    }
  }

  /** On a page whose markup marks no heading collapsible, the sectionizer
      leaves a forest in which every collapsible heading is followed by
      its group and `aria-expanded` agrees with the group's `is-hidden`;
      every section starts open, so each such heading reads expanded and
      its group is shown. */
  lemma SectionizeSynced(t: Tree, depth: seq<nat>, f: Marks)
    requires Ranked(t, depth) && Fits(t, f) && |t.nodes| > 0
    requires forall x | 0 <= x < |t.nodes| :: !f.collapsible[x]
    ensures var r := Sectionize(t, depth, f);
      && Synced(r.0, r.1)
      && exists d :: Ranked(r.0, d)
    ensures var r := Sectionize(t, depth, f);
      forall h | 0 <= h < |r.0.nodes| && r.1.collapsible[h] ::
        r.1.expanded[h] && NextSibling(r.0, h) >= 0 && !r.1.hidden[NextSibling(r.0, h)]
  {
    var main := MainOf(t);
    if main >= 0 {
      var hs := HeadingsOf(t, main);
      SectionizeAllKeeps(t, depth, f, hs);
      SectionizeAllOpen(t, depth, f, hs);
      var d := DepthAfterAll(t, depth, f, hs);
      assert Ranked(Sectionize(t, depth, f).0, d);
    } else {
      assert Ranked(t, depth);
    }
  }

  /** A prefix with no stopper, followed by a stopper or the end, is the
      scanned run. */
  lemma ScanRunUnique(t: Tree, s: seq<nat>, level: nat, n: nat)
    requires InTree(t, s) && n <= |s|
    requires forall i | 0 <= i < n :: !Stops(t.nodes[s[i]], level)
    requires n < |s| ==> Stops(t.nodes[s[n]], level)
    ensures ScanRun(t, s, level) == s[..n]
  {
    var r := ScanRun(t, s, level);
    assert |r| >= n;
  }

  /** Walking `nextSibling` from `x` visits its following siblings in
      order and then reaches null. */
  lemma SiblingWalk(t: Tree, x: nat, k: nat)
    requires Shaped(t) && x < |t.nodes| && k <= |FollowingSiblings(t, x)|
    ensures var s := FollowingSiblings(t, x);
      NextSibling(t, if k == 0 then x else s[k - 1]) == if k < |s| then s[k] else -1
  {
    var s := FollowingSiblings(t, x);
    if t.parent[x] >= 0 {
      InParentList(t, x);
      var c := t.children[t.parent[x]];
      assert NoDup(c);
      var j := IndexOf(c, x);
      if k == 0 {
        AfterAt(c, j);
      } else {
        assert s[k - 1] == c[j + k];
        ChildIndex(t, t.parent[x], s[k - 1]);
        AfterAt(c, j + k);
      }
    }
  }

  /** The elements of `s` are its first element followed by the
      elements after it. */
  lemma {:induction false} ElementsInSplit(t: Tree, s: seq<nat>)
    requires InTree(t, s)
    ensures var e := ElementsIn(t, s); var i := FirstElementAt(t, s);
      && (i < 0 ==> e == [])
      && (i >= 0 ==> e == [s[i]] + ElementsIn(t, s[i + 1..]))
  {
    if s != [] && !IsElement(t.nodes[s[0]]) {
      ElementsInSplit(t, s[1..]);
      var j := FirstElementAt(t, s[1..]);
      if j >= 0 {
        assert s[1..][j + 1..] == s[j + 2..];
      }
    }
  }

  /** The siblings after the `i`-th sibling after `x` are the rest of
      `x`'s. */
  lemma FollowingOfFollowing(t: Tree, x: nat, i: nat)
    requires Shaped(t) && x < |t.nodes| && i < |FollowingSiblings(t, x)|
    ensures FollowingSiblings(t, FollowingSiblings(t, x)[i]) == FollowingSiblings(t, x)[i + 1..]
  {
    InParentList(t, x);
    var c := t.children[t.parent[x]];
    assert NoDup(c);
    var j := IndexOf(c, x);
    var y := c[j + 1 + i];
    assert FollowingSiblings(t, x)[i] == y;
    ChildIndex(t, t.parent[x], y);
    IndexOfUnique(c, y, j + 1 + i);
  }

  /** One `nextElementSibling` step: it reaches the first element after
      `x`, and the elements after that one are the rest. */
  lemma ElementsAfterStep(t: Tree, x: nat)
    requires Shaped(t) && x < |t.nodes|
    ensures var e := ElementsAfter(t, x);
      && (e == [] <==> NextElementSibling(t, x) < 0)
      && (e != [] ==> e[0] == NextElementSibling(t, x) && ElementsAfter(t, e[0]) == e[1..])
  {
    var s := FollowingSiblings(t, x);
    var i := FirstElementAt(t, s);
    ElementsInSplit(t, s);
    if i >= 0 {
      FollowingOfFollowing(t, x, i);
    }
  }

  /** `nextElementSibling` moves strictly forward among the siblings. */
  lemma NextElementSiblingCloser(t: Tree, x: nat)
    requires Shaped(t) && x < |t.nodes|
    ensures NextElementSibling(t, x) >= 0 ==>
      |FollowingSiblings(t, NextElementSibling(t, x))| < |FollowingSiblings(t, x)|
  {
    var s := FollowingSiblings(t, x);
    var i := FirstElementAt(t, s);
    if i >= 0 {
      FollowingOfFollowing(t, x, i);
    }
  }

  /** What the `while (sec ...)` loop collects when `sec` (-1 for null)
      is the element it is looking at: `sec` and the element siblings
      after it, as long as they are absorbable. */
  function AbsorbWalk(t: Tree, sec: int, level: nat): (r: seq<nat>)
    requires Shaped(t) && sec < |t.nodes|
    decreases if sec < 0 then 0 else |FollowingSiblings(t, sec)| + 1
  {
    if sec < 0 || !Absorbable(t, sec, level) then []
    else
      NextElementSiblingCloser(t, sec);
      [sec as nat] + AbsorbWalk(t, NextElementSibling(t, sec), level)
  }

  /** The loop, walking `nextElementSibling` from `x`, collects exactly
      the absorbable prefix of the elements after `x`. */
  lemma {:induction false} AbsorbWalkRun(t: Tree, x: nat, level: nat)
    requires Shaped(t) && x < |t.nodes|
    ensures AbsorbWalk(t, NextElementSibling(t, x), level) == AbsorbRun(t, ElementsAfter(t, x), level)
    decreases |FollowingSiblings(t, x)|
  {
    var e := ElementsAfter(t, x);
    ElementsAfterStep(t, x);
    if e != [] && Absorbable(t, e[0], level) {
      NextElementSiblingCloser(t, x);
      AbsorbWalkRun(t, e[0], level);
    }
  }
}
