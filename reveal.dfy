/** Revealing a link target before scrolling to it: `expandToReveal` as
    the script writes it (`RevealPath`, `OpenAll`) and the reveal it
    evidently means (`Enclosing`), which opens every collapsed section
    around the target. */
module Reveal {
  import opened Seqs
  import opened Dom
  import opened Collapse

  /** `h`'s content group contains `x`. */
  predicate Opens(t: Tree, ghost depth: seq<nat>, next: seq<int>, h: nat, x: nat)
    requires Ranked(t, depth) && Links(t, next) && h < |t.nodes| && x < |t.nodes|
  {
    var g := GroupOf(t, next, h);
    g >= 0 && Contains(t, depth, g, x)
  }

  predicate AllHeadings(t: Tree, hs: seq<nat>)
    requires InTree(t, hs)
  {
    forall i | 0 <= i < |hs| :: IsH123(t.nodes[hs[i]])
  }

  /** The first of `hs` whose content group contains `x`, -1 if none
      (the inner `for` loop of `expandToReveal`). */
  function FirstOpener(t: Tree, ghost depth: seq<nat>, next: seq<int>, hs: seq<nat>, x: nat): (r: int)
    requires Ranked(t, depth) && Links(t, next) && InTree(t, hs) && x < |t.nodes|
    ensures -1 <= r < |t.nodes|
    ensures r >= 0 ==> r in hs && Opens(t, depth, next, r, x)
    ensures r < 0 ==> forall i | 0 <= i < |hs| :: !Opens(t, depth, next, hs[i], x)
  {
    if hs == [] then -1
    else if Opens(t, depth, next, hs[0], x) then hs[0]
    else FirstOpener(t, depth, next, hs[1..], x)
  }

  /** The inner loop's answer: a heading that opens `x` when none listed
      before it does is the first opener. */
  lemma {:induction false} FirstOpenerAt(t: Tree, depth: seq<nat>, next: seq<int>, hs: seq<nat>, x: nat, i: nat)
    requires Ranked(t, depth) && Links(t, next) && InTree(t, hs) && x < |t.nodes| && i < |hs|
    requires forall k | 0 <= k < i :: !Opens(t, depth, next, hs[k], x)
    requires Opens(t, depth, next, hs[i], x)
    ensures FirstOpener(t, depth, next, hs, x) == hs[i]
  {
    if i > 0 {
      assert !Opens(t, depth, next, hs[0], x);
      forall k | 0 <= k < i - 1 ensures !Opens(t, depth, next, hs[1..][k], x) {
        assert hs[1..][k] == hs[k + 1];
      }
      FirstOpenerAt(t, depth, next, hs[1..], x, i - 1);
    }
  }

  /** The measure that shrinks each time `expandToReveal` moves up: a
      heading sits at its group's depth, a group one step further. */
  function Height(t: Tree, depth: seq<nat>, x: nat): nat
    requires |depth| == |t.nodes| && x < |t.nodes|
  {
    2 * depth[x] + (if t.nodes[x].Group? then 1 else 0)
  }

  /** A heading that opens `x` is strictly higher than `x`. */
  lemma OpenerHigher(t: Tree, depth: seq<nat>, next: seq<int>, h: nat, x: nat)
    requires Ranked(t, depth) && NextTable(t, next) && h < |t.nodes| && x < |t.nodes| && IsH123(t.nodes[h])
    requires Opens(t, depth, next, h, x)
    ensures Height(t, depth, h) < Height(t, depth, x)
  {
    var g := GroupOf(t, next, h);
    assert next[h] == NextElementSibling(t, h);
    NextElementSiblingParent(t, h);
    ContainsDepth(t, depth, g, x);
  }

  /** The heading `expandToReveal` moves to is higher than the node it
      started from. */
  lemma FirstOpenerHigher(t: Tree, depth: seq<nat>, next: seq<int>, hs: seq<nat>, x: nat)
    requires Ranked(t, depth) && NextTable(t, next) && InTree(t, hs) && AllHeadings(t, hs) && x < |t.nodes|
    requires FirstOpener(t, depth, next, hs, x) >= 0
    ensures Height(t, depth, FirstOpener(t, depth, next, hs, x)) < Height(t, depth, x)
  {
    var h := FirstOpener(t, depth, next, hs, x);
    var i :| 0 <= i < |hs| && hs[i] == h;
    OpenerHigher(t, depth, next, h, x);
  }

  /** The headings `expandToReveal(x)` visits, in order: the first heading
      whose group contains the current node, then the first one whose
      group contains that heading, and so on until none does. */
  function RevealPath(t: Tree, ghost depth: seq<nat>, next: seq<int>, hs: seq<nat>, x: nat): (p: seq<nat>)
    requires Ranked(t, depth) && NextTable(t, next) && InTree(t, hs) && AllHeadings(t, hs) && x < |t.nodes|
    ensures InTree(t, p)
    decreases Height(t, depth, x)
  {
    var h := FirstOpener(t, depth, next, hs, x);
    if h < 0 then []
    else
      FirstOpenerHigher(t, depth, next, hs, x);
      [h as nat] + RevealPath(t, depth, next, hs, h)
  }

  /** One step of the walk: it stops where no heading opens `x`, and
      otherwise continues from the first opener, which is higher. */
  lemma RevealPathStep(t: Tree, depth: seq<nat>, next: seq<int>, hs: seq<nat>, x: nat)
    requires Ranked(t, depth) && NextTable(t, next) && InTree(t, hs) && AllHeadings(t, hs) && x < |t.nodes|
    ensures var h := FirstOpener(t, depth, next, hs, x);
      && (h < 0 ==> RevealPath(t, depth, next, hs, x) == [])
      && (h >= 0 ==> RevealPath(t, depth, next, hs, x) == [h] + RevealPath(t, depth, next, hs, h)
                     && Height(t, depth, h) < Height(t, depth, x))
  {
    if FirstOpener(t, depth, next, hs, x) >= 0 {
      FirstOpenerHigher(t, depth, next, hs, x);
    }
  }

  /** The walk so far, `done`, followed by the walk from `x` is the
      whole walk; one step moves the first opener of `x` into `done`. */
  lemma RevealPathAdvance(t: Tree, depth: seq<nat>, next: seq<int>, hs: seq<nat>, x: nat, done: seq<nat>, path: seq<nat>)
    requires Ranked(t, depth) && NextTable(t, next) && InTree(t, hs) && AllHeadings(t, hs) && x < |t.nodes|
    requires FirstOpener(t, depth, next, hs, x) >= 0 && done + RevealPath(t, depth, next, hs, x) == path
    ensures var h := FirstOpener(t, depth, next, hs, x);
      (done + [h]) + RevealPath(t, depth, next, hs, h) == path
  {
    var h := FirstOpener(t, depth, next, hs, x);
    RevealPathStep(t, depth, next, hs, x);
    assert done + [h] + RevealPath(t, depth, next, hs, h) == done + ([h] + RevealPath(t, depth, next, hs, h));
  }

  /** One pass of the `while (changed)` loop on the walk: with no opener
      the walk so far is the whole walk; otherwise the opener joins it,
      is higher than the current node, and is opened after the others. */
  lemma RevealAdvance(t: Tree, depth: seq<nat>, next: seq<int>, f: Marks, hs: seq<nat>, x: nat,
                      done: seq<nat>, path: seq<nat>)
    requires Ranked(t, depth) && NextTable(t, next) && Fits(t, f) && InTree(t, hs) && AllHeadings(t, hs)
    requires x < |t.nodes| && InTree(t, done) && done + RevealPath(t, depth, next, hs, x) == path
    ensures var h := FirstOpener(t, depth, next, hs, x);
      && (h < 0 ==> done == path)
      && (h >= 0 ==>
            && InTree(t, done + [h as nat])
            && (done + [h as nat]) + RevealPath(t, depth, next, hs, h) == path
            && Height(t, depth, h) < Height(t, depth, x)
            && OpenAll(t, next, f, done + [h as nat]) == OpenOne(t, next, OpenAll(t, next, f, done), h))
  {
    var h := FirstOpener(t, depth, next, hs, x);
    RevealPathStep(t, depth, next, hs, x);
    if h < 0 {
      assert done + [] == done;
    } else {
      RevealPathAdvance(t, depth, next, hs, x, done, path);
      OpenAllSnoc(t, next, f, done, h);
    }
  }

  /** Every heading on the path is one of the listed headings. */
  lemma {:induction false} RevealPathListed(t: Tree, depth: seq<nat>, next: seq<int>, hs: seq<nat>, x: nat)
    requires Ranked(t, depth) && NextTable(t, next) && InTree(t, hs) && AllHeadings(t, hs) && x < |t.nodes|
    ensures forall i | 0 <= i < |RevealPath(t, depth, next, hs, x)| ::
      RevealPath(t, depth, next, hs, x)[i] in hs && RevealPath(t, depth, next, hs, x)[i] < |t.nodes|
    decreases Height(t, depth, x)
  {
    var h := FirstOpener(t, depth, next, hs, x);
    if h >= 0 {
      FirstOpenerHigher(t, depth, next, hs, x);
      RevealPathListed(t, depth, next, hs, h);
      var rest := RevealPath(t, depth, next, hs, h);
      var p := RevealPath(t, depth, next, hs, x);
      assert p == [h] + rest;
      assert h in hs;
      forall i | 0 <= i < |p| ensures p[i] in hs && p[i] < |t.nodes| {
        if i == 0 {
          assert p[0] == h;
        } else {
          assert p[i] == rest[i - 1];
        }
      }
    }
  }

  /** The path is a chain of enclosing sections climbing towards the
      top: each heading's group contains the node before it, and it ends
      at a node no listed group contains. */
  lemma {:induction false} RevealPathClimbs(t: Tree, depth: seq<nat>, next: seq<int>, hs: seq<nat>, x: nat)
    requires Ranked(t, depth) && NextTable(t, next) && InTree(t, hs) && AllHeadings(t, hs) && x < |t.nodes|
    ensures var p := RevealPath(t, depth, next, hs, x);
      && InTree(t, p)
      && (p == [] <==> forall i | 0 <= i < |hs| :: !Opens(t, depth, next, hs[i], x))
      && (p != [] ==> Opens(t, depth, next, p[0], x) && Height(t, depth, p[0]) < Height(t, depth, x))
      && (forall i | 0 <= i < |p| - 1 :: Opens(t, depth, next, p[i + 1], p[i]))
    decreases Height(t, depth, x)
  {
    var p := RevealPath(t, depth, next, hs, x);
    var h := FirstOpener(t, depth, next, hs, x);
    RevealPathListed(t, depth, next, hs, x);
    if h >= 0 {
      FirstOpenerHigher(t, depth, next, hs, x);
      RevealPathClimbs(t, depth, next, hs, h);
      var rest := RevealPath(t, depth, next, hs, h);
      assert p == [h] + rest;
      forall k | 0 <= k < |p| - 1 ensures Opens(t, depth, next, p[k + 1], p[k]) {
        if k > 0 {
          assert p[k] == rest[k - 1] && p[k + 1] == rest[k];
        }
      }
    }
  }

  /** One opening step: a heading whose `aria-expanded` reads "false"
      and that is followed by its content group shows the group. */
  function OpenOne(t: Tree, next: seq<int>, f: Marks, h: nat): (r: Marks)
    requires Links(t, next) && Fits(t, f) && h < |t.nodes|
    ensures Fits(t, r) && r.collapsible == f.collapsible
  {
    var g := GroupOf(t, next, h);
    if g < 0 || f.expanded[h] then f
    else Marks(f.hidden[g := false], f.expanded[h := true], f.collapsible)
  }

  /** Opening the headings of `p`, first to last. */
  function OpenAll(t: Tree, next: seq<int>, f: Marks, p: seq<nat>): (r: Marks)
    requires Links(t, next) && Fits(t, f) && InTree(t, p)
    ensures Fits(t, r) && r.collapsible == f.collapsible
    decreases |p|
  {
    if p == [] then f
    else OpenOne(t, next, OpenAll(t, next, f, p[..|p| - 1]), p[|p| - 1])
  }

  /** Opening one more heading after `p`. */
  lemma OpenAllSnoc(t: Tree, next: seq<int>, f: Marks, p: seq<nat>, h: nat)
    requires Links(t, next) && Fits(t, f) && InTree(t, p) && h < |t.nodes|
    ensures InTree(t, p + [h])
    ensures OpenAll(t, next, f, p + [h]) == OpenOne(t, next, OpenAll(t, next, f, p), h)
  {
    assert (p + [h])[..|p|] == p;
  }

  lemma OpenAllUnfold(t: Tree, next: seq<int>, f: Marks, p: seq<nat>)
    requires Links(t, next) && Fits(t, f) && InTree(t, p) && p != []
    ensures InTree(t, p[..|p| - 1])
    ensures OpenAll(t, next, f, p) == OpenOne(t, next, OpenAll(t, next, f, p[..|p| - 1]), p[|p| - 1])
  {
  }

  /** `expandToReveal` opens only heads, so a synced page stays synced. */
  lemma RevealKeepsSynced(t: Tree, depth: seq<nat>, next: seq<int>, f: Marks, x: nat)
    requires Ranked(t, depth) && NextTable(t, next) && Fits(t, f) && |t.nodes| > 0 && x < |t.nodes| && Synced(t, f)
    ensures Synced(t, OpenAll(t, next, f, RevealPath(t, depth, next, Heads(t, depth, f), x)))
  {
    var hs := Heads(t, depth, f);
    var p := RevealPath(t, depth, next, hs, x);
    RevealPathListed(t, depth, next, hs, x);
    forall i | 0 <= i < |p| ensures f.collapsible[p[i]] {
      var j :| 0 <= j < |hs| && hs[j] == p[i];
    }
    OpenAllKeepsSynced(t, next, f, p);
  }

  /** One opening step never hides a group nor closes a heading. */
  lemma OpenOneKeeps(t: Tree, next: seq<int>, f: Marks, h: nat, y: nat)
    requires Links(t, next) && Fits(t, f) && h < |t.nodes| && y < |t.nodes|
    ensures OpenOne(t, next, f, h).hidden[y] ==> f.hidden[y]
    ensures f.expanded[y] ==> OpenOne(t, next, f, h).expanded[y]
  {
  }

  /** Opening never hides a group nor closes a heading. */
  lemma {:induction false} OpenAllNeverCloses(t: Tree, next: seq<int>, f: Marks, p: seq<nat>, y: nat)
    requires Links(t, next) && Fits(t, f) && InTree(t, p) && y < |t.nodes|
    ensures OpenAll(t, next, f, p).hidden[y] ==> f.hidden[y]
    ensures f.expanded[y] ==> OpenAll(t, next, f, p).expanded[y]
    decreases |p|
  {
    if p != [] {
      OpenAllUnfold(t, next, f, p);
      OpenAllNeverCloses(t, next, f, p[..|p| - 1], y);
      OpenOneKeeps(t, next, OpenAll(t, next, f, p[..|p| - 1]), p[|p| - 1], y);
    }
  }

  lemma OpenOneKeepsSynced(t: Tree, next: seq<int>, f: Marks, h: nat)
    requires Shaped(t) && NextTable(t, next) && Fits(t, f) && h < |t.nodes| && Synced(t, f) && f.collapsible[h]
    ensures Synced(t, OpenOne(t, next, f, h))
  {
    var r := OpenOne(t, next, f, h);
    GroupOfSynced(t, next, f, h);
    forall h0 | 0 <= h0 < |t.nodes| && r.collapsible[h0] ensures SyncedAt(t, r, h0) {
      assert SyncedAt(t, f, h0);
      if h0 != h {
        GroupsDistinct(t, next, f, h, h0);
        GroupOfSynced(t, next, f, h0);
      }
    }
  }

  /** On a synced page, opening collapsible headings keeps it synced. */
  lemma {:induction false} OpenAllKeepsSynced(t: Tree, next: seq<int>, f: Marks, p: seq<nat>)
    requires Shaped(t) && NextTable(t, next) && Fits(t, f) && InTree(t, p) && Synced(t, f)
    requires forall i | 0 <= i < |p| :: f.collapsible[p[i]]
    ensures Synced(t, OpenAll(t, next, f, p))
    decreases |p|
  {
    if p != [] {
      var a := p[..|p| - 1];
      OpenAllUnfold(t, next, f, p);
      forall i | 0 <= i < |a| ensures f.collapsible[a[i]] {
        assert a[i] == p[i];
      }
      OpenAllKeepsSynced(t, next, f, a);
      OpenOneKeepsSynced(t, next, OpenAll(t, next, f, a), p[|p| - 1]);
    }
  }

  /** Opening a collapsible heading of a synced page leaves it expanded
      and its group shown. */
  lemma OpenOneShows(t: Tree, next: seq<int>, f: Marks, h: nat)
    requires Shaped(t) && NextTable(t, next) && Fits(t, f) && h < |t.nodes| && f.collapsible[h] && Synced(t, f)
    ensures GroupOf(t, next, h) >= 0
    ensures OpenOne(t, next, f, h).expanded[h] && !OpenOne(t, next, f, h).hidden[GroupOf(t, next, h)]
  {
    assert SyncedAt(t, f, h);
    GroupOfSynced(t, next, f, h);
  }

  /** On a synced page, each collapsible heading that was opened ends up
      expanded with its group shown. */
  lemma {:induction false} OpenAllShows(t: Tree, next: seq<int>, f: Marks, p: seq<nat>, i: nat)
    requires Shaped(t) && NextTable(t, next) && Fits(t, f) && InTree(t, p) && Synced(t, f) && i < |p|
    requires forall k | 0 <= k < |p| :: f.collapsible[p[k]]
    ensures GroupOf(t, next, p[i]) >= 0
    ensures OpenAll(t, next, f, p).expanded[p[i]] && !OpenAll(t, next, f, p).hidden[GroupOf(t, next, p[i])]
    decreases |p|
  {
    var a := p[..|p| - 1];
    var h := p[|p| - 1];
    OpenAllUnfold(t, next, f, p);
    forall k | 0 <= k < |a| ensures f.collapsible[a[k]] {
      assert a[k] == p[k];
    }
    OpenAllKeepsSynced(t, next, f, a);
    var m := OpenAll(t, next, f, a);
    if i < |a| {
      assert a[i] == p[i];
      OpenAllShows(t, next, f, a, i);
      OpenOneKeeps(t, next, m, h, p[i]);
      OpenOneKeeps(t, next, m, h, GroupOf(t, next, p[i]));
    } else {
      OpenOneShows(t, next, m, h);
    }
  }

  /** Opening a heading that owns a group leaves it expanded. */
  lemma OpenOneOpens(t: Tree, next: seq<int>, f: Marks, h: nat)
    requires Links(t, next) && Fits(t, f) && h < |t.nodes| && GroupOf(t, next, h) >= 0
    ensures OpenOne(t, next, f, h).expanded[h]
  {
  }

  /** The last heading opened, when it owns a group, reads expanded. */
  lemma OpenAllOpensLast(t: Tree, next: seq<int>, f: Marks, p: seq<nat>)
    requires Links(t, next) && Fits(t, f) && InTree(t, p) && p != [] && GroupOf(t, next, p[|p| - 1]) >= 0
    ensures OpenAll(t, next, f, p).expanded[p[|p| - 1]]
  {
    OpenAllUnfold(t, next, f, p);
    OpenOneOpens(t, next, OpenAll(t, next, f, p[..|p| - 1]), p[|p| - 1]);
  }

  /** After opening `p` every heading of `p` that owns a group reads expanded. */
  lemma {:induction false} OpenAllMarksGrouped(t: Tree, next: seq<int>, f: Marks, p: seq<nat>, i: nat)
    requires Links(t, next) && Fits(t, f) && InTree(t, p) && i < |p| && GroupOf(t, next, p[i]) >= 0
    ensures OpenAll(t, next, f, p).expanded[p[i]]
    decreases |p|
  {
    if i == |p| - 1 {
      OpenAllOpensLast(t, next, f, p);
    } else {
      var a := p[..|p| - 1];
      OpenAllUnfold(t, next, f, p);
      assert a[i] == p[i];
      OpenAllMarksGrouped(t, next, f, a, i);
      OpenOneKeeps(t, next, OpenAll(t, next, f, a), p[|p| - 1], p[i]);
    }
  }

  /** Headings without a group are skipped and expanded ones stay as
      they are: opening changes nothing when each heading of `p` is
      expanded or owns no group. */
  lemma {:induction false} OpenAllSkips(t: Tree, next: seq<int>, f: Marks, p: seq<nat>)
    requires Links(t, next) && Fits(t, f) && InTree(t, p)
    requires forall i | 0 <= i < |p| && GroupOf(t, next, p[i]) >= 0 :: f.expanded[p[i]]
    ensures OpenAll(t, next, f, p) == f
    decreases |p|
  {
    if p != [] {
      var a := p[..|p| - 1];
      OpenAllUnfold(t, next, f, p);
      forall i | 0 <= i < |a| && GroupOf(t, next, a[i]) >= 0 ensures f.expanded[a[i]] {
        assert a[i] == p[i];
      }
      OpenAllSkips(t, next, f, a);
    }
  }

  /** Opening the same headings a second time changes nothing: the
      second `expandToReveal` of a link click has no effect. */
  lemma OpenAllTwice(t: Tree, next: seq<int>, f: Marks, p: seq<nat>)
    requires Links(t, next) && Fits(t, f) && InTree(t, p)
    ensures OpenAll(t, next, OpenAll(t, next, f, p), p) == OpenAll(t, next, f, p)
  {
    var m := OpenAll(t, next, f, p);
    forall i | 0 <= i < |p| && GroupOf(t, next, p[i]) >= 0 ensures m.expanded[p[i]] {
      OpenAllMarksGrouped(t, next, f, p, i);
    }
    OpenAllSkips(t, next, m, p);
  }

  /** The headings of `hs` whose content group contains `x`, order kept:
      every collapsed section around `x`. */
  function Enclosing(t: Tree, ghost depth: seq<nat>, next: seq<int>, hs: seq<nat>, x: nat): (r: seq<nat>)
    requires Ranked(t, depth) && Links(t, next) && InTree(t, hs) && x < |t.nodes|
    ensures InTree(t, r)
    ensures forall i | 0 <= i < |r| :: r[i] in hs && Opens(t, depth, next, r[i], x)
    ensures forall i | 0 <= i < |hs| && Opens(t, depth, next, hs[i], x) :: hs[i] in r
  {
    if hs == [] then []
    else (if Opens(t, depth, next, hs[0], x) then [hs[0]] else []) + Enclosing(t, depth, next, hs[1..], x)
  }

  /** Looking at one more heading after `hs`. */
  lemma {:induction false} EnclosingSnoc(t: Tree, depth: seq<nat>, next: seq<int>, hs: seq<nat>, h: nat, x: nat)
    requires Ranked(t, depth) && Links(t, next) && InTree(t, hs) && h < |t.nodes| && x < |t.nodes|
    ensures InTree(t, hs + [h])
    ensures Enclosing(t, depth, next, hs + [h], x)
         == Enclosing(t, depth, next, hs, x) + (if Opens(t, depth, next, h, x) then [h] else [])
    decreases |hs|
  {
    if hs == [] {
      var one: seq<nat> := [h];
      assert one[1..] == [];
    } else {
      assert (hs + [h])[1..] == hs[1..] + [h];
      EnclosingSnoc(t, depth, next, hs[1..], h, x);
    }
  }

  /** One more heading in the pass of the corrected reveal: it is
      opened exactly when its group contains `x`. */
  lemma {:induction false} OpenEnclosingStep(t: Tree, depth: seq<nat>, next: seq<int>, f: Marks, hs: seq<nat>, i: nat, x: nat)
    requires Ranked(t, depth) && Links(t, next) && Fits(t, f) && InTree(t, hs) && i < |hs| && x < |t.nodes|
    ensures InTree(t, Enclosing(t, depth, next, hs[..i + 1], x))
    ensures var before := OpenAll(t, next, f, Enclosing(t, depth, next, hs[..i], x));
      OpenAll(t, next, f, Enclosing(t, depth, next, hs[..i + 1], x))
        == if Opens(t, depth, next, hs[i], x) then OpenOne(t, next, before, hs[i]) else before
  {
    var a := hs[..i];
    var h := hs[i];
    assert hs[..i + 1] == a + [h];
    EnclosingSnoc(t, depth, next, a, h, x);
    var e := Enclosing(t, depth, next, a, x);
    if Opens(t, depth, next, h, x) {
      OpenAllSnoc(t, next, f, e, h);
    } else {
      assert Enclosing(t, depth, next, a + [h], x) == e + [];
      assert e + [] == e;
    }
  }

  /** The corrected reveal: on a synced page, opening `Enclosing` shows
      every listed heading's group that contains the target, and keeps
      the page synced. */
  lemma RevealShowsEnclosing(t: Tree, depth: seq<nat>, next: seq<int>, f: Marks, hs: seq<nat>, x: nat)
    requires Ranked(t, depth) && NextTable(t, next) && Fits(t, f) && InTree(t, hs) && x < |t.nodes| && Synced(t, f)
    requires forall i | 0 <= i < |hs| :: f.collapsible[hs[i]]
    ensures var r := OpenAll(t, next, f, Enclosing(t, depth, next, hs, x));
      && Synced(t, r)
      && forall i | 0 <= i < |hs| && Opens(t, depth, next, hs[i], x) ::
           r.expanded[hs[i]] && !r.hidden[GroupOf(t, next, hs[i])]
  {
    var e := Enclosing(t, depth, next, hs, x);
    forall i | 0 <= i < |e| ensures f.collapsible[e[i]] {
      var j :| 0 <= j < |hs| && hs[j] == e[i];
    }
    OpenAllKeepsSynced(t, next, f, e);
    forall i | 0 <= i < |hs| && Opens(t, depth, next, hs[i], x)
      ensures OpenAll(t, next, f, e).expanded[hs[i]] && !OpenAll(t, next, f, e).hidden[GroupOf(t, next, hs[i])]
    {
      var k :| 0 <= k < |e| && e[k] == hs[i];
      OpenAllShows(t, next, f, e, k);
    }
  }

  /** The second `expandToReveal(target)` of a link click changes
      nothing: the heads are the same and each one the first call could
      open is already open. */
  lemma RevealTwice(t: Tree, depth: seq<nat>, next: seq<int>, f: Marks, x: nat)
    requires Ranked(t, depth) && NextTable(t, next) && Fits(t, f) && |t.nodes| > 0 && x < |t.nodes|
    ensures var f1 := OpenAll(t, next, f, RevealPath(t, depth, next, Heads(t, depth, f), x));
      OpenAll(t, next, f1, RevealPath(t, depth, next, Heads(t, depth, f1), x)) == f1
  {
    var p := RevealPath(t, depth, next, Heads(t, depth, f), x);
    var f1 := OpenAll(t, next, f, p);
    HeadsInMarks(t, depth, f, f1, DocumentOrder(t));
    OpenAllTwice(t, next, f, p);
  }

  /** An `id` character of a CSS identifier, escapes aside: a letter, a
      digit, `-`, `_` or any non-ASCII character. */
  predicate IsNameChar(c: char) {
    'a' <= c <= 'z' || 'A' <= c <= 'Z' || '0' <= c <= '9' || c == '-' || c == '_' || c >= '\U{80}'
  }

  predicate IsDigit(c: char) { '0' <= c <= '9' }

  /** `s` is a CSS identifier, so that `#` followed by `s` is an ID
      selector: name characters only, not starting with a digit, nor
      with `-` and a digit, and not `-` alone. */
  predicate IsIdent(s: string) {
    && |s| > 0
    && (forall i | 0 <= i < |s| :: IsNameChar(s[i]))
    && !IsDigit(s[0])
    && !(s[0] == '-' && (|s| == 1 || IsDigit(s[1])))
  }

  /** An element whose `id` attribute is `id`. */
  predicate HasId(n: Node, id: string) {
    n.Element? && n.id == id
  }

  /** `document.querySelector('#' + id)`: the first element in document
      order whose `id` is `id`, -1 if none. */
  function ElementById(t: Tree, id: string): (r: int)
    requires Shaped(t) && |t.nodes| > 0
    ensures -1 <= r < |t.nodes|
    ensures r >= 0 ==> HasId(t.nodes[r], id)
    ensures r < 0 ==> forall i | 0 <= i < |DocumentOrder(t)| :: !HasId(t.nodes[DocumentOrder(t)[i]], id)
    ensures var order := DocumentOrder(t);
      r >= 0 ==> r in order && forall i | 0 <= i < IndexOf(order, r) :: !HasId(t.nodes[order[i]], id)
  {
    var p := n => HasId(n, id);
    var s := Select(t, DocumentOrder(t), p);
    SelectFirst(t, DocumentOrder(t), p);
    if s == [] then -1 else s[0]
  }

  /** The element a table-of-contents link with `href` scrolls to: none
      unless `href` starts with `#`; none when the rest is not an
      identifier (the selector is rejected and the handler stops); else
      the element with that `id`, if any. */
  function LinkTarget(t: Tree, href: string): (r: int)
    requires Shaped(t) && |t.nodes| > 0
    ensures -1 <= r < |t.nodes|
    ensures r >= 0 ==> |href| > 1 && href[0] == '#' && IsIdent(href[1..]) && HasId(t.nodes[r], href[1..])
  {
    if |href| == 0 || href[0] != '#' || !IsIdent(href[1..]) then -1
    else ElementById(t, href[1..])
  }

  /** Showing the target's own group (`content.classList.remove`,
      `aria-expanded="true"`) keeps a synced page synced, whether or not
      the target is a collapsible heading: a group follows only one
      element. */
  lemma ShowKeepsSynced(t: Tree, next: seq<int>, f: Marks, h: nat)
    requires Shaped(t) && NextTable(t, next) && Fits(t, f) && h < |t.nodes| && Synced(t, f)
    ensures Synced(t, SetOne(t, next, f, h, true))
  {
    var r := SetOne(t, next, f, h, true);
    var g := GroupOf(t, next, h);
    forall h0 | 0 <= h0 < |t.nodes| && r.collapsible[h0] ensures SyncedAt(t, r, h0) {
      assert SyncedAt(t, f, h0);
      GroupOfSynced(t, next, f, h0);
      if h0 != h && g >= 0 {
        assert next[h] == NextElementSibling(t, h);
        if g == NextSibling(t, h0) {
          ElementFollowedBy(t, h, h0);
        }
      }
    }
  }
}
