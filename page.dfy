/** The page as the script changes it in place: the live tree, the
    collapse marks on its nodes, and the bits of page chrome the
    handlers set. Each handler is a method proved against the functions
    of modules `Outline`, `Collapse` and `Reveal`. */
module Pages {
  import opened Seqs
  import opened Dom
  import opened Surgery
  import opened Collapse
  import opened Reveal
  import opened Outline

  /** Page state outside the outline: class `toc-collapsed` on `body`,
      `aria-expanded` of `#toc .toc-handle`, the node last scrolled into
      view (-1 for none) and the text of `#toc-collapse-all`. */
  datatype Chrome = Chrome(tocCollapsed: bool, handleExpanded: bool, scrolledTo: int, collapseLabel: string)

  /** The forward scan from `h` (`while (sib)`): the following
      siblings up to, not including, the first H1-H3 of level at most
      `level`. */
  method ScanSiblings(t: Tree, h: nat, level: nat) returns (toMove: seq<nat>)
    requires Shaped(t) && h < |t.nodes| && level == Level(t.nodes[h])
    ensures toMove == ScanOf(t, h)
  {
    ghost var s := FollowingSiblings(t, h);
    toMove := [];
    var sib := NextSibling(t, h);
    SiblingWalk(t, h, 0);
    while sib >= 0
      invariant |toMove| <= |s| && forall i | 0 <= i < |toMove| :: toMove[i] == s[i]
      invariant sib == if |toMove| < |s| then s[|toMove|] else -1
      invariant forall i | 0 <= i < |toMove| :: !Stops(t.nodes[s[i]], level)
      decreases |s| - |toMove|
    {
      if Stops(t.nodes[sib], level) {
        break;
      }
      SiblingWalk(t, h, |toMove| + 1);
      toMove := toMove + [sib as nat];
      sib := NextSibling(t, sib);
    }
    assert toMove == s[..|toMove|];
    ScanRunUnique(t, s, level, |toMove|);
  }

  /** The absorption (`while (sec && ...)`) from section `ps`: its
      following element siblings that are sections whose first element
      child is a heading deeper than `level`, up to the first that is
      not one. */
  method AbsorbFrom(t: Tree, ps: nat, level: nat) returns (absorbed: seq<nat>)
    requires Shaped(t) && ps < |t.nodes|
    ensures absorbed == AbsorbRun(t, ElementsAfter(t, ps), level)
  {
    absorbed := [];
    var sec := NextElementSibling(t, ps);
    ghost var all := AbsorbWalk(t, sec, level);
    while sec >= 0 && IsSection(t.nodes[sec])
      invariant sec < |t.nodes| && absorbed + AbsorbWalk(t, sec, level) == all
      decreases if sec < 0 then 0 else |FollowingSiblings(t, sec)| + 1
    {
      var firstEl := FirstElementChild(t, sec);
      var secLevel := if firstEl >= 0 then Level(t.nodes[firstEl]) else 0;
      if secLevel > 0 && secLevel > level {
        var next := NextElementSibling(t, sec);
        AbsorbWalkStep(t, sec, level, absorbed, all);
        absorbed := absorbed + [sec as nat];
        sec := next;
      } else {
        break;
      }
    }
    assert absorbed == all by { assert absorbed + [] == absorbed; }
    AbsorbWalkRun(t, ps, level);
  }

  /** One absorbed section: the walk goes on from its next element
      sibling, which is strictly further along. */
  lemma AbsorbWalkStep(t: Tree, sec: nat, level: nat, absorbed: seq<nat>, all: seq<nat>)
    requires Shaped(t) && sec < |t.nodes| && Absorbable(t, sec, level)
    requires absorbed + AbsorbWalk(t, sec, level) == all
    ensures var next := NextElementSibling(t, sec);
      && (absorbed + [sec]) + AbsorbWalk(t, next, level) == all
      && (next >= 0 ==> |FollowingSiblings(t, next)| < |FollowingSiblings(t, sec)|)
  {
    var next := NextElementSibling(t, sec);
    NextElementSiblingCloser(t, sec);
    assert AbsorbWalk(t, sec, level) == [sec] + AbsorbWalk(t, next, level);
    assert (absorbed + [sec]) + AbsorbWalk(t, next, level) == absorbed + ([sec] + AbsorbWalk(t, next, level));
  }

  /** The absorption happens only when `h` is the first H1-H3 of its
      closest section. */
  method AbsorbSections(t: Tree, ghost depth: seq<nat>, h: nat, level: nat) returns (absorbed: seq<nat>)
    requires Ranked(t, depth) && h < |t.nodes| && level == Level(t.nodes[h])
    ensures absorbed == AbsorbedOf(t, depth, h)
  {
    var ps := Closest(t, depth, h, IsSection);
    if ps >= 0 && QueryFirst(t, ps, IsH123) == h {
      absorbed := AbsorbFrom(t, ps, level);
    } else {
      absorbed := [];
    }
  }

  /** The sectionizer's step on a heading that collects something, as
      `MakeCollapsible` performs it: the wrap of what it collects and
      the heading's new marks, which keep the page a synced forest. */
  lemma WrapStep(t: Tree, d: seq<nat>, f: Marks, h: nat)
    requires Ranked(t, d) && Fits(t, f) && h < |t.nodes| && Synced(t, f)
    requires !Skipped(t, d, h) && ToMove(t, d, h) != []
    ensures var m := ToMove(t, d, h);
      && Movable(t, d, h, m)
      && SectionizeOne(t, d, f, h) == (Wrapped(t, h, m), Enhanced(f, h))
      && DepthAfter(t, d, f, h) == NewDepth(t, d, h, m)
      && Ranked(Wrapped(t, h, m), NewDepth(t, d, h, m))
      && Fits(Wrapped(t, h, m), Enhanced(f, h))
      && Synced(Wrapped(t, h, m), Enhanced(f, h))
  {
    ToMoveMovable(t, d, h);
    SectionizeOneRanked(t, d, f, h);
    SectionizeOneSynced(t, d, f, h);
  }

  /** One heading of the sectionizer's pass: the rest of the pass runs
      on the tree that heading leaves, whose nodes still include the
      remaining headings. */
  lemma SectionizeAllStep(t: Tree, d: seq<nat>, f: Marks, hs: seq<nat>, i: nat)
    requires Ranked(t, d) && Fits(t, f) && i < |hs| && InTree(t, hs[i..])
    ensures hs[i] < |t.nodes|
    ensures var r := SectionizeOne(t, d, f, hs[i]); var d' := DepthAfter(t, d, f, hs[i]);
      && Ranked(r.0, d') && InTree(r.0, hs[i + 1..])
      && SectionizeAll(t, d, f, hs[i..]) == SectionizeAll(r.0, d', r.1, hs[i + 1..])
  {
    assert hs[i..][0] == hs[i];
    assert hs[i..][1..] == hs[i + 1..];
    SectionizeOneRanked(t, d, f, hs[i]);
  }

  /** Setting an entry before the last appended one commutes with the append. */
  lemma UpdateSnoc(s: seq<bool>, h: nat, v: bool, x: bool)
    requires h < |s|
    ensures (s + [x])[h := v] == s[h := v] + [x]
  {
  }

  class Page {
    var nodes: seq<Node>
    var parent: seq<int>
    var children: seq<seq<nat>>
    ghost var depth: seq<nat>
    var hidden: seq<bool>
    var expanded: seq<bool>
    var collapsible: seq<bool>
    var chrome: Chrome
    /** Whether `#toc .toc-handle` exists. */
    const hasHandle: bool
    /** Whether `#toc-collapse-all` exists. */
    const hasCollapseButton: bool

    function Doc(): Tree
      reads this`nodes, this`parent, this`children
    {
      Tree(nodes, parent, children)
    }

    function Flags(): Marks
      reads this`hidden, this`expanded, this`collapsible
    {
      Marks(hidden, expanded, collapsible)
    }

    /** The tree is a forest with node 0 as document root, every node has
        its marks, and every collapsible heading is in step with its
        group. */
    ghost predicate Valid()
      reads this`nodes, this`parent, this`children, this`depth, this`hidden, this`expanded, this`collapsible
    {
      Ranked(Doc(), depth) && Fits(Doc(), Flags()) && |nodes| > 0 && parent[0] == -1 && Synced(Doc(), Flags())
    }

    /** The page as loaded: the markup's tree and classes, no heading
        collapsible yet. */
    constructor (t: Tree, ghost d: seq<nat>, hidden0: seq<bool>, expanded0: seq<bool>,
                 c: Chrome, handle: bool, button: bool)
      requires Ranked(t, d) && |t.nodes| > 0 && t.parent[0] == -1 && |hidden0| == |t.nodes| && |expanded0| == |t.nodes|
      ensures Valid() && Doc() == t && depth == d && hidden == hidden0 && expanded == expanded0
      ensures forall x | 0 <= x < |nodes| :: !collapsible[x]
      ensures chrome == c && hasHandle == handle && hasCollapseButton == button
    {
      nodes, parent, children := t.nodes, t.parent, t.children;
      depth := d;
      hidden, expanded := hidden0, expanded0;
      collapsible := seq(|t.nodes|, x => false);
      chrome := c;
      hasHandle, hasCollapseButton := handle, button;
    }

    /** `h.after(content)` for a fresh shown group, then
        `content.appendChild(x)` for each `x` of `m`, in order. */
    method Wrap(h: nat, m: seq<nat>)
      requires Movable(Doc(), depth, h, m) && Fits(Doc(), Flags())
      modifies this
      ensures Doc() == Wrapped(old(Doc()), h, m)
      ensures depth == NewDepth(old(Doc()), old(depth), h, m)
      ensures hidden == old(hidden) + [false] && expanded == old(expanded) + [false]
      ensures collapsible == old(collapsible) + [false] && chrome == old(chrome)
    {
      var t0 := Doc();
      ghost var d0 := depth;
      var g := |nodes|;
      var p := parent[h];
      InParentList(t0, h);
      nodes := nodes + [Group];
      parent := parent + [p];
      children := (children + [[]])[p := InsertAfter(children[p], h, g)];
      hidden, expanded, collapsible := hidden + [false], expanded + [false], collapsible + [false];
      InsertedIsWrapped(t0, h);
      assert Doc() == Inserted(t0, h);
      var k := 0;
      while k < |m|
        invariant k <= |m| && CanWrap(t0, h, m[..k]) && Doc() == Wrapped(t0, h, m[..k])
        invariant hidden == old(hidden) + [false] && expanded == old(expanded) + [false]
        invariant collapsible == old(collapsible) + [false] && chrome == old(chrome)
      {
        var x := m[k];
        assert m[..k + 1] == m[..k] + [x];
        CanWrapPrefix(t0, h, m, k + 1);
        AppendStep(t0, h, m[..k], x);
        ghost var before := Doc();
        var q := parent[x];
        if q >= 0 {
          children := children[q := Remove(children[q], x)];
        }
        parent := parent[x := g];
        children := children[g := children[g] + [x]];
        assert Doc() == Appended(before, g, x);
        k := k + 1;
      }
      assert m[..k] == m;
      depth := NewDepth(t0, d0, h, m);
    }
  
    /** The sectionizer's work on one heading `h`: the skip tests, the
        scan, the absorption, then the wrap and the heading's new marks. */
    method SectionizeHeading(h: nat)
      requires Valid() && h < |nodes|
      modifies this
      ensures Valid()
      ensures (Doc(), Flags()) == SectionizeOne(old(Doc()), old(depth), old(Flags()), h)
      ensures depth == DepthAfter(old(Doc()), old(depth), old(Flags()), h)
      ensures chrome == old(chrome)
    {
      var t := Doc();
      ghost var f := Flags();
      ghost var d := depth;
      if Closest(t, depth, h, IsHeader) >= 0 { return; }
      var level := Level(nodes[h]);
      if level == 0 { return; }
      if Closest(t, depth, h, IsToc) >= 0 { return; }
      var toMove := ScanSiblings(t, h, level);
      var absorbed := AbsorbSections(t, depth, h, level);
      toMove := toMove + absorbed;
      assert !Skipped(t, d, h) && toMove == ToMove(t, d, h);
      if |toMove| == 0 { return; }
      MakeCollapsible(h, toMove);
    }

    /** The sectionizer's changes for a heading that collected `m`: the
        group after it, holding `m`, and its collapsible marks. */
    method MakeCollapsible(h: nat, m: seq<nat>)
      requires Valid() && h < |nodes| && !Skipped(Doc(), depth, h)
      requires m == ToMove(Doc(), depth, h) && m != []
      modifies this
      ensures Valid()
      ensures (Doc(), Flags()) == SectionizeOne(old(Doc()), old(depth), old(Flags()), h)
      ensures depth == DepthAfter(old(Doc()), old(depth), old(Flags()), h)
      ensures chrome == old(chrome)
    {
      var t := Doc();
      ghost var f := Flags();
      ghost var d := depth;
      WrapStep(t, d, f, h);
      Wrap(h, m);
      UpdateSnoc(f.collapsible, h, true, false);
      UpdateSnoc(f.expanded, h, true, false);
      collapsible := collapsible[h := true];
      expanded := expanded[h := true];
      assert Flags() == Enhanced(f, h);
    }

    /** The sectionizer on page load: with a `<main>`, each H1-H3 inside
        it, in the order listed before any is moved. */
    method SectionizePage()
      requires Valid()
      modifies this
      ensures Valid()
      ensures (Doc(), Flags()) == Sectionize(old(Doc()), old(depth), old(Flags()))
      ensures chrome == old(chrome)
    {
      var t0 := Doc();
      ghost var d0 := depth;
      ghost var f0 := Flags();
      var main := MainOf(t0);
      if main < 0 {
        return;
      }
      var hs := HeadingsOf(t0, main);
      ghost var goal := SectionizeAll(t0, d0, f0, hs);
      assert hs[0..] == hs;
      var i := 0;
      while i < |hs|
        invariant i <= |hs| && Valid() && InTree(Doc(), hs[i..])
        invariant SectionizeAll(Doc(), depth, Flags(), hs[i..]) == goal
        invariant chrome == old(chrome)
      {
        SectionizeAllStep(Doc(), depth, Flags(), hs, i);
        SectionizeHeading(hs[i]);
        i := i + 1;
      }
      assert hs[i..] == [];
    }

    /** A collapsible heading's `toggle` (click, or Enter or Space): the
        group after it is shown or hidden and `aria-expanded` flips. */
    method Toggle(h: nat)
      requires Valid() && h < |nodes| && collapsible[h]
      modifies this`hidden, this`expanded
      ensures Valid()
      ensures Flags() == Toggled(Doc(), NextElementSiblings(Doc()), old(Flags()), h)
    {
      var t := Doc();
      var next := NextElementSibling(t, h);
      assert next == NextElementSiblings(t)[h];
      if next >= 0 && nodes[next].Group? {
        hidden := hidden[next := expanded[h]];
        expanded := expanded[h := !expanded[h]];
      }
      ToggleKeepsSynced(t, NextElementSiblings(t), old(Flags()), h);
    }

    /** `getHeads()`: the collapsible H1-H3 inside `main`, outside `#toc`,
        in document order. */
    function HeadsOutsideToc(): (hs: seq<nat>)
      requires Ranked(Doc(), depth) && Fits(Doc(), Flags()) && |nodes| > 0
      reads this`nodes, this`parent, this`children, this`depth, this`hidden, this`expanded, this`collapsible
      ensures InTree(Doc(), hs)
      ensures forall i | 0 <= i < |hs| :: collapsible[hs[i]] && IsH123(nodes[hs[i]])
    {
      OutsideTocMeans(Doc(), depth, Heads(Doc(), depth, Flags()));
      OutsideToc(Doc(), depth, Heads(Doc(), depth, Flags()))
    }

    /** `allCollapsed()`: every head outside `#toc` has a next element
        sibling and it is hidden. */
    function AllCollapsedNow(): bool
      requires Ranked(Doc(), depth) && Fits(Doc(), Flags()) && |nodes| > 0
      reads this`nodes, this`parent, this`children, this`depth, this`hidden, this`expanded, this`collapsible
    {
      AllCollapsed(Doc(), NextElementSiblings(Doc()), Flags(), HeadsOutsideToc())
    }

    /** `setAll(expand)`: every head outside `#toc` that is followed by
        its group shows (`expand`) or hides it and says so. */
    method SetAllGroups(expand: bool)
      requires Valid()
      modifies this`hidden, this`expanded
      ensures Valid()
      ensures Flags() == SetAll(Doc(), NextElementSiblings(Doc()), old(Flags()), old(HeadsOutsideToc()), expand)
      ensures HeadsOutsideToc() == old(HeadsOutsideToc())
    {
      var t := Doc();
      var next := NextElementSiblings(t);
      var hs := HeadsOutsideToc();
      ghost var f0 := Flags();
      SetGroups(t, next, hs, expand);
      SetAllKeepsSynced(t, next, f0, hs, expand);
      HeadsSameMarks(t, depth, f0, Flags());
    }

    /** The `forEach` of `setAll` over the heads `hs`, first to last. */
    method SetGroups(t: Tree, next: seq<int>, hs: seq<nat>, expand: bool)
      requires Doc() == t && Links(t, next) && Fits(t, Flags()) && InTree(t, hs)
      modifies this`hidden, this`expanded
      ensures Flags() == SetAll(t, next, old(Flags()), hs, expand)
    {
      var i := 0;
      while i < |hs|
        invariant i <= |hs|
        invariant Flags() == SetAll(t, next, old(Flags()), hs[..i], expand)
      {
        var h := hs[i];
        var content := next[h];
        if content >= 0 && nodes[content].Group? {
          hidden := hidden[content := !expand];
          expanded := expanded[h := expand];
        }
        assert hs[..i + 1][..i] == hs[..i];
        i := i + 1;
      }
      assert hs[..i] == hs;
    }

    /** `syncCollapseBtn()`: the button reads "Expand All" exactly when
        every head outside `#toc` has its group hidden. */
    method SyncCollapseButton()
      requires Valid()
      modifies this`chrome
      ensures Valid()
      ensures chrome == if hasCollapseButton then old(chrome).(collapseLabel := Label(AllCollapsedNow())) else old(chrome)
    {
      if hasCollapseButton {
        var collapsed := AllCollapsedNow();
        chrome := chrome.(collapseLabel := Label(collapsed));
      }
    }

    /** A press of Collapse/Expand All: expand everything when all is
        collapsed, collapse everything otherwise, then relabel. That the
        press flips the page's state and the new label names the opposite
        action is `ClickFlips` and `ClickRelabels`. */
    method CollapseAllClick()
      requires Valid() && hasCollapseButton
      modifies this`hidden, this`expanded, this`chrome
      ensures Valid()
      ensures Flags() == SetAll(Doc(), NextElementSiblings(Doc()), old(Flags()), old(HeadsOutsideToc()), old(AllCollapsedNow()))
      ensures chrome == old(chrome).(collapseLabel := Label(AllCollapsedNow()))
    {
      var expand := AllCollapsedNow();
      SetAllGroups(expand);
      SyncCollapseButton();
    }

    /** `expandToReveal(target)` as written: repeatedly take the first
        head, in document order, whose group contains the current node,
        open it if its `aria-expanded` reads "false", and move up to it;
        stop when no head's group contains the current node. */
    method ExpandToReveal(target: nat)
      requires Valid() && target < |nodes|
      modifies this`hidden, this`expanded
      ensures Valid()
      ensures var t := Doc(); var next := NextElementSiblings(t);
        Flags() == OpenAll(t, next, old(Flags()), RevealPath(t, depth, next, Heads(t, depth, old(Flags())), target))
    {
      ghost var f0 := Flags();
      RevealLoop(target);
      RevealKeepsSynced(Doc(), depth, NextElementSiblings(Doc()), f0, target);
    }

    /** The `while (changed)` loop of `expandToReveal`, which lists the
        heads afresh on every pass. */
    method RevealLoop(target: nat)
      requires Ranked(Doc(), depth) && Fits(Doc(), Flags()) && |nodes| > 0 && target < |nodes|
      modifies this`hidden, this`expanded
      ensures var t := Doc(); var next := NextElementSiblings(t);
        Flags() == OpenAll(t, next, old(Flags()), RevealPath(t, depth, next, Heads(t, depth, old(Flags())), target))
    {
      var t := Doc();
      ghost var d := depth;
      var next := NextElementSiblings(t);
      ghost var f0 := Flags();
      ghost var hs0 := Heads(t, d, f0);
      ghost var path := RevealPath(t, d, next, hs0, target);
      ghost var done: seq<nat> := [];
      var current: nat := target;
      var changed := true;
      while changed
        invariant current < |t.nodes| && Fits(t, Flags()) && collapsible == f0.collapsible
        invariant InTree(t, done) && Flags() == OpenAll(t, next, f0, done)
        invariant changed ==> done + RevealPath(t, d, next, hs0, current) == path
        invariant !changed ==> done == path
        decreases if changed then Height(t, d, current) + 1 else 0
      {
        changed := false;
        var heads := Heads(t, d, Flags());
        assert heads == hs0 by { HeadsSameMarks(t, d, f0, Flags()); }
        RevealAdvance(t, d, next, f0, hs0, current, done, path);
        var h := RevealStep(next, heads, current);
        if h >= 0 {
          done := done + [h as nat];
          current := h;
          changed := true;
        }
      }
    }

    /** One pass of the `while (changed)` loop: the `for` over `heads`
        finds the first whose group (`next[h]`, when a group) contains
        `current` and opens it. */
    method RevealStep(next: seq<int>, heads: seq<nat>, current: nat) returns (opener: int)
      requires Ranked(Doc(), depth) && Links(Doc(), next) && Fits(Doc(), Flags())
      requires InTree(Doc(), heads) && current < |nodes|
      modifies this`hidden, this`expanded
      ensures opener == FirstOpener(Doc(), depth, next, heads, current)
      ensures Flags() == if opener < 0 then old(Flags()) else OpenOne(Doc(), next, old(Flags()), opener)
    {
      var t := Doc();
      ghost var d := depth;
      var i := 0;
      while i < |heads|
        invariant i <= |heads|
        invariant forall k | 0 <= k < i :: !Opens(t, d, next, heads[k], current)
      {
        var h := heads[i];
        var content := next[h];
        if content >= 0 && t.nodes[content].Group? && Contains(t, d, content, current) {
          FirstOpenerAt(t, d, next, heads, current, i);
          if !expanded[h] {
            hidden := hidden[content := false];
            expanded := expanded[h := true];
          }
          return h;
        }
        assert !Opens(t, d, next, h, current);
        i := i + 1;
      }
      return -1;
    }

    /** The evidently intended `expandToReveal(target)`: one pass over
        the heads that opens every one whose group contains the target,
        so that every section around the target shows. */
    method RevealEnclosing(target: nat)
      requires Valid() && target < |nodes|
      modifies this`hidden, this`expanded
      ensures Valid()
      ensures var t := Doc(); var next := NextElementSiblings(t); var hs := Heads(t, depth, old(Flags()));
        && Flags() == OpenAll(t, next, old(Flags()), Enclosing(t, depth, next, hs, target))
        && forall i | 0 <= i < |hs| && Opens(t, depth, next, hs[i], target) ::
             expanded[hs[i]] && !hidden[GroupOf(t, next, hs[i])]
    {
      var t := Doc();
      var next := NextElementSiblings(t);
      ghost var f0 := Flags();
      var heads := Heads(t, depth, Flags());
      OpenEnclosing(t, depth, next, heads, target);
      RevealShowsEnclosing(t, depth, next, f0, heads, target);
    }

    /** The pass of `RevealEnclosing` over the heads `hs`. */
    method OpenEnclosing(t: Tree, ghost d: seq<nat>, next: seq<int>, heads: seq<nat>, target: nat)
      requires Doc() == t && Ranked(t, d) && Links(t, next) && Fits(t, Flags())
      requires InTree(t, heads) && target < |t.nodes|
      modifies this`hidden, this`expanded
      ensures Flags() == OpenAll(t, next, old(Flags()), Enclosing(t, d, next, heads, target))
    {
      ghost var f0 := Flags();
      var i := 0;
      while i < |heads|
        invariant i <= |heads| && InTree(t, Enclosing(t, d, next, heads[..i], target))
        invariant Marks(hidden, expanded, collapsible) == OpenAll(t, next, f0, Enclosing(t, d, next, heads[..i], target))
      {
        OpenEnclosingStep(t, d, next, f0, heads, i, target);
        OpenIfEncloses(t, d, next, heads[i], target);
        i := i + 1;
      }
      assert heads[..i] == heads;
    }

    /** The body of that pass for the head `h`: its group is shown when
        it contains the target and `h` is not expanded yet. */
    method OpenIfEncloses(t: Tree, ghost d: seq<nat>, next: seq<int>, h: nat, target: nat)
      requires Ranked(t, d) && Links(t, next) && Fits(t, Flags())
      requires h < |t.nodes| && target < |t.nodes|
      modifies this`hidden, this`expanded
      ensures Marks(hidden, expanded, collapsible)
        == if Opens(t, d, next, h, target) then OpenOne(t, next, old(Flags()), h) else old(Flags())
    {
      var content := next[h];
      if content >= 0 && t.nodes[content].Group? && Contains(t, d, content, target) && !expanded[h] {
        hidden := hidden[content := false];
        expanded := expanded[h := true];
      }
    }

    /** A click on a table-of-contents link: links not starting with `#`
        keep their default behaviour; otherwise the default is prevented
        and, when the target exists, `expandToReveal(target)` runs twice,
        the target's own group is shown, the target is scrolled to, the
        sidebar collapses and its handle, when present, says so. */
    method TocClick(href: string) returns (prevented: bool)
      requires Valid()
      modifies this`hidden, this`expanded, this`chrome
      ensures Valid()
      ensures prevented <==> |href| > 0 && href[0] == '#'
      ensures var t := Doc(); var next := NextElementSiblings(t); var target := LinkTarget(t, href);
        && (target < 0 ==> Flags() == old(Flags()) && chrome == old(chrome))
        && (target >= 0 ==>
              && Flags() == SetOne(t, next, OpenAll(t, next, old(Flags()),
                                     RevealPath(t, depth, next, Heads(t, depth, old(Flags())), target)), target, true)
              && chrome == old(chrome).(scrolledTo := target, tocCollapsed := true,
                                        handleExpanded := if hasHandle then false else old(chrome).handleExpanded))
    {
      if |href| == 0 || href[0] != '#' {
        return false;
      }
      prevented := true;
      var target := LinkTarget(Doc(), href);
      if target >= 0 {
        FollowLink(target);
      }
    }

    /** A click on a link to an existing target: the outline is opened
        around it, then the sidebar collapses. */
    method FollowLink(target: nat)
      requires Valid() && target < |nodes|
      modifies this`hidden, this`expanded, this`chrome
      ensures Valid()
      ensures var t := Doc(); var next := NextElementSiblings(t);
        Flags() == SetOne(t, next, OpenAll(t, next, old(Flags()),
                            RevealPath(t, depth, next, Heads(t, depth, old(Flags())), target)), target, true)
      ensures chrome == old(chrome).(scrolledTo := target, tocCollapsed := true,
                                     handleExpanded := if hasHandle then false else old(chrome).handleExpanded)
    {
      OpenTarget(target);
      CollapseSidebar(target);
    }

    /** After the outline is opened: scroll to the target, collapse the
        sidebar and, when the handle is present, mark it collapsed. */
    method CollapseSidebar(target: nat)
      modifies this`chrome
      ensures chrome == old(chrome).(scrolledTo := target, tocCollapsed := true,
                                     handleExpanded := if hasHandle then false else old(chrome).handleExpanded)
    {
      chrome := chrome.(scrolledTo := target);
      chrome := chrome.(tocCollapsed := true);
      if hasHandle {
        chrome := chrome.(handleExpanded := false);
      }
    }

    /** The click's changes to the outline: `expandToReveal(target)`
        twice (the second changes nothing, by `RevealTwice`), then the
        target's own group, if it is followed by one, is shown. */
    method OpenTarget(target: nat)
      requires Valid() && target < |nodes|
      modifies this`hidden, this`expanded
      ensures Valid()
      ensures var t := Doc(); var next := NextElementSiblings(t);
        Flags() == SetOne(t, next, OpenAll(t, next, old(Flags()),
                            RevealPath(t, depth, next, Heads(t, depth, old(Flags())), target)), target, true)
    {
      ghost var f0 := Flags();
      ExpandToReveal(target);
      ExpandAgain(target, f0);
      ShowOwnGroup(target);
    }

    /** The second `expandToReveal(target)`, after a first one from the
        marks `f0`: it changes nothing (`RevealTwice`). */
    method ExpandAgain(target: nat, ghost f0: Marks)
      requires Valid() && target < |nodes| && Fits(Doc(), f0)
      requires var t := Doc(); var next := NextElementSiblings(t);
        Flags() == OpenAll(t, next, f0, RevealPath(t, depth, next, Heads(t, depth, f0), target))
      modifies this`hidden, this`expanded
      ensures Valid() && Flags() == old(Flags())
    {
      RevealTwice(Doc(), depth, NextElementSiblings(Doc()), f0, target);
      ExpandToReveal(target);
    }

    /** The target's own group, if it is followed by one, is shown and
        the target says so. */
    method ShowOwnGroup(target: nat)
      requires Valid() && target < |nodes|
      modifies this`hidden, this`expanded
      ensures Valid()
      ensures Flags() == SetOne(Doc(), NextElementSiblings(Doc()), old(Flags()), target, true)
    {
      var t := Doc();
      var next := NextElementSiblings(t);
      var content := next[target];
      if content >= 0 && t.nodes[content].Group? {
        hidden := hidden[content := false];
        expanded := expanded[target := true];
      }
      ShowKeepsSynced(t, next, old(Flags()), target);
    }
  }
}
