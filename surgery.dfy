/** The two tree edits the sectionizer makes: `h.after(g)` for a fresh
    content group `g`, then `g.appendChild(x)` for each node `x` it moves.
    The whole wrap is described at once by `Wrapped`; the step lemma
    shows one `appendChild` extends it by one node, which is how the
    node-by-node loop is proved against it. */
module Surgery {
  import opened Seqs
  import opened Dom

  /** `p.appendChild(x)`: `x` leaves its old child list and becomes the
      last child of `p`. */
  function Appended(t: Tree, p: nat, x: nat): (r: Tree)
    requires Shaped(t) && p < |t.nodes| && x < |t.nodes|
    ensures r.nodes == t.nodes && |r.parent| == |t.parent| && |r.children| == |t.children|
    ensures r.parent[x] == p && x in r.children[p] && r.children[p][|r.children[p]| - 1] == x
  {
    var q := t.parent[x];
    var cs := if q >= 0 then t.children[q := Remove(t.children[q], x)] else t.children;
    Tree(t.nodes, t.parent[x := p], cs[p := cs[p] + [x]])
  }

  /** What a wrap needs: `h` is attached, is not moved, and the nodes to
      move are distinct attached nodes. */
  ghost predicate CanWrap(t: Tree, h: nat, m: seq<nat>) {
    && Shaped(t) && h < |t.nodes| && t.parent[h] >= 0 && h !in m && NoDup(m)
    && (forall i | 0 <= i < |m| :: m[i] < |t.nodes| && t.parent[m[i]] >= 0)
  }

  /** Moving the first `k` nodes only is a wrap too. */
  lemma CanWrapPrefix(t: Tree, h: nat, m: seq<nat>, k: nat)
    requires CanWrap(t, h, m) && k <= |m|
    ensures CanWrap(t, h, m[..k])
  {
    PrefixNoDup(m, k);
    assert forall i | 0 <= i < k :: m[..k][i] == m[i];
  }

  /** Where node `x` hangs once the wrap is done. */
  function WrapParent(t: Tree, h: nat, m: seq<nat>, x: nat): int
    requires CanWrap(t, h, m) && x <= |t.nodes|
  {
    if x == |t.nodes| then t.parent[h] else if x in m then |t.nodes| else t.parent[x]
  }

  /** The child list of `q` once the wrap is done. */
  function WrapChildren(t: Tree, h: nat, m: seq<nat>, q: nat): seq<nat>
    requires CanWrap(t, h, m) && q <= |t.nodes|
  {
    if q == |t.nodes| then m
    else if q == t.parent[h] then
      InParentList(t, h);
      WithoutMembers(t.children[q], m, h);
      InsertAfter(Without(t.children[q], m), h, |t.nodes|)
    else Without(t.children[q], m)
  }

  /** The tree once a content group, numbered `|t.nodes|`, sits right
      after `h` and holds the nodes of `m` in that order: each moved node
      leaves its old list, every other node stays where it was. */
  function Wrapped(t: Tree, h: nat, m: seq<nat>): (r: Tree)
    requires CanWrap(t, h, m)
    ensures |r.nodes| == |r.parent| == |r.children| == |t.nodes| + 1
    ensures r.nodes == t.nodes + [Group]
    ensures r.children[|t.nodes|] == m
    ensures forall i | 0 <= i < |m| :: r.parent[m[i]] == |t.nodes|
    ensures r.parent[|t.nodes|] == t.parent[h]
  {
    var g := |t.nodes|;
    Tree(t.nodes + [Group],
         seq(g + 1, x requires 0 <= x <= g => WrapParent(t, h, m, x)),
         seq(g + 1, q requires 0 <= q <= g => WrapChildren(t, h, m, q)))
  }

  /** The group comes right after `h` in `h`'s parent's list. */
  lemma WrappedAfterHeading(t: Tree, h: nat, m: seq<nat>)
    requires CanWrap(t, h, m)
    ensures var r := Wrapped(t, h, m);
      h in r.children[t.parent[h]] && After(r.children[t.parent[h]], h) == |t.nodes|
  {
    var g := |t.nodes|;
    var p := t.parent[h];
    InParentList(t, h);
    WithoutMembers(t.children[p], m, h);
    FilteredBelow(t, p, m);
    WithoutNoDup(t.children[p], m);
    AfterInsertAfter(Without(t.children[p], m), h, g, h);
    assert Wrapped(t, h, m).children[p] == WrapChildren(t, h, m, p);
  }

  /** After the wrap the group is `h`'s next sibling. */
  lemma WrappedHeadingNext(t: Tree, h: nat, m: seq<nat>)
    requires CanWrap(t, h, m)
    ensures Shaped(Wrapped(t, h, m)) && NextSibling(Wrapped(t, h, m), h) == |t.nodes|
  {
    WrappedShaped(t, h, m);
    WrappedAfterHeading(t, h, m);
    assert Wrapped(t, h, m).parent[h] == WrapParent(t, h, m, h);
  }

  /** Moved nodes keep the order of `m` inside the group. */
  lemma WrappedMovedNext(t: Tree, h: nat, m: seq<nat>, i: nat)
    requires CanWrap(t, h, m) && i + 1 < |m|
    ensures Shaped(Wrapped(t, h, m)) && NextSibling(Wrapped(t, h, m), m[i]) == m[i + 1]
  {
    WrappedShaped(t, h, m);
    AfterAt(m, i);
  }

  /** A node that stays put keeps its next sibling when that one stays
      put too. */
  lemma WrappedKeepsNext(t: Tree, h: nat, m: seq<nat>, x: nat)
    requires CanWrap(t, h, m) && x < |t.nodes| && x != h && x !in m
    requires NextSibling(t, x) >= 0 && NextSibling(t, x) !in m
    ensures Shaped(Wrapped(t, h, m)) && NextSibling(Wrapped(t, h, m), x) == NextSibling(t, x)
  {
    WrappedShaped(t, h, m);
    var r := Wrapped(t, h, m);
    var q := t.parent[x];
    var g := |t.nodes|;
    assert r.parent[x] == WrapParent(t, h, m, x) == q;
    assert r.children[q] == WrapChildren(t, h, m, q);
    InParentList(t, x);
    assert NoDup(t.children[q]);
    AfterWithout(t.children[q], m, x);
    if q == t.parent[h] {
      InParentList(t, h);
      WithoutMembers(t.children[q], m, h);
      FilteredBelow(t, q, m);
      WithoutNoDup(t.children[q], m);
      AfterInsertAfter(Without(t.children[q], m), h, g, x);
    }
  }

  /** `h.after(g)`: the group is numbered `|t.nodes|`, has no children
      and takes the place right after `h`. */
  function Inserted(t: Tree, h: nat): (r: Tree)
    requires Shaped(t) && h < |t.nodes| && t.parent[h] >= 0
  {
    var g := |t.nodes|;
    var p := t.parent[h];
    InParentList(t, h);
    Tree(t.nodes + [Group], t.parent + [p], (t.children + [[]])[p := InsertAfter(t.children[p], h, g)])
  }

  /** `h.after(g)` is the wrap that moves nothing. */
  lemma InsertedIsWrapped(t: Tree, h: nat)
    requires Shaped(t) && h < |t.nodes| && t.parent[h] >= 0
    ensures CanWrap(t, h, []) && Inserted(t, h) == Wrapped(t, h, [])
  {
    var g := |t.nodes|;
    var p := t.parent[h];
    assert CanWrap(t, h, []);
    var r := Inserted(t, h);
    var w := Wrapped(t, h, []);
    forall q | 0 <= q <= g ensures w.children[q] == r.children[q] {
      if q < g { WithoutNothing(t.children[q]); }
    }
    assert w.children == r.children;
    assert w.parent == r.parent;
  }

  /** One `appendChild` into the group extends the wrap by one node. */
  lemma AppendStep(t: Tree, h: nat, m: seq<nat>, x: nat)
    requires CanWrap(t, h, m) && CanWrap(t, h, m + [x])
    ensures Shaped(Wrapped(t, h, m)) && Shaped(Wrapped(t, h, m + [x]))
    ensures x < |t.nodes| && Appended(Wrapped(t, h, m), |t.nodes|, x) == Wrapped(t, h, m + [x])
  {
    WrappedShaped(t, h, m);
    WrappedShaped(t, h, m + [x]);
    assert (m + [x])[|m|] == x;
    assert x !in m by {
      forall i | 0 <= i < |m| ensures m[i] != x {
        assert (m + [x])[i] == m[i];
      }
    }
    var g := |t.nodes|;
    var a := Appended(Wrapped(t, h, m), g, x);
    var w' := Wrapped(t, h, m + [x]);
    forall y | 0 <= y <= g ensures a.parent[y] == w'.parent[y] {
      AppendStepParent(t, h, m, x, y);
    }
    forall q | 0 <= q <= g ensures a.children[q] == w'.children[q] {
      AppendStepList(t, h, m, x, q);
    }
    assert a.parent == w'.parent;
    assert a.children == w'.children;
  }

  lemma AppendStepParent(t: Tree, h: nat, m: seq<nat>, x: nat, y: nat)
    requires CanWrap(t, h, m) && CanWrap(t, h, m + [x]) && x < |t.nodes| && x !in m
    requires Shaped(Wrapped(t, h, m)) && y <= |t.nodes|
    ensures Appended(Wrapped(t, h, m), |t.nodes|, x).parent[y] == Wrapped(t, h, m + [x]).parent[y]
  {
    assert Wrapped(t, h, m + [x]).parent[y] == WrapParent(t, h, m + [x], y);
    assert Wrapped(t, h, m).parent[y] == WrapParent(t, h, m, y);
  }

  lemma AppendStepList(t: Tree, h: nat, m: seq<nat>, x: nat, q: nat)
    requires CanWrap(t, h, m) && CanWrap(t, h, m + [x]) && x < |t.nodes| && x !in m
    requires Shaped(Wrapped(t, h, m)) && q <= |t.nodes|
    ensures Appended(Wrapped(t, h, m), |t.nodes|, x).children[q] == Wrapped(t, h, m + [x]).children[q]
  {
    var g := |t.nodes|;
    var p := t.parent[h];
    var q0 := t.parent[x];
    var w := Wrapped(t, h, m);
    assert w.parent[x] == WrapParent(t, h, m, x) == q0;
    assert w.children[q] == WrapChildren(t, h, m, q);
    assert Wrapped(t, h, m + [x]).children[q] == WrapChildren(t, h, m + [x], q);
    if q == g {
    } else if q == q0 {
      InParentList(t, x);
      RemoveWithout(t.children[q], m, x);
      if q == p {
        var wp := Without(t.children[p], m);
        WithoutMembers(t.children[p], m, h);
        WithoutMembers(t.children[p], m, x);
        WithoutNoDup(t.children[p], m);
        FilteredBelow(t, p, m);
        RemoveInsertAfter(wp, h, g, x);
      }
    } else {
      assert x !in t.children[q] by {
        if x in t.children[q] { ChildIndex(t, q, x); }
      }
      WithoutSame(t.children[q], m, m + [x]);
    }
  }

  lemma WrappedShaped(t: Tree, h: nat, m: seq<nat>)
    requires CanWrap(t, h, m)
    ensures Shaped(Wrapped(t, h, m))
  {
    WrappedParentsList(t, h, m);
    WrappedChildrenPointBack(t, h, m);
    WrappedListsDistinct(t, h, m);
  }

  /** Members of the parent's list after filtering (none is the new group). */
  lemma FilteredBelow(t: Tree, q: nat, m: seq<nat>)
    requires Shaped(t) && q < |t.nodes|
    ensures forall y | y in Without(t.children[q], m) :: y < |t.nodes| && t.parent[y] == q && y !in m
  {
    forall y | y in Without(t.children[q], m) ensures y < |t.nodes| && t.parent[y] == q && y !in m {
      WithoutMembers(t.children[q], m, y);
      ChildIndex(t, q, y);
    }
  }

  lemma WrappedParentsList(t: Tree, h: nat, m: seq<nat>)
    requires CanWrap(t, h, m)
    ensures ParentsInRange(Wrapped(t, h, m)) && ParentsList(Wrapped(t, h, m))
  {
    var g := |t.nodes|;
    var p := t.parent[h];
    var r := Wrapped(t, h, m);
    forall x | 0 <= x <= g && r.parent[x] >= 0 ensures Listed(r, x) {
      if x < g && x !in m {
        var q := t.parent[x];
        InParentList(t, x);
        WithoutMembers(t.children[q], m, x);
        if q == p {
          InParentList(t, h);
          WithoutMembers(t.children[p], m, h);
          FilteredBelow(t, p, m);
          WithoutNoDup(t.children[p], m);
          InsertAfterNoDup(Without(t.children[p], m), h, g);
        }
      }
    }
  }

  lemma WrappedChildrenPointBack(t: Tree, h: nat, m: seq<nat>)
    requires CanWrap(t, h, m)
    ensures ChildrenPointBack(Wrapped(t, h, m))
  {
    var r := Wrapped(t, h, m);
    forall q, i | 0 <= q < |r.nodes| && 0 <= i < |r.children[q]|
      ensures r.children[q][i] < |r.nodes| && r.parent[r.children[q][i]] == q
    {
      WrappedChildPointsBack(t, h, m, q, i);
    }
  }

  lemma WrappedChildPointsBack(t: Tree, h: nat, m: seq<nat>, q: nat, i: nat)
    requires CanWrap(t, h, m) && q <= |t.nodes| && i < |Wrapped(t, h, m).children[q]|
    ensures Wrapped(t, h, m).children[q][i] <= |t.nodes|
    ensures Wrapped(t, h, m).parent[Wrapped(t, h, m).children[q][i]] == q
  {
    var g := |t.nodes|;
    var p := t.parent[h];
    var r := Wrapped(t, h, m);
    var y := r.children[q][i];
    assert r.children[q] == WrapChildren(t, h, m, q);
    if q < g && y != g {
      assert y in r.children[q];
      var w := Without(t.children[q], m);
      FilteredBelow(t, q, m);
      if q == p {
        WithoutMembers(t.children[p], m, h);
        WithoutNoDup(t.children[p], m);
        InsertAfterNoDup(w, h, g);
      }
      assert y in w;
      assert r.parent[y] == WrapParent(t, h, m, y);
    } else if q == g {
      assert y in m;
      assert r.parent[y] == WrapParent(t, h, m, y);
    } else {
      FilteredBelow(t, q, m);
      assert y in r.children[q];
    }
  }

  lemma WrappedListsDistinct(t: Tree, h: nat, m: seq<nat>)
    requires CanWrap(t, h, m)
    ensures ListsDistinct(Wrapped(t, h, m))
  {
    var g := |t.nodes|;
    var p := t.parent[h];
    var r := Wrapped(t, h, m);
    InParentList(t, h);
    WithoutMembers(t.children[p], m, h);
    FilteredBelow(t, p, m);
    WithoutNoDup(t.children[p], m);
    InsertAfterNoDup(Without(t.children[p], m), h, g);
    forall q | 0 <= q <= g ensures NoDup(r.children[q]) {
      if q < g {
        WithoutNoDup(t.children[q], m);
      }
    }
  }

  /** A wrap keeps the arena a forest when no moved node lies inside
      another and none of them contains the heading's parent. */
  ghost predicate Movable(t: Tree, depth: seq<nat>, h: nat, m: seq<nat>) {
    && CanWrap(t, h, m) && Ranked(t, depth)
    && (forall i, j | 0 <= i < |m| && 0 <= j < |m| && i != j :: !Contains(t, depth, m[i], m[j]))
    && (forall i | 0 <= i < |m| :: !Contains(t, depth, m[i], t.parent[h]))
  }

  /** The first member of `m` that contains `x`, -1 if none does. */
  ghost function Top(t: Tree, depth: seq<nat>, m: seq<nat>, x: nat): (r: int)
    requires Ranked(t, depth) && x < |t.nodes|
    ensures r >= 0 ==> r in m && Contains(t, depth, r, x)
    ensures r < 0 ==> forall i | 0 <= i < |m| :: !Contains(t, depth, m[i], x)
  {
    if m == [] then -1
    else if Contains(t, depth, m[0], x) then m[0]
    else Top(t, depth, m[1..], x)
  }

  /** Depth of an old node after the wrap: inside a moved subtree it is
      measured from the group, one below the heading's parent. */
  ghost function Shifted(t: Tree, depth: seq<nat>, h: nat, m: seq<nat>, x: nat): nat
    requires Movable(t, depth, h, m) && x < |t.nodes|
  {
    var a := Top(t, depth, m, x);
    if a < 0 then depth[x]
    else
      ContainsDepth(t, depth, a, x);
      depth[x] - depth[a] + depth[t.parent[h]] + 2
  }

  ghost function NewDepth(t: Tree, depth: seq<nat>, h: nat, m: seq<nat>): (r: seq<nat>)
    requires Movable(t, depth, h, m)
    ensures |r| == |t.nodes| + 1
  {
    seq(|t.nodes| + 1, x requires 0 <= x <= |t.nodes| =>
      if x == |t.nodes| then depth[t.parent[h]] + 1 else Shifted(t, depth, h, m, x))
  }

  /** At most one moved node contains a given node. */
  lemma TopUnique(t: Tree, depth: seq<nat>, h: nat, m: seq<nat>, x: nat, i: nat)
    requires Movable(t, depth, h, m) && x < |t.nodes| && i < |m| && Contains(t, depth, m[i], x)
    ensures Top(t, depth, m, x) == m[i]
  {
    var b := Top(t, depth, m, x);
    var j :| 0 <= j < |m| && m[j] == b;
    ContainsLinear(t, depth, m[i], b, x);
  }

  /** The wrap with the recomputed depths is again a forest. */
  lemma WrappedRanked(t: Tree, depth: seq<nat>, h: nat, m: seq<nat>)
    requires Movable(t, depth, h, m)
    ensures Ranked(Wrapped(t, h, m), NewDepth(t, depth, h, m))
  {
    WrappedShaped(t, h, m);
    var r := Wrapped(t, h, m);
    var nd := NewDepth(t, depth, h, m);
    forall x | 0 <= x < |r.nodes| && r.parent[x] >= 0 ensures nd[x] == nd[r.parent[x]] + 1 {
      WrappedRankedAt(t, depth, h, m, x);
    }
  }

  lemma WrappedRankedAt(t: Tree, depth: seq<nat>, h: nat, m: seq<nat>, x: nat)
    requires Movable(t, depth, h, m) && x <= |t.nodes| && Wrapped(t, h, m).parent[x] >= 0
    ensures Wrapped(t, h, m).parent[x] <= |t.nodes|
    ensures NewDepth(t, depth, h, m)[x] == NewDepth(t, depth, h, m)[Wrapped(t, h, m).parent[x]] + 1
  {
    var g := |t.nodes|;
    var p := t.parent[h];
    var r := Wrapped(t, h, m);
    var nd := NewDepth(t, depth, h, m);
    assert r.parent[x] == WrapParent(t, h, m, x);
    if x == g {
      assert nd[p] == depth[p];
    } else if x in m {
      var i :| 0 <= i < |m| && m[i] == x;
      TopUnique(t, depth, h, m, x, i);
      assert nd[x] == depth[p] + 2;
    } else {
      var q := t.parent[x];
      var a := Top(t, depth, m, x);
      if a >= 0 {
        var i :| 0 <= i < |m| && m[i] == a;
        assert Contains(t, depth, a, q);
        TopUnique(t, depth, h, m, q, i);
        ContainsDepth(t, depth, a, q);
      } else {
        assert Top(t, depth, m, q) < 0;
      }
    }
  }
}
