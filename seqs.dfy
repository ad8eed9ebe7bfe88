/** Sequence operations that child lists of the document tree go through:
    locating a node, removing it, filtering a set of nodes out, inserting
    a node right after another. */
module Seqs {

  ghost predicate NoDup(s: seq<nat>) {
    forall i, j | 0 <= i < j < |s| :: s[i] != s[j]
  }

  /** Position of `x` in `s` (its first occurrence). */
  function IndexOf(s: seq<nat>, x: nat): (r: nat)
    requires x in s
    ensures r < |s| && s[r] == x && forall j | 0 <= j < r :: s[j] != x
  {
    if s[0] == x then 0 else 1 + IndexOf(s[1..], x)
  }

  /** The first position holding `x` is its index. */
  lemma IndexOfFirst(s: seq<nat>, x: nat, k: nat)
    requires k < |s| && s[k] == x && forall j | 0 <= j < k :: s[j] != x
    ensures IndexOf(s, x) == k
  {
  }

  lemma IndexOfUnique(s: seq<nat>, x: nat, k: nat)
    requires NoDup(s) && k < |s| && s[k] == x
    ensures IndexOf(s, x) == k
  {
  }

  /** The node right after `x` in `s`, or -1 when `x` is last. */
  function After(s: seq<nat>, x: nat): int
    requires x in s
  {
    var i := IndexOf(s, x);
    if i + 1 < |s| then s[i + 1] else -1
  }

  /** `s` without the occurrence of `x` (removeChild). */
  function Remove(s: seq<nat>, x: nat): (r: seq<nat>)
    ensures x !in s ==> r == s
  {
    if x in s then s[..IndexOf(s, x)] + s[IndexOf(s, x) + 1..] else s
  }

  /** `s` with every member of `m` filtered out, order kept. */
  function Without(s: seq<nat>, m: seq<nat>): (r: seq<nat>)
    ensures |r| <= |s|
  {
    if s == [] then [] else (if s[0] in m then [] else [s[0]]) + Without(s[1..], m)
  }

  /** `s` with `g` placed immediately after `h` (Element.after). */
  function InsertAfter(s: seq<nat>, h: nat, g: nat): (r: seq<nat>)
    requires h in s
    ensures |r| == |s| + 1
  {
    s[..IndexOf(s, h) + 1] + [g] + s[IndexOf(s, h) + 1..]
  }

  lemma {:induction false} WithoutMembers(s: seq<nat>, m: seq<nat>, x: nat)
    ensures x in Without(s, m) <==> x in s && x !in m
  {
    if s != [] {
      WithoutMembers(s[1..], m, x);
      assert s == [s[0]] + s[1..];
    }
  }

  lemma {:induction false} WithoutNoDup(s: seq<nat>, m: seq<nat>)
    requires NoDup(s)
    ensures NoDup(Without(s, m))
  {
    if s != [] {
      WithoutNoDup(s[1..], m);
      WithoutMembers(s[1..], m, s[0]);
      assert s[0] !in s[1..];
    }
  }

  lemma WithoutNothing(s: seq<nat>)
    ensures Without(s, []) == s
  {
  }

  /** Filtering a list that starts with `x`. */
  lemma WithoutCons(x: nat, s: seq<nat>, m: seq<nat>)
    ensures Without([x] + s, m) == (if x in m then [] else [x]) + Without(s, m)
  {
    assert ([x] + s)[0] == x;
    assert ([x] + s)[1..] == s;
  }

  /** The tail of a list without repeats has none. */
  lemma TailNoDup(s: seq<nat>)
    requires NoDup(s) && s != []
    ensures NoDup(s[1..]) && s[0] !in s[1..]
  {
    forall u, v | 0 <= u < v < |s| - 1 ensures s[1..][u] != s[1..][v] {
      assert s[1..][u] == s[u + 1] && s[1..][v] == s[v + 1];
    }
  }

  lemma {:induction false} WithoutAppend(a: seq<nat>, b: seq<nat>, m: seq<nat>)
    ensures Without(a + b, m) == Without(a, m) + Without(b, m)
  {
    if a == [] {
      assert a + b == b;
    } else {
      var t := a[1..];
      var hd := if a[0] in m then [] else [a[0]];
      assert a == [a[0]] + t;
      assert a + b == [a[0]] + (t + b);
      WithoutCons(a[0], t + b, m);
      WithoutCons(a[0], t, m);
      WithoutAppend(t, b, m);
      assert hd + (Without(t, m) + Without(b, m)) == (hd + Without(t, m)) + Without(b, m);
    }
  }

  lemma {:induction false} WithoutAllOf(s: seq<nat>, m: seq<nat>)
    requires forall x | x in s :: x in m
    ensures Without(s, m) == []
  {
    if s != [] { WithoutAllOf(s[1..], m); }
  }

  lemma {:induction false} WithoutNoneOf(s: seq<nat>, m: seq<nat>)
    requires forall x | x in s :: x !in m
    ensures Without(s, m) == s
  {
    if s != [] { WithoutNoneOf(s[1..], m); }
  }

  /** Removing the head of a list that holds it once. */
  lemma RemoveHead(x: nat, w: seq<nat>)
    requires x !in w
    ensures Remove([x] + w, x) == w
  {
    assert ([x] + w)[0] == x;
    assert IndexOf([x] + w, x) == 0;
  }

  /** Removing a node behind the head keeps the head. */
  lemma RemoveCons(x: nat, w: seq<nat>, y: nat)
    requires y in w && y != x
    ensures Remove([x] + w, y) == [x] + Remove(w, y)
  {
    var r := [x] + w;
    var k := IndexOf(w, y);
    forall j | 0 <= j < 1 + k ensures r[j] != y {
      if j > 0 { assert r[j] == w[j - 1]; }
    }
    IndexOfFirst(r, y, 1 + k);
    var pre, post := w[..k], w[k + 1..];
    assert Remove(w, y) == pre + post;
    assert r[..1 + k] == [x] + pre;
    assert r[1 + k + 1..] == post;
    assert Remove(r, y) == ([x] + pre) + post;
    assert ([x] + pre) + post == [x] + (pre + post);
  }

  /** Removing one more node from a filtered list is filtering it out too. */
  lemma {:induction false} RemoveWithout(s: seq<nat>, m: seq<nat>, x: nat)
    requires NoDup(s) && x in s && x !in m
    ensures Remove(Without(s, m), x) == Without(s, m + [x])
  {
    var t := s[1..];
    assert s == [s[0]] + t;
    TailNoDup(s);
    var w := Without(t, m);
    WithoutMembers(t, m, x);
    if s[0] == x {
      assert x in m + [x];
      calc {
        Remove(Without(s, m), x);
        { WithoutCons(x, t, m); }
        Remove([x] + w, x);
        { RemoveHead(x, w); }
        w;
        { WithoutSame(t, m, m + [x]); }
        Without(t, m + [x]);
        { WithoutCons(x, t, m + [x]); }
        Without(s, m + [x]);
      }
    } else if s[0] in m {
      calc {
        Remove(Without(s, m), x);
        { WithoutCons(s[0], t, m); assert [] + w == w; }
        Remove(w, x);
        { RemoveWithout(t, m, x); }
        Without(t, m + [x]);
        { WithoutCons(s[0], t, m + [x]); }
        Without(s, m + [x]);
      }
    } else {
      assert s[0] !in m + [x];
      calc {
        Remove(Without(s, m), x);
        { WithoutCons(s[0], t, m); }
        Remove([s[0]] + w, x);
        { RemoveCons(s[0], w, x); }
        [s[0]] + Remove(w, x);
        { RemoveWithout(t, m, x); }
        [s[0]] + Without(t, m + [x]);
        { WithoutCons(s[0], t, m + [x]); }
        Without(s, m + [x]);
      }
    }
  }

  /** Filtering with `m` or `m'` agrees on lists none of whose members tell them apart. */
  lemma {:induction false} WithoutSame(s: seq<nat>, m: seq<nat>, m': seq<nat>)
    requires forall y | y in s :: (y in m <==> y in m')
    ensures Without(s, m) == Without(s, m')
  {
    if s != [] { WithoutSame(s[1..], m, m'); }
  }

  lemma {:induction false} WithoutOrderFree(s: seq<nat>, a: seq<nat>, b: seq<nat>)
    requires forall y :: y in a <==> y in b
    ensures Without(s, a) == Without(s, b)
  {
    WithoutSame(s, a, b);
  }

  lemma RemoveAt(w: seq<nat>, j: nat)
    requires NoDup(w) && j < |w|
    ensures Remove(w, w[j]) == w[..j] + w[j + 1..]
  {
    IndexOfUnique(w, w[j], j);
  }

  lemma InsertAt(w: seq<nat>, i: nat, g: nat)
    requires NoDup(w) && i < |w|
    ensures InsertAfter(w, w[i], g) == w[..i + 1] + [g] + w[i + 1..]
  {
    IndexOfUnique(w, w[i], i);
  }

  /** Removing a node that is not `h` commutes with inserting `g` after `h`. */
  lemma RemoveInsertAfter(w: seq<nat>, h: nat, g: nat, x: nat)
    requires NoDup(w) && h in w && x in w && x != h && g !in w
    ensures h in Remove(w, x)
    ensures Remove(InsertAfter(w, h, g), x) == InsertAfter(Remove(w, x), h, g)
  {
    var i, j := IndexOf(w, h), IndexOf(w, x);
    RemoveAt(w, j);
    InsertAt(w, i, g);
    if j < i {
      RemoveInsertEarlier(w, h, g, x, i, j);
    } else {
      RemoveInsertLater(w, h, g, x, i, j);
    }
  }

  lemma RemoveInsertEarlier(w: seq<nat>, h: nat, g: nat, x: nat, i: nat, j: nat)
    requires NoDup(w) && g !in w && j < i < |w| && w[i] == h && w[j] == x
    ensures var ins := w[..i + 1] + [g] + w[i + 1..];
            var r := w[..j] + w[j + 1..];
            h in r && Remove(ins, x) == InsertAfter(r, h, g)
  {
    var ins := w[..i + 1] + [g] + w[i + 1..];
    var r := w[..j] + w[j + 1..];
    assert NoDup(ins) by {
      InsertAfterNoDup(w, h, g);
      InsertAt(w, i, g);
    }
    assert NoDup(r) by {
      RemoveNoDup(w, x);
      RemoveAt(w, j);
    }
    RemoveInsertBefore(w, i, j, g);
    assert Remove(ins, x) == ins[..j] + ins[j + 1..] by { RemoveAt(ins, j); }
    assert InsertAfter(r, h, g) == r[..i] + [g] + r[i..] by { InsertAt(r, i - 1, g); }
  }

  lemma RemoveInsertLater(w: seq<nat>, h: nat, g: nat, x: nat, i: nat, j: nat)
    requires NoDup(w) && g !in w && i < j < |w| && w[i] == h && w[j] == x
    ensures var ins := w[..i + 1] + [g] + w[i + 1..];
            var r := w[..j] + w[j + 1..];
            h in r && Remove(ins, x) == InsertAfter(r, h, g)
  {
    var ins := w[..i + 1] + [g] + w[i + 1..];
    var r := w[..j] + w[j + 1..];
    assert NoDup(ins) by {
      InsertAfterNoDup(w, h, g);
      InsertAt(w, i, g);
    }
    assert NoDup(r) by {
      RemoveNoDup(w, x);
      RemoveAt(w, j);
    }
    RemoveInsertBehind(w, i, j, g);
    assert Remove(ins, x) == ins[..j + 1] + ins[j + 2..] by { RemoveAt(ins, j + 1); }
    assert InsertAfter(r, h, g) == r[..i + 1] + [g] + r[i + 1..] by { InsertAt(r, i, g); }
  }

  lemma RemoveInsertBefore(w: seq<nat>, i: nat, j: nat, g: nat)
    requires NoDup(w) && j < i < |w| && g !in w
    ensures var ins := w[..i + 1] + [g] + w[i + 1..];
            var r := w[..j] + w[j + 1..];
            i - 1 < |r| && r[i - 1] == w[i] && j < |ins| && ins[j] == w[j] &&
            ins[..j] + ins[j + 1..] == r[..i] + [g] + r[i..]
  {
    var ins := w[..i + 1] + [g] + w[i + 1..];
    var r := w[..j] + w[j + 1..];
    assert ins[..j] == w[..j];
    assert ins[j + 1..] == w[j + 1..i + 1] + [g] + w[i + 1..];
    assert r[..i] == w[..j] + w[j + 1..i + 1];
    assert r[i..] == w[i + 1..];
  }

  lemma RemoveInsertBehind(w: seq<nat>, i: nat, j: nat, g: nat)
    requires NoDup(w) && i < j < |w| && g !in w
    ensures var ins := w[..i + 1] + [g] + w[i + 1..];
            var r := w[..j] + w[j + 1..];
            i < |r| && r[i] == w[i] && j + 1 < |ins| && ins[j + 1] == w[j] &&
            ins[..j + 1] + ins[j + 2..] == r[..i + 1] + [g] + r[i + 1..]
  {
    var ins := w[..i + 1] + [g] + w[i + 1..];
    var r := w[..j] + w[j + 1..];
    assert ins[..j + 1] == w[..i + 1] + [g] + w[i + 1..j];
    assert ins[j + 2..] == w[j + 1..];
    assert r[..i + 1] == w[..i + 1];
    assert r[i + 1..] == w[i + 1..j] + w[j + 1..];
  }

  lemma RemoveNoDup(w: seq<nat>, x: nat)
    requires NoDup(w)
    ensures NoDup(Remove(w, x))
    ensures forall y :: y in Remove(w, x) <==> y in w && y != x
  {
    if x in w {
      var j := IndexOf(w, x);
      var r := w[..j] + w[j + 1..];
      forall y ensures y in r <==> y in w && y != x {
        if y in w && y != x {
          var k :| 0 <= k < |w| && w[k] == y;
          if k < j { assert r[k] == y; } else { assert r[k - 1] == y; }
        }
      }
    }
  }

  lemma InsertAfterNoDup(w: seq<nat>, h: nat, g: nat)
    requires NoDup(w) && h in w && g !in w
    ensures NoDup(InsertAfter(w, h, g))
    ensures forall y :: y in InsertAfter(w, h, g) <==> y in w || y == g
  {
    var i := IndexOf(w, h);
    var r := InsertAfter(w, h, g);
    forall y | y in w ensures y in r {
      var k :| 0 <= k < |w| && w[k] == y;
      if k <= i { assert r[k] == y; } else { assert r[k + 1] == y; }
    }
  }

  /** After the insertion, `g` follows `h` and every other node keeps its successor. */
  lemma AfterInsertAfter(w: seq<nat>, h: nat, g: nat, a: nat)
    requires NoDup(w) && h in w && g !in w && a in w
    ensures a in InsertAfter(w, h, g)
    ensures After(InsertAfter(w, h, g), a) == if a == h then g else After(w, a)
  {
    var i, j := IndexOf(w, h), IndexOf(w, a);
    var r := w[..i + 1] + [g] + w[i + 1..];
    assert InsertAfter(w, h, g) == r;
    assert NoDup(r) by { InsertAfterNoDup(w, h, g); }
    AfterAt(w, j);
    if j <= i {
      assert r[j] == a;
      AfterAt(r, j);
      if j < i { assert r[j + 1] == w[j + 1]; }
    } else {
      assert r[j + 1] == a;
      AfterAt(r, j + 1);
      if j + 1 < |w| { assert r[j + 2] == w[j + 1]; }
    }
  }

  /** `After` read off two adjacent positions. */
  lemma AfterAt(s: seq<nat>, k: nat)
    requires NoDup(s) && k < |s|
    ensures After(s, s[k]) == if k + 1 < |s| then s[k + 1] else -1
  {
    IndexOfUnique(s, s[k], k);
  }

  /** Filtering keeps two adjacent survivors adjacent. */
  lemma AfterWithout(s: seq<nat>, m: seq<nat>, a: nat)
    requires NoDup(s) && a in s && a !in m && After(s, a) >= 0 && After(s, a) !in m
    ensures a in Without(s, m) && After(Without(s, m), a) == After(s, a)
  {
    var b: nat := After(s, a);
    var k := IndexOf(s, a);
    var pre, post := s[..k], s[k + 2..];
    var ws := Without(s, m);
    var p := Without(pre, m);
    assert ws == p + ([a] + ([b] + Without(post, m))) by {
      assert s == pre + ([a] + ([b] + post));
      WithoutAppend(pre, [a] + ([b] + post), m);
      WithoutCons(a, [b] + post, m);
      WithoutCons(b, post, m);
    }
    assert NoDup(ws) by { WithoutNoDup(s, m); }
    assert ws[|p|] == a && ws[|p| + 1] == b;
    AfterAt(ws, |p|);
  }

  /** The successor of a node inside a contiguous slice that does not end at it. */
  lemma AfterSlice(s: seq<nat>, lo: nat, hi: nat, a: nat)
    requires NoDup(s) && lo <= hi <= |s| && a in s[lo..hi]
    requires IndexOf(s, a) + 1 < hi
    ensures a in s[lo..hi] && After(s[lo..hi], a) == After(s, a)
  {
    var sl := s[lo..hi];
    var u := IndexOf(sl, a);
    var k := lo + u;
    assert s[k] == a;
    IndexOfUnique(s, a, k);
    assert NoDup(sl) by { SliceNoDup(s, lo, hi); }
    AfterAt(sl, u);
    AfterAt(s, k);
  }

  lemma SliceNoDup(s: seq<nat>, lo: nat, hi: nat)
    requires NoDup(s) && lo <= hi <= |s|
    ensures NoDup(s[lo..hi])
  {
    var sl := s[lo..hi];
    forall u, v | 0 <= u < v < |sl| ensures sl[u] != sl[v] {
      assert sl[u] == s[lo + u] && sl[v] == s[lo + v];
    }
  }

  /** A prefix of a list without repeats has none. */
  lemma PrefixNoDup(s: seq<nat>, k: nat)
    requires NoDup(s) && k <= |s|
    ensures NoDup(s[..k])
  {
    forall u, v | 0 <= u < v < k ensures s[..k][u] != s[..k][v] {
      assert s[..k][u] == s[u] && s[..k][v] == s[v];
    }
  }
}
