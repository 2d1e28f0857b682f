/**
 * The rotation primitives `left_rotate` and `right_rotate`, as functions from
 * the node table before the rotation to the node table after it.
 *
 * Each function makes the writes of the C function, in its order;
 * the lemmas show that a rotation of a well-formed tree gives a well-formed
 * tree (with the subtree sets of the two rotated nodes exchanged as stated)
 * with the same keys, colours and in-order sequence.
 */
module RbRotate {
  import opened RbArena

  /**
   * `left_rotate(t, x)`: with `y = x.right`, the left subtree of `y` becomes the
   * right subtree of `x`, `y` takes the place of `x` under the old parent of
   * `x` (or as the root), and `x` becomes the left child of `y`.
   */
  function LeftRotated(a: Arena, x: nat): (r: Arena)
    requires Shaped(a) && x < |a.key|
    ensures Shaped(r) && r.key == a.key && r.color == a.color
    ensures |r.left| == |r.right| == |r.parent| == |a.key|
  {
    var y := a.right[x];
    var right1 := a.right[x := a.left[y]];
    // only a real left child of y gets its parent link rewritten
    var parent1 := if a.left[y] != Nil then a.parent[a.left[y] := x] else a.parent;
    var parent2 := parent1[y := parent1[x]];
    var xp := parent2[x];
    var root3 := if xp == Nil then y else a.root;
    var left3 := if xp != Nil && x == a.left[xp] then a.left[xp := y] else a.left;
    var right3 := if xp != Nil && x != a.left[xp] then right1[xp := y] else right1;
    a.(left := left3[y := x], right := right3, parent := parent2[x := y], root := root3)
  }

  /** After a left rotation at `x`, `x` spans its old left subtree and the left subtree of `y`; `y` spans what `x` did. */
  ghost function LeftRotatedSub(a: Arena, sub: seq<set<nat>>, x: nat): (r: seq<set<nat>>)
    requires Shaped(a) && |sub| == |a.key| && x < |a.key|
    ensures |r| == |sub|
  {
    var y := a.right[x];
    sub[x := {x} + sub[a.left[x]] + sub[a.left[y]]][y := sub[x]]
  }

  /** What a well-formed tree says about the neighbourhood of a rotation at `x` (to the left). */
  lemma LeftRotateNeighbours(a: Arena, sub: seq<set<nat>>, x: nat)
    requires WellFormed(a, sub) && 1 <= x < |a.key| && a.right[x] != Nil
    ensures var y, p, b := a.right[x], a.parent[x], a.left[a.right[x]];
      && y != x && a.parent[y] == x && y in sub[a.right[x]] && y != a.root
      && p != x && p != y && x != a.left[x]
      && (p == Nil <==> x == a.root)
      && (p != Nil ==> a.left[p] == x || a.right[p] == x)
      && (b != Nil ==> b != x && b != y && b != p && a.parent[b] == y && b != a.root)
      && a.left[y] != y && a.right[y] != y && a.right[y] != x && a.left[x] != y
  {
    var y, p, b := a.right[x], a.parent[x], a.left[a.right[x]];
    assert SubtreeOk(a, sub, x) && ChildLinksOk(a, x);
    assert SubtreeOk(a, sub, y) && ChildLinksOk(a, y);
    SubtreeSmaller(a, sub, x);
    SubtreeSmaller(a, sub, y);
    if x != a.root {
      assert ParentLinkOk(a, x);
      assert SubtreeOk(a, sub, p);
    }
    if b != Nil {
      SubtreeSmaller(a, sub, b);
    }
  }

  /** The three subtrees that a left rotation at `x` moves have distinct roots. */
  lemma LeftRotateDistinctBelow(a: Arena, sub: seq<set<nat>>, x: nat)
    requires WellFormed(a, sub) && 1 <= x < |a.key| && a.right[x] != Nil
    ensures var y, b := a.right[x], a.left[a.right[x]];
      && (b != Nil ==> b != a.right[y] && b != a.left[x])
      && (a.left[x] != Nil ==> a.left[x] != a.right[y])
  {
    var y, b := a.right[x], a.left[a.right[x]];
    assert SubtreeOk(a, sub, x) && SubtreeOk(a, sub, y);
    SubtreeSmaller(a, sub, y);
    if b != Nil {
      SubtreeSmaller(a, sub, b);
    }
    if a.left[x] != Nil {
      SubtreeSmaller(a, sub, a.left[x]);
    }
  }

  /** The sibling of `x` is none of the nodes a left rotation at `x` relinks. */
  lemma LeftRotateDistinctSibling(a: Arena, sub: seq<set<nat>>, x: nat)
    requires WellFormed(a, sub) && 1 <= x < |a.key| && a.right[x] != Nil
    ensures var y, p, b := a.right[x], a.parent[x], a.left[a.right[x]];
      p != Nil ==> var s := if a.left[p] == x then a.right[p] else a.left[p];
                   s != x && s != y && (b != Nil ==> s != b)
  {
    var y, p, b := a.right[x], a.parent[x], a.left[a.right[x]];
    if x != a.root {
      assert ParentLinkOk(a, x);
      assert SubtreeOk(a, sub, p);
      SubtreeSmaller(a, sub, x);
      SubtreeSmaller(a, sub, y);
      var s := if a.left[p] == x then a.right[p] else a.left[p];
      if s != Nil {
        SubtreeSmaller(a, sub, s);
      }
    }
  }

  /** The node table after a left rotation at `x`, node by node. */
  lemma LeftRotatedFields(a: Arena, sub: seq<set<nat>>, x: nat)
    requires WellFormed(a, sub) && 1 <= x < |a.key| && a.right[x] != Nil
    ensures var r, y, p, b := LeftRotated(a, x), a.right[x], a.parent[x], a.left[a.right[x]];
      && r.left[y] == x && r.left[x] == a.left[x] && r.right[x] == b && r.right[y] == a.right[y]
      && r.parent[x] == y && r.parent[y] == p && (b != Nil ==> r.parent[b] == x)
      && r.root == (if p == Nil then y else a.root)
      && (p != Nil && a.left[p] == x ==> r.left[p] == y && r.right[p] == a.right[p])
      && (p != Nil && a.left[p] != x ==> r.right[p] == y && r.left[p] == a.left[p])
      && (forall h | 0 <= h < |a.key| && h != x && h != y && (p == Nil || h != p) ::
            r.left[h] == a.left[h] && r.right[h] == a.right[h])
      && (forall h | 0 <= h < |a.key| && h != x && h != y && (b == Nil || h != b) :: r.parent[h] == a.parent[h])
  {
    LeftRotateNeighbours(a, sub, x);
  }

  /** The subtree sets after a left rotation at `x`, node by node. */
  lemma LeftRotatedSubFields(a: Arena, sub: seq<set<nat>>, x: nat)
    requires WellFormed(a, sub) && 1 <= x < |a.key| && a.right[x] != Nil
    ensures var sub', y := LeftRotatedSub(a, sub, x), a.right[x];
      && |sub'| == |sub|
      && sub'[x] == {x} + sub[a.left[x]] + sub[a.left[y]]
      && sub'[y] == sub[x]
      && (forall h | 0 <= h < |sub| && h != x && h != y :: sub'[h] == sub[h])
  {
    LeftRotateNeighbours(a, sub, x);
  }

  lemma LeftRotateSubtreeAtX(a: Arena, sub: seq<set<nat>>, x: nat)
    requires WellFormed(a, sub) && 1 <= x < |a.key| && a.right[x] != Nil
    ensures SubtreeOk(LeftRotated(a, x), LeftRotatedSub(a, sub, x), x)
  {
    var r, sub' := LeftRotated(a, x), LeftRotatedSub(a, sub, x);
    var y, al, b := a.right[x], a.left[x], a.left[a.right[x]];
    LeftRotateNeighbours(a, sub, x);
    LeftRotateDistinctBelow(a, sub, x);
    LeftRotateDistinctSibling(a, sub, x);
    LeftRotatedFields(a, sub, x);
    LeftRotatedSubFields(a, sub, x);
    assert SubtreeOk(a, sub, x) && SubtreeOk(a, sub, y);
    assert r.left[x] == al && r.right[x] == b;
    assert sub'[al] == sub[al] && sub'[b] == sub[b];
  }

  lemma LeftRotateSubtreeAtY(a: Arena, sub: seq<set<nat>>, x: nat)
    requires WellFormed(a, sub) && 1 <= x < |a.key| && a.right[x] != Nil
    ensures SubtreeOk(LeftRotated(a, x), LeftRotatedSub(a, sub, x), a.right[x])
  {
    var r, sub' := LeftRotated(a, x), LeftRotatedSub(a, sub, x);
    var y, c := a.right[x], a.right[a.right[x]];
    LeftRotateNeighbours(a, sub, x);
    LeftRotateDistinctBelow(a, sub, x);
    LeftRotateDistinctSibling(a, sub, x);
    LeftRotatedFields(a, sub, x);
    LeftRotatedSubFields(a, sub, x);
    assert SubtreeOk(a, sub, x) && SubtreeOk(a, sub, y);
    assert r.left[y] == x && r.right[y] == c;
    assert sub'[c] == sub[c];
  }

  lemma LeftRotateSubtreeAtOther(a: Arena, sub: seq<set<nat>>, x: nat, h: nat)
    requires WellFormed(a, sub) && 1 <= x < |a.key| && a.right[x] != Nil && 1 <= h < |a.key|
    requires h != x && h != a.right[x]
    ensures SubtreeOk(LeftRotated(a, x), LeftRotatedSub(a, sub, x), h)
  {
    var r, sub' := LeftRotated(a, x), LeftRotatedSub(a, sub, x);
    var y, p := a.right[x], a.parent[x];
    LeftRotateNeighbours(a, sub, x);
    LeftRotateDistinctBelow(a, sub, x);
    LeftRotateDistinctSibling(a, sub, x);
    LeftRotatedFields(a, sub, x);
    LeftRotatedSubFields(a, sub, x);
    assert SubtreeOk(a, sub, h) && ChildLinksOk(a, h);
    assert sub'[h] == sub[h];
    if h == p {
      if a.left[p] == x {
        assert sub'[r.left[h]] == sub[a.left[h]] && sub'[r.right[h]] == sub[a.right[h]];
      } else {
        assert sub'[r.left[h]] == sub[a.left[h]] && sub'[r.right[h]] == sub[a.right[h]];
      }
    } else {
      assert r.left[h] == a.left[h] && r.right[h] == a.right[h];
      assert sub'[a.left[h]] == sub[a.left[h]] && sub'[a.right[h]] == sub[a.right[h]];
    }
  }

  lemma LeftRotateChildLinksAt(a: Arena, sub: seq<set<nat>>, x: nat, h: nat)
    requires WellFormed(a, sub) && 1 <= x < |a.key| && a.right[x] != Nil && 1 <= h < |a.key|
    ensures ChildLinksOk(LeftRotated(a, x), h)
  {
    var r := LeftRotated(a, x);
    var y, p := a.right[x], a.parent[x];
    LeftRotateNeighbours(a, sub, x);
    LeftRotateDistinctBelow(a, sub, x);
    LeftRotateDistinctSibling(a, sub, x);
    LeftRotatedFields(a, sub, x);
    if h == x {
      assert ChildLinksOk(a, x);
    } else if h == y {
      assert ChildLinksOk(a, y);
    } else if h == p {
      assert ChildLinksOk(a, p);
    } else {
      assert ChildLinksOk(a, h);
      assert r.left[h] == a.left[h] && r.right[h] == a.right[h];
    }
  }

  lemma LeftRotateParentLinkAt(a: Arena, sub: seq<set<nat>>, x: nat, h: nat)
    requires WellFormed(a, sub) && 1 <= x < |a.key| && a.right[x] != Nil && 1 <= h < |a.key|
    requires h != LeftRotated(a, x).root
    ensures ParentLinkOk(LeftRotated(a, x), h)
  {
    var r := LeftRotated(a, x);
    var y, p, b := a.right[x], a.parent[x], a.left[a.right[x]];
    LeftRotateNeighbours(a, sub, x);
    LeftRotateDistinctBelow(a, sub, x);
    LeftRotateDistinctSibling(a, sub, x);
    LeftRotatedFields(a, sub, x);
    if h == x || h == y || h == b {
    } else {
      assert ParentLinkOk(a, h);
      assert r.parent[h] == a.parent[h];
    }
  }

  lemma LeftRotateOrderAtX(a: Arena, sub: seq<set<nat>>, x: nat)
    requires WellFormed(a, sub) && 1 <= x < |a.key| && a.right[x] != Nil
    ensures OrderedAt(LeftRotated(a, x), LeftRotatedSub(a, sub, x), x)
  {
    var r, sub' := LeftRotated(a, x), LeftRotatedSub(a, sub, x);
    var y := a.right[x];
    LeftRotateNeighbours(a, sub, x);
    LeftRotateDistinctBelow(a, sub, x);
    LeftRotateDistinctSibling(a, sub, x);
    LeftRotatedFields(a, sub, x);
    LeftRotatedSubFields(a, sub, x);
    assert r.left[x] == a.left[x] && r.right[x] == a.left[y];
    assert sub'[a.left[x]] == sub[a.left[x]] && sub'[a.left[y]] == sub[a.left[y]];
    assert SubtreeOk(a, sub, y) && OrderedAt(a, sub, x);
  }

  lemma LeftRotateOrderAtY(a: Arena, sub: seq<set<nat>>, x: nat)
    requires WellFormed(a, sub) && 1 <= x < |a.key| && a.right[x] != Nil
    ensures OrderedAt(LeftRotated(a, x), LeftRotatedSub(a, sub, x), a.right[x])
  {
    var r, sub' := LeftRotated(a, x), LeftRotatedSub(a, sub, x);
    var y := a.right[x];
    LeftRotateNeighbours(a, sub, x);
    LeftRotateDistinctBelow(a, sub, x);
    LeftRotateDistinctSibling(a, sub, x);
    LeftRotatedFields(a, sub, x);
    LeftRotatedSubFields(a, sub, x);
    assert r.left[y] == x && r.right[y] == a.right[y];
    assert sub'[x] == {x} + sub[a.left[x]] + sub[a.left[y]] && sub'[a.right[y]] == sub[a.right[y]];
    assert SubtreeOk(a, sub, x) && OrderedAt(a, sub, x) && OrderedAt(a, sub, y);
    assert a.key[x] < a.key[y];
  }

  lemma LeftRotateOrderAtOther(a: Arena, sub: seq<set<nat>>, x: nat, h: nat)
    requires WellFormed(a, sub) && 1 <= x < |a.key| && a.right[x] != Nil && 1 <= h < |a.key|
    requires h != x && h != a.right[x]
    ensures OrderedAt(LeftRotated(a, x), LeftRotatedSub(a, sub, x), h)
  {
    var r, sub' := LeftRotated(a, x), LeftRotatedSub(a, sub, x);
    var y, p := a.right[x], a.parent[x];
    LeftRotateNeighbours(a, sub, x);
    LeftRotateDistinctBelow(a, sub, x);
    LeftRotateDistinctSibling(a, sub, x);
    LeftRotatedFields(a, sub, x);
    LeftRotatedSubFields(a, sub, x);
    assert OrderedAt(a, sub, h) && ChildLinksOk(a, h);
    if h == p {
      assert sub'[r.left[h]] == sub[a.left[h]] && sub'[r.right[h]] == sub[a.right[h]];
    } else {
      assert r.left[h] == a.left[h] && r.right[h] == a.right[h];
      assert sub'[a.left[h]] == sub[a.left[h]] && sub'[a.right[h]] == sub[a.right[h]];
    }
  }

  /** A left rotation at `x` (whose right child is real) keeps the tree well formed. */
  lemma LeftRotateWellFormed(a: Arena, sub: seq<set<nat>>, x: nat)
    requires WellFormed(a, sub) && 1 <= x < |a.key| && a.right[x] != Nil
    ensures WellFormed(LeftRotated(a, x), LeftRotatedSub(a, sub, x))
  {
    var r, sub' := LeftRotated(a, x), LeftRotatedSub(a, sub, x);
    LeftRotateNeighbours(a, sub, x);
    LeftRotateDistinctBelow(a, sub, x);
    LeftRotateDistinctSibling(a, sub, x);
    LeftRotatedFields(a, sub, x);
    LeftRotatedSubFields(a, sub, x);
    assert sub'[r.root] == sub[a.root];
    forall h | 1 <= h < |a.key| ensures SubtreeOk(r, sub', h) && OrderedAt(r, sub', h) {
      if h == x {
        LeftRotateSubtreeAtX(a, sub, x);
        LeftRotateOrderAtX(a, sub, x);
      } else if h == a.right[x] {
        LeftRotateSubtreeAtY(a, sub, x);
        LeftRotateOrderAtY(a, sub, x);
      } else {
        LeftRotateSubtreeAtOther(a, sub, x, h);
        LeftRotateOrderAtOther(a, sub, x, h);
      }
    }
    forall h | 1 <= h < |a.key| ensures ChildLinksOk(r, h) {
      LeftRotateChildLinksAt(a, sub, x, h);
    }
    forall h | 1 <= h < |a.key| && h != r.root ensures ParentLinkOk(r, h) {
      LeftRotateParentLinkAt(a, sub, x, h);
    }
  }

  /**
   * `right_rotate(t, x)`: with `y = x.left`, the right subtree of `y` becomes the
   * left subtree of `x`, `y` takes the place of `x` under the old parent of
   * `x` (or as the root), and `x` becomes the right child of `y`.
   */
  function RightRotated(a: Arena, x: nat): (r: Arena)
    requires Shaped(a) && x < |a.key|
    ensures Shaped(r) && r.key == a.key && r.color == a.color
    ensures |r.right| == |r.left| == |r.parent| == |a.key|
  {
    var y := a.left[x];
    var left1 := a.left[x := a.right[y]];
    // only a real right child of y gets its parent link rewritten
    var parent1 := if a.right[y] != Nil then a.parent[a.right[y] := x] else a.parent;
    var parent2 := parent1[y := parent1[x]];
    var xp := parent2[x];
    var root3 := if xp == Nil then y else a.root;
    var right3 := if xp != Nil && x == a.right[xp] then a.right[xp := y] else a.right;
    var left3 := if xp != Nil && x != a.right[xp] then left1[xp := y] else left1;
    a.(right := right3[y := x], left := left3, parent := parent2[x := y], root := root3)
  }

  /** After a right rotation at `x`, `x` spans its old right subtree and the right subtree of `y`; `y` spans what `x` did. */
  ghost function RightRotatedSub(a: Arena, sub: seq<set<nat>>, x: nat): (r: seq<set<nat>>)
    requires Shaped(a) && |sub| == |a.key| && x < |a.key|
    ensures |r| == |sub|
  {
    var y := a.left[x];
    sub[x := {x} + sub[a.right[x]] + sub[a.right[y]]][y := sub[x]]
  }

  /** What a well-formed tree says about the neighbourhood of a rotation at `x` (to the right). */
  lemma RightRotateNeighbours(a: Arena, sub: seq<set<nat>>, x: nat)
    requires WellFormed(a, sub) && 1 <= x < |a.key| && a.left[x] != Nil
    ensures var y, p, b := a.left[x], a.parent[x], a.right[a.left[x]];
      && y != x && a.parent[y] == x && y in sub[a.left[x]] && y != a.root
      && p != x && p != y && x != a.right[x]
      && (p == Nil <==> x == a.root)
      && (p != Nil ==> a.right[p] == x || a.left[p] == x)
      && (b != Nil ==> b != x && b != y && b != p && a.parent[b] == y && b != a.root)
      && a.right[y] != y && a.left[y] != y && a.left[y] != x && a.right[x] != y
  {
    var y, p, b := a.left[x], a.parent[x], a.right[a.left[x]];
    assert SubtreeOk(a, sub, x) && ChildLinksOk(a, x);
    assert SubtreeOk(a, sub, y) && ChildLinksOk(a, y);
    SubtreeSmaller(a, sub, x);
    SubtreeSmaller(a, sub, y);
    if x != a.root {
      assert ParentLinkOk(a, x);
      assert SubtreeOk(a, sub, p);
    }
    if b != Nil {
      SubtreeSmaller(a, sub, b);
    }
  }

  /** The three subtrees that a right rotation at `x` moves have distinct roots. */
  lemma RightRotateDistinctBelow(a: Arena, sub: seq<set<nat>>, x: nat)
    requires WellFormed(a, sub) && 1 <= x < |a.key| && a.left[x] != Nil
    ensures var y, b := a.left[x], a.right[a.left[x]];
      && (b != Nil ==> b != a.left[y] && b != a.right[x])
      && (a.right[x] != Nil ==> a.right[x] != a.left[y])
  {
    var y, b := a.left[x], a.right[a.left[x]];
    assert SubtreeOk(a, sub, x) && SubtreeOk(a, sub, y);
    SubtreeSmaller(a, sub, y);
    if b != Nil {
      SubtreeSmaller(a, sub, b);
    }
    if a.right[x] != Nil {
      SubtreeSmaller(a, sub, a.right[x]);
    }
  }

  /** The sibling of `x` is none of the nodes a right rotation at `x` relinks. */
  lemma RightRotateDistinctSibling(a: Arena, sub: seq<set<nat>>, x: nat)
    requires WellFormed(a, sub) && 1 <= x < |a.key| && a.left[x] != Nil
    ensures var y, p, b := a.left[x], a.parent[x], a.right[a.left[x]];
      p != Nil ==> var s := if a.right[p] == x then a.left[p] else a.right[p];
                   s != x && s != y && (b != Nil ==> s != b)
  {
    var y, p, b := a.left[x], a.parent[x], a.right[a.left[x]];
    if x != a.root {
      assert ParentLinkOk(a, x);
      assert SubtreeOk(a, sub, p);
      SubtreeSmaller(a, sub, x);
      SubtreeSmaller(a, sub, y);
      var s := if a.right[p] == x then a.left[p] else a.right[p];
      if s != Nil {
        SubtreeSmaller(a, sub, s);
      }
    }
  }

  /** The node table after a right rotation at `x`, node by node. */
  lemma RightRotatedFields(a: Arena, sub: seq<set<nat>>, x: nat)
    requires WellFormed(a, sub) && 1 <= x < |a.key| && a.left[x] != Nil
    ensures var r, y, p, b := RightRotated(a, x), a.left[x], a.parent[x], a.right[a.left[x]];
      && r.right[y] == x && r.right[x] == a.right[x] && r.left[x] == b && r.left[y] == a.left[y]
      && r.parent[x] == y && r.parent[y] == p && (b != Nil ==> r.parent[b] == x)
      && r.root == (if p == Nil then y else a.root)
      && (p != Nil && a.right[p] == x ==> r.right[p] == y && r.left[p] == a.left[p])
      && (p != Nil && a.right[p] != x ==> r.left[p] == y && r.right[p] == a.right[p])
      && (forall h | 0 <= h < |a.key| && h != x && h != y && (p == Nil || h != p) ::
            r.right[h] == a.right[h] && r.left[h] == a.left[h])
      && (forall h | 0 <= h < |a.key| && h != x && h != y && (b == Nil || h != b) :: r.parent[h] == a.parent[h])
  {
    RightRotateNeighbours(a, sub, x);
  }

  /** The subtree sets after a right rotation at `x`, node by node. */
  lemma RightRotatedSubFields(a: Arena, sub: seq<set<nat>>, x: nat)
    requires WellFormed(a, sub) && 1 <= x < |a.key| && a.left[x] != Nil
    ensures var sub', y := RightRotatedSub(a, sub, x), a.left[x];
      && |sub'| == |sub|
      && sub'[x] == {x} + sub[a.right[x]] + sub[a.right[y]]
      && sub'[y] == sub[x]
      && (forall h | 0 <= h < |sub| && h != x && h != y :: sub'[h] == sub[h])
  {
    RightRotateNeighbours(a, sub, x);
  }

  lemma RightRotateSubtreeAtX(a: Arena, sub: seq<set<nat>>, x: nat)
    requires WellFormed(a, sub) && 1 <= x < |a.key| && a.left[x] != Nil
    ensures SubtreeOk(RightRotated(a, x), RightRotatedSub(a, sub, x), x)
  {
    var r, sub' := RightRotated(a, x), RightRotatedSub(a, sub, x);
    var y, al, b := a.left[x], a.right[x], a.right[a.left[x]];
    RightRotateNeighbours(a, sub, x);
    RightRotateDistinctBelow(a, sub, x);
    RightRotateDistinctSibling(a, sub, x);
    RightRotatedFields(a, sub, x);
    RightRotatedSubFields(a, sub, x);
    assert SubtreeOk(a, sub, x) && SubtreeOk(a, sub, y);
    assert r.right[x] == al && r.left[x] == b;
    assert sub'[al] == sub[al] && sub'[b] == sub[b];
  }

  lemma RightRotateSubtreeAtY(a: Arena, sub: seq<set<nat>>, x: nat)
    requires WellFormed(a, sub) && 1 <= x < |a.key| && a.left[x] != Nil
    ensures SubtreeOk(RightRotated(a, x), RightRotatedSub(a, sub, x), a.left[x])
  {
    var r, sub' := RightRotated(a, x), RightRotatedSub(a, sub, x);
    var y, c := a.left[x], a.left[a.left[x]];
    RightRotateNeighbours(a, sub, x);
    RightRotateDistinctBelow(a, sub, x);
    RightRotateDistinctSibling(a, sub, x);
    RightRotatedFields(a, sub, x);
    RightRotatedSubFields(a, sub, x);
    assert SubtreeOk(a, sub, x) && SubtreeOk(a, sub, y);
    assert r.right[y] == x && r.left[y] == c;
    assert sub'[c] == sub[c];
  }

  lemma RightRotateSubtreeAtOther(a: Arena, sub: seq<set<nat>>, x: nat, h: nat)
    requires WellFormed(a, sub) && 1 <= x < |a.key| && a.left[x] != Nil && 1 <= h < |a.key|
    requires h != x && h != a.left[x]
    ensures SubtreeOk(RightRotated(a, x), RightRotatedSub(a, sub, x), h)
  {
    var r, sub' := RightRotated(a, x), RightRotatedSub(a, sub, x);
    var y, p := a.left[x], a.parent[x];
    RightRotateNeighbours(a, sub, x);
    RightRotateDistinctBelow(a, sub, x);
    RightRotateDistinctSibling(a, sub, x);
    RightRotatedFields(a, sub, x);
    RightRotatedSubFields(a, sub, x);
    assert SubtreeOk(a, sub, h) && ChildLinksOk(a, h);
    assert sub'[h] == sub[h];
    if h == p {
      if a.right[p] == x {
        assert sub'[r.right[h]] == sub[a.right[h]] && sub'[r.left[h]] == sub[a.left[h]];
      } else {
        assert sub'[r.right[h]] == sub[a.right[h]] && sub'[r.left[h]] == sub[a.left[h]];
      }
    } else {
      assert r.right[h] == a.right[h] && r.left[h] == a.left[h];
      assert sub'[a.right[h]] == sub[a.right[h]] && sub'[a.left[h]] == sub[a.left[h]];
    }
  }

  lemma RightRotateChildLinksAt(a: Arena, sub: seq<set<nat>>, x: nat, h: nat)
    requires WellFormed(a, sub) && 1 <= x < |a.key| && a.left[x] != Nil && 1 <= h < |a.key|
    ensures ChildLinksOk(RightRotated(a, x), h)
  {
    var r := RightRotated(a, x);
    var y, p := a.left[x], a.parent[x];
    RightRotateNeighbours(a, sub, x);
    RightRotateDistinctBelow(a, sub, x);
    RightRotateDistinctSibling(a, sub, x);
    RightRotatedFields(a, sub, x);
    if h == x {
      assert ChildLinksOk(a, x);
    } else if h == y {
      assert ChildLinksOk(a, y);
    } else if h == p {
      assert ChildLinksOk(a, p);
    } else {
      assert ChildLinksOk(a, h);
      assert r.right[h] == a.right[h] && r.left[h] == a.left[h];
    }
  }

  lemma RightRotateParentLinkAt(a: Arena, sub: seq<set<nat>>, x: nat, h: nat)
    requires WellFormed(a, sub) && 1 <= x < |a.key| && a.left[x] != Nil && 1 <= h < |a.key|
    requires h != RightRotated(a, x).root
    ensures ParentLinkOk(RightRotated(a, x), h)
  {
    var r := RightRotated(a, x);
    var y, p, b := a.left[x], a.parent[x], a.right[a.left[x]];
    RightRotateNeighbours(a, sub, x);
    RightRotateDistinctBelow(a, sub, x);
    RightRotateDistinctSibling(a, sub, x);
    RightRotatedFields(a, sub, x);
    if h == x || h == y || h == b {
    } else {
      assert ParentLinkOk(a, h);
      assert r.parent[h] == a.parent[h];
    }
  }

  lemma RightRotateOrderAtX(a: Arena, sub: seq<set<nat>>, x: nat)
    requires WellFormed(a, sub) && 1 <= x < |a.key| && a.left[x] != Nil
    ensures OrderedAt(RightRotated(a, x), RightRotatedSub(a, sub, x), x)
  {
    var r, sub' := RightRotated(a, x), RightRotatedSub(a, sub, x);
    var y := a.left[x];
    RightRotateNeighbours(a, sub, x);
    RightRotateDistinctBelow(a, sub, x);
    RightRotateDistinctSibling(a, sub, x);
    RightRotatedFields(a, sub, x);
    RightRotatedSubFields(a, sub, x);
    assert r.right[x] == a.right[x] && r.left[x] == a.right[y];
    assert sub'[a.right[x]] == sub[a.right[x]] && sub'[a.right[y]] == sub[a.right[y]];
    assert SubtreeOk(a, sub, y) && OrderedAt(a, sub, x);
  }

  lemma RightRotateOrderAtY(a: Arena, sub: seq<set<nat>>, x: nat)
    requires WellFormed(a, sub) && 1 <= x < |a.key| && a.left[x] != Nil
    ensures OrderedAt(RightRotated(a, x), RightRotatedSub(a, sub, x), a.left[x])
  {
    var r, sub' := RightRotated(a, x), RightRotatedSub(a, sub, x);
    var y := a.left[x];
    RightRotateNeighbours(a, sub, x);
    RightRotateDistinctBelow(a, sub, x);
    RightRotateDistinctSibling(a, sub, x);
    RightRotatedFields(a, sub, x);
    RightRotatedSubFields(a, sub, x);
    assert r.right[y] == x && r.left[y] == a.left[y];
    assert sub'[x] == {x} + sub[a.right[x]] + sub[a.right[y]] && sub'[a.left[y]] == sub[a.left[y]];
    assert SubtreeOk(a, sub, x) && OrderedAt(a, sub, x) && OrderedAt(a, sub, y);
    assert a.key[y] < a.key[x];
  }

  lemma RightRotateOrderAtOther(a: Arena, sub: seq<set<nat>>, x: nat, h: nat)
    requires WellFormed(a, sub) && 1 <= x < |a.key| && a.left[x] != Nil && 1 <= h < |a.key|
    requires h != x && h != a.left[x]
    ensures OrderedAt(RightRotated(a, x), RightRotatedSub(a, sub, x), h)
  {
    var r, sub' := RightRotated(a, x), RightRotatedSub(a, sub, x);
    var y, p := a.left[x], a.parent[x];
    RightRotateNeighbours(a, sub, x);
    RightRotateDistinctBelow(a, sub, x);
    RightRotateDistinctSibling(a, sub, x);
    RightRotatedFields(a, sub, x);
    RightRotatedSubFields(a, sub, x);
    assert OrderedAt(a, sub, h) && ChildLinksOk(a, h);
    if h == p {
      assert sub'[r.right[h]] == sub[a.right[h]] && sub'[r.left[h]] == sub[a.left[h]];
    } else {
      assert r.right[h] == a.right[h] && r.left[h] == a.left[h];
      assert sub'[a.right[h]] == sub[a.right[h]] && sub'[a.left[h]] == sub[a.left[h]];
    }
  }

  /** A right rotation at `x` (whose left child is real) keeps the tree well formed. */
  lemma RightRotateWellFormed(a: Arena, sub: seq<set<nat>>, x: nat)
    requires WellFormed(a, sub) && 1 <= x < |a.key| && a.left[x] != Nil
    ensures WellFormed(RightRotated(a, x), RightRotatedSub(a, sub, x))
  {
    var r, sub' := RightRotated(a, x), RightRotatedSub(a, sub, x);
    RightRotateNeighbours(a, sub, x);
    RightRotateDistinctBelow(a, sub, x);
    RightRotateDistinctSibling(a, sub, x);
    RightRotatedFields(a, sub, x);
    RightRotatedSubFields(a, sub, x);
    assert sub'[r.root] == sub[a.root];
    forall h | 1 <= h < |a.key| ensures SubtreeOk(r, sub', h) && OrderedAt(r, sub', h) {
      if h == x {
        RightRotateSubtreeAtX(a, sub, x);
        RightRotateOrderAtX(a, sub, x);
      } else if h == a.left[x] {
        RightRotateSubtreeAtY(a, sub, x);
        RightRotateOrderAtY(a, sub, x);
      } else {
        RightRotateSubtreeAtOther(a, sub, x, h);
        RightRotateOrderAtOther(a, sub, x, h);
      }
    }
    forall h | 1 <= h < |a.key| ensures ChildLinksOk(r, h) {
      RightRotateChildLinksAt(a, sub, x, h);
    }
    forall h | 1 <= h < |a.key| && h != r.root ensures ParentLinkOk(r, h) {
      RightRotateParentLinkAt(a, sub, x, h);
    }
  }

  /** A left rotation keeps the keys, every colour and the in-order key sequence. */
  lemma LeftRotateKeepsContents(a: Arena, sub: seq<set<nat>>, x: nat)
    requires WellFormed(a, sub) && 1 <= x < |a.key| && a.right[x] != Nil
    ensures WellFormed(LeftRotated(a, x), LeftRotatedSub(a, sub, x))
    ensures Keys(LeftRotated(a, x)) == Keys(a) && LeftRotated(a, x).color == a.color
    ensures Contents(LeftRotated(a, x), LeftRotatedSub(a, sub, x)) == Contents(a, sub)
  {
    LeftRotateWellFormed(a, sub, x);
    ContentsDeterminedByKeys(a, sub, LeftRotated(a, x), LeftRotatedSub(a, sub, x));
  }

  /** A right rotation keeps the keys, every colour and the in-order key sequence. */
  lemma RightRotateKeepsContents(a: Arena, sub: seq<set<nat>>, x: nat)
    requires WellFormed(a, sub) && 1 <= x < |a.key| && a.left[x] != Nil
    ensures WellFormed(RightRotated(a, x), RightRotatedSub(a, sub, x))
    ensures Keys(RightRotated(a, x)) == Keys(a) && RightRotated(a, x).color == a.color
    ensures Contents(RightRotated(a, x), RightRotatedSub(a, sub, x)) == Contents(a, sub)
  {
    RightRotateWellFormed(a, sub, x);
    ContentsDeterminedByKeys(a, sub, RightRotated(a, x), RightRotatedSub(a, sub, x));
  }
}
