/**
 * The steps of `rbtree_insert_fixup` and the loop invariant they keep.
 *
 * While the loop runs, `z` is a red node and the tree is a red-black tree
 * except that `z` and its parent may both be red, and the root may be red
 * when it is `z` itself. Each case of the loop body is a function of the node
 * table (a recolouring, possibly around rotations) and has a lemma showing
 * that it keeps that invariant with the new `z`; the lemma for the exit shows
 * that blackening the root then gives a red-black tree.
 */
module RbFixup {
  import opened RbArena
  import opened RbRotate

  /** The invariant of the fix-up loop for the node `z`. */
  ghost predicate FixupInv(a: Arena, sub: seq<set<nat>>, bh: seq<nat>, z: nat) {
    && WellFormed(a, sub)
    && 1 <= z < |a.key|
    && a.color[z] == Red
    && BlackBalanced(a, bh)
    && RedRedOnlyAt(a, z)
    && (a.color[a.root] == Black || z == a.root)
  }

  /** One colour write, `h->color = c`. */
  function Recolored(a: Arena, h: nat, c: Color): (r: Arena)
    requires h < |a.color|
    ensures |r.color| == |a.color| && r.color[h] == c
    ensures forall g | 0 <= g < |a.color| && g != h :: r.color[g] == a.color[g]
    ensures r.key == a.key && r.left == a.left && r.right == a.right && r.parent == a.parent && r.root == a.root
  {
    a.(color := a.color[h := c])
  }

  /** Colours play no part in the structural invariant, except the sentinel's. */
  lemma RecolorWellFormed(a: Arena, sub: seq<set<nat>>, h: nat, c: Color)
    requires WellFormed(a, sub) && 1 <= h < |a.key|
    ensures WellFormed(Recolored(a, h, c), sub)
  {
    var r := Recolored(a, h, c);
    forall g | 1 <= g < |a.key|
      ensures SubtreeOk(r, sub, g) && ChildLinksOk(r, g) && OrderedAt(r, sub, g)
      ensures g != r.root ==> ParentLinkOk(r, g)
    {
      assert SubtreeOk(a, sub, g) && ChildLinksOk(a, g) && OrderedAt(a, sub, g);
      if g != a.root {
        assert ParentLinkOk(a, g);
      }
    }
  }

  /** A real child `c` of a real node `h` sits strictly below it. */
  lemma ChildBelow(a: Arena, sub: seq<set<nat>>, h: nat, c: nat)
    requires WellFormed(a, sub) && 1 <= h < |a.key| && c != Nil
    requires c == a.left[h] || c == a.right[h]
    ensures a.parent[c] == h && c in sub[h] && sub[c] <= sub[h] && |sub[c]| < |sub[h]| && h !in sub[c]
  {
    assert ChildLinksOk(a, h) && SubtreeOk(a, sub, h);
    SubtreeSmaller(a, sub, h);
    SubtreeSmaller(a, sub, c);
  }

  /** Under the loop guard, `z` has a red real parent `p` and a black real grandparent `g`. */
  lemma RedParentFacts(a: Arena, sub: seq<set<nat>>, bh: seq<nat>, z: nat)
    requires FixupInv(a, sub, bh, z) && a.color[a.parent[z]] == Red
    ensures var p := a.parent[z]; var g := a.parent[p];
      && z != a.root && 1 <= p < |a.key| && p != a.root && 1 <= g < |a.key|
      && (a.left[p] == z || a.right[p] == z)
      && (a.left[g] == p || a.right[g] == p)
      && a.color[g] == Black && a.color[a.root] == Black
      && |sub[z]| < |sub[p]| < |sub[g]|
      && z in sub[p] && sub[p] <= sub[g]
  {
    var p := a.parent[z];
    assert z != a.root;
    assert ParentLinkOk(a, z);
    assert p != a.root;
    assert ParentLinkOk(a, p);
    var g := a.parent[p];
    ChildBelow(a, sub, p, z);
    ChildBelow(a, sub, g, p);
    SubtreeSmaller(a, sub, z);
    assert RedOkAt(a, z, g);
  }

  // ---------------------------------------------------------------------------
  // Case 1: the parent is the left child of the grandparent

  /** The loop guard holds and `z`'s parent is a left child. */
  ghost predicate ParentRedLeft(a: Arena, sub: seq<set<nat>>, bh: seq<nat>, z: nat) {
    && FixupInv(a, sub, bh, z)
    && a.color[a.parent[z]] == Red
    && a.parent[z] == a.left[a.parent[a.parent[z]]]
  }

  // Case 1-1: the uncle is red

  /** Parent and uncle turn black, the grandparent red. */
  function UncleRedLeftStep(a: Arena, z: nat): (r: Arena)
    requires Shaped(a) && z < |a.key|
  {
    var p := a.parent[z];
    var g := a.parent[p];
    Recolored(Recolored(Recolored(a, p, Black), a.right[g], Black), g, Red)
  }

  /** The nodes involved in case 1-1 are distinct and linked as expected. */
  lemma UncleRedLeftFacts(a: Arena, sub: seq<set<nat>>, bh: seq<nat>, z: nat)
    requires ParentRedLeft(a, sub, bh, z)
    requires a.color[a.right[a.parent[a.parent[z]]]] == Red
    ensures var p := a.parent[z]; var g := a.parent[p]; var u := a.right[g];
      && 1 <= u < |a.key| && a.parent[u] == g && a.parent[p] == g
      && u != p && u != g && p != g && u != z
      && |sub[z]| < |sub[g]|
  {
    var p := a.parent[z];
    var g := a.parent[p];
    var u := a.right[g];
    RedParentFacts(a, sub, bh, z);
    assert u != Nil;
    ChildBelow(a, sub, g, u);
    assert SubtreeOk(a, sub, g);
    SubtreeSmaller(a, sub, u);
    SubtreeSmaller(a, sub, p);
  }

  lemma UncleRedLeftBalancedAt(a: Arena, sub: seq<set<nat>>, bh: seq<nat>, z: nat, h: nat)
    requires ParentRedLeft(a, sub, bh, z)
    requires a.color[a.right[a.parent[a.parent[z]]]] == Red
    requires 1 <= h < |a.key|
    ensures var g := a.parent[a.parent[z]];
      BalancedAt(UncleRedLeftStep(a, z), bh[g := bh[g] + 1], h)
  {
    var p := a.parent[z];
    var g := a.parent[p];
    var u := a.right[g];
    var r, bh' := UncleRedLeftStep(a, z), bh[g := bh[g] + 1];
    RedParentFacts(a, sub, bh, z);
    UncleRedLeftFacts(a, sub, bh, z);
    assert BalancedAt(a, bh, h) && ChildLinksOk(a, h);
    if h == g {
    } else {
      var l, rt := a.left[h], a.right[h];
      assert l != p && l != u && rt != p && rt != u;
      if l == g || rt == g {
        assert a.color[g] == Black;
      }
    }
  }

  lemma UncleRedLeftRedOkAt(a: Arena, sub: seq<set<nat>>, bh: seq<nat>, z: nat, h: nat)
    requires ParentRedLeft(a, sub, bh, z)
    requires a.color[a.right[a.parent[a.parent[z]]]] == Red
    requires 1 <= h < |a.key|
    ensures RedOkAt(UncleRedLeftStep(a, z), a.parent[a.parent[z]], h)
  {
    var p := a.parent[z];
    var g := a.parent[p];
    var u := a.right[g];
    RedParentFacts(a, sub, bh, z);
    UncleRedLeftFacts(a, sub, bh, z);
    assert RedOkAt(a, z, h) && ChildLinksOk(a, h);
  }

  /** Case 1-1 keeps the black heights balanced once the grandparent's grows by one. */
  lemma UncleRedLeftBalanced(a: Arena, sub: seq<set<nat>>, bh: seq<nat>, z: nat)
    requires ParentRedLeft(a, sub, bh, z)
    requires a.color[a.right[a.parent[a.parent[z]]]] == Red
    ensures var g := a.parent[a.parent[z]];
      BlackBalanced(UncleRedLeftStep(a, z), bh[g := bh[g] + 1])
  {
    var g := a.parent[a.parent[z]];
    var r, bh' := UncleRedLeftStep(a, z), bh[g := bh[g] + 1];
    RedParentFacts(a, sub, bh, z);
    forall h | 1 <= h < |a.key| ensures BalancedAt(r, bh', h) {
      UncleRedLeftBalancedAt(a, sub, bh, z, h);
    }
  }

  /** Case 1-1 leaves at most one red-red edge, the one above the grandparent. */
  lemma UncleRedLeftRedOk(a: Arena, sub: seq<set<nat>>, bh: seq<nat>, z: nat)
    requires ParentRedLeft(a, sub, bh, z)
    requires a.color[a.right[a.parent[a.parent[z]]]] == Red
    ensures RedRedOnlyAt(UncleRedLeftStep(a, z), a.parent[a.parent[z]])
  {
    var r := UncleRedLeftStep(a, z);
    RedParentFacts(a, sub, bh, z);
    forall h | 1 <= h < |a.key| ensures RedOkAt(r, a.parent[a.parent[z]], h) {
      UncleRedLeftRedOkAt(a, sub, bh, z, h);
    }
  }

  /** Case 1-1 keeps the loop invariant with `z` moved up to the grandparent. */
  lemma UncleRedLeft(a: Arena, sub: seq<set<nat>>, bh: seq<nat>, z: nat)
    requires ParentRedLeft(a, sub, bh, z)
    requires a.color[a.right[a.parent[a.parent[z]]]] == Red
    ensures var g := a.parent[a.parent[z]];
      && FixupInv(UncleRedLeftStep(a, z), sub, bh[g := bh[g] + 1], g)
      && |sub[z]| < |sub[g]|
  {
    var p := a.parent[z];
    var g := a.parent[p];
    var u := a.right[g];
    RedParentFacts(a, sub, bh, z);
    UncleRedLeftFacts(a, sub, bh, z);
    RecolorWellFormed(a, sub, p, Black);
    RecolorWellFormed(Recolored(a, p, Black), sub, u, Black);
    RecolorWellFormed(Recolored(Recolored(a, p, Black), u, Black), sub, g, Red);
    UncleRedLeftBalanced(a, sub, bh, z);
    UncleRedLeftRedOk(a, sub, bh, z);
    assert a.root != p && a.root != u;
  }

  // Case 1-2: the uncle is black and `z` is a right child; a left rotation at
  // the parent turns it into case 1-3 with `z` moved to the old parent

  /** The nodes involved in case 1-2 are distinct and linked as expected. */
  lemma InnerLeftFacts(a: Arena, sub: seq<set<nat>>, bh: seq<nat>, z: nat)
    requires ParentRedLeft(a, sub, bh, z) && z == a.right[a.parent[z]]
    ensures var p := a.parent[z]; var g := a.parent[p];
      && z != p && z != g && p != g && a.left[p] != z
      && a.left[z] != p && a.left[z] != g && a.left[z] != z
      && a.right[z] != p && a.right[z] != g && a.right[z] != z
      && a.color[a.left[p]] == Black && a.color[a.left[z]] == Black && a.color[a.right[z]] == Black
  {
    var p := a.parent[z];
    var g := a.parent[p];
    RedParentFacts(a, sub, bh, z);
    LeftRotateNeighbours(a, sub, p);
    ChildBelow(a, sub, p, z);
    SubtreeSmaller(a, sub, z);
    assert SubtreeOk(a, sub, p);
    assert RedOkAt(a, z, p) && RedOkAt(a, z, z);
  }

  lemma InnerLeftBalancedAt(a: Arena, sub: seq<set<nat>>, bh: seq<nat>, z: nat, h: nat)
    requires ParentRedLeft(a, sub, bh, z) && z == a.right[a.parent[z]]
    requires 1 <= h < |a.key|
    ensures BalancedAt(LeftRotated(a, a.parent[z]), bh, h)
  {
    var p := a.parent[z];
    var g := a.parent[p];
    RedParentFacts(a, sub, bh, z);
    InnerLeftFacts(a, sub, bh, z);
    LeftRotatedFields(a, sub, p);
    assert BalancedAt(a, bh, h);
    if h == p {
      assert BalancedAt(a, bh, z);
    } else if h == z {
      assert BalancedAt(a, bh, p);
    } else if h == g {
      assert BalancedAt(a, bh, p);
    }
  }

  lemma InnerLeftRedOkAt(a: Arena, sub: seq<set<nat>>, bh: seq<nat>, z: nat, h: nat)
    requires ParentRedLeft(a, sub, bh, z) && z == a.right[a.parent[z]]
    requires 1 <= h < |a.key|
    ensures RedOkAt(LeftRotated(a, a.parent[z]), a.parent[z], h)
  {
    var p := a.parent[z];
    var g := a.parent[p];
    RedParentFacts(a, sub, bh, z);
    InnerLeftFacts(a, sub, bh, z);
    LeftRotatedFields(a, sub, p);
    assert RedOkAt(a, z, h);
  }

  /**
   * Case 1-2 leads to case 1-3: after the rotation the old parent is a red
   * left child of the red `z`, which is the left child of the grandparent,
   * and the uncle is still black.
   */
  lemma InnerLeft(a: Arena, sub: seq<set<nat>>, bh: seq<nat>, z: nat)
    requires ParentRedLeft(a, sub, bh, z) && z == a.right[a.parent[z]]
    requires a.color[a.right[a.parent[a.parent[z]]]] == Black
    ensures var p := a.parent[z]; var a1 := LeftRotated(a, p);
      && ParentRedLeft(a1, LeftRotatedSub(a, sub, p), bh, p)
      && p == a1.left[a1.parent[p]]
      && a1.color[a1.right[a1.parent[a1.parent[p]]]] == Black
  {
    var p := a.parent[z];
    var g := a.parent[p];
    var a1, sub1 := LeftRotated(a, p), LeftRotatedSub(a, sub, p);
    RedParentFacts(a, sub, bh, z);
    InnerLeftFacts(a, sub, bh, z);
    LeftRotatedFields(a, sub, p);
    LeftRotateWellFormed(a, sub, p);
    forall h | 1 <= h < |a.key| ensures BalancedAt(a1, bh, h) && RedOkAt(a1, p, h) {
      InnerLeftBalancedAt(a, sub, bh, z, h);
      InnerLeftRedOkAt(a, sub, bh, z, h);
    }
    assert a1.parent[p] == z && a1.parent[z] == g && a1.left[g] == z;
  }

  // Case 1-3: the uncle is black and `z` is a left child; the parent turns
  // black, the grandparent red, and a right rotation at the grandparent ends
  // the loop

  /** Parent black, grandparent red, then a right rotation at the grandparent. */
  function OuterLeftStep(a: Arena, z: nat): (r: Arena)
    requires Shaped(a) && z < |a.key|
  {
    var p := a.parent[z];
    var g := a.parent[p];
    RightRotated(Recolored(Recolored(a, p, Black), g, Red), g)
  }

  /** The subtree sets after case 1-3. */
  ghost function OuterLeftSub(a: Arena, sub: seq<set<nat>>, z: nat): (r: seq<set<nat>>)
    requires Shaped(a) && |sub| == |a.key| && z < |a.key|
    ensures |r| == |sub|
  {
    var p := a.parent[z];
    var g := a.parent[p];
    RightRotatedSub(Recolored(Recolored(a, p, Black), g, Red), sub, g)
  }

  /** The nodes involved in case 1-3 are distinct and linked as expected. */
  lemma OuterLeftFacts(a: Arena, sub: seq<set<nat>>, bh: seq<nat>, z: nat)
    requires ParentRedLeft(a, sub, bh, z) && z == a.left[a.parent[z]]
    requires a.color[a.right[a.parent[a.parent[z]]]] == Black
    ensures var p := a.parent[z]; var g := a.parent[p]; var gg := a.parent[g];
      && z != p && z != g && p != g && a.right[p] != z && a.right[p] != g
      && gg != p && gg != z && gg != g && a.root != p && a.right[g] != p && a.right[g] != g
      && a.left[z] != p && a.left[z] != g && a.right[z] != p && a.right[z] != g
      && a.color[a.right[p]] == Black && a.color[a.left[z]] == Black && a.color[a.right[z]] == Black
      && (gg != Nil ==> && (a.left[gg] != g || a.right[gg] != g)
                        && a.left[gg] != p && a.right[gg] != p
                        && (a.color[gg] == Red ==> a.color[a.left[gg]] == Black && a.color[a.right[gg]] == Black))
  {
    var p := a.parent[z];
    var g := a.parent[p];
    var gg := a.parent[g];
    RedParentFacts(a, sub, bh, z);
    RightRotateNeighbours(a, sub, g);
    ChildBelow(a, sub, p, z);
    SubtreeSmaller(a, sub, z);
    assert SubtreeOk(a, sub, p) && SubtreeOk(a, sub, g);
    assert RedOkAt(a, z, p) && RedOkAt(a, z, z);
    if gg != Nil {
      assert RedOkAt(a, z, gg) && ChildLinksOk(a, gg) && SubtreeOk(a, sub, gg);
      SubtreeSmaller(a, sub, g);
    }
  }

  /** The node table after case 1-3, node by node. */
  lemma OuterLeftFields(a: Arena, sub: seq<set<nat>>, bh: seq<nat>, z: nat)
    requires ParentRedLeft(a, sub, bh, z) && z == a.left[a.parent[z]]
    requires a.color[a.right[a.parent[a.parent[z]]]] == Black
    ensures var r := OuterLeftStep(a, z);
      var p := a.parent[z]; var g := a.parent[p]; var gg := a.parent[g];
      && Shaped(r) && r.key == a.key
      && r.color[p] == Black && r.color[g] == Red
      && (forall h | 0 <= h < |a.key| && h != p && h != g :: r.color[h] == a.color[h])
      && r.left[p] == z && r.right[p] == g && r.left[g] == a.right[p] && r.right[g] == a.right[g]
      && r.parent[g] == p && r.parent[p] == gg && r.parent[z] == p
      && r.root == (if gg == Nil then p else a.root)
      && (gg != Nil && a.right[gg] == g ==> r.right[gg] == p && r.left[gg] == a.left[gg])
      && (gg != Nil && a.right[gg] != g ==> r.left[gg] == p && r.right[gg] == a.right[gg])
      && (forall h | 0 <= h < |a.key| && h != p && h != g && h != gg ::
            r.left[h] == a.left[h] && r.right[h] == a.right[h])
  {
    var p := a.parent[z];
    var g := a.parent[p];
    var a1 := Recolored(Recolored(a, p, Black), g, Red);
    RedParentFacts(a, sub, bh, z);
    OuterLeftFacts(a, sub, bh, z);
    RecolorWellFormed(a, sub, p, Black);
    RecolorWellFormed(Recolored(a, p, Black), sub, g, Red);
    RightRotatedFields(a1, sub, g);
  }

  /** Black heights still match at the parent and the grandparent after case 1-3. */
  lemma OuterLeftBalancedBelow(a: Arena, sub: seq<set<nat>>, bh: seq<nat>, z: nat)
    requires ParentRedLeft(a, sub, bh, z) && z == a.left[a.parent[z]]
    requires a.color[a.right[a.parent[a.parent[z]]]] == Black
    ensures BalancedAt(OuterLeftStep(a, z), bh, a.parent[z])
    ensures BalancedAt(OuterLeftStep(a, z), bh, a.parent[a.parent[z]])
  {
    var p := a.parent[z];
    var g := a.parent[p];
    RedParentFacts(a, sub, bh, z);
    OuterLeftFacts(a, sub, bh, z);
    OuterLeftFields(a, sub, bh, z);
    assert BalancedAt(a, bh, p) && BalancedAt(a, bh, g);
  }

  /** Black heights still match above the old grandparent after case 1-3. */
  lemma OuterLeftBalancedAbove(a: Arena, sub: seq<set<nat>>, bh: seq<nat>, z: nat)
    requires ParentRedLeft(a, sub, bh, z) && z == a.left[a.parent[z]]
    requires a.color[a.right[a.parent[a.parent[z]]]] == Black
    requires a.parent[a.parent[a.parent[z]]] != Nil
    ensures BalancedAt(OuterLeftStep(a, z), bh, a.parent[a.parent[a.parent[z]]])
  {
    var p := a.parent[z];
    var g := a.parent[p];
    var h := a.parent[g];
    var r := OuterLeftStep(a, z);
    RedParentFacts(a, sub, bh, z);
    OuterLeftFacts(a, sub, bh, z);
    OuterLeftFields(a, sub, bh, z);
    assert BalancedAt(a, bh, g) && BalancedAt(a, bh, h);
    assert g != a.root && ParentLinkOk(a, g);
    if a.right[h] == g {
      assert bh[h] == bh[r.right[h]] + Weight(r.color[r.right[h]]);
    } else {
      assert bh[h] == bh[r.left[h]] + Weight(r.color[r.left[h]]);
    }
  }

  lemma OuterLeftBalancedAt(a: Arena, sub: seq<set<nat>>, bh: seq<nat>, z: nat, h: nat)
    requires ParentRedLeft(a, sub, bh, z) && z == a.left[a.parent[z]]
    requires a.color[a.right[a.parent[a.parent[z]]]] == Black
    requires 1 <= h < |a.key|
    ensures BalancedAt(OuterLeftStep(a, z), bh, h)
  {
    var p := a.parent[z];
    var g := a.parent[p];
    if h == p || h == g {
      OuterLeftBalancedBelow(a, sub, bh, z);
    } else if h == a.parent[g] {
      OuterLeftBalancedAbove(a, sub, bh, z);
    } else {
      RedParentFacts(a, sub, bh, z);
      OuterLeftFacts(a, sub, bh, z);
      OuterLeftFields(a, sub, bh, z);
      assert BalancedAt(a, bh, h) && ChildLinksOk(a, h);
    }
  }

  lemma OuterLeftRedOkAt(a: Arena, sub: seq<set<nat>>, bh: seq<nat>, z: nat, h: nat)
    requires ParentRedLeft(a, sub, bh, z) && z == a.left[a.parent[z]]
    requires a.color[a.right[a.parent[a.parent[z]]]] == Black
    requires 1 <= h < |a.key|
    ensures NoRedRedAt(OuterLeftStep(a, z), h) && RedOkAt(OuterLeftStep(a, z), z, h)
  {
    var p := a.parent[z];
    var g := a.parent[p];
    RedParentFacts(a, sub, bh, z);
    OuterLeftFacts(a, sub, bh, z);
    OuterLeftFields(a, sub, bh, z);
    assert RedOkAt(a, z, h) && ChildLinksOk(a, h);
  }

  /**
   * Case 1-3 leaves no red-red edge at all and keeps every black height; the
   * parent of `z` is black afterwards, so the loop ends.
   */
  lemma OuterLeft(a: Arena, sub: seq<set<nat>>, bh: seq<nat>, z: nat)
    requires ParentRedLeft(a, sub, bh, z) && z == a.left[a.parent[z]]
    requires a.color[a.right[a.parent[a.parent[z]]]] == Black
    ensures var r := OuterLeftStep(a, z);
      && FixupInv(r, OuterLeftSub(a, sub, z), bh, z)
      && NoRedRed(r)
      && r.color[r.parent[z]] == Black
  {
    var p := a.parent[z];
    var g := a.parent[p];
    var a1 := Recolored(Recolored(a, p, Black), g, Red);
    var r := OuterLeftStep(a, z);
    RedParentFacts(a, sub, bh, z);
    OuterLeftFacts(a, sub, bh, z);
    RecolorWellFormed(a, sub, p, Black);
    RecolorWellFormed(Recolored(a, p, Black), sub, g, Red);
    RightRotateWellFormed(a1, sub, g);
    OuterLeftFields(a, sub, bh, z);
    forall h | 1 <= h < |a.key| ensures BalancedAt(r, bh, h) && NoRedRedAt(r, h) && RedOkAt(r, z, h) {
      OuterLeftBalancedAt(a, sub, bh, z, h);
      OuterLeftRedOkAt(a, sub, bh, z, h);
    }
  }
  // ---------------------------------------------------------------------------
  // Case 2: the parent is the right child of the grandparent

  /** The loop guard holds and `z`'s parent is a right child. */
  ghost predicate ParentRedRight(a: Arena, sub: seq<set<nat>>, bh: seq<nat>, z: nat) {
    && FixupInv(a, sub, bh, z)
    && a.color[a.parent[z]] == Red
    && a.parent[z] == a.right[a.parent[a.parent[z]]]
  }

  // Case 2-1: the uncle is red

  /** Parent and uncle turn black, the grandparent red. */
  function UncleRedRightStep(a: Arena, z: nat): (r: Arena)
    requires Shaped(a) && z < |a.key|
  {
    var p := a.parent[z];
    var g := a.parent[p];
    Recolored(Recolored(Recolored(a, p, Black), a.left[g], Black), g, Red)
  }

  /** The nodes involved in case 2-1 are distinct and linked as expected. */
  lemma UncleRedRightFacts(a: Arena, sub: seq<set<nat>>, bh: seq<nat>, z: nat)
    requires ParentRedRight(a, sub, bh, z)
    requires a.color[a.left[a.parent[a.parent[z]]]] == Red
    ensures var p := a.parent[z]; var g := a.parent[p]; var u := a.left[g];
      && 1 <= u < |a.key| && a.parent[u] == g && a.parent[p] == g
      && u != p && u != g && p != g && u != z
      && |sub[z]| < |sub[g]|
  {
    var p := a.parent[z];
    var g := a.parent[p];
    var u := a.left[g];
    RedParentFacts(a, sub, bh, z);
    assert u != Nil;
    ChildBelow(a, sub, g, u);
    assert SubtreeOk(a, sub, g);
    SubtreeSmaller(a, sub, u);
    SubtreeSmaller(a, sub, p);
  }

  lemma UncleRedRightBalancedAt(a: Arena, sub: seq<set<nat>>, bh: seq<nat>, z: nat, h: nat)
    requires ParentRedRight(a, sub, bh, z)
    requires a.color[a.left[a.parent[a.parent[z]]]] == Red
    requires 1 <= h < |a.key|
    ensures var g := a.parent[a.parent[z]];
      BalancedAt(UncleRedRightStep(a, z), bh[g := bh[g] + 1], h)
  {
    var p := a.parent[z];
    var g := a.parent[p];
    var u := a.left[g];
    var r, bh' := UncleRedRightStep(a, z), bh[g := bh[g] + 1];
    RedParentFacts(a, sub, bh, z);
    UncleRedRightFacts(a, sub, bh, z);
    assert BalancedAt(a, bh, h) && ChildLinksOk(a, h);
    if h == g {
    } else {
      var l, rt := a.right[h], a.left[h];
      assert l != p && l != u && rt != p && rt != u;
      if l == g || rt == g {
        assert a.color[g] == Black;
      }
    }
  }

  lemma UncleRedRightRedOkAt(a: Arena, sub: seq<set<nat>>, bh: seq<nat>, z: nat, h: nat)
    requires ParentRedRight(a, sub, bh, z)
    requires a.color[a.left[a.parent[a.parent[z]]]] == Red
    requires 1 <= h < |a.key|
    ensures RedOkAt(UncleRedRightStep(a, z), a.parent[a.parent[z]], h)
  {
    var p := a.parent[z];
    var g := a.parent[p];
    var u := a.left[g];
    RedParentFacts(a, sub, bh, z);
    UncleRedRightFacts(a, sub, bh, z);
    assert RedOkAt(a, z, h) && ChildLinksOk(a, h);
  }

  /** Case 2-1 keeps the black heights balanced once the grandparent's grows by one. */
  lemma UncleRedRightBalanced(a: Arena, sub: seq<set<nat>>, bh: seq<nat>, z: nat)
    requires ParentRedRight(a, sub, bh, z)
    requires a.color[a.left[a.parent[a.parent[z]]]] == Red
    ensures var g := a.parent[a.parent[z]];
      BlackBalanced(UncleRedRightStep(a, z), bh[g := bh[g] + 1])
  {
    var g := a.parent[a.parent[z]];
    var r, bh' := UncleRedRightStep(a, z), bh[g := bh[g] + 1];
    RedParentFacts(a, sub, bh, z);
    forall h | 1 <= h < |a.key| ensures BalancedAt(r, bh', h) {
      UncleRedRightBalancedAt(a, sub, bh, z, h);
    }
  }

  /** Case 2-1 leaves at most one red-red edge, the one above the grandparent. */
  lemma UncleRedRightRedOk(a: Arena, sub: seq<set<nat>>, bh: seq<nat>, z: nat)
    requires ParentRedRight(a, sub, bh, z)
    requires a.color[a.left[a.parent[a.parent[z]]]] == Red
    ensures RedRedOnlyAt(UncleRedRightStep(a, z), a.parent[a.parent[z]])
  {
    var r := UncleRedRightStep(a, z);
    RedParentFacts(a, sub, bh, z);
    forall h | 1 <= h < |a.key| ensures RedOkAt(r, a.parent[a.parent[z]], h) {
      UncleRedRightRedOkAt(a, sub, bh, z, h);
    }
  }

  /** Case 2-1 keeps the loop invariant with `z` moved up to the grandparent. */
  lemma UncleRedRight(a: Arena, sub: seq<set<nat>>, bh: seq<nat>, z: nat)
    requires ParentRedRight(a, sub, bh, z)
    requires a.color[a.left[a.parent[a.parent[z]]]] == Red
    ensures var g := a.parent[a.parent[z]];
      && FixupInv(UncleRedRightStep(a, z), sub, bh[g := bh[g] + 1], g)
      && |sub[z]| < |sub[g]|
  {
    var p := a.parent[z];
    var g := a.parent[p];
    var u := a.left[g];
    RedParentFacts(a, sub, bh, z);
    UncleRedRightFacts(a, sub, bh, z);
    RecolorWellFormed(a, sub, p, Black);
    RecolorWellFormed(Recolored(a, p, Black), sub, u, Black);
    RecolorWellFormed(Recolored(Recolored(a, p, Black), u, Black), sub, g, Red);
    UncleRedRightBalanced(a, sub, bh, z);
    UncleRedRightRedOk(a, sub, bh, z);
    assert a.root != p && a.root != u;
  }

  /**
   * Cases 1-1 and 2-1 together: the three colour writes, with `u` the red
   * uncle on either side, are the step of the matching case and restore the
   * fix-up invariant at the grandparent.
   */
  lemma UncleRed(a: Arena, sub: seq<set<nat>>, bh: seq<nat>, z: nat, u: nat)
    requires || (ParentRedLeft(a, sub, bh, z) && u == a.right[a.parent[a.parent[z]]])
             || (ParentRedRight(a, sub, bh, z) && u == a.left[a.parent[a.parent[z]]])
    requires a.color[u] == Red
    ensures var p := a.parent[z]; var g := a.parent[p];
      var r := Recolored(Recolored(Recolored(a, p, Black), u, Black), g, Red);
      && r == (if p == a.left[g] then UncleRedLeftStep(a, z) else UncleRedRightStep(a, z))
      && FixupInv(r, sub, bh[g := bh[g] + 1], g)
      && |sub[z]| < |sub[g]| <= |sub[a.root]|
  {
    var g := a.parent[a.parent[z]];
    if ParentRedLeft(a, sub, bh, z) && u == a.right[g] {
      UncleRedLeft(a, sub, bh, z);
    } else {
      UncleRedRight(a, sub, bh, z);
    }
    RedParentFacts(a, sub, bh, z);
    SubtreeWithinRoot(a, sub, g);
  }

  // Case 2-2: the uncle is black and `z` is a left child; a right rotation at
  // the parent turns it into case 2-3 with `z` moved to the old parent

  /** The nodes involved in case 2-2 are distinct and linked as expected. */
  lemma InnerRightFacts(a: Arena, sub: seq<set<nat>>, bh: seq<nat>, z: nat)
    requires ParentRedRight(a, sub, bh, z) && z == a.left[a.parent[z]]
    ensures var p := a.parent[z]; var g := a.parent[p];
      && z != p && z != g && p != g && a.right[p] != z
      && a.right[z] != p && a.right[z] != g && a.right[z] != z
      && a.left[z] != p && a.left[z] != g && a.left[z] != z
      && a.color[a.right[p]] == Black && a.color[a.right[z]] == Black && a.color[a.left[z]] == Black
  {
    var p := a.parent[z];
    var g := a.parent[p];
    RedParentFacts(a, sub, bh, z);
    RightRotateNeighbours(a, sub, p);
    ChildBelow(a, sub, p, z);
    SubtreeSmaller(a, sub, z);
    assert SubtreeOk(a, sub, p);
    assert RedOkAt(a, z, p) && RedOkAt(a, z, z);
  }

  lemma InnerRightBalancedAt(a: Arena, sub: seq<set<nat>>, bh: seq<nat>, z: nat, h: nat)
    requires ParentRedRight(a, sub, bh, z) && z == a.left[a.parent[z]]
    requires 1 <= h < |a.key|
    ensures BalancedAt(RightRotated(a, a.parent[z]), bh, h)
  {
    var p := a.parent[z];
    var g := a.parent[p];
    RedParentFacts(a, sub, bh, z);
    InnerRightFacts(a, sub, bh, z);
    RightRotatedFields(a, sub, p);
    assert BalancedAt(a, bh, h);
    if h == p {
      assert BalancedAt(a, bh, z);
    } else if h == z {
      assert BalancedAt(a, bh, p);
    } else if h == g {
      assert BalancedAt(a, bh, p);
    }
  }

  lemma InnerRightRedOkAt(a: Arena, sub: seq<set<nat>>, bh: seq<nat>, z: nat, h: nat)
    requires ParentRedRight(a, sub, bh, z) && z == a.left[a.parent[z]]
    requires 1 <= h < |a.key|
    ensures RedOkAt(RightRotated(a, a.parent[z]), a.parent[z], h)
  {
    var p := a.parent[z];
    var g := a.parent[p];
    RedParentFacts(a, sub, bh, z);
    InnerRightFacts(a, sub, bh, z);
    RightRotatedFields(a, sub, p);
    assert RedOkAt(a, z, h);
  }

  /**
   * Case 2-2 leads to case 2-3: after the rotation the old parent is a red
   * right child of the red `z`, which is the right child of the grandparent,
   * and the uncle is still black.
   */
  lemma InnerRight(a: Arena, sub: seq<set<nat>>, bh: seq<nat>, z: nat)
    requires ParentRedRight(a, sub, bh, z) && z == a.left[a.parent[z]]
    requires a.color[a.left[a.parent[a.parent[z]]]] == Black
    ensures var p := a.parent[z]; var a1 := RightRotated(a, p);
      && ParentRedRight(a1, RightRotatedSub(a, sub, p), bh, p)
      && p == a1.right[a1.parent[p]]
      && a1.color[a1.left[a1.parent[a1.parent[p]]]] == Black
  {
    var p := a.parent[z];
    var g := a.parent[p];
    var a1, sub1 := RightRotated(a, p), RightRotatedSub(a, sub, p);
    RedParentFacts(a, sub, bh, z);
    InnerRightFacts(a, sub, bh, z);
    RightRotatedFields(a, sub, p);
    RightRotateWellFormed(a, sub, p);
    forall h | 1 <= h < |a.key| ensures BalancedAt(a1, bh, h) && RedOkAt(a1, p, h) {
      InnerRightBalancedAt(a, sub, bh, z, h);
      InnerRightRedOkAt(a, sub, bh, z, h);
    }
    assert a1.parent[p] == z && a1.parent[z] == g && a1.right[g] == z;
  }

  // Case 2-3: the uncle is black and `z` is a right child; the parent turns
  // black, the grandparent red, and a left rotation at the grandparent ends
  // the loop

  /** Parent black, grandparent red, then a left rotation at the grandparent. */
  function OuterRightStep(a: Arena, z: nat): (r: Arena)
    requires Shaped(a) && z < |a.key|
  {
    var p := a.parent[z];
    var g := a.parent[p];
    LeftRotated(Recolored(Recolored(a, p, Black), g, Red), g)
  }

  /** The subtree sets after case 2-3. */
  ghost function OuterRightSub(a: Arena, sub: seq<set<nat>>, z: nat): (r: seq<set<nat>>)
    requires Shaped(a) && |sub| == |a.key| && z < |a.key|
    ensures |r| == |sub|
  {
    var p := a.parent[z];
    var g := a.parent[p];
    LeftRotatedSub(Recolored(Recolored(a, p, Black), g, Red), sub, g)
  }

  /** The nodes involved in case 2-3 are distinct and linked as expected. */
  lemma OuterRightFacts(a: Arena, sub: seq<set<nat>>, bh: seq<nat>, z: nat)
    requires ParentRedRight(a, sub, bh, z) && z == a.right[a.parent[z]]
    requires a.color[a.left[a.parent[a.parent[z]]]] == Black
    ensures var p := a.parent[z]; var g := a.parent[p]; var gg := a.parent[g];
      && z != p && z != g && p != g && a.left[p] != z && a.left[p] != g
      && gg != p && gg != z && gg != g && a.root != p && a.left[g] != p && a.left[g] != g
      && a.right[z] != p && a.right[z] != g && a.left[z] != p && a.left[z] != g
      && a.color[a.left[p]] == Black && a.color[a.right[z]] == Black && a.color[a.left[z]] == Black
      && (gg != Nil ==> && (a.right[gg] != g || a.left[gg] != g)
                        && a.right[gg] != p && a.left[gg] != p
                        && (a.color[gg] == Red ==> a.color[a.right[gg]] == Black && a.color[a.left[gg]] == Black))
  {
    var p := a.parent[z];
    var g := a.parent[p];
    var gg := a.parent[g];
    RedParentFacts(a, sub, bh, z);
    LeftRotateNeighbours(a, sub, g);
    ChildBelow(a, sub, p, z);
    SubtreeSmaller(a, sub, z);
    assert SubtreeOk(a, sub, p) && SubtreeOk(a, sub, g);
    assert RedOkAt(a, z, p) && RedOkAt(a, z, z);
    if gg != Nil {
      assert RedOkAt(a, z, gg) && ChildLinksOk(a, gg) && SubtreeOk(a, sub, gg);
      SubtreeSmaller(a, sub, g);
    }
  }

  /** The node table after case 2-3, node by node. */
  lemma OuterRightFields(a: Arena, sub: seq<set<nat>>, bh: seq<nat>, z: nat)
    requires ParentRedRight(a, sub, bh, z) && z == a.right[a.parent[z]]
    requires a.color[a.left[a.parent[a.parent[z]]]] == Black
    ensures var r := OuterRightStep(a, z);
      var p := a.parent[z]; var g := a.parent[p]; var gg := a.parent[g];
      && Shaped(r) && r.key == a.key
      && r.color[p] == Black && r.color[g] == Red
      && (forall h | 0 <= h < |a.key| && h != p && h != g :: r.color[h] == a.color[h])
      && r.right[p] == z && r.left[p] == g && r.right[g] == a.left[p] && r.left[g] == a.left[g]
      && r.parent[g] == p && r.parent[p] == gg && r.parent[z] == p
      && r.root == (if gg == Nil then p else a.root)
      && (gg != Nil && a.left[gg] == g ==> r.left[gg] == p && r.right[gg] == a.right[gg])
      && (gg != Nil && a.left[gg] != g ==> r.right[gg] == p && r.left[gg] == a.left[gg])
      && (forall h | 0 <= h < |a.key| && h != p && h != g && h != gg ::
            r.right[h] == a.right[h] && r.left[h] == a.left[h])
  {
    var p := a.parent[z];
    var g := a.parent[p];
    var a1 := Recolored(Recolored(a, p, Black), g, Red);
    RedParentFacts(a, sub, bh, z);
    OuterRightFacts(a, sub, bh, z);
    RecolorWellFormed(a, sub, p, Black);
    RecolorWellFormed(Recolored(a, p, Black), sub, g, Red);
    LeftRotatedFields(a1, sub, g);
  }

  /** Black heights still match at the parent and the grandparent after case 2-3. */
  lemma OuterRightBalancedBelow(a: Arena, sub: seq<set<nat>>, bh: seq<nat>, z: nat)
    requires ParentRedRight(a, sub, bh, z) && z == a.right[a.parent[z]]
    requires a.color[a.left[a.parent[a.parent[z]]]] == Black
    ensures BalancedAt(OuterRightStep(a, z), bh, a.parent[z])
    ensures BalancedAt(OuterRightStep(a, z), bh, a.parent[a.parent[z]])
  {
    var p := a.parent[z];
    var g := a.parent[p];
    RedParentFacts(a, sub, bh, z);
    OuterRightFacts(a, sub, bh, z);
    OuterRightFields(a, sub, bh, z);
    assert BalancedAt(a, bh, p) && BalancedAt(a, bh, g);
  }

  /** Black heights still match above the old grandparent after case 2-3. */
  lemma OuterRightBalancedAbove(a: Arena, sub: seq<set<nat>>, bh: seq<nat>, z: nat)
    requires ParentRedRight(a, sub, bh, z) && z == a.right[a.parent[z]]
    requires a.color[a.left[a.parent[a.parent[z]]]] == Black
    requires a.parent[a.parent[a.parent[z]]] != Nil
    ensures BalancedAt(OuterRightStep(a, z), bh, a.parent[a.parent[a.parent[z]]])
  {
    var p := a.parent[z];
    var g := a.parent[p];
    var h := a.parent[g];
    var r := OuterRightStep(a, z);
    RedParentFacts(a, sub, bh, z);
    OuterRightFacts(a, sub, bh, z);
    OuterRightFields(a, sub, bh, z);
    assert BalancedAt(a, bh, g) && BalancedAt(a, bh, h);
    assert g != a.root && ParentLinkOk(a, g);
    if a.left[h] == g {
      assert bh[h] == bh[r.left[h]] + Weight(r.color[r.left[h]]);
    } else {
      assert bh[h] == bh[r.right[h]] + Weight(r.color[r.right[h]]);
    }
  }

  lemma OuterRightBalancedAt(a: Arena, sub: seq<set<nat>>, bh: seq<nat>, z: nat, h: nat)
    requires ParentRedRight(a, sub, bh, z) && z == a.right[a.parent[z]]
    requires a.color[a.left[a.parent[a.parent[z]]]] == Black
    requires 1 <= h < |a.key|
    ensures BalancedAt(OuterRightStep(a, z), bh, h)
  {
    var p := a.parent[z];
    var g := a.parent[p];
    if h == p || h == g {
      OuterRightBalancedBelow(a, sub, bh, z);
    } else if h == a.parent[g] {
      OuterRightBalancedAbove(a, sub, bh, z);
    } else {
      RedParentFacts(a, sub, bh, z);
      OuterRightFacts(a, sub, bh, z);
      OuterRightFields(a, sub, bh, z);
      assert BalancedAt(a, bh, h) && ChildLinksOk(a, h);
    }
  }

  lemma OuterRightRedOkAt(a: Arena, sub: seq<set<nat>>, bh: seq<nat>, z: nat, h: nat)
    requires ParentRedRight(a, sub, bh, z) && z == a.right[a.parent[z]]
    requires a.color[a.left[a.parent[a.parent[z]]]] == Black
    requires 1 <= h < |a.key|
    ensures NoRedRedAt(OuterRightStep(a, z), h) && RedOkAt(OuterRightStep(a, z), z, h)
  {
    var p := a.parent[z];
    var g := a.parent[p];
    RedParentFacts(a, sub, bh, z);
    OuterRightFacts(a, sub, bh, z);
    OuterRightFields(a, sub, bh, z);
    assert RedOkAt(a, z, h) && ChildLinksOk(a, h);
  }

  /**
   * Case 2-3 leaves no red-red edge at all and keeps every black height; the
   * parent of `z` is black afterwards, so the loop ends.
   */
  lemma OuterRight(a: Arena, sub: seq<set<nat>>, bh: seq<nat>, z: nat)
    requires ParentRedRight(a, sub, bh, z) && z == a.right[a.parent[z]]
    requires a.color[a.left[a.parent[a.parent[z]]]] == Black
    ensures var r := OuterRightStep(a, z);
      && FixupInv(r, OuterRightSub(a, sub, z), bh, z)
      && NoRedRed(r)
      && r.color[r.parent[z]] == Black
  {
    var p := a.parent[z];
    var g := a.parent[p];
    var a1 := Recolored(Recolored(a, p, Black), g, Red);
    var r := OuterRightStep(a, z);
    RedParentFacts(a, sub, bh, z);
    OuterRightFacts(a, sub, bh, z);
    RecolorWellFormed(a, sub, p, Black);
    RecolorWellFormed(Recolored(a, p, Black), sub, g, Red);
    LeftRotateWellFormed(a1, sub, g);
    OuterRightFields(a, sub, bh, z);
    forall h | 1 <= h < |a.key| ensures BalancedAt(r, bh, h) && NoRedRedAt(r, h) && RedOkAt(r, z, h) {
      OuterRightBalancedAt(a, sub, bh, z, h);
      OuterRightRedOkAt(a, sub, bh, z, h);
    }
  }
  // ---------------------------------------------------------------------------
  // Loop exit

  /**
   * Once the parent of `z` is black the only possible violation left is a
   * red root; blackening the root gives a red-black tree.
   */
  lemma FixupDone(a: Arena, sub: seq<set<nat>>, bh: seq<nat>, z: nat)
    requires FixupInv(a, sub, bh, z) && a.color[a.parent[z]] == Black
    ensures 1 <= a.root < |a.key|
    ensures WellFormed(Recolored(a, a.root, Black), sub)
    ensures RedBlack(Recolored(a, a.root, Black), bh)
  {
    var r := Recolored(a, a.root, Black);
    assert z in sub[a.root];
    RecolorWellFormed(a, sub, a.root, Black);
    forall h | 1 <= h < |a.key| ensures BalancedAt(r, bh, h) && NoRedRedAt(r, h) {
      assert BalancedAt(a, bh, h) && RedOkAt(a, z, h) && ChildLinksOk(a, h);
    }
  }
}
