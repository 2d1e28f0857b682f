/**
 * The tree object of `rbtree.c` and its operations.
 *
 * An `RbTree` holds the node table of one tree (see `RbArena`) in fields
 * that the operations rewrite in place, as the C code rewrites the fields of
 * its `node_t` records. The rotations, the linking of a new leaf and the
 * cases of the fix-up state their new state as the matching step function of
 * the earlier modules applied to the old state; the fix-up loop and the
 * insert state the invariants they keep, and the queries state outright what
 * they return. The lemmas of those modules carry the red-black and
 * search-tree facts across.
 */
module RedBlackTree {
  import opened RbArena
  import opened RbRotate
  import opened RbFixup
  import opened RbInsert
  import opened RbQuery

  /** A node handle or C's `NULL`, which is not the sentinel. */
  datatype Option<T> = None | Some(value: T)

  class RbTree {
    var key: seq<int>
    var color: seq<Color>
    var left: seq<nat>
    var right: seq<nat>
    var parent: seq<nat>
    var root: nat
    /** The handles in the subtree of each node. */
    ghost var sub: seq<set<nat>>
    /** The black height of each node. */
    ghost var bh: seq<nat>

    /** The node table as a value. */
    function State(): Arena
      reads this
    {
      Arena(key, color, left, right, parent, root)
    }

    /** A red-black search tree with a black, self-linked sentinel. */
    ghost predicate Valid()
      reads this
    {
      WellFormed(State(), sub) && RedBlack(State(), bh)
    }

    /** The keys stored in the tree. */
    ghost function KeySet(): set<int>
      reads this
    {
      Keys(State())
    }

    /** The keys in in-order, which is the order of the keys themselves. */
    ghost function InOrderKeys(): (s: seq<int>)
      requires WellFormed(State(), sub)
      reads this
      ensures Increasing(s) && Elems(s) == KeySet()
    {
      ContentsSorted(State(), sub);
      Contents(State(), sub)
    }

    /** `new_rbtree`: an empty tree whose root is the black, self-linked sentinel. */
    constructor ()
      ensures Valid() && KeySet() == {}
      ensures root == Nil && key == [0]
      ensures color == [Black] && left == [Nil] && right == [Nil] && parent == [Nil]
    {
      key := [0];
      color := [Black];
      left := [Nil];
      right := [Nil];
      parent := [Nil];
      root := Nil;
      sub := [{}];
      bh := [0];
    }

    /** `left_rotate`: `x`'s right child takes `x`'s place and `x` becomes its left child. */
    method LeftRotate(x: nat)
      requires WellFormed(State(), sub) && 1 <= x < |key| && right[x] != Nil
      modifies this
      ensures State() == LeftRotated(old(State()), x)
      ensures sub == LeftRotatedSub(old(State()), old(sub), x) && bh == old(bh)
      ensures WellFormed(State(), sub)
      ensures key == old(key) && color == old(color)
      ensures InOrderKeys() == old(InOrderKeys())
    {
      ghost var a := State();
      var y := right[x];
      right := right[x := left[y]];
      if left[y] != Nil {
        parent := parent[left[y] := x];
      }
      parent := parent[y := parent[x]];
      if parent[x] == Nil {
        root := y;
      } else if x == left[parent[x]] {
        left := left[parent[x] := y];
      } else {
        right := right[parent[x] := y];
      }
      left := left[y := x];
      parent := parent[x := y];
      assert State() == LeftRotated(a, x);
      LeftRotateKeepsContents(a, sub, x);
      sub := LeftRotatedSub(a, sub, x);
    }

    /** `right_rotate`: `x`'s left child takes `x`'s place and `x` becomes its right child. */
    method RightRotate(x: nat)
      requires WellFormed(State(), sub) && 1 <= x < |key| && left[x] != Nil
      modifies this
      ensures State() == RightRotated(old(State()), x)
      ensures sub == RightRotatedSub(old(State()), old(sub), x) && bh == old(bh)
      ensures WellFormed(State(), sub)
      ensures key == old(key) && color == old(color)
      ensures InOrderKeys() == old(InOrderKeys())
    {
      ghost var a := State();
      var y := left[x];
      left := left[x := right[y]];
      if right[y] != Nil {
        parent := parent[right[y] := x];
      }
      parent := parent[y := parent[x]];
      if parent[x] == Nil {
        root := y;
      } else if x == right[parent[x]] {
        right := right[parent[x] := y];
      } else {
        left := left[parent[x] := y];
      }
      right := right[y := x];
      parent := parent[x := y];
      assert State() == RightRotated(a, x);
      RightRotateKeepsContents(a, sub, x);
      sub := RightRotatedSub(a, sub, x);
    }
  
    /**
     * `rbtree_insert_fixup`: starting from the red node `z`, the only
     * possible violation of the red-black properties, recolour and rotate
     * upwards until `z`'s parent is black, then blacken the root.
     */
    method InsertFixup(z0: nat)
      requires FixupInv(State(), sub, bh, z0)
      modifies this
      ensures Valid()
      ensures key == old(key)
      ensures InOrderKeys() == old(InOrderKeys())
    {
      ghost var a0, sub0 := State(), sub;
      var z := z0;
      while color[parent[z]] == Red
        invariant FixupInv(State(), sub, bh, z)
        invariant key == old(key)
        decreases if color[parent[z]] == Red then |sub[root]| - |sub[z]| + 1 else 0
      {
        RedParentFacts(State(), sub, bh, z);
        SubtreeWithinRoot(State(), sub, z);
        if parent[z] == left[parent[parent[z]]] {
          var uncle := right[parent[parent[z]]];
          if color[uncle] == Red {
            z := RecolorUncle(z, uncle);
          } else {
            z := RotateLeftCases(z);
          }
        } else {
          var uncle := left[parent[parent[z]]];
          if color[uncle] == Red {
            z := RecolorUncle(z, uncle);
          } else {
            z := RotateRightCases(z);
          }
        }
      }
      ghost var a := State();
      FixupDone(a, sub, bh, z);
      color := color[root := Black];
      assert State() == Recolored(a, a.root, Black);
      ContentsDeterminedByKeys(a0, sub0, State(), sub);
    }

    /**
     * Cases 1-1 and 2-1 of the fix-up: with a red parent and a red uncle,
     * parent and uncle turn black, the grandparent red, and `z` moves up to
     * the grandparent, whose black height grows by one.
     */
    method RecolorUncle(z0: nat, uncle: nat) returns (z: nat)
      requires || (ParentRedLeft(State(), sub, bh, z0) && uncle == right[parent[parent[z0]]])
               || (ParentRedRight(State(), sub, bh, z0) && uncle == left[parent[parent[z0]]])
      requires color[uncle] == Red
      modifies this
      ensures z == old(parent[parent[z0]])
      ensures FixupInv(State(), sub, bh, z) && key == old(key)
      ensures sub == old(sub) && root == old(root) && old(|sub[z0]|) < |sub[z]| <= |sub[root]|
      ensures State() == if old(parent[z0] == left[parent[parent[z0]]])
                         then UncleRedLeftStep(old(State()), z0)
                         else UncleRedRightStep(old(State()), z0)
      ensures bh == old(bh[parent[parent[z0]] := bh[parent[parent[z0]]] + 1])
    {
      ghost var a, g := State(), parent[parent[z0]];
      UncleRed(a, sub, bh, z0, uncle);
      z := z0;
      color := color[parent[z] := Black];
      color := color[uncle := Black];
      color := color[parent[parent[z]] := Red];
      bh := bh[g := bh[g] + 1];
      z := parent[parent[z]];
      assert State() == Recolored(Recolored(Recolored(a, a.parent[z0], Black), uncle, Black), g, Red);
    }

    /**
     * Cases 1-2 and 1-3 of the fix-up: with a red parent that is a left child
     * and a black uncle, an inner `z` (a right child) moves up to its parent,
     * which is rotated left; then `OuterLeftCase` finishes.
     */
    method RotateLeftCases(z0: nat) returns (z: nat)
      requires ParentRedLeft(State(), sub, bh, z0)
      requires color[right[parent[parent[z0]]]] == Black
      modifies this
      ensures FixupInv(State(), sub, bh, z) && key == old(key)
      ensures color[parent[z]] == Black
      ensures z == if old(z0 == right[parent[z0]]) then old(parent[z0]) else z0
      ensures State() == if old(z0 == right[parent[z0]])
                         then OuterLeftStep(LeftRotated(old(State()), old(parent[z0])), old(parent[z0]))
                         else OuterLeftStep(old(State()), z0)
    {
      z := z0;
      RedParentFacts(State(), sub, bh, z);
      if z == right[parent[z]] {
        InnerLeft(State(), sub, bh, z);
        z := parent[z];
        LeftRotate(z);
      }
      z := OuterLeftCase(z);
    }

    /**
     * Case 1-3 of the fix-up: `z` is the left child of a red left child and
     * the uncle is black; parent and grandparent swap colours and the
     * grandparent is rotated right, which leaves `z` with a black parent and
     * no red node with a red child.
     */
    method OuterLeftCase(z0: nat) returns (z: nat)
      requires ParentRedLeft(State(), sub, bh, z0) && z0 == left[parent[z0]]
      requires color[right[parent[parent[z0]]]] == Black
      modifies this
      ensures z == z0
      ensures FixupInv(State(), sub, bh, z) && key == old(key)
      ensures color[parent[z]] == Black && NoRedRed(State())
      ensures State() == OuterLeftStep(old(State()), z0) && sub == OuterLeftSub(old(State()), old(sub), z0)
      ensures bh == old(bh)
    {
      z := z0;
      ghost var a, sub1 := State(), sub;
      OuterLeft(a, sub, bh, z);
      color := color[parent[z] := Black];
      color := color[parent[parent[z]] := Red];
      RecolorWellFormed(a, sub, a.parent[z], Black);
      RecolorWellFormed(Recolored(a, a.parent[z], Black), sub, a.parent[a.parent[z]], Red);
      assert State() == Recolored(Recolored(a, a.parent[z], Black), a.parent[a.parent[z]], Red);
      RightRotate(parent[parent[z]]);
      assert State() == OuterLeftStep(a, z) && sub == OuterLeftSub(a, sub1, z);
    }

    /** Cases 2-2 and 2-3 of the fix-up, the mirror image of `RotateLeftCases`. */
    method RotateRightCases(z0: nat) returns (z: nat)
      requires ParentRedRight(State(), sub, bh, z0)
      requires color[left[parent[parent[z0]]]] == Black
      modifies this
      ensures FixupInv(State(), sub, bh, z) && key == old(key)
      ensures color[parent[z]] == Black
      ensures z == if old(z0 == left[parent[z0]]) then old(parent[z0]) else z0
      ensures State() == if old(z0 == left[parent[z0]])
                         then OuterRightStep(RightRotated(old(State()), old(parent[z0])), old(parent[z0]))
                         else OuterRightStep(old(State()), z0)
    {
      z := z0;
      RedParentFacts(State(), sub, bh, z);
      if z == left[parent[z]] {
        InnerRight(State(), sub, bh, z);
        z := parent[z];
        RightRotate(z);
      }
      z := OuterRightCase(z);
    }

    /** Case 2-3 of the fix-up, the mirror image of `OuterLeftCase`. */
    method OuterRightCase(z0: nat) returns (z: nat)
      requires ParentRedRight(State(), sub, bh, z0) && z0 == right[parent[z0]]
      requires color[left[parent[parent[z0]]]] == Black
      modifies this
      ensures z == z0
      ensures FixupInv(State(), sub, bh, z) && key == old(key)
      ensures color[parent[z]] == Black && NoRedRed(State())
      ensures State() == OuterRightStep(old(State()), z0) && sub == OuterRightSub(old(State()), old(sub), z0)
      ensures bh == old(bh)
    {
      z := z0;
      ghost var a, sub1 := State(), sub;
      OuterRight(a, sub, bh, z);
      color := color[parent[z] := Black];
      color := color[parent[parent[z]] := Red];
      RecolorWellFormed(a, sub, a.parent[z], Black);
      RecolorWellFormed(Recolored(a, a.parent[z], Black), sub, a.parent[a.parent[z]], Red);
      assert State() == Recolored(Recolored(a, a.parent[z], Black), a.parent[a.parent[z]], Red);
      LeftRotate(parent[parent[z]]);
      assert State() == OuterRightStep(a, z) && sub == OuterRightSub(a, sub1, z);
    }

    /**
     * `rbtree_insert`: a key already present returns its node and leaves the
     * tree untouched; otherwise a red leaf is linked under the last node
     * visited and the fix-up restores the red-black properties.
     */
    method Insert(k: int) returns (n: nat)
      requires Valid()
      modifies this
      ensures Valid()
      ensures 1 <= n < |key| && key[n] == k
      ensures KeySet() == old(KeySet()) + {k}
      ensures k in old(KeySet()) ==> State() == old(State()) && sub == old(sub) && bh == old(bh)
      ensures k !in old(KeySet()) ==> n == old(|key|) && key == old(key) + [k]
    {
      var found, p, cur := Descend(k);
      if found {
        return cur;
      }
      n := Link(k, p);
      InsertFixup(n);
    }

    /**
     * The search loop of `rbtree_insert`: either the node holding `k`, or the
     * last node visited (`Nil` on an empty tree), under which `k` belongs.
     */
    method Descend(k: int) returns (found: bool, p: nat, cur: nat)
      requires Valid()
      ensures found <==> k in KeySet()
      ensures found ==> 1 <= cur < |key| && key[cur] == k
      ensures !found ==> SearchAt(State(), sub, k, p, Nil)
    {
      p := Nil;
      cur := root;
      SearchStart(State(), sub, k);
      while cur != Nil
        invariant SearchAt(State(), sub, k, p, cur)
        decreases |sub[cur]|
      {
        ghost var p0 := p;
        p := cur;
        if k == key[cur] {
          assert cur in sub[root];
          return true, p, cur;
        } else if k < key[cur] {
          SearchStep(State(), sub, k, p0, cur);
          cur := left[cur];
        } else {
          SearchStep(State(), sub, k, p0, cur);
          cur := right[cur];
        }
      }
      found := false;
    }

    /**
     * The linking half of `rbtree_insert`: a red leaf holding `k` becomes the
     * root, or the child of `p` on the side `k` falls.
     */
    method Link(k: int, p: nat) returns (n: nat)
      requires SearchAt(State(), sub, k, p, Nil) && RedBlack(State(), bh)
      modifies this
      ensures n == old(|key|) && key == old(key) + [k]
      ensures State() == Attach(old(State()), k, p)
      ensures FixupInv(State(), sub, bh, n)
      ensures KeySet() == old(KeySet()) + {k} && k !in old(KeySet())
    {
      ghost var a := State();
      AttachStartsFixup(a, sub, bh, k, p);
      n := |key|;
      key := key + [k];
      color := color + [Red];
      left := left + [Nil];
      right := right + [Nil];
      parent := parent + [p];
      if p == Nil {
        root := n;
      } else if k < key[p] {
        left := left[p := n];
      } else {
        right := right[p := n];
      }
      sub := AttachSub(sub, p);
      bh := bh + [1];
      assert State() == Attach(a, k, p);
    }

    /** `rbtree_find`: the node holding `k`, or `NULL` when no node does. */
    method Find(k: int) returns (r: Option<nat>)
      requires Valid()
      ensures r.Some? <==> k in KeySet()
      ensures r.Some? ==> 1 <= r.value < |key| && key[r.value] == k
    {
      var cur := root;
      if k in KeySet() {
        var h :| 1 <= h < |key| && key[h] == k;
        assert h in sub[root];
      }
      while cur != Nil
        invariant 0 <= cur < |key| == |sub|
        invariant k in KeySet() ==> k in KeysOf(State(), sub[cur])
        decreases |sub[cur]|
      {
        if k < key[cur] {
          FindStep(State(), sub, k, cur);
          cur := left[cur];
        } else if k > key[cur] {
          FindStep(State(), sub, k, cur);
          cur := right[cur];
        } else {
          return Some(cur);
        }
      }
      assert sub[Nil] == {};
      return None;
    }

    /** `rbtree_min`: the node with the smallest key, or `NULL` on an empty tree. */
    method Min() returns (r: Option<nat>)
      requires Valid()
      ensures r.None? <==> KeySet() == {}
      ensures r.Some? ==> && 1 <= r.value < |key| && key[r.value] in KeySet()
                          && forall x | x in KeySet() :: key[r.value] <= x
    {
      var cur := root;
      EmptyIffNoRoot(State(), sub);
      if cur == Nil {
        return None;
      }
      while left[cur] != Nil
        invariant 1 <= cur < |key| && BelowAllOutside(State(), sub, cur)
        decreases |sub[cur]|
      {
        MinStep(State(), sub, cur);
        cur := left[cur];
      }
      MinEnd(State(), sub, cur);
      return Some(cur);
    }

    /** `rbtree_max`: the node with the largest key, or `NULL` on an empty tree. */
    method Max() returns (r: Option<nat>)
      requires Valid()
      ensures r.None? <==> KeySet() == {}
      ensures r.Some? ==> && 1 <= r.value < |key| && key[r.value] in KeySet()
                          && forall x | x in KeySet() :: x <= key[r.value]
    {
      var cur := root;
      EmptyIffNoRoot(State(), sub);
      if cur == Nil {
        return None;
      }
      while right[cur] != Nil
        invariant 1 <= cur < |key| && AboveAllOutside(State(), sub, cur)
        decreases |sub[cur]|
      {
        MaxStep(State(), sub, cur);
        cur := right[cur];
      }
      MaxEnd(State(), sub, cur);
      return Some(cur);
    }

    /**
     * `delete_node`: a post-order walk that frees the subtree of `h`. The
     * result is the order of the frees: every real node below `h` exactly
     * once, never the sentinel, and `h` itself last.
     */
    method DeleteNode(h: nat) returns (freed: seq<nat>)
      requires WellFormed(State(), sub) && h < |key|
      ensures forall i | 0 <= i < |freed| :: 1 <= freed[i] < |key| && freed[i] in sub[h]
      ensures forall g | g in sub[h] :: g in freed
      ensures forall i, j | 0 <= i < j < |freed| :: freed[i] != freed[j]
      ensures h != Nil ==> |freed| > 0 && freed[|freed| - 1] == h
      decreases |sub[h]|
    {
      if h == Nil {
        return [];
      }
      assert SubtreeOk(State(), sub, h);
      SubtreeSmaller(State(), sub, h);
      var l := DeleteNode(left[h]);
      var r := DeleteNode(right[h]);
      freed := l + r + [h];
      PostOrderDistinct(l, r, h, sub[left[h]], sub[right[h]]);
    }

    /** Two duplicate-free walks of disjoint subtrees, then their root, repeat nothing. */
    static lemma PostOrderDistinct(l: seq<nat>, r: seq<nat>, h: nat, L: set<nat>, R: set<nat>)
      requires forall i | 0 <= i < |l| :: l[i] in L
      requires forall i | 0 <= i < |r| :: r[i] in R
      requires forall i, j | 0 <= i < j < |l| :: l[i] != l[j]
      requires forall i, j | 0 <= i < j < |r| :: r[i] != r[j]
      requires L !! R && h !in L && h !in R
      ensures forall i, j | 0 <= i < j < |l + r + [h]| :: (l + r + [h])[i] != (l + r + [h])[j]
    {
      var s := l + r + [h];
      forall i, j | 0 <= i < j < |s|
        ensures s[i] != s[j]
      {
        if j == |s| - 1 {
          assert s[j] == h;
          assert i < |l| ==> s[i] == l[i];
          assert |l| <= i < |l| + |r| ==> s[i] == r[i - |l|];
        } else if j < |l| {
          assert s[i] == l[i] && s[j] == l[j];
        } else if i >= |l| {
          assert s[i] == r[i - |l|] && s[j] == r[j - |l|];
        } else {
          assert s[i] == l[i] && s[j] == r[j - |l|];
        }
      }
    }

    /**
     * `delete_rbtree`: frees every node reachable from the root, each real
     * node exactly once. The sentinel and the tree record are freed after it.
     */
    method DeleteTree() returns (freed: seq<nat>)
      requires WellFormed(State(), sub)
      ensures forall i | 0 <= i < |freed| :: 1 <= freed[i] < |key|
      ensures forall g | 1 <= g < |key| :: g in freed
      ensures forall i, j | 0 <= i < j < |freed| :: freed[i] != freed[j]
    {
      freed := DeleteNode(root);
    }

    /** `rbtree_erase` is a stub: it reports 0 and leaves the tree as it was. */
    method Erase(p: nat) returns (r: int)
      ensures r == 0
    {
      r := 0;
    }

    /** `rbtree_to_array` is a stub: it reports 0 and writes nothing to `arr`. */
    method ToArray(arr: array<int>, n: nat) returns (r: int)
      ensures r == 0
    {
      r := 0;
    }
  }
}
