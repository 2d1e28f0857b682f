/**
 * What the read-only descents `rbtree_find`, `rbtree_min` and `rbtree_max`
 * rely on: where a key can be below a node, and when a node holds the
 * smallest or largest key of the tree.
 */
module RbQuery {
  import opened RbArena

  /** The tree is empty exactly when the root pointer is the sentinel. */
  lemma EmptyIffNoRoot(a: Arena, sub: seq<set<nat>>)
    requires WellFormed(a, sub)
    ensures a.root == Nil <==> Keys(a) == {}
    ensures a.root != Nil ==> 1 <= a.root < |a.key| && a.key[a.root] in Keys(a)
  {
    if a.root == Nil {
      assert 1 !in sub[a.root];
    } else {
      assert a.root in sub[a.root];
      assert a.key[a.root] in Keys(a);
    }
  }

  /** A key that is below `c` but is not `c`'s own key is on the side the comparison picks. */
  lemma FindStep(a: Arena, sub: seq<set<nat>>, k: int, c: nat)
    requires WellFormed(a, sub) && 1 <= c < |a.key| && k != a.key[c]
    ensures k in KeysOf(a, sub[c]) && k < a.key[c] ==> k in KeysOf(a, sub[a.left[c]])
    ensures k in KeysOf(a, sub[c]) && a.key[c] < k ==> k in KeysOf(a, sub[a.right[c]])
    ensures |sub[a.left[c]]| < |sub[c]| && |sub[a.right[c]]| < |sub[c]|
  {
    KeysOfSplit(a, sub, c);
    SubtreeSmaller(a, sub, c);
  }

  /** Every real node outside the subtree of `c` holds a greater key than `c`. */
  ghost predicate BelowAllOutside(a: Arena, sub: seq<set<nat>>, c: nat)
    requires Shaped(a) && |sub| == |a.key| && c < |a.key|
  {
    forall g | 1 <= g < |a.key| && g !in sub[c] :: a.key[c] < a.key[g]
  }

  /** Every real node outside the subtree of `c` holds a smaller key than `c`. */
  ghost predicate AboveAllOutside(a: Arena, sub: seq<set<nat>>, c: nat)
    requires Shaped(a) && |sub| == |a.key| && c < |a.key|
  {
    forall g | 1 <= g < |a.key| && g !in sub[c] :: a.key[g] < a.key[c]
  }

  /** Going left keeps every key outside the current subtree above the current node's. */
  lemma MinStep(a: Arena, sub: seq<set<nat>>, c: nat)
    requires WellFormed(a, sub) && 1 <= c < |a.key| && a.left[c] != Nil && BelowAllOutside(a, sub, c)
    ensures BelowAllOutside(a, sub, a.left[c]) && |sub[a.left[c]]| < |sub[c]|
  {
    var l := a.left[c];
    assert SubtreeOk(a, sub, c) && OrderedAt(a, sub, c);
    SubtreeSmaller(a, sub, c);
    SubtreeSmaller(a, sub, l);
    assert a.key[l] < a.key[c];
    forall g | 1 <= g < |a.key| && g !in sub[l] ensures a.key[l] < a.key[g] {
      if g in sub[c] && g != c {
        assert g in sub[a.right[c]];
      }
    }
  }

  /** A node with no left child that is below everything outside its subtree holds the smallest key. */
  lemma MinEnd(a: Arena, sub: seq<set<nat>>, c: nat)
    requires WellFormed(a, sub) && 1 <= c < |a.key| && a.left[c] == Nil && BelowAllOutside(a, sub, c)
    ensures a.key[c] in Keys(a)
    ensures forall x | x in Keys(a) :: a.key[c] <= x
  {
    assert SubtreeOk(a, sub, c) && OrderedAt(a, sub, c);
    forall x | x in Keys(a) ensures a.key[c] <= x {
      var g :| 1 <= g < |a.key| && a.key[g] == x;
      if g in sub[c] && g != c {
        assert g in sub[a.right[c]];
      }
    }
  }

  /** Going right keeps every key outside the current subtree below the current node's. */
  lemma MaxStep(a: Arena, sub: seq<set<nat>>, c: nat)
    requires WellFormed(a, sub) && 1 <= c < |a.key| && a.right[c] != Nil && AboveAllOutside(a, sub, c)
    ensures AboveAllOutside(a, sub, a.right[c]) && |sub[a.right[c]]| < |sub[c]|
  {
    var r := a.right[c];
    assert SubtreeOk(a, sub, c) && OrderedAt(a, sub, c);
    SubtreeSmaller(a, sub, c);
    SubtreeSmaller(a, sub, r);
    assert a.key[c] < a.key[r];
    forall g | 1 <= g < |a.key| && g !in sub[r] ensures a.key[g] < a.key[r] {
      if g in sub[c] && g != c {
        assert g in sub[a.left[c]];
      }
    }
  }

  /** A node with no right child that is above everything outside its subtree holds the largest key. */
  lemma MaxEnd(a: Arena, sub: seq<set<nat>>, c: nat)
    requires WellFormed(a, sub) && 1 <= c < |a.key| && a.right[c] == Nil && AboveAllOutside(a, sub, c)
    ensures a.key[c] in Keys(a)
    ensures forall x | x in Keys(a) :: x <= a.key[c]
  {
    assert SubtreeOk(a, sub, c) && OrderedAt(a, sub, c);
    forall x | x in Keys(a) ensures x <= a.key[c] {
      var g :| 1 <= g < |a.key| && a.key[g] == x;
      if g in sub[c] && g != c {
        assert g in sub[a.left[c]];
      }
    }
  }
}
