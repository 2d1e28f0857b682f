/**
 * The node table of a red-black tree with a shared sentinel.
 *
 * A tree is an arena: node `h` has key `key[h]`, colour `color[h]` and the
 * handles `left[h]`, `right[h]` and `parent[h]`. Handle 0 is the sentinel
 * `nil`, which stands for every missing child and for the parent of the root.
 * Nodes are only ever added (erase is a stub), so every handle 1 .. N-1 is a
 * live node of the tree.
 *
 * The ghost sequence `sub` gives, for every handle, the set of handles in its
 * subtree; it is what makes the structure a finite tree (acyclic, every node
 * below the root exactly once) and what the ordering invariant is stated over.
 */
module RbArena {

  datatype Color = Red | Black

  /** Handle of the shared black sentinel. */
  const Nil: nat := 0

  /** The nodes of one tree, indexed by handle, and its root pointer. */
  datatype Arena = Arena(key: seq<int>, color: seq<Color>, left: seq<nat>, right: seq<nat>,
                         parent: seq<nat>, root: nat)

  /** All node tables have one entry per handle and every pointer is a handle. */
  ghost predicate Shaped(a: Arena) {
    && |a.key| >= 1
    && |a.color| == |a.key| && |a.left| == |a.key| && |a.right| == |a.key| && |a.parent| == |a.key|
    && a.root < |a.key|
    && (forall h | 0 <= h < |a.key| :: a.left[h] < |a.key| && a.right[h] < |a.key| && a.parent[h] < |a.key|)
  }

  /** The sentinel is black and points to itself on all three links. */
  ghost predicate SentinelOk(a: Arena)
    requires Shaped(a)
  {
    a.color[Nil] == Black && a.left[Nil] == Nil && a.right[Nil] == Nil && a.parent[Nil] == Nil
  }

  /** The subtree of `h` is `h` and the disjoint subtrees of its two children. */
  ghost predicate SubtreeOk(a: Arena, sub: seq<set<nat>>, h: nat)
    requires Shaped(a) && |sub| == |a.key| && h < |a.key|
  {
    && sub[h] == {h} + sub[a.left[h]] + sub[a.right[h]]
    && h !in sub[a.left[h]] && h !in sub[a.right[h]]
    && sub[a.left[h]] !! sub[a.right[h]]
  }

  /** A real child of `h` points back to `h`. */
  ghost predicate ChildLinksOk(a: Arena, h: nat)
    requires Shaped(a) && h < |a.key|
  {
    && (a.left[h] != Nil ==> a.parent[a.left[h]] == h)
    && (a.right[h] != Nil ==> a.parent[a.right[h]] == h)
  }

  /** A non-root node has a real parent, of which it is a child. */
  ghost predicate ParentLinkOk(a: Arena, h: nat)
    requires Shaped(a) && h < |a.key|
  {
    a.parent[h] != Nil && (a.left[a.parent[h]] == h || a.right[a.parent[h]] == h)
  }

  /** Binary-search order at `h`: smaller keys on the left, greater on the right. */
  ghost predicate OrderedAt(a: Arena, sub: seq<set<nat>>, h: nat)
    requires Shaped(a) && |sub| == |a.key| && h < |a.key|
  {
    && (forall g | g in sub[a.left[h]] && g < |a.key| :: a.key[g] < a.key[h])
    && (forall g | g in sub[a.right[h]] && g < |a.key| :: a.key[h] < a.key[g])
  }

  /**
   * The structural invariant: a sentinel-terminated binary search tree with
   * consistent parent links whose nodes are exactly the real handles.
   * It holds in every state, also in the middle of an insert fix-up.
   */
  ghost predicate WellFormed(a: Arena, sub: seq<set<nat>>) {
    && Shaped(a)
    && |sub| == |a.key|
    && SentinelOk(a)
    && sub[Nil] == {}
    && a.parent[a.root] == Nil
    && (forall g :: g in sub[a.root] <==> 1 <= g < |a.key|)
    && (forall h | 1 <= h < |a.key| :: SubtreeOk(a, sub, h))
    && (forall h | 1 <= h < |a.key| :: ChildLinksOk(a, h))
    && (forall h | 1 <= h < |a.key| && h != a.root :: ParentLinkOk(a, h))
    && (forall h | 1 <= h < |a.key| :: OrderedAt(a, sub, h))
  }

  /** A black node adds one to the black height seen from above it. */
  function Weight(c: Color): nat {
    if c == Black then 1 else 0
  }

  /** Both children of `h` lead to the same number of black nodes below `h`. */
  ghost predicate BalancedAt(a: Arena, bh: seq<nat>, h: nat)
    requires Shaped(a) && |bh| == |a.key| && h < |a.key|
  {
    && bh[h] == bh[a.left[h]] + Weight(a.color[a.left[h]])
    && bh[h] == bh[a.right[h]] + Weight(a.color[a.right[h]])
  }

  /**
   * `bh[h]` is the black height of `h`: the number of black nodes on every
   * path from `h` down to the sentinel, not counting `h` itself.
   */
  ghost predicate BlackBalanced(a: Arena, bh: seq<nat>)
    requires Shaped(a)
  {
    && |bh| == |a.key|
    && bh[Nil] == 0
    && (forall h | 1 <= h < |a.key| :: BalancedAt(a, bh, h))
  }

  /**
   * A red node `h` has black children, except that the child `z` of
   * `parent[z]` may be red too (the one violation an insert fix-up carries).
   */
  ghost predicate RedOkAt(a: Arena, z: nat, h: nat)
    requires Shaped(a) && z < |a.key| && h < |a.key|
  {
    a.color[h] == Red ==>
      && (a.color[a.left[h]] == Black || (h == a.parent[z] && a.left[h] == z))
      && (a.color[a.right[h]] == Black || (h == a.parent[z] && a.right[h] == z))
  }

  /** The only red node with a red child is `parent[z]`, and that child is `z`. */
  ghost predicate RedRedOnlyAt(a: Arena, z: nat)
    requires Shaped(a) && z < |a.key|
  {
    forall h | 1 <= h < |a.key| :: RedOkAt(a, z, h)
  }

  /** No red node has a red child (the exception above, taken at the sentinel, is void). */
  ghost predicate NoRedRed(a: Arena)
    requires Shaped(a)
  {
    forall h | 1 <= h < |a.key| :: NoRedRedAt(a, h)
  }

  /** A red node `h` has black children. */
  ghost predicate NoRedRedAt(a: Arena, h: nat)
    requires Shaped(a) && h < |a.key|
  {
    a.color[h] == Red ==> a.color[a.left[h]] == Black && a.color[a.right[h]] == Black
  }

  /** The red-black properties: black root, no red-red edge, equal black heights. */
  ghost predicate RedBlack(a: Arena, bh: seq<nat>) {
    && Shaped(a)
    && a.color[a.root] == Black
    && NoRedRed(a)
    && BlackBalanced(a, bh)
  }

  /** The keys stored at a set of handles. */
  ghost function KeysOf(a: Arena, s: set<nat>): set<int> {
    set h | h in s && h < |a.key| :: a.key[h]
  }

  /** The keys of the tree. */
  ghost function Keys(a: Arena): set<int> {
    set h | 1 <= h < |a.key| :: a.key[h]
  }

  ghost predicate Increasing(s: seq<int>) {
    forall i, j | 0 <= i < j < |s| :: s[i] < s[j]
  }

  ghost function Elems(s: seq<int>): set<int> {
    set x | x in s
  }

  // ---------------------------------------------------------------------------
  // Facts about the subtree sets

  lemma SubtreeSmaller(a: Arena, sub: seq<set<nat>>, h: nat)
    requires WellFormed(a, sub) && 1 <= h < |a.key|
    ensures |sub[a.left[h]]| < |sub[h]| && |sub[a.right[h]]| < |sub[h]|
    ensures sub[a.left[h]] <= sub[h] && sub[a.right[h]] <= sub[h] && h in sub[h]
  {
    assert SubtreeOk(a, sub, h);
    var l, r := sub[a.left[h]], sub[a.right[h]];
    assert sub[h] == ({h} + l) + r;
    assert |{h} + l| == |l| + 1;
    assert sub[a.right[h]] <= sub[h];
    assert sub[a.left[h]] < sub[h];
    assert sub[a.right[h]] < sub[h];
  }

  /** The parent of any proper descendant of `c` is itself in the subtree of `c`. */
  lemma {:induction false} ParentInSubtree(a: Arena, sub: seq<set<nat>>, c: nat, g: nat)
    requires WellFormed(a, sub) && c < |a.key|
    requires g in sub[c] && g != c
    ensures g < |a.key| && a.parent[g] in sub[c]
    decreases |sub[c]|
  {
    SubtreeNested(a, sub, c, g);
    assert c != Nil;
    assert SubtreeOk(a, sub, c) && ChildLinksOk(a, c);
    SubtreeSmaller(a, sub, c);
    var l, r := a.left[c], a.right[c];
    if g in sub[l] {
      if g == l {
        assert a.parent[g] == c;
      } else {
        ParentInSubtree(a, sub, l, g);
      }
    } else {
      assert g in sub[r];
      if g == r {
        assert a.parent[g] == c;
      } else {
        ParentInSubtree(a, sub, r, g);
      }
    }
  }

  /** Every node below `c` has its own subtree inside that of `c`. */
  lemma {:induction false} SubtreeNested(a: Arena, sub: seq<set<nat>>, c: nat, g: nat)
    requires WellFormed(a, sub) && c < |a.key| && g in sub[c]
    ensures g < |a.key| && sub[g] <= sub[c]
    decreases |sub[c]|
  {
    assert c != Nil;
    assert SubtreeOk(a, sub, c);
    SubtreeSmaller(a, sub, c);
    if g != c {
      if g in sub[a.left[c]] {
        SubtreeNested(a, sub, a.left[c], g);
      } else {
        SubtreeNested(a, sub, a.right[c], g);
      }
    }
  }

  /** No subtree has more nodes than the whole tree. */
  lemma SubtreeWithinRoot(a: Arena, sub: seq<set<nat>>, h: nat)
    requires WellFormed(a, sub) && h < |a.key|
    ensures |sub[h]| <= |sub[a.root]|
  {
    if h != Nil {
      assert h in sub[a.root];
      SubtreeNested(a, sub, a.root, h);
      assert sub[a.root] == sub[h] + (sub[a.root] - sub[h]);
    }
  }

  // ---------------------------------------------------------------------------
  // In-order traversal

  /** The keys of the subtree of `h`, left to right. */
  ghost function InOrder(a: Arena, sub: seq<set<nat>>, h: nat): seq<int>
    requires WellFormed(a, sub) && h < |a.key|
    decreases |sub[h]|
  {
    if h == Nil then []
    else
      SubtreeSmaller(a, sub, h);
      InOrder(a, sub, a.left[h]) + [a.key[h]] + InOrder(a, sub, a.right[h])
  }

  lemma ConcatIncreasing(l: seq<int>, k: int, r: seq<int>)
    requires Increasing(l) && Increasing(r)
    requires forall x | x in l :: x < k
    requires forall x | x in r :: k < x
    ensures Increasing(l + [k] + r)
  {
    var s := l + [k] + r;
    forall i, j | 0 <= i < j < |s| ensures s[i] < s[j] {
      if j < |l| {
      } else if j == |l| {
        assert s[i] in l;
      } else if i < |l| {
        assert s[i] in l && s[j] in r;
      } else if i == |l| {
        assert s[j] in r;
      } else {
        assert s[i] == r[i - |l| - 1] && s[j] == r[j - |l| - 1];
      }
    }
  }

  /** The in-order traversal of a subtree is strictly increasing and holds exactly its keys. */
  lemma {:induction false} InOrderSorted(a: Arena, sub: seq<set<nat>>, h: nat)
    requires WellFormed(a, sub) && h < |a.key|
    ensures Increasing(InOrder(a, sub, h))
    ensures Elems(InOrder(a, sub, h)) == KeysOf(a, sub[h])
    decreases |sub[h]|
  {
    if h != Nil {
      SubtreeSmaller(a, sub, h);
      assert SubtreeOk(a, sub, h) && OrderedAt(a, sub, h);
      var l, r := a.left[h], a.right[h];
      InOrderSorted(a, sub, l);
      InOrderSorted(a, sub, r);
      var sl, sr := InOrder(a, sub, l), InOrder(a, sub, r);
      KeysOfSplit(a, sub, h);
      forall x | x in sl ensures x < a.key[h] {
        assert x in Elems(sl);
      }
      forall x | x in sr ensures a.key[h] < x {
        assert x in Elems(sr);
      }
      ConcatIncreasing(sl, a.key[h], sr);
      ElemsConcat(sl, a.key[h], sr);
    }
  }

  lemma ElemsConcat(l: seq<int>, k: int, r: seq<int>)
    ensures Elems(l + [k] + r) == Elems(l) + {k} + Elems(r)
  {
  }

  /** The keys of a subtree are those of the left subtree (all smaller), the root's, and those of the right (all greater). */
  lemma KeysOfSplit(a: Arena, sub: seq<set<nat>>, h: nat)
    requires WellFormed(a, sub) && 1 <= h < |a.key|
    ensures KeysOf(a, sub[h]) == KeysOf(a, sub[a.left[h]]) + {a.key[h]} + KeysOf(a, sub[a.right[h]])
    ensures forall k | k in KeysOf(a, sub[a.left[h]]) :: k < a.key[h]
    ensures forall k | k in KeysOf(a, sub[a.right[h]]) :: a.key[h] < k
  {
    assert SubtreeOk(a, sub, h) && OrderedAt(a, sub, h);
  }

  lemma NonEmptyHasElems(s: seq<int>)
    ensures s != [] ==> s[0] in Elems(s)
  {
  }

  /** A strictly increasing sequence is determined by its set of elements. */
  lemma {:induction false} IncreasingUnique(s: seq<int>, t: seq<int>)
    requires Increasing(s) && Increasing(t) && Elems(s) == Elems(t)
    ensures s == t
    decreases |s|
  {
    if s == [] {
      NonEmptyHasElems(t);
    } else {
      assert s[0] in Elems(t) && t[0] in Elems(s);
      var i :| 0 <= i < |s| && s[i] == t[0];
      var j :| 0 <= j < |t| && t[j] == s[0];
      assert s[0] <= s[i] && t[0] <= t[j];
      assert s[0] == t[0];
      forall x | x in s[1..] ensures x in t[1..] {
        var k :| 1 <= k < |s| && s[k] == x;
        assert x in Elems(t);
        var m :| 0 <= m < |t| && t[m] == x;
        assert m != 0;
      }
      forall x | x in t[1..] ensures x in s[1..] {
        var k :| 1 <= k < |t| && t[k] == x;
        assert x in Elems(s);
        var m :| 0 <= m < |s| && s[m] == x;
        assert m != 0;
      }
      assert Elems(s[1..]) == Elems(t[1..]);
      IncreasingUnique(s[1..], t[1..]);
      assert s == [s[0]] + s[1..] && t == [t[0]] + t[1..];
    }
  }

  // ---------------------------------------------------------------------------
  // The tree's contents

  /** The keys of the whole tree in in-order. */
  ghost function Contents(a: Arena, sub: seq<set<nat>>): seq<int>
    requires WellFormed(a, sub)
  {
    InOrder(a, sub, a.root)
  }

  /** The in-order sequence of a well-formed tree is strictly increasing and holds exactly its keys. */
  lemma ContentsSorted(a: Arena, sub: seq<set<nat>>)
    requires WellFormed(a, sub)
    ensures Increasing(Contents(a, sub)) && Elems(Contents(a, sub)) == Keys(a)
  {
    InOrderSorted(a, sub, a.root);
    assert KeysOf(a, sub[a.root]) == Keys(a);
  }

  /** Two well-formed trees with the same keys have the same in-order sequence. */
  lemma ContentsDeterminedByKeys(a: Arena, sub: seq<set<nat>>, a': Arena, sub': seq<set<nat>>)
    requires WellFormed(a, sub) && WellFormed(a', sub') && Keys(a) == Keys(a')
    ensures Contents(a, sub) == Contents(a', sub')
  {
    ContentsSorted(a, sub);
    ContentsSorted(a', sub');
    IncreasingUnique(Contents(a, sub), Contents(a', sub'));
  }
}
