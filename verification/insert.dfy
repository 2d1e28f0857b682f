/**
 * The two halves of `rbtree_insert` before the fix-up: the descent that
 * looks for the key, and the linking of a new red leaf below the last node
 * the descent passed.
 */
module RbInsert {
  import opened RbArena
  import opened RbFixup

  // ---------------------------------------------------------------------------
  // The descent

  /** Every node that has `p` on its left holds a key above `k`, and every node that has it on its right one below. */
  ghost predicate PathBounds(a: Arena, sub: seq<set<nat>>, k: int, p: nat)
    requires Shaped(a) && |sub| == |a.key|
  {
    forall h | 1 <= h < |a.key| ::
      && (p in sub[a.left[h]] ==> k < a.key[h])
      && (p in sub[a.right[h]] ==> a.key[h] < k)
  }

  /**
   * The state of the descent: it stands at `c`, coming from `p` (or from the
   * root pointer when `p` is the sentinel), every node passed was compared
   * with `k` and sent the search the right way, and `k`, if it is in the tree
   * at all, is below `c`.
   */
  ghost predicate SearchAt(a: Arena, sub: seq<set<nat>>, k: int, p: nat, c: nat) {
    && WellFormed(a, sub)
    && p < |a.key| && c < |a.key|
    && (p == Nil ==> c == a.root)
    && (p != Nil ==> && k != a.key[p]
                     && c == (if k < a.key[p] then a.left[p] else a.right[p])
                     && PathBounds(a, sub, k, p))
    && (k in Keys(a) ==> k in KeysOf(a, sub[c]))
  }

  /** The sentinel lies in no subtree, and every handle in a subtree is a real one. */
  lemma SubtreeHandles(a: Arena, sub: seq<set<nat>>, c: nat)
    requires WellFormed(a, sub) && c < |a.key|
    ensures forall g | g in sub[c] :: 1 <= g < |a.key|
  {
    if c != Nil {
      assert c in sub[a.root];
      SubtreeNested(a, sub, a.root, c);
    }
  }

  /** The descent starts at the root. */
  lemma SearchStart(a: Arena, sub: seq<set<nat>>, k: int)
    requires WellFormed(a, sub)
    ensures SearchAt(a, sub, k, Nil, a.root)
  {
    if k in Keys(a) {
      var h :| 1 <= h < |a.key| && a.key[h] == k;
      assert h in sub[a.root];
    }
  }

  /** The bounds of the path grow by the node the descent leaves. */
  lemma PathBoundsStep(a: Arena, sub: seq<set<nat>>, k: int, p: nat, c: nat, h: nat)
    requires SearchAt(a, sub, k, p, c) && c != Nil && 1 <= h < |a.key|
    ensures c in sub[a.left[h]] ==> k < a.key[h]
    ensures c in sub[a.right[h]] ==> a.key[h] < k
  {
    assert a.parent[c] == p by {
      if p != Nil {
        assert ChildLinksOk(a, p);
      }
    }
    assert SubtreeOk(a, sub, h) && ChildLinksOk(a, h);
    SubtreeSmaller(a, sub, c);
    if p != Nil {
      assert SubtreeOk(a, sub, p);
    }
    if c in sub[a.left[h]] && c != a.left[h] {
      ParentInSubtree(a, sub, a.left[h], c);
      SubtreeHandles(a, sub, a.left[h]);
    }
    if c in sub[a.right[h]] && c != a.right[h] {
      ParentInSubtree(a, sub, a.right[h], c);
      SubtreeHandles(a, sub, a.right[h]);
    }
  }

  /** A step of the descent past a node whose key differs from `k` keeps its invariant and goes down. */
  lemma SearchStep(a: Arena, sub: seq<set<nat>>, k: int, p: nat, c: nat)
    requires SearchAt(a, sub, k, p, c) && c != Nil && k != a.key[c]
    ensures var n := if k < a.key[c] then a.left[c] else a.right[c];
      SearchAt(a, sub, k, c, n) && |sub[n]| < |sub[c]|
  {
    SubtreeSmaller(a, sub, c);
    KeysOfSplit(a, sub, c);
    forall h | 1 <= h < |a.key|
      ensures (c in sub[a.left[h]] ==> k < a.key[h]) && (c in sub[a.right[h]] ==> a.key[h] < k)
    {
      PathBoundsStep(a, sub, k, p, c, h);
    }
  }

  // ---------------------------------------------------------------------------
  // Linking the new leaf

  /**
   * A new red node with key `k`, sentinel children and parent `p` becomes
   * the root when `p` is the sentinel, and otherwise the left or right child
   * of `p` by comparison with `p`'s key.
   */
  function Attach(a: Arena, k: int, p: nat): (r: Arena)
    requires Shaped(a) && p < |a.key|
    ensures Shaped(r) && |r.key| == |a.key| + 1
  {
    var n := |a.key|;
    var b := a.(key := a.key + [k], color := a.color + [Red], left := a.left + [Nil],
                right := a.right + [Nil], parent := a.parent + [p]);
    if p == Nil then b.(root := n)
    else if k < a.key[p] then b.(left := b.left[p := n])
    else b.(right := b.right[p := n])
  }

  /** The subtree sets after `Attach`: the new node joins the subtree of every node above it. */
  ghost function AttachSub(sub: seq<set<nat>>, p: nat): (r: seq<set<nat>>)
    ensures |r| == |sub| + 1
  {
    seq(|sub|, i requires 0 <= i < |sub| => if p in sub[i] then sub[i] + {|sub|} else sub[i]) + [{|sub|}]
  }

  /** The node table after `Attach`, node by node. */
  lemma AttachFields(a: Arena, k: int, p: nat)
    requires Shaped(a) && p < |a.key|
    ensures var r, n := Attach(a, k, p), |a.key|;
      && r.key == a.key + [k] && r.color == a.color + [Red] && r.parent == a.parent + [p]
      && r.left[n] == Nil && r.right[n] == Nil
      && r.root == (if p == Nil then n else a.root)
      && (p != Nil && k < a.key[p] ==> r.left[p] == n && r.right[p] == a.right[p])
      && (p != Nil && !(k < a.key[p]) ==> r.right[p] == n && r.left[p] == a.left[p])
      && (forall h | 0 <= h < n && h != p :: r.left[h] == a.left[h] && r.right[h] == a.right[h])
      && (forall h | 0 <= h < n && p == Nil :: r.left[h] == a.left[h] && r.right[h] == a.right[h])
  {
  }

  /** The facts about the place where the descent ended that linking relies on. */
  lemma AttachPlace(a: Arena, sub: seq<set<nat>>, k: int, p: nat)
    requires SearchAt(a, sub, k, p, Nil)
    ensures p == Nil ==> a.root == Nil && |a.key| == 1
    ensures p != Nil ==> p in sub[a.root] && p !in sub[a.left[p]] && p !in sub[a.right[p]]
    ensures forall h | 0 <= h < |a.key| :: |a.key| !in sub[h]
    ensures k !in Keys(a)
  {
    if p == Nil {
      assert 1 !in sub[a.root];
    } else {
      assert SubtreeOk(a, sub, p);
    }
    forall h | 0 <= h < |a.key| ensures |a.key| !in sub[h] {
      SubtreeHandles(a, sub, h);
    }
  }

  /** The subtree sets after `Attach`, node by node. */
  lemma AttachSubFields(sub: seq<set<nat>>, p: nat)
    ensures var sub', n := AttachSub(sub, p), |sub|;
      && sub'[n] == {n}
      && (forall h | 0 <= h < n && p in sub[h] :: sub'[h] == sub[h] + {n})
      && (forall h | 0 <= h < n && p !in sub[h] :: sub'[h] == sub[h])
  {
  }

  /** The subtree of the new node's parent gains the new node as one child. */
  lemma AttachSubtreeAtParent(a: Arena, sub: seq<set<nat>>, k: int, p: nat)
    requires SearchAt(a, sub, k, p, Nil) && p != Nil
    ensures SubtreeOk(Attach(a, k, p), AttachSub(sub, p), p)
  {
    var r, sub', n := Attach(a, k, p), AttachSub(sub, p), |a.key|;
    AttachFields(a, k, p);
    AttachPlace(a, sub, k, p);
    AttachSubFields(sub, p);
    assert SubtreeOk(a, sub, p);
    SubtreeSmaller(a, sub, p);
    assert sub'[p] == sub[p] + {n};
    assert sub'[a.left[p]] == sub[a.left[p]] && sub'[a.right[p]] == sub[a.right[p]];
  }

  /** Any other old node keeps its children; its subtree gains the new node exactly when one child's does. */
  lemma AttachSubtreeAtOther(a: Arena, sub: seq<set<nat>>, k: int, p: nat, h: nat)
    requires SearchAt(a, sub, k, p, Nil) && 1 <= h < |a.key| && h != p
    ensures SubtreeOk(Attach(a, k, p), AttachSub(sub, p), h)
  {
    var r, sub', n := Attach(a, k, p), AttachSub(sub, p), |a.key|;
    AttachFields(a, k, p);
    AttachPlace(a, sub, k, p);
    AttachSubFields(sub, p);
    assert SubtreeOk(a, sub, h);
    SubtreeSmaller(a, sub, h);
    var l, rt := a.left[h], a.right[h];
    assert r.left[h] == l && r.right[h] == rt;
    assert p in sub[h] <==> p in sub[l] || p in sub[rt];
  }

  lemma AttachSubtreeAt(a: Arena, sub: seq<set<nat>>, k: int, p: nat, h: nat)
    requires SearchAt(a, sub, k, p, Nil) && 1 <= h <= |a.key|
    ensures SubtreeOk(Attach(a, k, p), AttachSub(sub, p), h)
  {
    if h == |a.key| {
      AttachFields(a, k, p);
      AttachSubFields(sub, p);
      assert sub[Nil] == {};
    } else if h == p {
      AttachSubtreeAtParent(a, sub, k, p);
    } else {
      AttachSubtreeAtOther(a, sub, k, p, h);
    }
  }

  lemma AttachLinksAt(a: Arena, sub: seq<set<nat>>, k: int, p: nat, h: nat)
    requires SearchAt(a, sub, k, p, Nil) && 1 <= h <= |a.key|
    ensures var r := Attach(a, k, p);
      && ChildLinksOk(r, h)
      && (h != r.root ==> ParentLinkOk(r, h))
  {
    var r, n := Attach(a, k, p), |a.key|;
    AttachFields(a, k, p);
    AttachPlace(a, sub, k, p);
    if h < n {
      assert ChildLinksOk(a, h);
      if h != a.root {
        assert ParentLinkOk(a, h);
      }
    }
  }

  lemma AttachOrderAt(a: Arena, sub: seq<set<nat>>, k: int, p: nat, h: nat)
    requires SearchAt(a, sub, k, p, Nil) && 1 <= h <= |a.key|
    ensures var r := Attach(a, k, p); OrderedAt(r, AttachSub(sub, p), h)
  {
    var r, sub', n := Attach(a, k, p), AttachSub(sub, p), |a.key|;
    AttachFields(a, k, p);
    AttachPlace(a, sub, k, p);
    if h < n {
      assert OrderedAt(a, sub, h) && SubtreeOk(a, sub, h);
    }
  }

  /** Linking the new leaf keeps the structural invariant. */
  lemma AttachWellFormed(a: Arena, sub: seq<set<nat>>, k: int, p: nat)
    requires SearchAt(a, sub, k, p, Nil)
    ensures WellFormed(Attach(a, k, p), AttachSub(sub, p))
  {
    var r, sub', n := Attach(a, k, p), AttachSub(sub, p), |a.key|;
    AttachFields(a, k, p);
    AttachPlace(a, sub, k, p);
    forall h | 1 <= h < |r.key|
      ensures SubtreeOk(r, sub', h) && ChildLinksOk(r, h) && OrderedAt(r, sub', h)
      ensures h != r.root ==> ParentLinkOk(r, h)
    {
      AttachSubtreeAt(a, sub, k, p, h);
      AttachLinksAt(a, sub, k, p, h);
      AttachOrderAt(a, sub, k, p, h);
    }
    forall g ensures g in sub'[r.root] <==> 1 <= g < |r.key| {
      if p != Nil {
        assert p in sub[a.root];
      }
    }
  }

  lemma AttachColorsAt(a: Arena, sub: seq<set<nat>>, bh: seq<nat>, k: int, p: nat, h: nat)
    requires SearchAt(a, sub, k, p, Nil) && RedBlack(a, bh) && 1 <= h <= |a.key|
    ensures var r := Attach(a, k, p);
      BalancedAt(r, bh + [1], h) && RedOkAt(r, |a.key|, h)
  {
    var r, n := Attach(a, k, p), |a.key|;
    AttachFields(a, k, p);
    AttachPlace(a, sub, k, p);
    if h < n {
      assert BalancedAt(a, bh, h) && NoRedRedAt(a, h);
    }
  }

  /**
   * Linking a new red leaf below the place the descent found keeps a
   * well-formed tree and sets up the fix-up loop with the new node as `z`;
   * the key set grows by exactly `k`.
   */
  lemma AttachStartsFixup(a: Arena, sub: seq<set<nat>>, bh: seq<nat>, k: int, p: nat)
    requires SearchAt(a, sub, k, p, Nil) && RedBlack(a, bh)
    ensures FixupInv(Attach(a, k, p), AttachSub(sub, p), bh + [1], |a.key|)
    ensures Keys(Attach(a, k, p)) == Keys(a) + {k} && k !in Keys(a)
  {
    var r, n := Attach(a, k, p), |a.key|;
    AttachFields(a, k, p);
    AttachPlace(a, sub, k, p);
    AttachWellFormed(a, sub, k, p);
    forall h | 1 <= h < |r.key| ensures BalancedAt(r, bh + [1], h) && RedOkAt(r, n, h) {
      AttachColorsAt(a, sub, bh, k, p, h);
    }
    forall x ensures x in Keys(r) <==> x in Keys(a) + {k} {
      if x in Keys(r) {
        var h :| 1 <= h < |r.key| && r.key[h] == x;
        if h < n {
          assert a.key[h] == x;
        }
      }
      if x in Keys(a) {
        var h :| 1 <= h < |a.key| && a.key[h] == x;
        assert r.key[h] == x;
      }
      if x == k {
        assert r.key[n] == k;
      }
    }
  }
}
