/** The engine's own consistency check of its node heap, and what passing it is worth. */
module Check {
  import opened Diagrams
  import opened Managers
  import opened ComputedTables
  import Orders

  /** The nodes of each level, as the collision lists of its subtable hold them, and how many there
      should be. */
  datatype Subtable = Subtable(nodes: seq<DdNode>, keys: nat)

  /** What the check demands of a node at a level. */
  predicate Legal(perm: seq<nat>, level: nat, index: nat, f: DdNode) {
    && f.kind.Internal? && f.kind.index == index
    && level < LevelOf(perm, f.kind.T.node) && level < LevelOf(perm, f.kind.E.node)
    && !f.kind.T.comp && f.kind.T != f.kind.E
  }

  predicate LegalSubtable(perm: seq<nat>, level: nat, index: nat, s: Subtable) {
    |s.nodes| == s.keys && forall f :: f in s.nodes ==> Legal(perm, level, index, f)
  }

  /** All subtables pass. */
  ghost predicate Consistent(perm: seq<nat>, invperm: seq<nat>, subtables: seq<Subtable>) {
    && |invperm| == |perm| == |subtables|
    && forall i :: 0 <= i < |subtables| ==> LegalSubtable(perm, i, invperm[i], subtables[i])
  }

  /** Level i and its variable do not refer to each other. */
  predicate Mismatch(perm: seq<nat>, invperm: seq<nat>, i: int)
    requires 0 <= i < |invperm|
  {
    invperm[i] >= |perm| || perm[invperm[i]] != i
  }

  ghost predicate Corrupted(perm: seq<nat>, invperm: seq<nat>) {
    exists i :: 0 <= i < |invperm| && Mismatch(perm, invperm, i)
  }

  /** The verdict is 0 when every subtable passes. A corrupted permutation is reported, but the verdict
      does not take it into account. */
  method DebugCheck(perm: seq<nat>, invperm: seq<nat>, subtables: seq<Subtable>)
    returns (flag: nat, reported: bool)
    requires |invperm| == |perm| == |subtables|
    ensures flag == 0 || flag == 1
    ensures flag == 0 <==> Consistent(perm, invperm, subtables)
    ensures flag == 0 <==>
              && (forall i :: 0 <= i < |subtables| ==> |subtables[i].nodes| == subtables[i].keys)
              && (forall i, f :: 0 <= i < |subtables| && f in subtables[i].nodes ==> Legal(perm, i, invperm[i], f))
    ensures reported <==> Corrupted(perm, invperm)
  {
    flag, reported := 0, false;
    for i := 0 to |subtables|
      invariant flag == 0 || flag == 1
      invariant reported <==> exists k :: 0 <= k < i && Mismatch(perm, invperm, k)
      invariant flag == 0 <==> forall k :: 0 <= k < i ==> LegalSubtable(perm, k, invperm[k], subtables[k])
    {
      var index := invperm[i];
      if Mismatch(perm, invperm, i) {
        reported := true;
      }
      var nodelist := subtables[i].nodes;
      var totalNode := 0;
      ghost var before := flag;
      while totalNode < |nodelist|
        invariant 0 <= totalNode <= |nodelist| && (flag == 0 || flag == 1)
        invariant flag == 0 <==>
                    before == 0 && forall k :: 0 <= k < totalNode ==> Legal(perm, i, index, nodelist[k])
      {
        var f := nodelist[totalNode];
        totalNode := totalNode + 1;
        if f.kind.Internal? {
          if f.kind.index != index {
            flag := 1;
          }
          if LevelOf(perm, f.kind.T.node) <= i || LevelOf(perm, f.kind.E.node) <= i {
            flag := 1;
          }
          if f.kind.T.comp {
            flag := 1;
          }
          if f.kind.T == f.kind.E {
            flag := 1;
          }
        } else {
          flag := 1;
        }
      }
      if totalNode != subtables[i].keys {
        flag := 1;
      }
    }
  }

  /* ---------- the check and canonicity ---------- */

  /** The subtables list the internal nodes of the heap by their level. */
  ghost predicate Lists(invperm: seq<nat>, subtables: seq<Subtable>, nodes: set<DdNode>)
    requires |invperm| == |subtables|
  {
    && (forall n :: n in nodes && n.kind.Internal? ==> IsListed(subtables, n))
    && (forall i, f :: 0 <= i < |subtables| && f in subtables[i].nodes ==>
          f in nodes && f.kind.Internal? && f.kind.index == invperm[i])
  }

  ghost predicate IsListed(subtables: seq<Subtable>, n: DdNode) {
    exists i :: 0 <= i < |subtables| && n in subtables[i].nodes
  }

  /** A heap of BDD nodes, each stored once, over the one constant. */
  ghost predicate HashConsed(nodes: set<DdNode>) {
    && (forall n :: n in nodes ==>
          && n.tree == TreeOf(n.kind)
          && (n.kind.Internal? ==> n.kind.T.node in nodes && n.kind.E.node in nodes)
          && (n.kind.Constant? ==> n.kind.value == TRUE))
    && (forall m, n :: m in nodes && n in nodes && m.kind == n.kind ==> m == n)
  }

  lemma {:induction false} PassingNode(
    perm: seq<nat>, invperm: seq<nat>, subtables: seq<Subtable>, nodes: set<DdNode>, n: DdNode)
    requires Consistent(perm, invperm, subtables) && Orders.Inverse(perm, invperm)
    requires HashConsed(nodes) && Lists(invperm, subtables, nodes) && n in nodes
    ensures BddNode(perm, n.tree) && LevelOf(perm, n) == Top(perm, n.tree)
    decreases n.tree
  {
    if n.kind.Internal? {
      var i :| 0 <= i < |subtables| && n in subtables[i].nodes;
      assert LegalSubtable(perm, i, invperm[i], subtables[i]);
      assert Legal(perm, i, invperm[i], n);
      PassingNode(perm, invperm, subtables, nodes, n.kind.T.node);
      PassingNode(perm, invperm, subtables, nodes, n.kind.E.node);
      if Fn(n.kind.T) == Fn(n.kind.E) {
        StoredOnce(nodes, n.kind.T.node, n.kind.E.node);
      }
    }
  }

  /** Storing each combination of index and children once stores each diagram once. */
  lemma {:induction false} StoredOnce(nodes: set<DdNode>, m: DdNode, n: DdNode)
    requires HashConsed(nodes) && m in nodes && n in nodes && m.tree == n.tree
    ensures m == n
    decreases m.tree
  {
    if m.kind.Internal? {
      StoredOnce(nodes, m.kind.T.node, n.kind.T.node);
      StoredOnce(nodes, m.kind.E.node, n.kind.E.node);
    }
    assert m.kind == n.kind;
  }

  /** On a heap that passes the check without a report, pointers are equal exactly when the functions
      are. */
  lemma PassingIsCanonical(
    perm: seq<nat>, invperm: seq<nat>, subtables: seq<Subtable>, nodes: set<DdNode>, p: Ptr, q: Ptr)
    requires Consistent(perm, invperm, subtables) && !Corrupted(perm, invperm)
    requires HashConsed(nodes) && Lists(invperm, subtables, nodes) && p.node in nodes && q.node in nodes
    ensures p == q <==> Equivalent(Fn(p), Fn(q))
  {
    UncorruptedIsInverse(perm, invperm);
    PassingNode(perm, invperm, subtables, nodes, p.node);
    PassingNode(perm, invperm, subtables, nodes, q.node);
    CanonicalIff(perm, Fn(p), Fn(q));
    if Fn(p) == Fn(q) {
      StoredOnce(nodes, p.node, q.node);
    }
  }

  /* ---------- what the verdict does not cover ---------- */

  /** A list of n numbers below n, none of them twice, holds them all. */
  lemma Onto(q: seq<nat>, i: nat)
    requires forall l :: 0 <= l < |q| ==> q[l] < |q|
    requires forall k, l :: 0 <= k < l < |q| ==> q[k] != q[l]
    requires i < |q|
    ensures i in q
  {
    if i !in q {
      ImageSize(q, |q|);
      NumbersBelow((set l | 0 <= l < |q| :: q[l]) + {i}, |q|);
    }
  }

  lemma {:induction false} ImageSize(q: seq<nat>, n: nat)
    requires n <= |q| && forall k, l :: 0 <= k < l < |q| ==> q[k] != q[l]
    ensures |set l | 0 <= l < n :: q[l]| == n
  {
    var image := set l | 0 <= l < n :: q[l];
    if n > 0 {
      ImageSize(q, n - 1);
      assert image == (set l | 0 <= l < n - 1 :: q[l]) + {q[n - 1]};
    } else {
      assert image == {};
    }
  }

  lemma {:induction false} NumbersBelow(s: set<nat>, n: nat)
    requires forall x :: x in s ==> x < n
    ensures |s| <= n
  {
    if n > 0 {
      NumbersBelow(s - {n - 1}, n - 1);
      SubsetSize(s, (s - {n - 1}) + {n - 1});
    } else {
      assert s == {};
    }
  }

  lemma {:induction false} SubsetSize<A>(s: set<A>, t: set<A>)
    requires s <= t
    ensures |s| <= |t|
  {
    if x :| x in s {
      SubsetSize(s - {x}, t - {x});
    }
  }

  /** Testing one direction at every level is enough: nothing is reported exactly when perm and invperm
      are inverse permutations. */
  lemma UncorruptedIsInverse(perm: seq<nat>, invperm: seq<nat>)
    requires |perm| == |invperm|
    ensures !Corrupted(perm, invperm) <==> Orders.Inverse(perm, invperm)
  {
    if !Corrupted(perm, invperm) {
      forall l | 0 <= l < |invperm| ensures invperm[l] < |perm| && perm[invperm[l]] == l {
        assert !Mismatch(perm, invperm, l);
      }
      forall i | 0 <= i < |perm| ensures perm[i] < |invperm| && invperm[perm[i]] == i {
        Onto(invperm, i);
        var l :| 0 <= l < |invperm| && invperm[l] == i;
      }
    }
  }

  /** A permutation that is corrupted although the verdict is 0: empty subtables always pass. */
  lemma CorruptedPasses()
    ensures var perm: seq<nat>, invperm: seq<nat> := [0, 1], [1, 0];
            && Consistent(perm, invperm, [Subtable([], 0), Subtable([], 0)])
            && Corrupted(perm, invperm)
  {
    assert Mismatch([0, 1], [1, 0], 0);
  }

  /** The verdict 0 vouches for the permutation exactly when nothing would have been reported. */
  lemma VerdictCoversPermutation(perm: seq<nat>, invperm: seq<nat>)
    requires |perm| == |invperm|
    ensures (forall subtables :: Consistent(perm, invperm, subtables) ==> Orders.Inverse(perm, invperm)) <==>
            !Corrupted(perm, invperm)
  {
    UncorruptedIsInverse(perm, invperm);
    assert Consistent(perm, invperm, seq(|perm|, _ => Subtable([], 0)));
  }

  /** The report matters: a heap with a corrupted permutation that the verdict accepts, although two
      of its nodes are the same function. Variable 0 is listed at level 0 but claims level 1, so that a
      node may have a child with its own variable. */
  method CorruptedHeap()
    returns (perm: seq<nat>, invperm: seq<nat>, subtables: seq<Subtable>, nodes: set<DdNode>, p: Ptr, q: Ptr)
    ensures |invperm| == |perm| == |subtables| && Consistent(perm, invperm, subtables)
    ensures HashConsed(nodes) && Lists(invperm, subtables, nodes) && p.node in nodes && q.node in nodes
    ensures p != q && Equivalent(Fn(p), Fn(q))
    ensures Corrupted(perm, invperm)
  {
    perm, invperm := [1, 0], [0, 1];
    var one := new DdNode(Constant(TRUE));
    var variable := new DdNode(Internal(0, Ptr(false, one), Ptr(true, one)));
    var again := new DdNode(Internal(0, Ptr(false, variable), Ptr(true, one)));
    subtables := [Subtable([variable, again], 2), Subtable([], 0)];
    nodes := {one, variable, again};
    p, q := Ptr(false, variable), Ptr(false, again);
    assert Mismatch(perm, invperm, 0);
    assert variable in subtables[0].nodes && again in subtables[0].nodes;
    forall n | n in nodes && n.kind.Internal? ensures IsListed(subtables, n) {
      assert n in subtables[0].nodes;
    }
  }

  /* ---------- reachable states ---------- */

  /** Every reachable state of a manager passes the check, with nothing to report. */
  lemma ManagerPasses(dd: Manager, subtables: seq<Subtable>)
    requires dd.Valid() && |subtables| == |dd.perm|
    requires Lists(dd.invperm, subtables, dd.nodes)
    requires forall i :: 0 <= i < |subtables| ==> |subtables[i].nodes| == subtables[i].keys
    ensures Consistent(dd.perm, dd.invperm, subtables) && !Corrupted(dd.perm, dd.invperm)
  {
    hide Manager.Valid, Manager.ClipsExact, Manager.Vouched, ComputedTable.Hits, BddNode, AddNode, IsOrder, Top;
    InverseOrder(dd);
    forall i, f | 0 <= i < |subtables| && f in subtables[i].nodes
      ensures Legal(dd.perm, i, dd.invperm[i], f)
    {
      NodeShape(dd, f);
    }
  }

  lemma InverseOrder(dd: Manager)
    requires dd.Valid()
    ensures Orders.Inverse(dd.perm, dd.invperm)
  {
  }

  lemma NodeShape(dd: Manager, f: DdNode)
    requires dd.Valid() && f in dd.nodes && f.kind.Internal?
    ensures f.kind.T.node in dd.nodes && f.kind.E.node in dd.nodes && f.kind.index < |dd.perm|
    ensures dd.perm[f.kind.index] < LevelOf(dd.perm, f.kind.T.node)
    ensures dd.perm[f.kind.index] < LevelOf(dd.perm, f.kind.E.node)
    ensures !f.kind.T.comp && f.kind.T != f.kind.E
  {
    StoredShape(dd.perm, dd.nodes, dd.unique, f);
  }

  lemma StoredShape(perm: seq<nat>, nodes: set<DdNode>, unique: map<Kind, DdNode>, f: DdNode)
    requires Stored(perm, nodes, unique) && f in nodes && f.kind.Internal?
    ensures f.kind.T.node in nodes && f.kind.E.node in nodes && f.kind.index < |perm|
    ensures perm[f.kind.index] < LevelOf(perm, f.kind.T.node)
    ensures perm[f.kind.index] < LevelOf(perm, f.kind.E.node)
    ensures !f.kind.T.comp && f.kind.T != f.kind.E
  {
    assert WellFormed(perm, nodes, f);
    assert WellFormed(perm, nodes, f.kind.T.node) && WellFormed(perm, nodes, f.kind.E.node);
    LevelIsTop(perm, f.kind.T.node);
    LevelIsTop(perm, f.kind.E.node);
  }
}
