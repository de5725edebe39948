/** Operations added for NuSMV: the deepest variable of a diagram by in-place marking, and the
    difference of two cubes. */
module BddOp {
  import opened Diagrams
  import opened Semantics
  import opened Managers
  import opened ComputedTables
  import opened BddAbs

  /* ---------- marking ---------- */

  /** The diagrams below n, n included. */
  function Subtrees(n: Node): set<Node> {
    match n
    case Leaf(_) => {n}
    case Inner(_, t, e) => {n} + Subtrees(t.node) + Subtrees(e.node)
  }

  ghost predicate Marked(n: DdNode)
    reads n
  {
    n.next.comp
  }

  /** A node whose children are marked, unless they are constants. */
  ghost predicate ChildrenMarked(n: DdNode)
    reads n, if n.kind.Internal? then {n.kind.T.node, n.kind.E.node} else {}
  {
    n.kind.Internal? ==>
      && (n.kind.T.node.kind.Internal? ==> Marked(n.kind.T.node))
      && (n.kind.E.node.kind.Internal? ==> Marked(n.kind.E.node))
  }

  ghost predicate ChildrenClear(n: DdNode)
    reads n, if n.kind.Internal? then {n.kind.T.node, n.kind.E.node} else {}
  {
    n.kind.Internal? ==> !Marked(n.kind.T.node) && !Marked(n.kind.E.node)
  }

  /** What a manager's nodes look like, without its tables. */
  ghost predicate Graph(perm: seq<nat>, nodes: set<DdNode>) {
    && IsOrder(perm)
    && (forall n :: n in nodes ==> WellFormed(perm, nodes, n))
    && (forall m, n :: m in nodes && n in nodes && m.tree == n.tree ==> m == n)
  }

  lemma ManagerGraph(dd: Manager)
    requires dd.Valid()
    ensures Graph(dd.perm, dd.nodes)
  {
  }

  lemma GraphChildren(perm: seq<nat>, nodes: set<DdNode>, n: DdNode)
    requires Graph(perm, nodes) && n in nodes
    ensures n.tree == TreeOf(n.kind) && (n.kind.Constant? <==> n.tree.Leaf?)
    ensures n.kind.Internal? ==>
              && n.kind.T.node in nodes && n.kind.E.node in nodes
              && n.kind.T.node.tree < n.tree && n.kind.E.node.tree < n.tree
              && Top(perm, n.tree) < Top(perm, n.kind.T.node.tree)
              && Top(perm, n.tree) < Top(perm, n.kind.E.node.tree)
              && n.kind.index < |perm| && Top(perm, n.tree) == perm[n.kind.index]
              && n.tree.index == n.kind.index
              && Subtrees(n.tree) ==
                 {n.tree} + Subtrees(n.kind.T.node.tree) + Subtrees(n.kind.E.node.tree)
  {
  }

  /** v is the variable of n at the deepest level. */
  ghost predicate IsDeepest(perm: seq<nat>, n: Node, v: nat) {
    && v in Support(n) && v < |perm|
    && forall i :: i in Support(n) ==> i < |perm| && perm[i] <= perm[v]
  }

  /** Some internal node below root is at the given level. */
  ghost predicate ReachesLevel(dd: Manager, root: DdNode, level: nat)
    reads dd`nodes
  {
    exists m :: m in dd.nodes && m.kind.Internal? && m.tree in Subtrees(root.tree) && Top(dd.perm, m.tree) == level
  }

  /** Marks every unmarked internal node below root and returns the deepest level met, or the given one.
      Nodes on the stack are marked but not yet finished; every other marked node has marked children. */
  method GetLowestVarRecur(
    dd: Manager, root: DdNode, level: nat, ghost stack: set<DdNode>) returns (res: nat)
    requires Graph(dd.perm, dd.nodes) && root in dd.nodes
    requires forall m :: m in stack ==>
               m in dd.nodes && Marked(m) && Top(dd.perm, m.tree) < Top(dd.perm, root.tree)
    requires forall m :: m in dd.nodes && Marked(m) && m !in stack ==> ChildrenMarked(m)
    modifies dd.nodes
    ensures forall m :: m in dd.nodes && Marked(m) && m !in stack ==> ChildrenMarked(m)
    ensures root.kind.Internal? ==> Marked(root)
    ensures forall m :: m in dd.nodes ==>
              m.next == old(m.next) ||
              (&& !old(m.next.comp) && m.next == Link(true, old(m.next.to)) && m.kind.Internal?
               && m.tree in Subtrees(root.tree) && Top(dd.perm, m.tree) <= res)
    ensures level <= res
    ensures res == level || ReachesLevel(dd, root, res)
    decreases root.tree
  {
    hide Graph, IsOrder, Top;
    GraphChildren(dd.perm, dd.nodes, root);
    if root.next.comp || root.kind.Constant? {
      return level;
    }
    root.next := Link(!root.next.comp, root.next.to);
    LevelIsTop(dd.perm, root);
    var i := dd.Level(root);
    var l := if i > level then i else level;
    var lowE := GetLowestVarRecur(dd, root.kind.E.node, l, stack + {root});
    res := GetLowestVarRecur(dd, root.kind.T.node, lowE, stack + {root});
  }

  /** Clears the marks below f. A node of the region whose mark is gone has clear children, unless it
      is on the stack, that is, still being cleared. */
  method ClearFlag(dd: Manager, f: DdNode, ghost region: set<DdNode>, ghost stack: set<DdNode>)
    requires Graph(dd.perm, dd.nodes) && f in dd.nodes
    requires forall m :: m in dd.nodes && Marked(m) ==> m in region && m.kind.Internal?
    requires forall m :: m in stack ==>
               m in dd.nodes && !Marked(m) && Top(dd.perm, m.tree) < Top(dd.perm, f.tree)
    requires forall m :: m in region ==> m in dd.nodes
    requires forall m :: m in region && !Marked(m) && m !in stack ==> ChildrenClear(m)
    modifies dd.nodes
    ensures forall m :: m in region && !Marked(m) && m !in stack ==> ChildrenClear(m)
    ensures !Marked(f)
    ensures forall m :: m in dd.nodes ==>
              m.next == old(m.next) || (old(m.next.comp) && m.next == Link(false, old(m.next.to)))
    decreases f.tree
  {
    hide Graph, IsOrder, Top;
    GraphChildren(dd.perm, dd.nodes, f);
    if !f.next.comp {
      return;
    }
    f.next := Link(false, f.next.to);
    if f.kind.Constant? {
      return;
    }
    ClearFlag(dd, f.kind.T.node, region, stack + {f});
    ClearFlag(dd, f.kind.E.node, region, stack + {f});
  }

  /** Marks that are closed under children cover everything below a marked node. */
  lemma {:induction false} AllMarked(dd: Manager, n: DdNode, m: DdNode)
    requires Graph(dd.perm, dd.nodes) && n in dd.nodes && m in dd.nodes
    requires forall k :: k in dd.nodes && Marked(k) ==> ChildrenMarked(k)
    requires n.kind.Internal? ==> Marked(n)
    requires m.tree in Subtrees(n.tree) && m.kind.Internal?
    ensures Marked(m)
    decreases n.tree
  {
    GraphChildren(dd.perm, dd.nodes, n);
    GraphChildren(dd.perm, dd.nodes, m);
    if m.tree != n.tree {
      if m.tree in Subtrees(n.kind.T.node.tree) {
        AllMarked(dd, n.kind.T.node, m);
      } else {
        AllMarked(dd, n.kind.E.node, m);
      }
    }
  }

  /** Clear marks that are closed under children leave nothing marked below a clear node. */
  lemma {:induction false} AllClear(dd: Manager, root: DdNode, n: DdNode, m: DdNode)
    requires Graph(dd.perm, dd.nodes) && root in dd.nodes && n in dd.nodes && m in dd.nodes
    requires forall k :: k in dd.nodes && k.tree in Subtrees(root.tree) && !Marked(k) ==> ChildrenClear(k)
    requires Subtrees(n.tree) <= Subtrees(root.tree) && !Marked(n) && m.tree in Subtrees(n.tree)
    ensures !Marked(m)
    decreases n.tree
  {
    GraphChildren(dd.perm, dd.nodes, n);
    if m.tree != n.tree {
      assert n.tree in Subtrees(n.tree);
      if m.tree in Subtrees(n.kind.T.node.tree) {
        AllClear(dd, root, n.kind.T.node, m);
      } else {
        AllClear(dd, root, n.kind.E.node, m);
      }
    }
  }

  /** The variables below a diagram are those of the nodes below it. */
  lemma {:induction false} SubtreeSupport(n: Node, m: Node)
    requires m in Subtrees(n) && m.Inner?
    ensures m.index in Support(n)
  {
    match n
    case Leaf(_) =>
    case Inner(_, t, e) =>
      if m != n {
        if m in Subtrees(t.node) {
          SubtreeSupport(t.node, m);
        } else {
          SubtreeSupport(e.node, m);
        }
      }
  }

  lemma {:induction false} SupportNode(dd: Manager, n: DdNode, i: nat) returns (m: DdNode)
    requires Graph(dd.perm, dd.nodes) && n in dd.nodes && i in Support(n.tree)
    ensures m in dd.nodes && m.kind.Internal? && m.kind.index == i && m.tree in Subtrees(n.tree)
    decreases n.tree
  {
    GraphChildren(dd.perm, dd.nodes, n);
    if i == n.kind.index {
      m := n;
    } else if i in Support(n.kind.T.node.tree) {
      m := SupportNode(dd, n.kind.T.node, i);
    } else {
      m := SupportNode(dd, n.kind.E.node, i);
    }
  }

  /** The deepest variable of a diagram. Every link is exactly what it was before. A constant has no
      variable: the answer is then the variable of level 0, or -1 without variables. */
  method GetLowestVar(dd: Manager, root: DdNode) returns (v: int)
    requires dd.Valid() && root in dd.nodes
    requires forall m :: m in dd.nodes ==> !m.next.comp
    modifies dd.nodes
    ensures forall m :: m in dd.nodes ==> m.next == old(m.next)
    ensures root.kind.Internal? ==> v >= 0 && IsDeepest(dd.perm, root.tree, v)
    ensures root.kind.Constant? ==> v == dd.ReadInvPerm(0)
  {
    hide Manager.Valid, Manager.ClipsExact, Manager.Vouched, ComputedTable.Hits, BddNode, Right, Support, AddNode;
    ManagerGraph(dd);
    ghost var region := set m | m in dd.nodes && m.kind.Internal? && m.tree in Subtrees(root.tree);
    var res := GetLowestVarRecur(dd, root, 0, {});
    v := Answer(dd, root, res, region);
    forall m | m in region ensures Marked(m) {
      AllMarked(dd, root, m);
    }
    ClearFlag(dd, root, region, {});
    forall m | m in dd.nodes && m.tree in Subtrees(root.tree) ensures !Marked(m) {
      forall k | k in dd.nodes && k.tree in Subtrees(root.tree) && !Marked(k) ensures ChildrenClear(k) {
        if k.kind.Internal? {
          assert k in region;
        }
      }
      AllClear(dd, root, root, m);
    }
  }

  /** The variable at the level found. */
  method Answer(dd: Manager, root: DdNode, res: nat, ghost region: set<DdNode>) returns (v: int)
    requires dd.Valid() && root in dd.nodes
    requires forall m :: m in dd.nodes && Marked(m) ==> ChildrenMarked(m)
    requires forall m :: m in dd.nodes && Marked(m) ==> Top(dd.perm, m.tree) <= res
    requires root.kind.Internal? ==> Marked(root)
    requires res == 0 || ReachesLevel(dd, root, res)
    requires root.kind.Constant? ==> res == 0
    ensures root.kind.Internal? ==> v >= 0 && IsDeepest(dd.perm, root.tree, v)
    ensures root.kind.Constant? ==> v == dd.ReadInvPerm(0)
  {
    hide Manager.Valid, Manager.ClipsExact, Manager.Vouched, ComputedTable.Hits, Manager.Permuted;
    ManagerGraph(dd);
    if root.kind.Internal? {
      AnswerInSupport(dd, root, res);
      AnswerDeepest(dd, root, res);
      InvPermOf(dd);
    }
    v := dd.ReadInvPerm(res);
  }

  lemma InvPermOf(dd: Manager)
    requires dd.Valid()
    ensures forall i :: 0 <= i < |dd.perm| ==> dd.perm[i] < |dd.invperm| && dd.invperm[dd.perm[i]] == i
  {
  }

  /** The level found is that of a variable below root. */
  lemma AnswerInSupport(dd: Manager, root: DdNode, res: nat)
    requires Graph(dd.perm, dd.nodes) && root in dd.nodes && root.kind.Internal? && Top(dd.perm, root.tree) <= res
    requires res == 0 || ReachesLevel(dd, root, res)
    ensures exists i :: i in Support(root.tree) && i < |dd.perm| && dd.perm[i] == res
  {
    GraphChildren(dd.perm, dd.nodes, root);
    assert root.tree in Subtrees(root.tree);
    var m: DdNode := root;
    if res != 0 {
      m :| m in dd.nodes && m.kind.Internal? && m.tree in Subtrees(root.tree) && Top(dd.perm, m.tree) == res;
    }
    GraphChildren(dd.perm, dd.nodes, m);
    SubtreeSupport(root.tree, m.tree);
  }

  /** No variable below root is deeper. */
  lemma AnswerDeepest(dd: Manager, root: DdNode, res: nat)
    requires Graph(dd.perm, dd.nodes) && root in dd.nodes && root.kind.Internal? && Marked(root)
    requires forall m :: m in dd.nodes && Marked(m) ==> ChildrenMarked(m)
    requires forall m :: m in dd.nodes && Marked(m) ==> Top(dd.perm, m.tree) <= res
    ensures forall i :: i in Support(root.tree) ==> i < |dd.perm| && dd.perm[i] <= res
  {
    forall i | i in Support(root.tree) ensures i < |dd.perm| && dd.perm[i] <= res {
      var n := SupportNode(dd, root, i);
      AllMarked(dd, root, n);
      GraphChildren(dd.perm, dd.nodes, n);
    }
  }

  /* ---------- cube difference ---------- */

  /** The variables of the first cube that are not in the second. */
  method BddCubeDiffRecur(dd: Manager, f: Ptr, g: Ptr) returns (r: Outcome)
    requires dd.Valid() && HasCube(dd, f) && HasCube(dd, g)
    modifies dd`unique, dd`nodes
    ensures dd.Valid() && dd.Continues()
    ensures r.Null? ==> dd.Full()
    ensures r.Ok? ==> HasCube(dd, r.ptr) && Top(dd.perm, Fn(f).node) <= Top(dd.perm, Fn(r.ptr).node)
    ensures r.Ok? ==> CubeVars(Fn(r.ptr).node) == CubeVars(Fn(f).node) - CubeVars(Fn(g).node)
    decreases Fn(f).node, Fn(g).node
  {
    hide Manager.Valid, Manager.ClipsExact, Manager.Vouched, ComputedTable.Hits, BddNode, PositiveCube, CubeVars, Top,
      Right;
    dd.Constants(f);
    dd.Constants(g);
    CubeOne(Fn(f));
    CubeOne(Fn(g));
    if f == dd.True() {
      return Ok(f);
    }
    dd.Children(f);
    CubeStep(dd.perm, Fn(f));
    CubeVarsBelow(dd.perm, Fn(f).node);
    CubeVarsBelow(dd.perm, Fn(f).node.T.node);
    CubeVarsBelow(dd.perm, Fn(g).node);
    var topf, topg := dd.Level(f.node), dd.Level(g.node);
    if topf < topg {
      var t :- BddCubeDiffRecur(dd, f.node.kind.T, g);
      r := CubeWith(dd, f.node.kind.index, t);
    } else {
      dd.Children(g);
      CubeStep(dd.perm, Fn(g));
      CubeVarsBelow(dd.perm, Fn(g).node.T.node);
      if topf == topg {
        r := BddCubeDiffRecur(dd, f.node.kind.T, g.node.kind.T);
      } else {
        r := BddCubeDiffRecur(dd, f, g.node.kind.T);
      }
    }
  }

  /** The cube of variable i and the variables of a cube below it. */
  method CubeWith(dd: Manager, i: nat, t: Ptr) returns (r: Outcome)
    requires dd.Valid() && HasCube(dd, t) && i < |dd.perm| && dd.perm[i] < Top(dd.perm, Fn(t).node)
    modifies dd`unique, dd`nodes
    ensures dd.Valid() && dd.Continues()
    ensures r.Null? ==> dd.Full()
    ensures r.Ok? ==> HasCube(dd, r.ptr) && Top(dd.perm, Fn(r.ptr).node) == dd.perm[i]
    ensures r.Ok? ==> CubeVars(Fn(r.ptr).node) == {i} + CubeVars(Fn(t).node)
  {
    hide Manager.Valid, Manager.ClipsExact, Manager.Vouched, ComputedTable.Hits, BddNode, PositiveCube, CubeVars;
    CubeOne(Fn(t));
    var n :- dd.UniqueInter(i, t, dd.False());
    CubeOfNode(i, Fn(t), Fn(n));
    r := Ok(n);
  }

  lemma CubeOfNode(i: nat, t: Edge, n: Edge)
    requires PositiveCube(t) && n == Edge(false, Inner(i, t, ZERO))
    ensures PositiveCube(n) && CubeVars(n.node) == {i} + CubeVars(t.node)
  {
  }

  method BddCubeDiff(dd: Manager, a: Ptr, b: Ptr) returns (r: Outcome)
    requires dd.Valid() && dd.HasBdd(a) && dd.HasBdd(b)
    modifies dd`unique, dd`nodes
    ensures dd.Valid() && dd.Continues()
    ensures r.Null? ==> dd.Full() || !PositiveCube(Fn(a)) || !PositiveCube(Fn(b))
    ensures r.Ok? ==> PositiveCube(Fn(a)) && PositiveCube(Fn(b)) && HasCube(dd, r.ptr)
    ensures r.Ok? ==> CubeVars(Fn(r.ptr).node) == CubeVars(Fn(a).node) - CubeVars(Fn(b).node)
  {
    hide Manager.Valid, Manager.ClipsExact, Manager.Vouched, ComputedTable.Hits, BddNode, PositiveCube, CubeVars;
    var positive := CheckPositiveCube(dd, a);
    if positive {
      positive := CheckPositiveCube(dd, b);
    }
    if !positive {
      return Null;
    }
    r := BddCubeDiffRecur(dd, a, b);
  }
}
