/** Algebraic diagrams and the bridge between them and BDDs. */
module Bridge {
  import opened Diagrams
  import opened Semantics
  import opened Managers
  import opened ComputedTables

  /* ---------- canonicity of ADDs ---------- */

  ghost predicate SameLeaves(m: Node, n: Node) {
    forall a: Assignment :: LeafAt(m, a) == LeafAt(n, a)
  }

  lemma LeafShannon(e: Edge, i: nat, a: Assignment)
    ensures LeafAt(Cof(e, i, i in a).node, a) == LeafAt(e.node, a)
  {
  }

  lemma AddCofactorShape(perm: seq<nat>, e: Edge, i: nat, b: bool)
    requires IsOrder(perm) && Add(perm, e) && i < |perm| && perm[i] <= Top(perm, e.node)
    ensures Add(perm, Cof(e, i, b)) && perm[i] < Top(perm, Cof(e, i, b).node)
  {
  }

  lemma LeafAboveTop(perm: seq<nat>, e: Edge, i: nat, a: Assignment, b: bool)
    requires Add(perm, e) && i < |perm| && perm[i] < Top(perm, e.node)
    ensures LeafAt(e.node, With(a, i, b)) == LeafAt(e.node, a)
  {
    SupportBelowTop(perm, e.node);
    EvalSupport(e.node, With(a, i, b), a);
  }

  /** The cofactor of an ADD at i is its restriction to i = b. */
  lemma LeafCofactor(perm: seq<nat>, e: Edge, i: nat, b: bool, a: Assignment)
    requires IsOrder(perm) && Add(perm, e) && i < |perm| && perm[i] <= Top(perm, e.node)
    ensures LeafAt(Cof(e, i, b).node, a) == LeafAt(e.node, With(a, i, b))
  {
    AddCofactorShape(perm, e, i, b);
    LeafAboveTop(perm, Cof(e, i, b), i, a, b);
    LeafShannon(e, i, With(a, i, b));
  }

  /** Two canonical ADDs with the same leaves everywhere are the same. */
  lemma {:induction false} AddCanonical(perm: seq<nat>, f: Edge, g: Edge)
    requires IsOrder(perm) && Add(perm, f) && Add(perm, g) && SameLeaves(f.node, g.node)
    ensures f == g
    decreases |perm| - Min(Top(perm, f.node), Top(perm, g.node)), Top(perm, f.node)
  {
    if Top(perm, g.node) < Top(perm, f.node) {
      AddCanonical(perm, g, f);
    } else if f.node.Inner? {
      var i := f.node.index;
      SameCofactors(perm, f, g, i, true);
      SameCofactors(perm, f, g, i, false);
      if Top(perm, f.node) < Top(perm, g.node) {
        AddCanonical(perm, Then(f), Else(f));  // impossible: the children of f differ
      } else {
        AddCanonical(perm, Then(f), Then(g));
        AddCanonical(perm, Else(f), Else(g));
      }
    } else {
      assert LeafAt(f.node, iset{}) == LeafAt(g.node, iset{});
    }
  }

  lemma SameCofactors(perm: seq<nat>, f: Edge, g: Edge, i: nat, b: bool)
    requires IsOrder(perm) && Add(perm, f) && Add(perm, g) && SameLeaves(f.node, g.node)
    requires i < |perm| && perm[i] <= Top(perm, f.node) && perm[i] <= Top(perm, g.node)
    ensures SameLeaves(Cof(f, i, b).node, Cof(g, i, b).node)
  {
    var m, n := Cof(f, i, b).node, Cof(g, i, b).node;
    forall a: Assignment ensures LeafAt(m, a) == LeafAt(n, a) {
      LeafCofactor(perm, f, i, b, a);
      LeafCofactor(perm, g, i, b, a);
    }
  }

  /** An ADD that does not change with the variables above a level starts at or below it. */
  lemma AddTop(perm: seq<nat>, r: Edge, level: nat)
    requires IsOrder(perm) && Add(perm, r) && level <= |perm|
    requires forall i, a: Assignment :: 0 <= i < |perm| && perm[i] < level ==>
               LeafAt(r.node, With(a, i, true)) == LeafAt(r.node, With(a, i, false))
    ensures level <= Top(perm, r.node)
  {
    if Top(perm, r.node) < level {
      var i := r.node.index;
      var t, e := Then(r).node, Else(r).node;
      forall a: Assignment ensures LeafAt(t, a) == LeafAt(e, a) {
        LeafCofactor(perm, r, i, true, a);
        LeafCofactor(perm, r, i, false, a);
      }
      AddCanonical(perm, Then(r), Else(r));
    }
  }

  /* ---------- laws of the conversions ---------- */

  /** BDD to ADD and back: the same edge. */
  lemma ToAddToBdd(perm: seq<nat>, f: Edge, n: Node, g: Edge)
    requires IsOrder(perm) && Bdd(perm, f) && Bdd(perm, g)
    requires IsIndicator(n, f) && IsIndicator(n, g)
    ensures f == g
  {
    forall a: Assignment ensures Eval(f, a) == Eval(g, a) {
      assert LeafAt(n, a) == TRUE <==> Eval(f, a);
      assert LeafAt(n, a) == TRUE <==> Eval(g, a);
    }
    Canonical(perm, f, g);
  }

  /** ADD to BDD and back: the same ADD. Equivalently, the conversion to ADDs is a function. */
  lemma ToBddToAdd(perm: seq<nat>, m: Edge, f: Edge, n: Edge)
    requires IsOrder(perm) && Add(perm, m) && Add(perm, n)
    requires IsIndicator(m.node, f) && IsIndicator(n.node, f)
    ensures m == n
  {
    forall a: Assignment ensures LeafAt(m.node, a) == LeafAt(n.node, a) {
      assert LeafAt(m.node, a) == if Eval(f, a) then TRUE else FALSE;
      assert LeafAt(n.node, a) == if Eval(f, a) then TRUE else FALSE;
    }
    AddCanonical(perm, m, n);
  }

  lemma IndicatorTop(perm: seq<nat>, n: Edge, f: Edge)
    requires IsOrder(perm) && Add(perm, n) && Bdd(perm, f) && IsIndicator(n.node, f)
    ensures Top(perm, n.node) == Top(perm, f.node)
  {
    forall i, a: Assignment | 0 <= i < |perm| && perm[i] < Top(perm, f.node)
      ensures LeafAt(n.node, With(a, i, true)) == LeafAt(n.node, With(a, i, false))
    {
      EvalAboveTop(perm, f, i, a, true);
      EvalAboveTop(perm, f, i, a, false);
    }
    AddTop(perm, n, Top(perm, f.node));
    forall i | 0 <= i < |perm| && perm[i] < Top(perm, n.node) ensures Ignores(f, i) {
      forall a: Assignment ensures Eval(f, With(a, i, true)) == Eval(f, With(a, i, false)) {
        LeafAboveTop(perm, n, i, a, true);
        LeafAboveTop(perm, n, i, a, false);
        assert LeafAt(n.node, With(a, i, true)) == LeafAt(n.node, With(a, i, false));
      }
    }
    TopByIgnores(perm, f, Top(perm, n.node));
  }

  lemma CmplTop(perm: seq<nat>, r: Edge, f: Edge)
    requires IsOrder(perm) && Add(perm, r) && Add(perm, f) && IsCmpl(r.node, f.node)
    ensures Top(perm, f.node) <= Top(perm, r.node)
  {
    forall i, a: Assignment | 0 <= i < |perm| && perm[i] < Top(perm, f.node)
      ensures LeafAt(r.node, With(a, i, true)) == LeafAt(r.node, With(a, i, false))
    {
      LeafAboveTop(perm, f, i, a, true);
      LeafAboveTop(perm, f, i, a, false);
    }
    AddTop(perm, r, Top(perm, f.node));
  }

  lemma CmplStep(f: Edge, t: Edge, e: Edge, r: Edge)
    requires f.node.Inner? && IsCmpl(t.node, f.node.T.node) && IsCmpl(e.node, f.node.E.node)
    requires r == Edge(false, Inner(f.node.index, t, e)) || (t == e && r == t)
    ensures IsCmpl(r.node, f.node)
  {
  }

  /** The complement of the indicator of f is the indicator of not f. */
  lemma CmplIndicator(r: Node, n: Node, f: Edge)
    requires IsCmpl(r, n) && IsIndicator(n, f)
    ensures IsIndicator(r, Not(f))
  {
  }

  lemma IndicatorStep(f: Edge, t: Edge, e: Edge, r: Edge)
    requires f.node.Inner? && !f.comp && IsIndicator(t.node, f.node.T) && IsIndicator(e.node, f.node.E)
    requires r == Edge(false, Inner(f.node.index, t, e))
    ensures IsIndicator(r.node, f)
  {
  }

  /* ---------- complement ---------- */

  /** The children of an internal ADD node. */
  lemma AddChildren(dd: Manager, p: Ptr)
    requires dd.Valid() && dd.HasAdd(p)
    ensures p.node.kind.Constant? <==> Fn(p).node.Leaf?
    ensures p.node.kind.Internal? ==> dd.HasAdd(p.node.kind.T) && dd.HasAdd(p.node.kind.E)
    ensures p.node.kind.Internal? ==>
              && p.node.kind.index < |dd.perm|
              && Fn(p).node == Inner(p.node.kind.index, Fn(p.node.kind.T), Fn(p.node.kind.E))
    ensures p.node == dd.one <==> Fn(p).node == Leaf(TRUE)
    ensures p.node == dd.falseLeaf <==> Fn(p).node == Leaf(FALSE)
    ensures dd.Level(p.node) == Top(dd.perm, Fn(p).node) <= |dd.perm|
  {
  }

  function AddTrue(dd: Manager): Ptr {
    Ptr(false, dd.one)
  }

  function AddFalse(dd: Manager): Ptr {
    Ptr(false, dd.falseLeaf)
  }

  lemma AddConstants(dd: Manager)
    requires dd.Valid()
    ensures dd.HasAdd(AddTrue(dd)) && Fn(AddTrue(dd)) == Edge(false, Leaf(TRUE))
    ensures dd.HasAdd(AddFalse(dd)) && Fn(AddFalse(dd)) == Edge(false, Leaf(FALSE))
  {
  }

  /** TRUE where f is FALSE, and FALSE elsewhere. */
  method AddCmplRecur(dd: Manager, f: Ptr) returns (r: Outcome)
    requires dd.Valid() && dd.HasAdd(f)
    modifies dd, dd.table, dd.table.slots
    ensures dd.Valid() && dd.Continues()
    ensures r.Null? ==> dd.Full()
    ensures r.Ok? ==> dd.HasAdd(r.ptr) && IsCmpl(Fn(r.ptr).node, Fn(f).node)
    decreases Fn(f).node, 1
  {
    hide Manager.Valid, Manager.ClipsExact, Manager.Vouched, ComputedTable.Hits, AddNode, BddNode, IsCmpl, Top;
    AddChildren(dd, f);
    AddConstants(dd);
    if f.node.kind.Constant? {
      CmplLeaf(Fn(f).node);
      return Ok(if f.node == dd.falseLeaf then AddTrue(dd) else AddFalse(dd));
    }
    var hit := dd.Lookup(CmplKey(f));
    if hit.Some? {
      return Ok(hit.value);
    }
    var n :- CmplNode(dd, f);
    dd.Insert(CmplKey(f), n);
    r := Ok(n);
  }

  /** Complements the children and joins them. */
  method CmplNode(dd: Manager, f: Ptr) returns (r: Outcome)
    requires dd.Valid() && dd.HasAdd(f) && f.node.kind.Internal?
    modifies dd, dd.table, dd.table.slots
    ensures dd.Valid() && dd.Continues()
    ensures r.Null? ==> dd.Full()
    ensures r.Ok? ==> dd.HasAdd(r.ptr) && IsCmpl(Fn(r.ptr).node, Fn(f).node)
    decreases Fn(f).node, 0
  {
    hide Manager.Valid, Manager.ClipsExact, Manager.Vouched, ComputedTable.Hits, AddNode, BddNode, IsCmpl, Right, Top;
    AddChildren(dd, f);
    var t :- AddCmplRecur(dd, f.node.kind.T);
    var e :- AddCmplRecur(dd, f.node.kind.E);
    CmplTop(dd.perm, Fn(t), Fn(f.node.kind.T));
    CmplTop(dd.perm, Fn(e), Fn(f.node.kind.E));
    ChildLevels(dd.perm, Fn(f));
    var n :- AddBuild(dd, f.node.kind.index, t, e);
    CmplStep(Fn(f), Fn(t), Fn(e), Fn(n));
    r := Ok(n);
  }

  lemma CmplLeaf(n: Node)
    requires n.Leaf?
    ensures IsCmpl(Leaf(if n.value == FALSE then TRUE else FALSE), n)
  {
  }

  lemma ChildLevels(perm: seq<nat>, f: Edge)
    requires (Bdd(perm, f) || Add(perm, f)) && f.node.Inner?
    ensures f.node.index < |perm|
    ensures perm[f.node.index] < Top(perm, f.node.T.node) && perm[f.node.index] < Top(perm, f.node.E.node)
  {
  }

  /** The node, unless its children are equal. */
  method AddBuild(dd: Manager, index: nat, t: Ptr, e: Ptr) returns (r: Outcome)
    requires dd.Valid() && dd.HasAdd(t) && dd.HasAdd(e) && index < |dd.perm|
    requires dd.perm[index] < Top(dd.perm, Fn(t).node) && dd.perm[index] < Top(dd.perm, Fn(e).node)
    modifies dd`unique, dd`nodes
    ensures dd.Valid() && dd.Continues()
    ensures r.Null? ==> dd.Full()
    ensures r.Ok? ==> dd.HasAdd(r.ptr)
    ensures r.Ok? ==> if t == e then r.ptr == t else Fn(r.ptr) == Edge(false, Inner(index, Fn(t), Fn(e)))
  {
    hide Manager.Valid, Manager.ClipsExact, Manager.Vouched, ComputedTable.Hits, AddNode, BddNode;
    dd.PointerEquality(t, e);
    if t == e {
      r := Ok(t);
    } else {
      r := dd.UniqueInter(index, t, e);
    }
  }

  /* ---------- from BDD to ADD ---------- */

  /** The ADD that is TRUE where the BDD is 1 and FALSE elsewhere. */
  method BddToAddRecur(dd: Manager, bdd: Ptr) returns (r: Outcome)
    requires dd.Valid() && dd.HasBdd(bdd)
    modifies dd, dd.table, dd.table.slots
    ensures dd.Valid() && dd.Continues()
    ensures r.Null? ==> dd.Full()
    ensures r.Ok? ==> dd.HasAdd(r.ptr) && IsIndicator(Fn(r.ptr).node, Fn(bdd))
    decreases Fn(bdd).node, 1
  {
    hide Manager.Valid, Manager.ClipsExact, Manager.Vouched, ComputedTable.Hits, AddNode, BddNode, IsIndicator, Top;
    AddConstants(dd);
    dd.Constants(bdd);
    if bdd.node.kind.Constant? {
      IndicatorConstant();
      return Ok(if bdd == dd.True() then AddTrue(dd) else AddFalse(dd));
    }
    var hit := dd.Lookup(ToAddKey(bdd));
    if hit.Some? {
      return Ok(hit.value);
    }
    var n :- ToAddNode(dd, bdd);
    dd.Insert(ToAddKey(bdd), n);
    r := Ok(n);
  }

  /** Converts the children, joins them, and complements the result for a complemented edge. */
  method ToAddNode(dd: Manager, bdd: Ptr) returns (r: Outcome)
    requires dd.Valid() && dd.HasBdd(bdd) && bdd.node != dd.one
    modifies dd, dd.table, dd.table.slots
    ensures dd.Valid() && dd.Continues()
    ensures r.Null? ==> dd.Full()
    ensures r.Ok? ==> dd.HasAdd(r.ptr) && IsIndicator(Fn(r.ptr).node, Fn(bdd))
    decreases Fn(bdd).node, 0
  {
    hide Manager.Valid, Manager.ClipsExact, Manager.Vouched, ComputedTable.Hits, AddNode, BddNode, IsIndicator,
      IsCmpl, Top, Right;
    dd.Constants(bdd);
    dd.Children(bdd);
    var t :- BddToAddRecur(dd, bdd.node.kind.T);
    var e :- BddToAddRecur(dd, bdd.node.kind.E);
    var n :- JoinIndicators(dd, Regular(bdd), t, e);
    if !bdd.comp {
      return Ok(n);
    }
    r := AddCmplRecur(dd, n);
    if r.Ok? {
      CmplIndicator(Fn(r.ptr).node, Fn(n).node, Fn(Regular(bdd)));
    }
  }

  lemma IndicatorConstant()
    ensures IsIndicator(Leaf(TRUE), ONE) && IsIndicator(Leaf(FALSE), ZERO)
  {
  }

  /** The children convert to different ADDs because they are different, so no test is needed. */
  method JoinIndicators(dd: Manager, bdd: Ptr, t: Ptr, e: Ptr) returns (r: Outcome)
    requires dd.Valid() && dd.HasBdd(bdd) && !bdd.comp && bdd.node != dd.one
    requires dd.HasAdd(t) && dd.HasAdd(e)
    requires Fn(bdd).node.Inner? && IsIndicator(Fn(t).node, Fn(bdd).node.T)
    requires IsIndicator(Fn(e).node, Fn(bdd).node.E)
    modifies dd, dd.table, dd.table.slots
    ensures dd.Valid() && dd.Continues()
    ensures r.Null? ==> dd.Full()
    ensures r.Ok? ==> dd.HasAdd(r.ptr) && IsIndicator(Fn(r.ptr).node, Fn(bdd))
  {
    hide Manager.Valid, Manager.ClipsExact, Manager.Vouched, ComputedTable.Hits, AddNode, IsIndicator, Top;
    dd.Constants(bdd);
    dd.Children(bdd);
    ChildLevels(dd.perm, Fn(bdd));
    IndicatorTop(dd.perm, Fn(t), Fn(bdd).node.T);
    IndicatorTop(dd.perm, Fn(e), Fn(bdd).node.E);
    if Fn(t) == Fn(e) {
      ToAddToBdd(dd.perm, Fn(bdd).node.T, Fn(t).node, Fn(bdd).node.E);
    }
    var n :- dd.UniqueInter(bdd.node.kind.index, t, e);
    IndicatorStep(Fn(bdd), Fn(t), Fn(e), Fn(n));
    r := Ok(n);
  }

  /* ---------- from ADD to BDD ---------- */

  /** The BDD of an ADD whose leaves are TRUE and FALSE; NULL if some leaf is anything else. */
  method AddBddBooleanMap(dd: Manager, f: Ptr) returns (r: Outcome)
    requires dd.Valid() && dd.HasAdd(f)
    modifies dd, dd.table, dd.table.slots
    ensures dd.Valid() && dd.Continues()
    ensures r.Null? ==> dd.Full() || !Boolean(Fn(f).node)
    ensures r.Ok? ==> Boolean(Fn(f).node) && dd.HasBdd(r.ptr) && IsIndicator(Fn(f).node, Fn(r.ptr))
    decreases Fn(f).node, 1
  {
    hide Manager.Valid, Manager.ClipsExact, Manager.Vouched, ComputedTable.Hits, AddNode, BddNode, IsIndicator,
      Boolean, IsBranch, Top;
    AddConstants(dd);
    AddChildren(dd, f);
    if f.node.kind.Constant? {
      IndicatorConstant();
      BooleanLeaf(Fn(f).node);
      if f.node != dd.one && f.node != dd.falseLeaf {
        return Null;
      }
      return Ok(PNotCond(dd.True(), f.node == dd.falseLeaf));
    }
    var hit := dd.Lookup(ToBddKey(f));
    if hit.Some? {
      IndicatorBoolean(Fn(f).node, Fn(hit.value));
      return Ok(hit.value);
    }
    var n :- BooleanNode(dd, f);
    dd.Insert(ToBddKey(f), n);
    r := Ok(n);
  }

  /** Converts the children and joins them. */
  method BooleanNode(dd: Manager, f: Ptr) returns (r: Outcome)
    requires dd.Valid() && dd.HasAdd(f) && f.node.kind.Internal?
    modifies dd, dd.table, dd.table.slots
    ensures dd.Valid() && dd.Continues()
    ensures r.Null? ==> dd.Full() || !Boolean(Fn(f).node)
    ensures r.Ok? ==> Boolean(Fn(f).node) && dd.HasBdd(r.ptr) && IsIndicator(Fn(f).node, Fn(r.ptr))
    decreases Fn(f).node, 0
  {
    hide Manager.Valid, Manager.ClipsExact, Manager.Vouched, ComputedTable.Hits, AddNode, BddNode, IsIndicator,
      Boolean, IsBranch, Top, Right;
    AddChildren(dd, f);
    BooleanChildren(dd.perm, Fn(f));
    var t :- AddBddBooleanMap(dd, f.node.kind.T);
    var e :- AddBddBooleanMap(dd, f.node.kind.E);
    ChildLevels(dd.perm, Fn(f));
    IndicatorTop(dd.perm, Fn(f.node.kind.T), Fn(t));
    IndicatorTop(dd.perm, Fn(f.node.kind.E), Fn(e));
    var n :- dd.Build(f.node.kind.index, t, e);
    IndicatorBranch(Fn(f), Fn(t), Fn(e), Fn(n));
    IndicatorBoolean(Fn(f).node, Fn(n));
    r := Ok(n);
  }

  lemma BooleanLeaf(n: Node)
    requires n.Leaf?
    ensures Boolean(n) <==> n.value == TRUE || n.value == FALSE
  {
    assert LeafAt(n, iset{}) == n.value;
  }

  lemma IndicatorBoolean(n: Node, f: Edge)
    requires IsIndicator(n, f)
    ensures Boolean(n)
  {
  }

  /** An ADD has only boolean leaves exactly when both its children do. */
  lemma BooleanChildren(perm: seq<nat>, f: Edge)
    requires IsOrder(perm) && Add(perm, f) && f.node.Inner?
    ensures Boolean(f.node) <==> Boolean(f.node.T.node) && Boolean(f.node.E.node)
  {
    var i, t, e := f.node.index, f.node.T.node, f.node.E.node;
    if Boolean(f.node) {
      forall a: Assignment
        ensures LeafAt(t, a) == TRUE || LeafAt(t, a) == FALSE
        ensures LeafAt(e, a) == TRUE || LeafAt(e, a) == FALSE
      {
        LeafCofactor(perm, f, i, true, a);
        LeafCofactor(perm, f, i, false, a);
      }
    }
    if Boolean(t) && Boolean(e) {
      forall a: Assignment ensures LeafAt(f.node, a) == TRUE || LeafAt(f.node, a) == FALSE {
        assert LeafAt(f.node, a) == if i in a then LeafAt(t, a) else LeafAt(e, a);
      }
    }
  }

  lemma IndicatorBranch(f: Edge, t: Edge, e: Edge, r: Edge)
    requires f.node.Inner? && IsIndicator(f.node.T.node, t) && IsIndicator(f.node.E.node, e)
    requires IsBranch(r, f.node.index, t, e)
    ensures IsIndicator(f.node, r)
  {
  }

  /* ---------- if-then-else on ADDs ---------- */

  lemma AddIteStep(i: nat, f: Edge, g: Edge, h: Edge, t: Edge, e: Edge, r: Edge)
    requires IsAddIte(t.node, Cof(f, i, true).node, Cof(g, i, true).node, Cof(h, i, true).node)
    requires IsAddIte(e.node, Cof(f, i, false).node, Cof(g, i, false).node, Cof(h, i, false).node)
    requires r == Edge(false, Inner(i, t, e)) || (t == e && r == t)
    ensures IsAddIte(r.node, f.node, g.node, h.node)
  {
  }

  lemma BooleanCofactors(perm: seq<nat>, f: Edge, i: nat)
    requires IsOrder(perm) && Add(perm, f) && Boolean(f.node)
    ensures Boolean(Cof(f, i, true).node) && Boolean(Cof(f, i, false).node)
  {
    if f.node.Inner? {
      BooleanChildren(perm, f);
    }
  }

  /** Where the condition is the operand itself, the operand is known. */
  lemma AddVarToConst(f: Node, g: Node, h: Node)
    requires Boolean(f)
    ensures forall r :: IsAddIte(r, f, if f == g then Leaf(TRUE) else g, if f == h then Leaf(FALSE) else h) ==>
                          IsAddIte(r, f, g, h)
  {
  }

  lemma AddIteTerminal(f: Node, g: Node, h: Node)
    ensures IsAddIte(g, Leaf(TRUE), g, h) && IsAddIte(h, Leaf(FALSE), g, h) && IsAddIte(g, f, g, g)
    ensures Boolean(f) ==> IsAddIte(f, f, Leaf(TRUE), Leaf(FALSE))
  {
  }

  lemma AddIteOnVariable(i: nat, t: Edge, e: Edge, g: Edge, h: Edge)
    ensures t.node == Leaf(TRUE) && e.node == Leaf(FALSE) ==>
              IsAddIte(Inner(i, g, h), Inner(i, t, e), g.node, h.node)
    ensures t.node == Leaf(FALSE) && e.node == Leaf(TRUE) ==>
              IsAddIte(Inner(i, h, g), Inner(i, t, e), g.node, h.node)
  {
  }

  /** if f then g else h for an ADD f with leaves TRUE and FALSE. A condition that turns out to have
      another leaf is an error, unless a shortcut answers before that leaf is reached. */
  method AddIteRecur(dd: Manager, f: Ptr, g0: Ptr, h0: Ptr) returns (r: Outcome)
    requires dd.Valid() && dd.HasAdd(f) && dd.HasAdd(g0) && dd.HasAdd(h0)
    modifies dd, dd.table, dd.table.slots
    ensures dd.Valid() && dd.Continues()
    ensures r.Null? ==> dd.Full() || !Boolean(Fn(f).node)
    ensures r.Ok? ==> dd.HasAdd(r.ptr)
    ensures r.Ok? ==> Rank3(dd.perm, Fn(r.ptr), Fn(r.ptr), Fn(r.ptr)) <= Rank3(dd.perm, Fn(f), Fn(g0), Fn(h0))
    ensures r.Ok? && Boolean(Fn(f).node) ==>
              IsAddIte(Fn(r.ptr).node, Fn(f).node, Fn(g0).node, Fn(h0).node)
    decreases Rank3(dd.perm, Fn(f), Fn(g0), Fn(h0)), 4
  {
    hide Manager.Valid, Manager.ClipsExact, Manager.Vouched, ComputedTable.Hits, AddNode, BddNode, IsAddIte, Boolean;
    AddConstants(dd);
    AddChildren(dd, f);
    AddIteTerminal(Fn(f).node, Fn(g0).node, Fn(h0).node);
    if f.node.kind.Constant? {
      if f.node == dd.one {
        return Ok(g0);
      }
      if f.node == dd.falseLeaf {
        return Ok(h0);
      }
      BooleanLeaf(Fn(f).node);
      return Null;
    }
    var g, h := g0, h0;
    dd.PointerEquality(f, g0);
    dd.PointerEquality(f, h0);
    if Boolean(Fn(f).node) {
      AddVarToConst(Fn(f).node, Fn(g0).node, Fn(h0).node);
    }
    if f == g0 {
      g := AddTrue(dd);
    }
    if f == h0 {
      h := AddFalse(dd);
    }
    AddIteTerminal(Fn(f).node, Fn(g).node, Fn(h).node);
    if g == h {
      return Ok(g);
    }
    if g == AddTrue(dd) && h == AddFalse(dd) {
      return Ok(f);
    }
    r := AddIteSplit(dd, f, g, h);
  }

  method AddIteSplit(dd: Manager, f: Ptr, g: Ptr, h: Ptr) returns (r: Outcome)
    requires dd.Valid() && dd.HasAdd(f) && dd.HasAdd(g) && dd.HasAdd(h)
    requires f.node.kind.Internal? && g != h
    modifies dd, dd.table, dd.table.slots
    ensures dd.Valid() && dd.Continues()
    ensures r.Null? ==> dd.Full() || !Boolean(Fn(f).node)
    ensures r.Ok? ==> dd.HasAdd(r.ptr)
    ensures r.Ok? ==> Rank3(dd.perm, Fn(r.ptr), Fn(r.ptr), Fn(r.ptr)) <= Rank3(dd.perm, Fn(f), Fn(g), Fn(h))
    ensures r.Ok? && Boolean(Fn(f).node) ==>
              IsAddIte(Fn(r.ptr).node, Fn(f).node, Fn(g).node, Fn(h).node)
    decreases Rank3(dd.perm, Fn(f), Fn(g), Fn(h)), 3
  {
    hide Manager.Valid, Manager.ClipsExact, Manager.Vouched, ComputedTable.Hits, AddNode, BddNode, IsAddIte, Boolean,
      Right;
    AddConstants(dd);
    AddChildren(dd, f);
    AddChildren(dd, g);
    AddChildren(dd, h);
    dd.PointerEquality(g, h);
    var topf, topg, toph := dd.Level(f.node), dd.Level(g.node), dd.Level(h.node);
    var v := Min(topg, toph);
    var index := f.node.kind.index;
    AddIteOnVariable(index, Fn(f.node.kind.T), Fn(f.node.kind.E), Fn(g), Fn(h));
    if topf < v && f.node.kind.T.node == dd.one && f.node.kind.E.node == dd.falseLeaf {
      AddChildren(dd, f.node.kind.T);
      AddChildren(dd, f.node.kind.E);
      r := dd.UniqueInter(index, g, h);
      return;
    }
    if topf < v && f.node.kind.T.node == dd.falseLeaf && f.node.kind.E.node == dd.one {
      AddChildren(dd, f.node.kind.T);
      AddChildren(dd, f.node.kind.E);
      r := dd.UniqueInter(index, h, g);
      return;
    }
    r := AddIteCached(dd, f, g, h);
  }

  method AddIteCached(dd: Manager, f: Ptr, g: Ptr, h: Ptr) returns (r: Outcome)
    requires dd.Valid() && dd.HasAdd(f) && dd.HasAdd(g) && dd.HasAdd(h) && f.node.kind.Internal?
    modifies dd, dd.table, dd.table.slots
    ensures dd.Valid() && dd.Continues()
    ensures r.Null? ==> dd.Full() || !Boolean(Fn(f).node)
    ensures r.Ok? ==> dd.HasAdd(r.ptr)
    ensures r.Ok? ==> Rank3(dd.perm, Fn(r.ptr), Fn(r.ptr), Fn(r.ptr)) <= Rank3(dd.perm, Fn(f), Fn(g), Fn(h))
    ensures r.Ok? && Boolean(Fn(f).node) ==>
              IsAddIte(Fn(r.ptr).node, Fn(f).node, Fn(g).node, Fn(h).node)
    decreases Rank3(dd.perm, Fn(f), Fn(g), Fn(h)), 2
  {
    hide Manager.Valid, Manager.ClipsExact, Manager.Vouched, ComputedTable.Hits, AddNode, BddNode, IsAddIte, Boolean,
      Rank3;
    var hit := dd.Lookup(AddIteKey(f, g, h));
    if hit.Some? {
      return Ok(hit.value);
    }
    var n :- AddIteAtTop(dd, f, g, h);
    dd.Insert(AddIteKey(f, g, h), n);
    r := Ok(n);
  }

  method AddIteAtTop(dd: Manager, f: Ptr, g: Ptr, h: Ptr) returns (r: Outcome)
    requires dd.Valid() && dd.HasAdd(f) && dd.HasAdd(g) && dd.HasAdd(h) && f.node.kind.Internal?
    modifies dd, dd.table, dd.table.slots
    ensures dd.Valid() && dd.Continues()
    ensures r.Null? ==> dd.Full() || !Boolean(Fn(f).node)
    ensures r.Ok? ==> dd.HasAdd(r.ptr)
    ensures r.Ok? ==> Rank3(dd.perm, Fn(r.ptr), Fn(r.ptr), Fn(r.ptr)) <= Rank3(dd.perm, Fn(f), Fn(g), Fn(h))
    ensures r.Ok? && Boolean(Fn(f).node) ==>
              IsAddIte(Fn(r.ptr).node, Fn(f).node, Fn(g).node, Fn(h).node)
    decreases Rank3(dd.perm, Fn(f), Fn(g), Fn(h)), 1
  {
    hide Manager.Valid, Manager.ClipsExact, Manager.Vouched, ComputedTable.Hits, AddNode, BddNode, IsAddIte, Boolean;
    AddChildren(dd, f);
    AddChildren(dd, g);
    AddChildren(dd, h);
    var topf, topg, toph := dd.Level(f.node), dd.Level(g.node), dd.Level(h.node);
    var v := Min(topg, toph);
    var index := f.node.kind.index;
    if v < topf {
      index := if topg == v then g.node.kind.index else h.node.kind.index;
    }
    r := AddIteAt(dd, index, f, g, h);
  }

  /** The cofactors of an ADD. */
  method AddCofactors(dd: Manager, p: Ptr, index: nat) returns (pv: Ptr, pnv: Ptr)
    requires dd.Valid() && dd.HasAdd(p) && index < |dd.perm|
    requires dd.perm[index] <= Top(dd.perm, Fn(p).node)
    ensures dd.HasAdd(pv) && dd.HasAdd(pnv)
    ensures Fn(pv) == Cof(Fn(p), index, true) && Fn(pnv) == Cof(Fn(p), index, false)
    ensures dd.perm[index] < |dd.perm|
    ensures dd.perm[index] < Top(dd.perm, Fn(pv).node) && dd.perm[index] < Top(dd.perm, Fn(pnv).node)
  {
    hide Manager.Valid, Manager.ClipsExact, Manager.Vouched, ComputedTable.Hits;
    AddChildren(dd, p);
    AddCofactorShape(dd.perm, Fn(p), index, true);
    AddCofactorShape(dd.perm, Fn(p), index, false);
    if p.node.kind.Internal? && p.node.kind.index == index {
      pv, pnv := p.node.kind.T, p.node.kind.E;
    } else {
      pv, pnv := p, p;
    }
  }

  method AddIteAt(dd: Manager, index: nat, f: Ptr, g: Ptr, h: Ptr) returns (r: Outcome)
    requires dd.Valid() && dd.HasAdd(f) && dd.HasAdd(g) && dd.HasAdd(h) && index < |dd.perm|
    requires dd.perm[index] ==
             Min(Top(dd.perm, Fn(f).node), Min(Top(dd.perm, Fn(g).node), Top(dd.perm, Fn(h).node)))
    modifies dd, dd.table, dd.table.slots
    ensures dd.Valid() && dd.Continues()
    ensures r.Null? ==> dd.Full() || !Boolean(Fn(f).node)
    ensures r.Ok? ==> dd.HasAdd(r.ptr)
    ensures r.Ok? ==> Rank3(dd.perm, Fn(r.ptr), Fn(r.ptr), Fn(r.ptr)) <= Rank3(dd.perm, Fn(f), Fn(g), Fn(h))
    ensures r.Ok? && Boolean(Fn(f).node) ==>
              IsAddIte(Fn(r.ptr).node, Fn(f).node, Fn(g).node, Fn(h).node)
    decreases Rank3(dd.perm, Fn(f), Fn(g), Fn(h)), 0
  {
    hide Manager.Valid, Manager.ClipsExact, Manager.Vouched, ComputedTable.Hits, AddNode, BddNode, IsAddIte, Boolean,
      IsOrder, Cof, Rank3, Min, Top;
    var fv, fnv, gv, gnv, hv, hnv := AddSplit3(dd, index, f, g, h);
    if Boolean(Fn(f).node) {
      BooleanCofactors(dd.perm, Fn(f), index);
    }
    var t :- AddIteRecur(dd, fv, gv, hv);
    var e :- AddIteRecur(dd, fnv, gnv, hnv);
    BelowByRank(dd.perm, index, Fn(t), Fn(fv), Fn(gv), Fn(hv));
    BelowByRank(dd.perm, index, Fn(e), Fn(fnv), Fn(gnv), Fn(hnv));
    var n :- AddBuild(dd, index, t, e);
    BuiltRank(dd.perm, index, Fn(n), Fn(t), Fn(e), Fn(f), Fn(g), Fn(h));
    if Boolean(Fn(f).node) {
      AddIteStep(index, Fn(f), Fn(g), Fn(h), Fn(t), Fn(e), Fn(n));
    }
    r := Ok(n);
  }

  lemma BelowByRank(perm: seq<nat>, i: nat, r: Edge, f: Edge, g: Edge, h: Edge)
    requires i < |perm| && perm[i] < |perm| && Add(perm, r) && IsOrder(perm)
    requires perm[i] < Top(perm, f.node) && perm[i] < Top(perm, g.node) && perm[i] < Top(perm, h.node)
    requires Rank3(perm, r, r, r) <= Rank3(perm, f, g, h)
    ensures perm[i] < Top(perm, r.node)
  {
  }

  lemma BuiltRank(perm: seq<nat>, i: nat, n: Edge, t: Edge, e: Edge, f: Edge, g: Edge, h: Edge)
    requires i < |perm| && perm[i] < Top(perm, t.node)
    requires n == t || n == Edge(false, Inner(i, t, e))
    requires perm[i] == Min(Top(perm, f.node), Min(Top(perm, g.node), Top(perm, h.node)))
    ensures Rank3(perm, n, n, n) <= Rank3(perm, f, g, h)
  {
  }

  /** Splits three ADDs at the highest of their top variables. */
  method AddSplit3(dd: Manager, index: nat, f: Ptr, g: Ptr, h: Ptr)
    returns (fv: Ptr, fnv: Ptr, gv: Ptr, gnv: Ptr, hv: Ptr, hnv: Ptr)
    requires dd.Valid() && dd.HasAdd(f) && dd.HasAdd(g) && dd.HasAdd(h) && index < |dd.perm|
    requires dd.perm[index] ==
             Min(Top(dd.perm, Fn(f).node), Min(Top(dd.perm, Fn(g).node), Top(dd.perm, Fn(h).node)))
    ensures dd.HasAdd(fv) && dd.HasAdd(fnv) && dd.HasAdd(gv) && dd.HasAdd(gnv) && dd.HasAdd(hv) && dd.HasAdd(hnv)
    ensures Fn(fv) == Cof(Fn(f), index, true) && Fn(fnv) == Cof(Fn(f), index, false)
    ensures Fn(gv) == Cof(Fn(g), index, true) && Fn(gnv) == Cof(Fn(g), index, false)
    ensures Fn(hv) == Cof(Fn(h), index, true) && Fn(hnv) == Cof(Fn(h), index, false)
    ensures dd.perm[index] < |dd.perm|
    ensures dd.perm[index] < Top(dd.perm, Fn(fv).node) && dd.perm[index] < Top(dd.perm, Fn(fnv).node)
    ensures dd.perm[index] < Top(dd.perm, Fn(gv).node) && dd.perm[index] < Top(dd.perm, Fn(gnv).node)
    ensures dd.perm[index] < Top(dd.perm, Fn(hv).node) && dd.perm[index] < Top(dd.perm, Fn(hnv).node)
    ensures Rank3(dd.perm, Fn(fv), Fn(gv), Fn(hv)) < Rank3(dd.perm, Fn(f), Fn(g), Fn(h))
    ensures Rank3(dd.perm, Fn(fnv), Fn(gnv), Fn(hnv)) < Rank3(dd.perm, Fn(f), Fn(g), Fn(h))
  {
    hide Manager.Valid, Manager.ClipsExact, Manager.Vouched, ComputedTable.Hits, AddNode, BddNode, IsOrder, Cof, Top;
    fv, fnv := AddCofactors(dd, f, index);
    gv, gnv := AddCofactors(dd, g, index);
    hv, hnv := AddCofactors(dd, h, index);
  }
}
