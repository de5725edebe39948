/** Existential and universal quantification over the variables of a positive cube, and the boolean
    difference. */
module BddAbs {
  import opened Diagrams
  import opened Semantics
  import opened Managers
  import opened ComputedTables
  import opened BddIte

  ghost predicate HasCube(dd: Manager, cube: Ptr)
    reads dd`nodes
  {
    dd.HasBdd(cube) && PositiveCube(Fn(cube))
  }

  /** Whether the pointer is a product of positive literals. */
  method CheckPositiveCube(dd: Manager, cube: Ptr) returns (positive: bool)
    requires dd.Valid() && dd.HasBdd(cube)
    ensures positive <==> PositiveCube(Fn(cube))
    decreases Fn(cube).node
  {
    dd.Constants(cube);
    if cube.comp {
      return false;
    }
    if cube == dd.True() {
      return true;
    }
    var e := cube.node.kind.E;
    dd.PointerEquality(e, dd.False());
    if e == dd.False() {
      positive := CheckPositiveCube(dd, cube.node.kind.T);
    } else {
      positive := false;
    }
  }

  /** Drops the cube variables above both operands: they occur in neither. */
  method SkipCube(dd: Manager, f: Ptr, g: Ptr, cube0: Ptr) returns (cube: Ptr)
    requires dd.Valid() && dd.HasBdd(f) && dd.HasBdd(g) && HasCube(dd, cube0)
    ensures HasCube(dd, cube) && !cube.comp && Below(dd.perm, Fn(cube), Fn(f), Fn(g))
    ensures SameProduct(Fn(f), Fn(g), CubeVars(Fn(cube).node), CubeVars(Fn(cube0).node))
  {
    hide Manager.Valid, Manager.ClipsExact, Manager.Vouched, ComputedTable.Hits, IsOrder;
    cube := cube0;
    dd.Constants(f);
    dd.Constants(g);
    dd.Constants(cube);
    var top := Min(dd.Level(f.node), dd.Level(g.node));
    while dd.Level(cube.node) < top
      invariant HasCube(dd, cube) && dd.Level(cube.node) == Top(dd.perm, Fn(cube).node) <= |dd.perm|
      invariant cube.node != dd.one ==> dd.Level(cube.node) < |dd.perm|
      invariant SameProduct(Fn(f), Fn(g), CubeVars(Fn(cube).node), CubeVars(Fn(cube0).node))
      decreases Fn(cube).node
    {
      dd.Children(cube);
      CubeStep(dd.perm, Fn(cube));
      SkipVariable(
        dd.perm, cube.node.kind.index, Fn(f), Fn(g), CubeVars(Fn(cube).node.T.node),
        CubeVars(Fn(cube0).node));
      cube := cube.node.kind.T;
      dd.Constants(cube);
    }
  }

  method BddExistAbstractRecur(dd: Manager, f: Ptr, cube0: Ptr) returns (r: Outcome)
    requires dd.Valid() && dd.HasBdd(f) && HasCube(dd, cube0)
    modifies dd, dd.table, dd.table.slots
    ensures dd.Valid() && dd.Continues()
    ensures r.Null? ==> dd.Full()
    ensures r.Ok? ==> dd.HasBdd(r.ptr) && IsExists(Fn(r.ptr), Fn(f), CubeVars(Fn(cube0).node))
    decreases Rank(dd.perm, Fn(f), ONE), 1
  {
    hide Manager.Valid, Manager.ClipsExact, Manager.Vouched, ComputedTable.Hits, BddNode, Eval, IsOrder, IsExists,
      PositiveCube, SameProduct;
    ExistsNothing(Fn(f), CubeVars(Fn(cube0).node));
    dd.Constants(f);
    dd.Constants(cube0);
    if cube0 == dd.True() || f.node == dd.one {
      return Ok(f);
    }
    var cube := SkipCube(dd, f, dd.True(), cube0);
    ExistsSkipped(Fn(f), CubeVars(Fn(cube).node), CubeVars(Fn(cube0).node));
    dd.Constants(cube);
    if cube == dd.True() {
      return Ok(f);
    }
    if * {
      var hit := dd.Lookup(ExistKey(f, cube));
      if hit.Some? {
        return Ok(hit.value);
      }
    }
    var b: Ptr;
    if f.node.kind.index == cube.node.kind.index {
      b :- ExistHere(dd, f, cube);
    } else {
      b :- ExistBelow(dd, f, cube);
    }
    if * {
      dd.Insert(ExistKey(f, cube), b);
    }
    r := Ok(b);
  }

  lemma ExistsSkipped(f: Edge, vs: set<nat>, ws: set<nat>)
    requires SameProduct(f, ONE, vs, ws)
    ensures forall r :: IsExists(r, f, vs) ==> IsExists(r, f, ws)
    ensures vs == {} ==> IsExists(f, f, ws)
  {
    forall r | IsExists(r, f, vs) ensures IsExists(r, f, ws) {
      ExistsIsAndExists(r, f, ONE, vs);
      SameProductIs(r, f, ONE, vs, ws);
      ExistsIsAndExists(r, f, ONE, ws);
    }
    ExistsNothing(f, ws);
  }

  /** The top variable of f is the top variable of the cube: quantify it. */
  method ExistHere(dd: Manager, f: Ptr, cube: Ptr) returns (r: Outcome)
    requires dd.Valid() && dd.HasBdd(f) && HasCube(dd, cube) && f.node != dd.one && cube.node != dd.one
    requires Fn(f).node.index == Fn(cube).node.index
    modifies dd, dd.table, dd.table.slots
    ensures dd.Valid() && dd.Continues()
    ensures r.Null? ==> dd.Full()
    ensures r.Ok? ==> dd.HasBdd(r.ptr) && IsExists(Fn(r.ptr), Fn(f), CubeVars(Fn(cube).node))
    decreases Rank(dd.perm, Fn(f), ONE), 0
  {
    hide Manager.Valid, Manager.ClipsExact, Manager.Vouched, ComputedTable.Hits, BddNode, Eval, IsOrder, IsExists,
      PositiveCube, CubeVars, IsOr, Right;
    dd.Constants(f);
    dd.Constants(cube);
    dd.Children(cube);
    CubeStep(dd.perm, Fn(cube));
    var index := f.node.kind.index;
    var t, e := dd.Cofactors(f, index);
    var rest := cube.node.kind.T;
    ghost var vs := CubeVars(Fn(rest).node);
    if t == dd.True() || e == dd.True() || t == PNot(e) {
      ExistsOne(dd.perm, index, vs, Fn(f));
      return Ok(dd.True());
    }
    var res1 :- BddExistAbstractRecur(dd, t, rest);
    if res1 == dd.True() {
      ExistsEarly(dd.perm, index, vs, Fn(f));
      return Ok(dd.True());
    }
    var res2 :- BddExistAbstractRecur(dd, e, rest);
    var n :- OrRecur(dd, res1, res2);
    ExistsJoin(dd.perm, index, vs, Fn(f), Fn(res1), Fn(res2), Fn(n));
    r := Ok(n);
  }

  /** The disjunction, as the complement of the conjunction of the complements. */
  method OrRecur(dd: Manager, t: Ptr, e: Ptr) returns (r: Outcome)
    requires dd.Valid() && dd.HasBdd(t) && dd.HasBdd(e)
    modifies dd, dd.table, dd.table.slots
    ensures dd.Valid() && dd.Continues()
    ensures r.Null? ==> dd.Full()
    ensures r.Ok? ==> dd.HasBdd(r.ptr) && IsOr(Fn(r.ptr), Fn(t), Fn(e))
  {
    hide Manager.Valid, Manager.ClipsExact, Manager.Vouched, ComputedTable.Hits, BddNode, Eval, IsAnd, IsOr;
    var n :- BddAndRecur(dd, PNot(t), PNot(e));
    OrByAnd(Fn(PNot(n)), Fn(t), Fn(e));
    r := Ok(PNot(n));
  }

  /** A variable above a cube does not occur in it. */
  lemma CubeWithout(perm: seq<nat>, f: Edge, cube: Edge)
    requires IsOrder(perm) && Bdd(perm, f) && Bdd(perm, cube) && f.node.Inner? && cube.node.Inner?
    requires Top(perm, f.node) <= Top(perm, cube.node) && f.node.index != cube.node.index
    ensures f.node.index !in CubeVars(cube.node)
  {
    CubeVarsBelow(perm, cube.node);
  }

  /** The top variable of f lies above the cube: keep it. */
  method ExistBelow(dd: Manager, f: Ptr, cube: Ptr) returns (r: Outcome)
    requires dd.Valid() && dd.HasBdd(f) && HasCube(dd, cube) && f.node != dd.one
    requires Top(dd.perm, Fn(f).node) <= Top(dd.perm, Fn(cube).node)
    requires cube.node != dd.one && Fn(f).node.index != Fn(cube).node.index
    modifies dd, dd.table, dd.table.slots
    ensures dd.Valid() && dd.Continues()
    ensures r.Null? ==> dd.Full()
    ensures r.Ok? ==> dd.HasBdd(r.ptr) && IsExists(Fn(r.ptr), Fn(f), CubeVars(Fn(cube).node))
    decreases Rank(dd.perm, Fn(f), ONE), 0
  {
    hide Manager.Valid, Manager.ClipsExact, Manager.Vouched, ComputedTable.Hits, BddNode, Eval, IsExists,
      PositiveCube, IsIte, CubeVars, Right;
    dd.Constants(f);
    dd.Constants(cube);
    CubeWithout(dd.perm, Fn(f), Fn(cube));
    hide IsOrder;
    var index := f.node.kind.index;
    var t, e := dd.Cofactors(f, index);
    var res1 :- BddExistAbstractRecur(dd, t, cube);
    var res2 :- BddExistAbstractRecur(dd, e, cube);
    dd.Projection(index);
    // if-then-else takes care of a complemented res1 and of res1 == res2
    var n :- BddIteRecur(dd, dd.VarPtr(index), res1, res2);
    ExistsBranch(index, CubeVars(Fn(cube).node), Fn(f), Fn(res1), Fn(res2), Fn(n));
    r := Ok(n);
  }

  /** Rejects anything but a positive cube; otherwise quantifies existentially. */
  method BddExistAbstract(dd: Manager, f: Ptr, cube: Ptr) returns (r: Outcome)
    requires dd.Valid() && dd.HasBdd(f) && dd.HasBdd(cube)
    modifies dd, dd.table, dd.table.slots
    ensures dd.Valid() && dd.Continues()
    ensures r.Null? ==> dd.Full() || !PositiveCube(Fn(cube))
    ensures r.Ok? ==>
              PositiveCube(Fn(cube)) && dd.HasBdd(r.ptr) && IsExists(Fn(r.ptr), Fn(f), CubeVars(Fn(cube).node))
  {
    hide Manager.Valid, Manager.ClipsExact, Manager.Vouched, ComputedTable.Hits, BddNode, PositiveCube, IsExists,
      CubeVars;
    var positive := CheckPositiveCube(dd, cube);
    if !positive {
      return Null;
    }
    r := BddExistAbstractRecur(dd, f, cube);
  }

  method BddUnivAbstract(dd: Manager, f: Ptr, cube: Ptr) returns (r: Outcome)
    requires dd.Valid() && dd.HasBdd(f) && dd.HasBdd(cube)
    modifies dd, dd.table, dd.table.slots
    ensures dd.Valid() && dd.Continues()
    ensures r.Null? ==> dd.Full() || !PositiveCube(Fn(cube))
    ensures r.Ok? ==>
              PositiveCube(Fn(cube)) && dd.HasBdd(r.ptr) && IsForall(Fn(r.ptr), Fn(f), CubeVars(Fn(cube).node))
  {
    hide Manager.Valid, Manager.ClipsExact, Manager.Vouched, ComputedTable.Hits, BddNode, Eval, IsExists, IsForall;
    var positive := CheckPositiveCube(dd, cube);
    if !positive {
      return Null;
    }
    var n :- BddExistAbstractRecur(dd, PNot(f), cube);
    ForallIsDual(Fn(PNot(n)), Fn(f), CubeVars(Fn(cube).node));
    r := Ok(PNot(n));
  }

  method BddBooleanDiffRecur(dd: Manager, f: Ptr, x: Ptr) returns (r: Outcome)
    requires dd.Valid() && dd.HasBdd(f) && !f.comp && dd.HasBdd(x) && Fn(x).node.Inner?
    modifies dd, dd.table, dd.table.slots
    ensures dd.Valid() && dd.Continues()
    ensures r.Null? ==> dd.Full()
    ensures r.Ok? ==> dd.HasBdd(r.ptr) && IsDifference(Fn(r.ptr), Fn(f), Fn(x).node.index)
    decreases Rank(dd.perm, Fn(f), ONE), 1
  {
    hide Manager.Valid, Manager.ClipsExact, Manager.Vouched, ComputedTable.Hits, BddNode, Eval, IsOrder, IsDifference,
      IsXor, IsIte;
    dd.Constants(f);
    dd.Constants(x);
    var v := x.node.kind.index;
    if dd.Level(f.node) > dd.perm[v] {
      DifferenceBelow(dd.perm, Fn(f), v);
      return Ok(dd.False());
    }
    var index := f.node.kind.index;
    var t, e := dd.Cofactors(f, index);
    if index == v {
      var n :- BddXorRecur(dd, t, e);
      DifferenceHere(dd.perm, v, Fn(f), Fn(n));
      return Ok(n);
    }
    var hit := dd.Lookup(DifferenceKey(f, x));
    if hit.Some? {
      return Ok(hit.value);
    }
    var n :- DifferenceAbove(dd, f, x);
    dd.Insert(DifferenceKey(f, x), n);
    r := Ok(n);
  }

  /** The difference with respect to a variable below the top of f. */
  method DifferenceAbove(dd: Manager, f: Ptr, x: Ptr) returns (r: Outcome)
    requires dd.Valid() && dd.HasBdd(f) && !f.comp && f.node != dd.one
    requires dd.HasBdd(x) && Fn(x).node.Inner? && Fn(x).node.index != Fn(f).node.index
    modifies dd, dd.table, dd.table.slots
    ensures dd.Valid() && dd.Continues()
    ensures r.Null? ==> dd.Full()
    ensures r.Ok? ==> dd.HasBdd(r.ptr) && IsDifference(Fn(r.ptr), Fn(f), Fn(x).node.index)
    decreases Rank(dd.perm, Fn(f), ONE), 0
  {
    hide Manager.Valid, Manager.ClipsExact, Manager.Vouched, ComputedTable.Hits, BddNode, Eval, IsOrder, IsDifference,
      IsXor, IsIte, Right;
    dd.Constants(f);
    dd.Constants(x);
    var v := x.node.kind.index;
    var index := f.node.kind.index;
    var t, e := dd.Cofactors(f, index);
    var res1 :- BddBooleanDiffRecur(dd, t, x);
    var res2 :- BddBooleanDiffRecur(dd, Regular(e), x);
    DifferenceRegular(Fn(res2), Fn(e), v);
    dd.Projection(index);
    var n :- BddIteRecur(dd, dd.VarPtr(index), res1, res2);
    DifferenceStep(dd.perm, v, Fn(f), Fn(res1), Fn(res2), Fn(n));
    r := Ok(n);
  }

  /** A function and its complement have the same difference. */
  lemma DifferenceRegular(r: Edge, f: Edge, v: nat)
    requires IsDifference(r, Edge(false, f.node), v)
    ensures IsDifference(r, f, v)
  {
  }

  lemma DifferenceBelow(perm: seq<nat>, f: Edge, v: nat)
    requires IsOrder(perm) && Bdd(perm, f) && v < |perm| && perm[v] < Top(perm, f.node)
    ensures IsDifference(ZERO, f, v)
  {
    IgnoresAbove(perm, f, v);
  }

  /** The boolean difference with respect to the variable of index x. */
  method BddBooleanDiff(dd: Manager, f: Ptr, x: nat) returns (r: Outcome)
    requires dd.Valid() && dd.HasBdd(f)
    modifies dd, dd.table, dd.table.slots
    ensures dd.Valid() && dd.Continues()
    ensures r.Null? ==> dd.Full()
    ensures r.Ok? ==> dd.HasBdd(r.ptr) && IsDifference(Fn(r.ptr), Fn(f), x)
  {
    hide Manager.Valid, Manager.ClipsExact, Manager.Vouched, ComputedTable.Hits, BddNode, Eval, IsOrder, IsDifference;
    if x >= |dd.vars| {
      DifferenceAbsent(dd.perm, Fn(f), x);
      return Ok(dd.False());
    }
    dd.Projection(x);
    r := BddBooleanDiffRecur(dd, Regular(f), dd.VarPtr(x));
    if r.Ok? {
      DifferenceRegular(Fn(r.ptr), Fn(f), x);
    }
  }

  lemma DifferenceAbsent(perm: seq<nat>, f: Edge, v: nat)
    requires IsOrder(perm) && Bdd(perm, f) && v >= |perm|
    ensures IsDifference(ZERO, f, v)
  {
    SupportBelowTop(perm, f.node);
    forall a: Assignment ensures Eval(f, With(a, v, true)) == Eval(f, With(a, v, false)) {
      EvalSupport(f.node, With(a, v, true), With(a, v, false));
    }
  }
}
