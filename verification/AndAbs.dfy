/** The relational product: conjunction and existential quantification in one recursion. */
module AndAbs {
  import opened Diagrams
  import opened Semantics
  import opened Managers
  import opened ComputedTables
  import opened BddIte
  import opened BddAbs

  method BddAndAbstractRecur(dd: Manager, f0: Ptr, g0: Ptr, cube0: Ptr) returns (r: Outcome)
    requires dd.Valid() && dd.HasBdd(f0) && dd.HasBdd(g0) && HasCube(dd, cube0)
    modifies dd, dd.table, dd.table.slots
    ensures dd.Valid() && dd.Continues()
    ensures r.Null? ==> dd.Full()
    ensures r.Ok? ==>
              dd.HasBdd(r.ptr) && IsAndExists(Fn(r.ptr), Fn(f0), Fn(g0), CubeVars(Fn(cube0).node))
    decreases Rank(dd.perm, Fn(f0), Fn(g0)), 2
  {
    hide Manager.Valid, Manager.ClipsExact, Manager.Vouched, ComputedTable.Hits, BddNode, Eval, IsOrder, IsExists,
      IsAndExists, PositiveCube;
    hide SameProduct, IsAnd, Below, Top, Manager.Full;
    var simple: bool;
    r, simple := AndAbstractSimple(dd, f0, g0, cube0);
    if simple {
      return;
    }
    var f, g := f0, g0;
    AndExistsSwap(Fn(f), Fn(g), CubeVars(Fn(cube0).node));
    if * {
      f, g := g, f;
    }
    var cube := SkipCube(dd, f, g, cube0);
    ProductSkipped(Fn(f), Fn(g), CubeVars(Fn(cube).node), CubeVars(Fn(cube0).node));
    dd.Constants(cube);
    if cube == dd.True() {
      r := BddAndRecur(dd, f, g);
      return;
    }
    if * {
      var hit := dd.Lookup(AndExistKey(f, g, cube));
      if hit.Some? {
        return Ok(hit.value);
      }
    }
    r := AndAbstractDeeper(dd, f, g, cube);
    var shared: bool := *;
    if r.Ok? && shared {
      dd.Insert(AndExistKey(f, g, cube), r.ptr);
    }
  }

  /** The recursion, at or above the top variable of the cube. */
  method AndAbstractDeeper(dd: Manager, f: Ptr, g: Ptr, cube: Ptr) returns (r: Outcome)
    requires dd.Valid() && dd.HasBdd(f) && dd.HasBdd(g) && HasCube(dd, cube)
    requires f.node != dd.one && g.node != dd.one && cube.node != dd.one
    requires Below(dd.perm, Fn(cube), Fn(f), Fn(g))
    modifies dd, dd.table, dd.table.slots
    ensures dd.Valid() && dd.Continues()
    ensures r.Null? ==> dd.Full()
    ensures r.Ok? ==> dd.HasBdd(r.ptr) && IsAndExists(Fn(r.ptr), Fn(f), Fn(g), CubeVars(Fn(cube).node))
    decreases Rank(dd.perm, Fn(f), Fn(g)), 1
  {
    hide Manager.Valid, Manager.ClipsExact, Manager.Vouched, ComputedTable.Hits, BddNode, Eval, IsOrder, IsAndExists,
      PositiveCube, CubeVars;
    dd.Constants(f);
    dd.Constants(g);
    dd.Constants(cube);
    if dd.Level(cube.node) == Min(dd.Level(f.node), dd.Level(g.node)) {
      r := AndAbstractHere(dd, f, g, cube);
    } else {
      r := AndAbstractBelow(dd, f, g, cube);
    }
  }

  lemma AndExistsSwap(f: Edge, g: Edge, vs: set<nat>)
    ensures forall r :: IsAndExists(r, g, f, vs) ==> IsAndExists(r, f, g, vs)
  {
  }

  lemma ProductSkipped(f: Edge, g: Edge, vs: set<nat>, ws: set<nat>)
    requires SameProduct(f, g, vs, ws)
    ensures forall r :: IsAndExists(r, f, g, vs) ==> IsAndExists(r, f, g, ws)
    ensures vs == {} ==> forall r :: IsAnd(r, f, g) ==> IsAndExists(r, f, g, ws)
  {
    forall r | IsAndExists(r, f, g, vs) ensures IsAndExists(r, f, g, ws) {
      SameProductIs(r, f, g, vs, ws);
    }
    forall r ensures IsAnd(r, f, g) ==> IsAndExists(r, f, g, {}) {
      AndExistsNothing(r, f, g);
    }
  }

  /** The terminal cases, some of which are plain quantification or plain conjunction. */
  method AndAbstractSimple(dd: Manager, f: Ptr, g: Ptr, cube: Ptr) returns (r: Outcome, simple: bool)
    requires dd.Valid() && dd.HasBdd(f) && dd.HasBdd(g) && HasCube(dd, cube)
    modifies dd, dd.table, dd.table.slots
    ensures dd.Valid() && dd.Continues()
    ensures simple && r.Null? ==> dd.Full()
    ensures simple && r.Ok? ==>
              dd.HasBdd(r.ptr) && IsAndExists(Fn(r.ptr), Fn(f), Fn(g), CubeVars(Fn(cube).node))
    ensures !simple ==> f.node != dd.one && g.node != dd.one && cube.node != dd.one
  {
    hide Manager.Valid, Manager.ClipsExact, Manager.Vouched, ComputedTable.Hits, BddNode, Eval, IsOrder, IsAndExists,
      IsExists, IsAnd;
    ghost var vs := CubeVars(Fn(cube).node);
    AndExistsTerminal(Fn(f), Fn(g), vs);
    dd.Constants(cube);
    simple := true;
    if f == dd.False() || g == dd.False() || f == PNot(g) {
      r := Ok(dd.False());
    } else if f == dd.True() && g == dd.True() {
      r := Ok(dd.True());
    } else if cube == dd.True() {
      var n :- BddAndRecur(dd, f, g);
      AndExistsNothing(Fn(n), Fn(f), Fn(g));
      r := Ok(n);
    } else if f == dd.True() || f == g {
      var n :- BddExistAbstractRecur(dd, g, cube);
      AndExistsPlain(Fn(n), Fn(f), Fn(g), vs);
      r := Ok(n);
    } else if g == dd.True() {
      var n :- BddExistAbstractRecur(dd, f, cube);
      AndExistsPlain(Fn(n), Fn(f), Fn(g), vs);
      r := Ok(n);
    } else {
      r, simple := Null, false;
    }
  }

  /** The top variable is quantified: join the two branches, or find that one is enough. */
  method AndAbstractHere(dd: Manager, f: Ptr, g: Ptr, cube: Ptr) returns (r: Outcome)
    requires dd.Valid() && dd.HasBdd(f) && dd.HasBdd(g) && HasCube(dd, cube)
    requires f.node != dd.one && g.node != dd.one && cube.node != dd.one
    requires Top(dd.perm, Fn(cube).node) == Min(Top(dd.perm, Fn(f).node), Top(dd.perm, Fn(g).node))
    modifies dd, dd.table, dd.table.slots
    ensures dd.Valid() && dd.Continues()
    ensures r.Null? ==> dd.Full()
    ensures r.Ok? ==>
              dd.HasBdd(r.ptr) && IsAndExists(Fn(r.ptr), Fn(f), Fn(g), CubeVars(Fn(cube).node))
    decreases Rank(dd.perm, Fn(f), Fn(g)), 0
  {
    hide Manager.Valid, Manager.ClipsExact, Manager.Vouched, ComputedTable.Hits, BddNode, Eval, IsExists, IsAndExists,
      PositiveCube, CubeVars, IsOr;
    hide Cof, Top, Right, IsElse;
    dd.Constants(cube);
    dd.Children(cube);
    CubeStep(dd.perm, Fn(cube));
    var index, ft, fe, gt, ge := dd.Split(f, g);
    var rest := cube.node.kind.T;
    ghost var vs := CubeVars(Fn(rest).node);
    var t :- BddAndAbstractRecur(dd, ft, gt, rest);
    // 1 or anything is 1; likewise t or (t and anything) is t, and t is free of the quantified variables
    if t == dd.True() || t == fe || t == ge {
      AndExistsEarly(dd.perm, index, vs, Fn(f), Fn(g), Fn(t));
      return Ok(t);
    }
    var e :- AndAbstractElse(dd, t, fe, ge, rest);
    var n :- JoinRecur(dd, t, e);
    QuantifyJoin(dd.perm, index, vs, Fn(f), Fn(g), Fn(t), Fn(e), Fn(n));
    r := Ok(n);
  }

  /** The else branch. As t or (not t and anything) is t or anything, an operand that is the complement
      of t can be left out. */
  method AndAbstractElse(dd: Manager, t: Ptr, fe: Ptr, ge: Ptr, rest: Ptr) returns (r: Outcome)
    requires dd.Valid() && dd.HasBdd(fe) && dd.HasBdd(ge) && HasCube(dd, rest)
    modifies dd, dd.table, dd.table.slots
    ensures dd.Valid() && dd.Continues()
    ensures r.Null? ==> dd.Full()
    ensures r.Ok? ==>
              && dd.HasBdd(r.ptr)
              && IsElse(Fn(r.ptr), Fn(t), Fn(fe), Fn(ge), CubeVars(Fn(rest).node))
    decreases Rank(dd.perm, Fn(fe), Fn(ge)), 3
  {
    hide Manager.Valid, Manager.ClipsExact, Manager.Vouched, ComputedTable.Hits, BddNode, Eval, IsExists, IsAndExists,
      PositiveCube, CubeVars, Right;
    if t == PNot(fe) {
      r := BddExistAbstractRecur(dd, ge, rest);
    } else if t == PNot(ge) {
      r := BddExistAbstractRecur(dd, fe, rest);
    } else {
      r := BddAndAbstractRecur(dd, fe, ge, rest);
    }
  }

  ghost predicate IsElse(r: Edge, t: Edge, fe: Edge, ge: Edge, vs: set<nat>) {
    || (t == Not(fe) && IsExists(r, ge, vs))
    || (t == Not(ge) && IsExists(r, fe, vs))
    || IsAndExists(r, fe, ge, vs)
  }

  /** The three ways the else branch is computed all give the product. */
  lemma QuantifyJoin(
    perm: seq<nat>, i: nat, vs: set<nat>, f: Edge, g: Edge, t: Edge, e: Edge, r: Edge)
    requires IsOrder(perm) && Bdd(perm, f) && Bdd(perm, g) && i < |perm| && i !in vs
    requires perm[i] <= Top(perm, f.node) && perm[i] <= Top(perm, g.node)
    requires IsAndExists(t, Cof(f, i, true), Cof(g, i, true), vs)
    requires IsElse(e, t, Cof(f, i, false), Cof(g, i, false), vs) && IsOr(r, t, e)
    ensures IsAndExists(r, f, g, {i} + vs)
  {
    hide Eval, IsAndExists, IsExists, IsOr, BddNode, IsOrder, Cof;
    if t == Not(Cof(f, i, false)) && IsExists(e, Cof(g, i, false), vs) {
      AndExistsAbsorbed(perm, i, vs, f, g, t, e, r);
    } else if t == Not(Cof(g, i, false)) && IsExists(e, Cof(f, i, false), vs) {
      AndExistsSymmetric(t, Cof(f, i, true), Cof(g, i, true), vs);
      AndExistsAbsorbed(perm, i, vs, g, f, t, e, r);
      AndExistsSymmetric(r, g, f, {i} + vs);
    } else {
      AndExistsJoin(perm, i, vs, f, g, t, e, r);
    }
  }

  /** The disjunction, with nothing to do for equal operands. */
  method JoinRecur(dd: Manager, t: Ptr, e: Ptr) returns (r: Outcome)
    requires dd.Valid() && dd.HasBdd(t) && dd.HasBdd(e)
    modifies dd, dd.table, dd.table.slots
    ensures dd.Valid() && dd.Continues()
    ensures r.Null? ==> dd.Full()
    ensures r.Ok? ==> dd.HasBdd(r.ptr) && IsOr(Fn(r.ptr), Fn(t), Fn(e))
  {
    hide Manager.Valid, Manager.ClipsExact, Manager.Vouched, ComputedTable.Hits, BddNode, Eval, IsOr;
    if t == e {
      OrSame(Fn(t));
      return Ok(t);
    }
    r := OrRecur(dd, t, e);
  }

  /** The top variable is not quantified: keep it. */
  method AndAbstractBelow(dd: Manager, f: Ptr, g: Ptr, cube: Ptr) returns (r: Outcome)
    requires dd.Valid() && dd.HasBdd(f) && dd.HasBdd(g) && HasCube(dd, cube)
    requires f.node != dd.one && g.node != dd.one
    requires Min(Top(dd.perm, Fn(f).node), Top(dd.perm, Fn(g).node)) < Top(dd.perm, Fn(cube).node)
    modifies dd, dd.table, dd.table.slots
    ensures dd.Valid() && dd.Continues()
    ensures r.Null? ==> dd.Full()
    ensures r.Ok? ==>
              dd.HasBdd(r.ptr) && IsAndExists(Fn(r.ptr), Fn(f), Fn(g), CubeVars(Fn(cube).node))
    decreases Rank(dd.perm, Fn(f), Fn(g)), 0
  {
    hide Manager.Valid, Manager.ClipsExact, Manager.Vouched, ComputedTable.Hits, BddNode, Eval, IsOrder, IsAndExists,
      IsBranch, PositiveCube, CubeVars, Cof;
    CubeVarsBelow(dd.perm, Fn(cube).node);
    var index, ft, fe, gt, ge := dd.Split(f, g);
    ghost var vs := CubeVars(Fn(cube).node);
    var t :- BddAndAbstractRecur(dd, ft, gt, cube);
    var e :- BddAndAbstractRecur(dd, fe, ge, cube);
    AndExistsTop(dd.perm, Fn(t), Fn(ft), Fn(gt), vs);
    AndExistsTop(dd.perm, Fn(e), Fn(fe), Fn(ge), vs);
    var b :- dd.Build(index, t, e);
    AndExistsBranch(index, vs, Fn(f), Fn(g), Fn(t), Fn(e), Fn(b));
    r := Ok(b);
  }
}
