/** Cubes of literals, their intersection, and the essential variables of a function. */
module Essent {
  import opened Diagrams
  import opened Semantics
  import opened Managers
  import opened ComputedTables
  import opened BddIte

  /* ---------- cubes ---------- */

  ghost function LiteralEdge(l: Literal): Edge {
    NotCond(Var(l.v), !l.phase)
  }

  lemma LiteralEval(l: Literal, a: Assignment)
    ensures Eval(LiteralEdge(l), a) == Holds(l, a)
  {
    VarEval(l.v, a);
  }

  /** The canonical edge of a literal and a cube below it. */
  ghost function CubeCons(l: Literal, tail: Edge): Edge {
    if !l.phase then Edge(true, Inner(l.v, ONE, Not(tail)))
    else if tail.comp then Edge(true, Inner(l.v, Not(tail), ONE))
    else Edge(false, Inner(l.v, tail, ZERO))
  }

  lemma CubeConsShape(perm: seq<nat>, l: Literal, tail: Edge)
    requires IsOrder(perm) && Bdd(perm, tail) && tail != ZERO
    requires l.v < |perm| && perm[l.v] < Top(perm, tail.node)
    ensures Bdd(perm, CubeCons(l, tail))
    ensures CubeCons(l, tail).node.Inner? && CubeCons(l, tail).node.index == l.v
    ensures Then(CubeCons(l, tail)) == if l.phase then tail else ZERO
    ensures Else(CubeCons(l, tail)) == if l.phase then ZERO else tail
  {
  }

  /** The conjunction of a literal and a cube below it is the cube with that literal added. */
  lemma CubeConsIsAnd(perm: seq<nat>, r: Edge, l: Literal, tail: Edge)
    requires IsOrder(perm) && Bdd(perm, r) && Bdd(perm, tail) && tail != ZERO
    requires l.v < |perm| && perm[l.v] < Top(perm, tail.node)
    requires IsAnd(r, LiteralEdge(l), tail)
    ensures r == CubeCons(l, tail)
  {
    var c := CubeCons(l, tail);
    CubeConsShape(perm, l, tail);
    forall a: Assignment ensures Eval(r, a) == Eval(c, a) {
      LiteralEval(l, a);
      Shannon(c, l.v, a);
    }
    Canonical(perm, r, c);
  }

  lemma CubeConsLiterals(perm: seq<nat>, l: Literal, tail: Edge)
    requires IsOrder(perm) && Bdd(perm, tail) && IsCube(tail)
    requires l.v < |perm| && perm[l.v] < Top(perm, tail.node)
    ensures IsCube(CubeCons(l, tail)) && Literals(CubeCons(l, tail)) == {l} + Literals(tail)
  {
  }

  lemma CubeNotZero(c: Edge)
    requires IsCube(c)
    ensures c != ZERO
  {
  }

  /** A cube without its top literal is a cube further down. */
  lemma TailShape(perm: seq<nat>, c: Edge)
    requires IsOrder(perm) && Bdd(perm, c) && IsCube(c) && c.node.Inner?
    ensures Bdd(perm, CubeTail(c)) && IsCube(CubeTail(c))
    ensures Top(perm, c.node) < Top(perm, CubeTail(c).node)
    ensures Literals(c) == {Literal(c.node.index, Then(c) != ZERO)} + Literals(CubeTail(c))
  {
  }

  lemma {:induction false} LiteralsBelow(perm: seq<nat>, c: Edge)
    requires IsOrder(perm) && Bdd(perm, c) && IsCube(c)
    ensures forall l :: l in Literals(c) ==> l.v < |perm| && Top(perm, c.node) <= perm[l.v]
    decreases c.node
  {
    if c.node.Inner? {
      LiteralsBelow(perm, CubeTail(c));
    }
  }

  /** A cube is the conjunction of its literals. */
  lemma {:induction false} CubeEval(c: Edge, a: Assignment)
    requires IsCube(c)
    ensures Eval(c, a) <==> forall l :: l in Literals(c) ==> Holds(l, a)
    decreases c.node
  {
    if c.node.Inner? {
      CubeEval(CubeTail(c), a);
      Shannon(c, c.node.index, a);
      ConstantEval(a);
      assert Holds(Literal(c.node.index, Then(c) != ZERO), a) <==> (c.node.index in a <==> Then(c) != ZERO);
    } else {
      ConstantEval(a);
    }
  }

  /** e is 1 exactly where all the given literals hold. */
  ghost predicate IsLiteralProduct(e: Edge, ls: set<Literal>) {
    forall a: Assignment :: Eval(e, a) <==> forall l :: l in ls ==> Holds(l, a)
  }

  /** The cofactors of a product of literals at a variable, the first of them in the given phase. */
  lemma LiteralProductCofactors(perm: seq<nat>, e: Edge, ls: set<Literal>, i: nat, phase: bool)
    requires IsOrder(perm) && Bdd(perm, e) && e.node.Inner? && e.node.index == i && IsLiteralProduct(e, ls)
    requires Literal(i, !phase) !in ls
    ensures IsLiteralProduct(Cof(e, i, phase), ls - {Literal(i, phase)})
    ensures Literal(i, phase) in ls ==> Equivalent(Cof(e, i, !phase), ZERO)
    ensures Literal(i, phase) !in ls ==> IsLiteralProduct(Cof(e, i, !phase), ls - {Literal(i, phase)})
  {
    hide IsOrder, Eval, Cof;
    var l, opposite := Literal(i, phase), Cof(e, i, !phase);
    assert forall k :: k in ls && k != l ==> k.v != i;
    forall a: Assignment ensures Eval(Cof(e, i, phase), a) <==> forall k :: k in ls - {l} ==> Holds(k, a) {
      RestrictedLiterals(ls, i, phase, a);
      CofactorEval(perm, e, i, phase, a);
    }
    if l in ls {
      forall a: Assignment ensures Eval(opposite, a) == Eval(ZERO, a) {
        RestrictedLiterals(ls, i, phase, a);
        CofactorEval(perm, e, i, !phase, a);
        ConstantEval(a);
      }
    } else {
      forall a: Assignment ensures Eval(opposite, a) <==> forall k :: k in ls - {l} ==> Holds(k, a) {
        RestrictedLiterals(ls, i, phase, a);
        CofactorEval(perm, e, i, !phase, a);
      }
    }
  }

  /** Fixing a variable settles its literals and no others. */
  lemma RestrictedLiterals(ls: set<Literal>, i: nat, phase: bool, a: Assignment)
    requires Literal(i, !phase) !in ls
    ensures var l := Literal(i, phase);
            && ((forall k :: k in ls ==> Holds(k, With(a, i, phase))) <==> forall k :: k in ls - {l} ==> Holds(k, a))
            && ((forall k :: k in ls ==> Holds(k, With(a, i, !phase))) <==>
                l !in ls && forall k :: k in ls - {l} ==> Holds(k, a))
  {
    var l := Literal(i, phase);
    assert forall k :: k in ls && k != l ==> k.v != i;
    forall k: Literal, b | k.v != i ensures Holds(k, With(a, i, b)) <==> Holds(k, a) {}
    assert Holds(l, With(a, i, phase)) && !Holds(l, With(a, i, !phase));
    forall k | k in ls - {l} ensures k in ls {}
  }

  /** Every satisfiable product of literals has the shape of a cube. */
  lemma {:induction false} LiteralProductIsCube(perm: seq<nat>, e: Edge, ls: set<Literal>)
    requires IsOrder(perm) && Bdd(perm, e) && e != ZERO && IsLiteralProduct(e, ls)
    ensures IsCube(e)
    decreases e.node
  {
    hide Eval;
    NonConstant(perm, e);
    var model: Assignment :| Eval(e, model);
    if e.node.Inner? {
      var i := e.node.index;
      var phase := i in model;
      assert !Holds(Literal(i, !phase), model);
      LiteralProductCofactors(perm, e, ls, i, phase);
      if Literal(i, phase) in ls {
        Canonical(perm, Cof(e, i, !phase), ZERO);
        LiteralProductIsCube(perm, Cof(e, i, phase), ls - {Literal(i, phase)});
      } else {
        Canonical(perm, Cof(e, i, phase), Cof(e, i, !phase));  // impossible: the children of e differ
      }
    }
  }

  /** The cubes are the satisfiable products of literals, no more and no less. */
  lemma CubeIffLiteralProduct(perm: seq<nat>, e: Edge)
    requires IsOrder(perm) && Bdd(perm, e)
    ensures IsCube(e) <==> e != ZERO && exists ls :: IsLiteralProduct(e, ls)
  {
    if IsCube(e) {
      forall a: Assignment ensures Eval(e, a) <==> forall l :: l in Literals(e) ==> Holds(l, a) {
        CubeEval(e, a);
      }
      assert IsLiteralProduct(e, Literals(e));
      CubeNotZero(e);
    }
    if ls :| IsLiteralProduct(e, ls) && e != ZERO {
      LiteralProductIsCube(perm, e, ls);
    }
  }

  /** Complementary cubes are single literals: they share none. */
  lemma ComplementaryCubes(perm: seq<nat>, f: Edge, g: Edge)
    requires IsOrder(perm) && Bdd(perm, f) && IsCube(f) && IsCube(g) && g == Not(f)
    ensures Literals(f) * Literals(g) == {}
  {
  }

  ghost predicate HasLiterals(dd: Manager, p: Ptr)
    reads dd`nodes
  {
    dd.HasBdd(p) && IsCube(Fn(p))
  }

  /** The top literal of a cube and the rest of it. */
  method TopLiteral(dd: Manager, c: Ptr) returns (phase: bool, tail: Ptr)
    requires dd.Valid() && HasLiterals(dd, c) && c.node != dd.one
    ensures c.node.kind.Internal?
    ensures phase <==> Then(Fn(c)) != ZERO
    ensures HasLiterals(dd, tail) && Fn(tail) == CubeTail(Fn(c))
  {
    dd.Children(c);
    TailShape(dd.perm, Fn(c));
    tail := PNotCond(c.node.kind.T, c.comp);
    phase := true;
    dd.PointerEquality(tail, dd.False());
    if tail == dd.False() {
      tail := PNotCond(c.node.kind.E, c.comp);
      phase := false;
    }
  }

  /** The cube of the literals that occur in both cubes. */
  method LiteralSetIntersectionRecur(dd: Manager, f0: Ptr, g0: Ptr) returns (r: Outcome)
    requires dd.Valid() && HasLiterals(dd, f0) && HasLiterals(dd, g0)
    modifies dd, dd.table, dd.table.slots
    ensures dd.Valid() && dd.Continues()
    ensures r.Null? ==> dd.Full()
    ensures r.Ok? ==> dd.HasBdd(r.ptr) && IsCommonLiterals(Fn(r.ptr), Fn(f0), Fn(g0))
    decreases Fn(f0).node, 1
  {
    hide Manager.Valid, Manager.ClipsExact, Manager.Vouched, ComputedTable.Hits, BddNode, IsCube, Literals, CubeTail,
      IsOrder;
    if f0 == g0 {
      return Ok(f0);
    }
    OneIsCube();
    if f0.node == g0.node {
      ComplementaryCubes(dd.perm, Fn(f0), Fn(g0));
      return Ok(dd.True());
    }
    var f, g := SkipToCommon(dd, f0, g0);
    if f == dd.True() {
      return Ok(dd.True());
    }
    var hit := dd.Lookup(LiteralsKey(f, g));
    if hit.Some? {
      return Ok(hit.value);
    }
    var b :- IntersectHere(dd, f, g);
    dd.Insert(LiteralsKey(f, g), b);
    r := Ok(b);
  }

  lemma OneIsCube()
    ensures IsCube(ONE) && Literals(ONE) == {}
  {
  }

  /** Moves down whichever cube starts higher until both start at the same variable, or end. */
  method SkipToCommon(dd: Manager, f0: Ptr, g0: Ptr) returns (f: Ptr, g: Ptr)
    requires dd.Valid() && HasLiterals(dd, f0) && HasLiterals(dd, g0)
    ensures HasLiterals(dd, f) && HasLiterals(dd, g)
    ensures f.node == g.node == dd.one || (f.node != dd.one && g.node != dd.one)
    ensures f.node != dd.one ==> Fn(f).node.index == Fn(g).node.index
    ensures f.node == dd.one ==> f == dd.True()
    ensures Literals(Fn(f)) * Literals(Fn(g)) == Literals(Fn(f0)) * Literals(Fn(g0))
    ensures f == f0 || Fn(f).node < Fn(f0).node
  {
    hide Manager.Valid, Manager.ClipsExact, Manager.Vouched, ComputedTable.Hits, BddNode, IsCube, Literals, CubeTail,
      Right;
    f, g := f0, g0;
    dd.Constants(f);
    dd.Constants(g);
    while dd.Level(f.node) != dd.Level(g.node)
      invariant HasLiterals(dd, f) && HasLiterals(dd, g)
      invariant dd.Level(f.node) <= |dd.perm| && dd.Level(g.node) <= |dd.perm|
      invariant Literals(Fn(f)) * Literals(Fn(g)) == Literals(Fn(f0)) * Literals(Fn(g0))
      invariant f == f0 || Fn(f).node < Fn(f0).node
      decreases |dd.perm| - dd.Level(f.node) + |dd.perm| - dd.Level(g.node)
    {
      if dd.Level(f.node) < dd.Level(g.node) {
        f := SkipTop(dd, f, g);
      } else {
        g := SkipTop(dd, g, f);
      }
    }
    dd.Constants(f);
    dd.Constants(g);
    if f.node == dd.one {
      ConstantCube(Fn(f));
    }
  }

  /** The cube without its top literal, which lies above another cube and is none of its literals. */
  method SkipTop(dd: Manager, f: Ptr, g: Ptr) returns (tail: Ptr)
    requires dd.Valid() && HasLiterals(dd, f) && HasLiterals(dd, g) && dd.Level(f.node) < dd.Level(g.node)
    ensures HasLiterals(dd, tail) && Fn(tail).node < Fn(f).node
    ensures dd.Level(f.node) < dd.Level(tail.node) <= |dd.perm|
    ensures Literals(Fn(tail)) * Literals(Fn(g)) == Literals(Fn(f)) * Literals(Fn(g))
    ensures Literals(Fn(g)) * Literals(Fn(tail)) == Literals(Fn(g)) * Literals(Fn(f))
  {
    hide Manager.Valid, Manager.ClipsExact, Manager.Vouched, ComputedTable.Hits, BddNode, IsCube, Literals, CubeTail;
    dd.Constants(f);
    dd.Constants(g);
    TailShape(dd.perm, Fn(f));
    TopLiteralApart(dd.perm, Fn(f), Fn(g));
    TailSmaller(Fn(f));
    var _, rest := TopLiteral(dd, f);
    tail := rest;
    dd.Constants(tail);
  }

  lemma ConstantCube(c: Edge)
    requires IsCube(c) && c.node.Leaf?
    ensures c == ONE
  {
  }

  lemma TailSmaller(c: Edge)
    requires c.node.Inner?
    ensures CubeTail(c).node < c.node
  {
  }

  /** A literal above the other cube is not in it. */
  lemma TopLiteralApart(perm: seq<nat>, f: Edge, g: Edge)
    requires IsOrder(perm) && Bdd(perm, f) && Bdd(perm, g) && IsCube(f) && IsCube(g) && f.node.Inner?
    requires Top(perm, f.node) < Top(perm, g.node)
    ensures Literals(CubeTail(f)) * Literals(g) == Literals(f) * Literals(g)
    ensures Literals(g) * Literals(CubeTail(f)) == Literals(g) * Literals(f)
  {
    LiteralsBelow(perm, g);
    TailShape(perm, f);
  }

  /** Both cubes start at the same variable: keep its literal if the phases agree. */
  method IntersectHere(dd: Manager, f: Ptr, g: Ptr) returns (r: Outcome)
    requires dd.Valid() && HasLiterals(dd, f) && HasLiterals(dd, g)
    requires f.node != dd.one && g.node != dd.one && Fn(f).node.index == Fn(g).node.index
    modifies dd, dd.table, dd.table.slots
    ensures dd.Valid() && dd.Continues()
    ensures r.Null? ==> dd.Full()
    ensures r.Ok? ==> dd.HasBdd(r.ptr) && IsCommonLiterals(Fn(r.ptr), Fn(f), Fn(g))
    decreases Fn(f).node, 0
  {
    hide Manager.Valid, Manager.ClipsExact, Manager.Vouched, ComputedTable.Hits, BddNode, IsCube, Literals, CubeTail,
      Right, IsOrder, Top;
    dd.Constants(f);
    dd.Constants(g);
    TailSmaller(Fn(f));
    TailShape(dd.perm, Fn(f));
    TailShape(dd.perm, Fn(g));
    var phasef, fc := TopLiteral(dd, f);
    var phaseg, gc := TopLiteral(dd, g);
    var tmp :- LiteralSetIntersectionRecur(dd, fc, gc);
    CommonTop(dd.perm, Fn(tmp), Fn(fc), Fn(gc));
    var index := f.node.kind.index;
    LiteralsBelow(dd.perm, Fn(fc));
    LiteralsBelow(dd.perm, Fn(gc));
    if phasef != phaseg {
      return Ok(tmp);
    }
    r := WithLiteral(dd, index, phasef, tmp);
  }

  /** The conjunction of a literal and a cube below it. */
  method WithLiteral(dd: Manager, index: nat, phase: bool, tail: Ptr) returns (r: Outcome)
    requires dd.Valid() && HasLiterals(dd, tail) && index < |dd.perm|
    requires dd.perm[index] < Top(dd.perm, Fn(tail).node)
    modifies dd, dd.table, dd.table.slots
    ensures dd.Valid() && dd.Continues()
    ensures r.Null? ==> dd.Full()
    ensures r.Ok? ==> HasLiterals(dd, r.ptr)
    ensures r.Ok? ==> Literals(Fn(r.ptr)) == {Literal(index, phase)} + Literals(Fn(tail))
  {
    hide Manager.Valid, Manager.ClipsExact, Manager.Vouched, ComputedTable.Hits, BddNode, IsCube, Literals, IsAnd,
      Right;
    dd.Projection(index);
    var n :- BddAndRecur(dd, PNotCond(dd.VarPtr(index), !phase), tail);
    AddLiteral(dd.perm, Fn(n), Literal(index, phase), Fn(tail));
    r := Ok(n);
  }

  lemma AddLiteral(perm: seq<nat>, r: Edge, l: Literal, tail: Edge)
    requires IsOrder(perm) && Bdd(perm, r) && Bdd(perm, tail) && IsCube(tail)
    requires l.v < |perm| && perm[l.v] < Top(perm, tail.node)
    requires IsAnd(r, LiteralEdge(l), tail)
    ensures IsCube(r) && Literals(r) == {l} + Literals(tail)
  {
    hide Literals, IsCube, CubeCons, Bdd, IsAnd;
    CubeNotZero(tail);
    CubeConsIsAnd(perm, r, l, tail);
    CubeConsLiterals(perm, l, tail);
  }

  /** The common literals lie no higher than either cube. */
  lemma CommonTop(perm: seq<nat>, r: Edge, f: Edge, g: Edge)
    requires IsOrder(perm) && Bdd(perm, r) && Bdd(perm, f) && Bdd(perm, g)
    requires IsCube(f) && IsCube(g) && IsCommonLiterals(r, f, g)
    ensures Top(perm, f.node) <= Top(perm, r.node) && Top(perm, g.node) <= Top(perm, r.node)
  {
    LiteralsBelow(perm, f);
    LiteralsBelow(perm, g);
    if r.node.Inner? {
      TailShape(perm, r);
      assert Literal(r.node.index, Then(r) != ZERO) in Literals(r);
    } else {
      SupportBelowTop(perm, f.node);
    }
  }

  /* ---------- essential variables ---------- */

  /** Which literals a function implies, in terms of its cofactors at the top variable. */
  lemma ImpliesStep(perm: seq<nat>, f: Edge, l: Literal)
    requires IsOrder(perm) && Bdd(perm, f) && f.node.Inner?
    ensures l.v != f.node.index ==> (Implies(f, l) <==> Implies(Then(f), l) && Implies(Else(f), l))
    ensures l.v == f.node.index && l.phase ==> (Implies(f, l) <==> Else(f) == ZERO)
    ensures l.v == f.node.index && !l.phase ==> (Implies(f, l) <==> Then(f) == ZERO)
  {
    var i := f.node.index;
    if Implies(f, l) {
      forall a: Assignment, b: bool | Eval(Cof(f, i, b), a) ensures Holds(l, With(a, i, b)) {
        CofactorEval(perm, f, i, b, a);
      }
      if l.v != i {
        forall a: Assignment | Eval(Then(f), a) ensures Holds(l, a) {
          assert Eval(Cof(f, i, true), a);
        }
        forall a: Assignment | Eval(Else(f), a) ensures Holds(l, a) {
          assert Eval(Cof(f, i, false), a);
        }
      } else {
        var other := Cof(f, i, !l.phase);
        forall a: Assignment ensures !Eval(other, a) {}
        NonConstant(perm, other);
      }
    }
    forall a: Assignment | Eval(f, a) ensures Eval(Cof(f, i, i in a), a) {
      Shannon(f, i, a);
    }
    if l.v == i && Cof(f, i, !l.phase) == ZERO {
      forall a: Assignment | Eval(f, a) ensures Holds(l, a) {
        ConstantEval(a);
      }
    }
  }

  /** A satisfiable function implies only literals of its own variables. */
  lemma ImpliesInSupport(f: Edge, l: Literal, a: Assignment)
    requires Eval(f, a) && Implies(f, l)
    ensures l.v in Support(f.node)
  {
    if l.v !in Support(f.node) {
      var b := With(a, l.v, !l.phase);
      assert !Holds(l, b);
      EvalSupport(f.node, a, b);
    }
  }

  lemma ImpliesBelow(perm: seq<nat>, f: Edge, l: Literal)
    requires IsOrder(perm) && Bdd(perm, f) && f != ZERO && Implies(f, l)
    ensures l.v < |perm| && Top(perm, f.node) <= perm[l.v]
  {
    NonConstant(perm, f);
    var a: Assignment :| Eval(f, a);
    ImpliesInSupport(f, l, a);
    SupportBelowTop(perm, f.node);
  }

  lemma EssentialTop(perm: seq<nat>, r: Edge, f: Edge)
    requires IsOrder(perm) && Bdd(perm, r) && Bdd(perm, f) && f != ZERO && IsEssential(perm, r, f)
    ensures Top(perm, f.node) <= Top(perm, r.node)
  {
    if r.node.Inner? {
      var l := Literal(r.node.index, Then(r) != ZERO);
      assert l in Literals(r);
      ImpliesBelow(perm, f, l);
    } else {
      SupportBelowTop(perm, f.node);
    }
  }

  lemma OneImpliesNothing(l: Literal)
    ensures !Implies(ONE, l)
  {
    var a: Assignment := if l.phase then iset{} else iset{l.v};
    assert Eval(ONE, a) && !Holds(l, a);
  }

  /** No essential literal: a cofactor that implies none, next to one that is not 0. */
  lemma EssentialNone(perm: seq<nat>, f: Edge)
    requires IsOrder(perm) && Bdd(perm, f) && f.node.Inner? && Then(f) != ZERO && Else(f) != ZERO
    requires Then(f) == ONE || Else(f) == ONE || IsEssential(perm, ONE, Then(f))
    ensures IsEssential(perm, ONE, f)
  {
    OneIsCube();
    forall l: Literal | l.v < |perm| ensures !Implies(f, l) {
      ImpliesStep(perm, f, l);
      OneImpliesNothing(l);
      if IsEssential(perm, ONE, Then(f)) {
        assert l !in Literals(ONE);
      }
    }
  }

  /** One cofactor is 0: the top literal is essential, and so are those of the other cofactor. */
  lemma EssentialTopLiteral(perm: seq<nat>, f: Edge, phase: bool, tail: Edge)
    requires IsOrder(perm) && Bdd(perm, f) && f.node.Inner?
    requires Cof(f, f.node.index, !phase) == ZERO && Cof(f, f.node.index, phase) != ZERO
    requires Bdd(perm, tail) && IsEssential(perm, tail, Cof(f, f.node.index, phase))
    ensures Bdd(perm, CubeCons(Literal(f.node.index, phase), tail))
    ensures perm[f.node.index] < Top(perm, tail.node) && tail != ZERO
    ensures IsEssential(perm, CubeCons(Literal(f.node.index, phase), tail), f)
  {
    var i := f.node.index;
    var top := Literal(i, phase);
    var child := Cof(f, i, phase);
    CofactorShape(perm, f, i, phase);
    EssentialTop(perm, tail, child);
    CubeNotZero(tail);
    CubeConsShape(perm, top, tail);
    CubeConsLiterals(perm, top, tail);
    forall l: Literal | l.v < |perm|
      ensures l in {top} + Literals(tail) <==> Implies(f, l)
    {
      ImpliesStep(perm, f, l);
      if l.v == i {
        if Implies(child, l) {
          ImpliesBelow(perm, child, l);
        }
      } else {
        ZeroImplies(l);
      }
    }
  }

  lemma ZeroImplies(l: Literal)
    ensures Implies(ZERO, l)
  {
  }

  lemma EssentialOfOne(perm: seq<nat>)
    ensures IsEssential(perm, ONE, ONE)
  {
    OneIsCube();
    forall l: Literal ensures !Implies(ONE, l) {
      OneImpliesNothing(l);
    }
  }

  /** Neither cofactor is 0: the essential literals are those of both. */
  lemma EssentialBoth(perm: seq<nat>, f: Edge, t: Edge, e: Edge, r: Edge)
    requires IsOrder(perm) && Bdd(perm, f) && f.node.Inner? && Then(f) != ZERO && Else(f) != ZERO
    requires IsEssential(perm, t, Then(f)) && IsEssential(perm, e, Else(f))
    requires IsCommonLiterals(r, t, e)
    ensures IsEssential(perm, r, f)
  {
    var i := f.node.index;
    CofactorShape(perm, f, i, true);
    forall l: Literal | l.v < |perm| ensures l in Literals(r) <==> Implies(f, l) {
      ImpliesStep(perm, f, l);
      if l.v == i && Implies(Then(f), l) {
        ImpliesBelow(perm, Then(f), l);
      }
    }
  }

  /** The cube of the essential literals of f. The constant 0 implies every literal, and yields the
      empty cube all the same. */
  method FindEssentialRecur(dd: Manager, f: Ptr) returns (r: Outcome)
    requires dd.Valid() && dd.HasBdd(f)
    modifies dd, dd.table, dd.table.slots
    ensures dd.Valid() && dd.Continues()
    ensures r.Null? ==> dd.Full()
    ensures r.Ok? ==> dd.HasBdd(r.ptr)
    ensures r.Ok? && f != dd.False() ==> IsEssential(dd.perm, Fn(r.ptr), Fn(f))
    ensures r.Ok? && f == dd.False() ==> r.ptr == dd.True()
    decreases Fn(f).node, 2
  {
    hide Manager.Valid, Manager.ClipsExact, Manager.Vouched, ComputedTable.Hits, BddNode, IsOrder, IsEssential;
    dd.Constants(f);
    EssentialOfOne(dd.perm);
    if f.node.kind.Constant? {
      return Ok(dd.True());
    }
    var hit := dd.Lookup(EssentialKey(f));
    if hit.Some? {
      return Ok(hit.value);
    }
    var b :- FindEssentialHere(dd, f);
    dd.Insert(EssentialKey(f), b);
    r := Ok(b);
  }

  method FindEssentialHere(dd: Manager, f: Ptr) returns (r: Outcome)
    requires dd.Valid() && dd.HasBdd(f) && f.node != dd.one
    modifies dd, dd.table, dd.table.slots
    ensures dd.Valid() && dd.Continues()
    ensures r.Null? ==> dd.Full()
    ensures r.Ok? ==> dd.HasBdd(r.ptr) && IsEssential(dd.perm, Fn(r.ptr), Fn(f))
    decreases Fn(f).node, 1
  {
    hide Manager.Valid, Manager.ClipsExact, Manager.Vouched, ComputedTable.Hits, BddNode, IsOrder, IsEssential, Right,
      Top;
    dd.Constants(f);
    dd.Children(f);
    var index := f.node.kind.index;
    var t, e := dd.Cofactors(f, index);
    dd.Constants(t);
    dd.Constants(e);
    dd.PointerEquality(t, dd.False());
    dd.PointerEquality(e, dd.False());
    if t.node.kind.Constant? && t != dd.False() {
      if e == dd.False() {
        r := LiteralAlone(dd, f, true);
      } else {
        EssentialNone(dd.perm, Fn(f));
        r := Ok(dd.True());
      }
    } else if t == dd.False() {
      if e.node.kind.Constant? {
        dd.Children(f);
        r := LiteralAlone(dd, f, false);
      } else {
        var essE :- FindEssentialRecur(dd, e);
        r := NegativeLiteral(dd, f, essE);
      }
    } else if e == dd.False() {
      var essT :- FindEssentialRecur(dd, t);
      r := PositiveLiteral(dd, f, essT);
    } else if !e.node.kind.Constant? {
      r := EssentialInBoth(dd, f, t, e);
    } else {
      EssentialNone(dd.perm, Fn(f));
      r := Ok(dd.True());
    }
  }

  /** Neither child is constant: only literals essential for both are. */
  method EssentialInBoth(dd: Manager, f: Ptr, t: Ptr, e: Ptr) returns (r: Outcome)
    requires dd.Valid() && dd.HasBdd(f) && f.node != dd.one && dd.HasBdd(t) && dd.HasBdd(e)
    requires Fn(f).node.Inner? && Fn(t) == Then(Fn(f)) && Fn(e) == Else(Fn(f))
    requires t.node != dd.one && e.node != dd.one
    modifies dd, dd.table, dd.table.slots
    ensures dd.Valid() && dd.Continues()
    ensures r.Null? ==> dd.Full()
    ensures r.Ok? ==> dd.HasBdd(r.ptr) && IsEssential(dd.perm, Fn(r.ptr), Fn(f))
    decreases Fn(f).node, 0
  {
    hide Manager.Valid, Manager.ClipsExact, Manager.Vouched, ComputedTable.Hits, BddNode, IsOrder, IsEssential,
      IsCommonLiterals, Right;
    dd.Constants(t);
    dd.Constants(e);
    var essT :- FindEssentialRecur(dd, t);
    if essT == dd.True() {
      EssentialNone(dd.perm, Fn(f));
      return Ok(dd.True());
    }
    var essE :- FindEssentialRecur(dd, e);
    EssentialIsCube(dd.perm, Fn(essT), Fn(t));
    EssentialIsCube(dd.perm, Fn(essE), Fn(e));
    var n :- LiteralSetIntersectionRecur(dd, essT, essE);
    EssentialBoth(dd.perm, Fn(f), Fn(essT), Fn(essE), Fn(n));
    r := Ok(n);
  }

  lemma EssentialIsCube(perm: seq<nat>, r: Edge, f: Edge)
    requires IsEssential(perm, r, f)
    ensures IsCube(r)
  {
  }

  /** f is a literal. */
  method LiteralAlone(dd: Manager, f: Ptr, phase: bool) returns (r: Outcome)
    requires dd.Valid() && dd.HasBdd(f) && f.node != dd.one
    requires Cof(Fn(f), Fn(f).node.index, !phase) == ZERO
    requires Cof(Fn(f), Fn(f).node.index, phase).node.Leaf?
    ensures r.Ok? && dd.HasBdd(r.ptr) && IsEssential(dd.perm, Fn(r.ptr), Fn(f))
  {
    hide Manager.Valid, Manager.ClipsExact, Manager.Vouched, ComputedTable.Hits, IsEssential;
    dd.Constants(f);
    dd.Children(f);
    var index := f.node.kind.index;
    EssentialOfOne(dd.perm);
    EssentialTopLiteral(dd.perm, Fn(f), phase, ONE);
    dd.Projection(index);
    r := Ok(PNotCond(dd.VarPtr(index), !phase));
    assert Fn(r.ptr) == CubeCons(Literal(index, phase), ONE);
  }

  /** Adds the negative top literal by building its node. */
  method NegativeLiteral(dd: Manager, f: Ptr, essE: Ptr) returns (r: Outcome)
    requires dd.Valid() && dd.HasBdd(f) && f.node != dd.one && dd.HasBdd(essE)
    requires Then(Fn(f)) == ZERO && Else(Fn(f)) != ZERO && IsEssential(dd.perm, Fn(essE), Else(Fn(f)))
    modifies dd, dd.table, dd.table.slots
    ensures dd.Valid() && dd.Continues()
    ensures r.Null? ==> dd.Full()
    ensures r.Ok? ==> dd.HasBdd(r.ptr) && IsEssential(dd.perm, Fn(r.ptr), Fn(f))
  {
    hide Manager.Valid, Manager.ClipsExact, Manager.Vouched, ComputedTable.Hits, IsEssential, IsOrder;
    dd.Constants(f);
    var index := f.node.kind.index;
    EssentialTopLiteral(dd.perm, Fn(f), false, Fn(essE));
    var n :- dd.UniqueInter(index, dd.True(), PNot(essE));
    r := Ok(PNot(n));
  }

  /** Adds the positive top literal by conjunction, since the cube below it may be complemented. */
  method PositiveLiteral(dd: Manager, f: Ptr, essT: Ptr) returns (r: Outcome)
    requires dd.Valid() && dd.HasBdd(f) && f.node != dd.one && dd.HasBdd(essT)
    requires Else(Fn(f)) == ZERO && Then(Fn(f)) != ZERO && IsEssential(dd.perm, Fn(essT), Then(Fn(f)))
    modifies dd, dd.table, dd.table.slots
    ensures dd.Valid() && dd.Continues()
    ensures r.Null? ==> dd.Full()
    ensures r.Ok? ==> dd.HasBdd(r.ptr) && IsEssential(dd.perm, Fn(r.ptr), Fn(f))
  {
    hide Manager.Valid, Manager.ClipsExact, Manager.Vouched, ComputedTable.Hits, IsEssential, IsOrder, BddNode, IsAnd;
    dd.Constants(f);
    var index := f.node.kind.index;
    EssentialTopLiteral(dd.perm, Fn(f), true, Fn(essT));
    dd.Projection(index);
    var n :- BddAndRecur(dd, dd.VarPtr(index), essT);
    CubeConsIsAnd(dd.perm, Fn(n), Literal(index, true), Fn(essT));
    r := Ok(n);
  }

  /** Whether the variable is essential with the given phase. */
  method IsVarEssential(dd: Manager, f: Ptr, id: nat, phase: bool) returns (res: bool)
    requires dd.Valid() && dd.HasBdd(f) && id < |dd.vars|
    modifies dd.table, dd.table.slots
    ensures dd.Valid() && dd.Continues() && dd.nodes == old(dd.nodes) && dd.unique == old(dd.unique)
    ensures res <==> Implies(Fn(f), Literal(id, phase))
  {
    hide Manager.Valid, Manager.ClipsExact, Manager.Vouched, ComputedTable.Hits, BddNode;
    dd.Projection(id);
    var x := PNotCond(dd.VarPtr(id), !phase);
    forall a: Assignment ensures Eval(Fn(x), a) == Holds(Literal(id, phase), a) {
      LiteralEval(Literal(id, phase), a);
    }
    res := BddLeq(dd, f, x);
  }

  /** The essential cube lists exactly the literals the single test accepts, unless f is 0: then the
      cube is empty although every literal is accepted. */
  lemma EssentialExactly(perm: seq<nat>, f: Edge, r: Edge)
    requires IsOrder(perm) && Bdd(perm, f) && |perm| > 0
    requires if f == ZERO then r == ONE else IsEssential(perm, r, f)
    ensures (forall l: Literal :: l.v < |perm| ==> (l in Literals(r) <==> Implies(f, l))) <==> f != ZERO
  {
    if f == ZERO {
      OneIsCube();
      var l := Literal(0, true);
      ZeroImplies(l);
      assert l !in Literals(r);
    }
  }
}
