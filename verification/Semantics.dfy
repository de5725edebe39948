/** What each operation of the engine promises about the function its result denotes, and the laws
    that justify one recursive step of each. No algorithm is mentioned here. */
module Semantics {
  import opened Diagrams

  /* ---------- connectives ---------- */

  /** r is the node "if variable i then t else e". */
  ghost predicate IsBranch(r: Edge, i: nat, t: Edge, e: Edge) {
    forall a: Assignment :: Eval(r, a) == if i in a then Eval(t, a) else Eval(e, a)
  }

  ghost predicate IsAnd(r: Edge, f: Edge, g: Edge) {
    forall a: Assignment :: Eval(r, a) == (Eval(f, a) && Eval(g, a))
  }

  ghost predicate IsXor(r: Edge, f: Edge, g: Edge) {
    forall a: Assignment :: Eval(r, a) == (Eval(f, a) != Eval(g, a))
  }

  ghost predicate IsIte(r: Edge, f: Edge, g: Edge, h: Edge) {
    forall a: Assignment :: Eval(r, a) == if Eval(f, a) then Eval(g, a) else Eval(h, a)
  }

  ghost predicate LessEq(f: Edge, g: Edge) {
    forall a: Assignment :: Eval(f, a) ==> Eval(g, a)
  }

  lemma BranchOfNode(i: nat, t: Edge, e: Edge)
    ensures IsBranch(Edge(false, Inner(i, t, e)), i, t, e) && IsBranch(t, i, t, t)
  {
  }

  lemma ConstantEval(a: Assignment)
    ensures Eval(ONE, a) && !Eval(ZERO, a)
  {
  }

  lemma VarEval(i: nat, a: Assignment)
    ensures Eval(Var(i), a) == (i in a)
  {
    assert EvalNode(ONE.node, a);
  }

  /** Where a fixes i, a function and its cofactor agree. */
  lemma Shannon(e: Edge, i: nat, a: Assignment)
    ensures Eval(Cof(e, i, i in a), a) == Eval(e, a)
  {
  }

  lemma AndConstant(f: Edge)
    ensures IsAnd(f, ONE, f) && IsAnd(f, f, ONE) && IsAnd(ZERO, ZERO, f) && IsAnd(ZERO, f, ZERO)
    ensures IsAnd(f, f, f) && IsAnd(ZERO, f, Not(f))
  {
  }

  lemma AndStep(i: nat, f: Edge, g: Edge, t: Edge, e: Edge, r: Edge)
    requires IsAnd(t, Cof(f, i, true), Cof(g, i, true)) && IsAnd(e, Cof(f, i, false), Cof(g, i, false))
    requires IsBranch(r, i, t, e)
    ensures IsAnd(r, f, g)
  {
  }

  lemma XorStep(i: nat, f: Edge, g: Edge, t: Edge, e: Edge, r: Edge)
    requires IsXor(t, Cof(f, i, true), Cof(g, i, true)) && IsXor(e, Cof(f, i, false), Cof(g, i, false))
    requires IsBranch(r, i, t, e)
    ensures IsXor(r, f, g)
  {
  }

  lemma IteStep(i: nat, f: Edge, g: Edge, h: Edge, t: Edge, e: Edge, r: Edge)
    requires IsIte(t, Cof(f, i, true), Cof(g, i, true), Cof(h, i, true))
    requires IsIte(e, Cof(f, i, false), Cof(g, i, false), Cof(h, i, false))
    requires IsBranch(r, i, t, e)
    ensures IsIte(r, f, g, h)
  {
  }

  /** if f' then g' else h' is if f then g else h, complemented when comple says so. */
  ghost predicate SameIte(
    f': Edge, g': Edge, h': Edge, comple: bool, f: Edge, g: Edge, h: Edge)
  {
    forall a: Assignment ::
      (if Eval(f', a) then Eval(g', a) else Eval(h', a)) ==
      (comple != if Eval(f, a) then Eval(g, a) else Eval(h, a))
  }

  lemma IteComplement(
    r: Edge, f': Edge, g': Edge, h': Edge, comple: bool, f: Edge, g: Edge, h: Edge)
    requires SameIte(f', g', h', comple, f, g, h) && IsIte(r, f', g', h')
    ensures IsIte(NotCond(r, comple), f, g, h)
  {
  }

  /** With a regular condition and a regular then-operand the result is regular. */
  lemma IteRegular(perm: seq<nat>, r: Edge, f: Edge, g: Edge, h: Edge)
    requires Bdd(perm, r) && Bdd(perm, f) && Bdd(perm, g) && IsIte(r, f, g, h) && !f.comp && !g.comp
    ensures !r.comp
  {
    RegularIffTrueAtOnes(perm, r);
    RegularIffTrueAtOnes(perm, f);
    RegularIffTrueAtOnes(perm, g);
  }

  /** if x then g else h, for a variable x above both, is one node. */
  lemma IteOfVariable(r: Edge, i: nat, g: Edge, h: Edge)
    requires r == Edge(false, Inner(i, g, h))
    ensures IsIte(r, Var(i), g, h)
  {
    forall a: Assignment ensures Eval(r, a) == if Eval(Var(i), a) then Eval(g, a) else Eval(h, a) {
      VarEval(i, a);
    }
  }

  /** Operands that make if-then-else a simpler connective. */
  lemma IteTerminal(f: Edge, g: Edge, h: Edge)
    ensures IsIte(g, ONE, g, h) && IsIte(h, ZERO, g, h) && IsIte(g, f, g, g)
    ensures IsIte(f, f, ONE, ZERO) && IsIte(f, f, f, ZERO)
    ensures IsIte(Not(f), f, ZERO, ONE) && IsIte(Not(f), f, Not(f), ONE)
  {
  }

  lemma IteConnective(r: Edge, f: Edge, g: Edge, h: Edge)
    ensures (g == ONE || f == g) && IsAnd(r, Not(f), Not(h)) ==> IsIte(Not(r), f, g, h)
    ensures (g == ZERO || f == Not(g)) && IsAnd(r, Not(f), h) ==> IsIte(r, f, g, h)
    ensures (h == ZERO || f == h) && IsAnd(r, f, g) ==> IsIte(r, f, g, h)
    ensures (h == ONE || f == Not(h)) && IsAnd(r, f, Not(g)) ==> IsIte(Not(r), f, g, h)
    ensures g == Not(h) && IsXor(r, f, h) ==> IsIte(r, f, g, h)
  {
    forall a: Assignment ensures Eval(Not(r), a) == !Eval(r, a) {}
  }

  lemma XorConstant(f: Edge)
    ensures IsXor(ZERO, f, f) && IsXor(ONE, f, Not(f))
    ensures IsXor(f, f, ZERO) && IsXor(Not(f), f, ONE) && IsXor(Not(f), ONE, f)
  {
  }

  /** Complementing both operands does not change the exclusive or. */
  lemma XorComplement(f: Edge, g: Edge)
    ensures forall r :: IsXor(r, Not(f), Not(g)) <==> IsXor(r, f, g)
  {
  }

  /** Implication and the complement: f <= g iff not g <= not f. */
  lemma LessEqContrapositive(f: Edge, g: Edge)
    ensures LessEq(f, g) <==> LessEq(Not(g), Not(f))
  {
    if LessEq(f, g) {
      forall a: Assignment ensures Eval(Not(g), a) ==> Eval(Not(f), a) {
        assert Eval(f, a) ==> Eval(g, a);
      }
    }
    if LessEq(Not(g), Not(f)) {
      forall a: Assignment ensures Eval(f, a) ==> Eval(g, a) {
        assert Eval(Not(g), a) ==> Eval(Not(f), a);
      }
    }
  }

  /** The answers implication gives without recursion. */
  lemma LessEqTerminal(perm: seq<nat>, f: Edge, g: Edge)
    requires IsOrder(perm) && Bdd(perm, f) && Bdd(perm, g)
    ensures LessEq(f, f) && LessEq(f, ONE) && LessEq(ZERO, g)
    ensures !f.comp && g.comp ==> !LessEq(f, g)
    ensures f == ONE && g != ONE ==> !LessEq(f, g)
    ensures Not(f) == g && f != ZERO ==> !LessEq(f, g)
  {
    RegularIffTrueAtOnes(perm, f);
    RegularIffTrueAtOnes(perm, g);
    NonConstant(perm, f);
    NonConstant(perm, g);
  }

  /** Implication can be decided cofactor by cofactor. */
  lemma LessEqStep(perm: seq<nat>, i: nat, f: Edge, g: Edge)
    requires IsOrder(perm) && Bdd(perm, f) && Bdd(perm, g)
    requires i < |perm| && perm[i] <= Top(perm, f.node) && perm[i] <= Top(perm, g.node)
    ensures LessEq(f, g) <==>
            LessEq(Cof(f, i, true), Cof(g, i, true)) && LessEq(Cof(f, i, false), Cof(g, i, false))
  {
    if LessEq(f, g) {
      forall a: Assignment, b: bool ensures Eval(Cof(f, i, b), a) ==> Eval(Cof(g, i, b), a) {
        CofactorEval(perm, f, i, b, a);
        CofactorEval(perm, g, i, b, a);
      }
    }
    if LessEq(Cof(f, i, true), Cof(g, i, true)) && LessEq(Cof(f, i, false), Cof(g, i, false)) {
      forall a: Assignment ensures Eval(f, a) ==> Eval(g, a) {
        Shannon(f, i, a);
        Shannon(g, i, a);
      }
    }
  }

  lemma AndIgnores(r: Edge, f: Edge, g: Edge, i: nat)
    requires IsAnd(r, f, g) && Ignores(f, i) && Ignores(g, i)
    ensures Ignores(r, i)
  {
  }

  /** A conjunction starts no higher than its operands. */
  lemma AndTop(perm: seq<nat>, r: Edge, f: Edge, g: Edge)
    requires IsOrder(perm) && Bdd(perm, r) && Bdd(perm, f) && Bdd(perm, g) && IsAnd(r, f, g)
    ensures Min(Top(perm, f.node), Top(perm, g.node)) <= Top(perm, r.node)
  {
    var level := Min(Top(perm, f.node), Top(perm, g.node));
    forall i | 0 <= i < |perm| && perm[i] < level ensures Ignores(r, i) {
      IgnoresAbove(perm, f, i);
      IgnoresAbove(perm, g, i);
      AndIgnores(r, f, g, i);
    }
    TopByIgnores(perm, r, level);
  }

  /** An exclusive or starts no higher than its operands. */
  lemma XorTop(perm: seq<nat>, r: Edge, f: Edge, g: Edge)
    requires IsOrder(perm) && Bdd(perm, r) && Bdd(perm, f) && Bdd(perm, g) && IsXor(r, f, g)
    ensures Min(Top(perm, f.node), Top(perm, g.node)) <= Top(perm, r.node)
  {
    var level := Min(Top(perm, f.node), Top(perm, g.node));
    forall i | 0 <= i < |perm| && perm[i] < level ensures Ignores(r, i) {
      IgnoresAbove(perm, f, i);
      IgnoresAbove(perm, g, i);
    }
    TopByIgnores(perm, r, level);
  }

  lemma IteTop(perm: seq<nat>, r: Edge, f: Edge, g: Edge, h: Edge)
    requires IsOrder(perm) && Bdd(perm, r) && Bdd(perm, f) && Bdd(perm, g) && Bdd(perm, h)
    requires IsIte(r, f, g, h)
    ensures Min(Top(perm, f.node), Min(Top(perm, g.node), Top(perm, h.node))) <= Top(perm, r.node)
  {
    var level := Min(Top(perm, f.node), Min(Top(perm, g.node), Top(perm, h.node)));
    forall i | 0 <= i < |perm| && perm[i] < level ensures Ignores(r, i) {
      IgnoresAbove(perm, f, i);
      IgnoresAbove(perm, g, i);
      IgnoresAbove(perm, h, i);
    }
    TopByIgnores(perm, r, level);
  }

  /* ---------- quantification ---------- */

  /** b differs from a only on variables in vs. */
  ghost predicate AgreeOff(a: Assignment, b: Assignment, vs: set<nat>) {
    forall i: nat :: i !in vs ==> (i in a <==> i in b)
  }

  /** Some choice of the variables in vs satisfies both f and g. */
  ghost predicate Sat(f: Edge, g: Edge, vs: set<nat>, a: Assignment) {
    exists b: Assignment :: AgreeOff(a, b, vs) && Eval(f, b) && Eval(g, b)
  }

  /** r is the relational product: f and g with the variables in vs existentially quantified. */
  ghost predicate IsAndExists(r: Edge, f: Edge, g: Edge, vs: set<nat>) {
    forall a: Assignment :: Eval(r, a) <==> Sat(f, g, vs, a)
  }

  ghost predicate IsExists(r: Edge, f: Edge, vs: set<nat>) {
    forall a: Assignment :: Eval(r, a) <==> exists b: Assignment :: AgreeOff(a, b, vs) && Eval(f, b)
  }

  ghost predicate IsForall(r: Edge, f: Edge, vs: set<nat>) {
    forall a: Assignment :: Eval(r, a) <==> forall b: Assignment :: AgreeOff(a, b, vs) ==> Eval(f, b)
  }

  lemma ExistsIsAndExists(r: Edge, f: Edge, g: Edge, vs: set<nat>)
    requires g == ONE || g == f
    ensures IsExists(r, f, vs) <==> IsAndExists(r, f, g, vs)
  {
  }

  /** Universal quantification is the dual of existential quantification. */
  lemma ForallIsDual(r: Edge, f: Edge, vs: set<nat>)
    requires IsExists(Not(r), Not(f), vs)
    ensures IsForall(r, f, vs)
  {
    forall a: Assignment
      ensures Eval(r, a) <==> forall b: Assignment :: AgreeOff(a, b, vs) ==> Eval(f, b)
    {
      assert Eval(r, a) == !Eval(Not(r), a);
      assert forall b: Assignment :: Eval(Not(f), b) == !Eval(f, b);
    }
  }

  /** A quantified function does not depend on the quantified variables. */
  lemma QuantifiedAgree(r: Edge, f: Edge, g: Edge, vs: set<nat>, a: Assignment, b: Assignment)
    requires IsAndExists(r, f, g, vs) && AgreeOff(a, b, vs)
    ensures Eval(r, a) == Eval(r, b)
  {
  }

  /** Quantifying the top variable i: the two cofactors are joined. */
  lemma SatQuantify(perm: seq<nat>, f: Edge, g: Edge, i: nat, vs: set<nat>, a: Assignment)
    requires IsOrder(perm) && Bdd(perm, f) && Bdd(perm, g) && i < |perm| && i !in vs
    requires perm[i] <= Top(perm, f.node) && perm[i] <= Top(perm, g.node)
    ensures Sat(f, g, {i} + vs, a) <==>
            Sat(Cof(f, i, true), Cof(g, i, true), vs, a) || Sat(Cof(f, i, false), Cof(g, i, false), vs, a)
  {
    if b: Assignment :| AgreeOff(a, b, {i} + vs) && Eval(f, b) && Eval(g, b) {
      var c := With(b, i, i in a);
      assert With(c, i, i in b) == b;
      CofactorEval(perm, f, i, i in b, c);
      CofactorEval(perm, g, i, i in b, c);
      assert AgreeOff(a, c, vs);
      assert Sat(Cof(f, i, i in b), Cof(g, i, i in b), vs, a);
    }
    forall s: bool, c: Assignment |
      AgreeOff(a, c, vs) && Eval(Cof(f, i, s), c) && Eval(Cof(g, i, s), c)
      ensures Sat(f, g, {i} + vs, a)
    {
      CofactorEval(perm, f, i, s, c);
      CofactorEval(perm, g, i, s, c);
      assert AgreeOff(a, With(c, i, s), {i} + vs);
    }
  }

  /** A variable that is not quantified splits the quantification by cofactor. */
  lemma SatBranch(f: Edge, g: Edge, i: nat, vs: set<nat>, a: Assignment)
    requires i !in vs
    ensures Sat(f, g, vs, a) <==> Sat(Cof(f, i, i in a), Cof(g, i, i in a), vs, a)
  {
  }

  lemma AndExistsBranch(i: nat, vs: set<nat>, f: Edge, g: Edge, t: Edge, e: Edge, r: Edge)
    requires i !in vs
    requires IsAndExists(t, Cof(f, i, true), Cof(g, i, true), vs)
    requires IsAndExists(e, Cof(f, i, false), Cof(g, i, false), vs)
    requires IsBranch(r, i, t, e)
    ensures IsAndExists(r, f, g, vs)
  {
    forall a: Assignment ensures Eval(r, a) <==> Sat(f, g, vs, a) {
      SatBranch(f, g, i, vs, a);
    }
  }

  /** r is t or e. */
  ghost predicate IsOr(r: Edge, t: Edge, e: Edge) {
    forall a: Assignment :: Eval(r, a) == (Eval(t, a) || Eval(e, a))
  }

  lemma AndExistsJoin(
    perm: seq<nat>, i: nat, vs: set<nat>, f: Edge, g: Edge, t: Edge, e: Edge, r: Edge)
    requires IsOrder(perm) && Bdd(perm, f) && Bdd(perm, g) && i < |perm| && i !in vs
    requires perm[i] <= Top(perm, f.node) && perm[i] <= Top(perm, g.node)
    requires IsAndExists(t, Cof(f, i, true), Cof(g, i, true), vs)
    requires IsAndExists(e, Cof(f, i, false), Cof(g, i, false), vs)
    requires IsOr(r, t, e)
    ensures IsAndExists(r, f, g, {i} + vs)
  {
    forall a: Assignment ensures Eval(r, a) <==> Sat(f, g, {i} + vs, a) {
      SatQuantify(perm, f, g, i, vs, a);
    }
  }

  /** r is the complement of the conjunction of the complements: a disjunction. */
  lemma OrByAnd(r: Edge, t: Edge, e: Edge)
    requires IsAnd(Not(r), Not(t), Not(e))
    ensures IsOr(r, t, e)
  {
    forall a: Assignment ensures Eval(r, a) == (Eval(t, a) || Eval(e, a)) {
      assert Eval(Not(r), a) == (Eval(Not(t), a) && Eval(Not(e), a));
    }
  }

  lemma OrSame(t: Edge)
    ensures IsOr(t, t, t)
  {
  }

  /** Two sets of variables whose quantification makes no difference to f and g. */
  ghost predicate SameProduct(f: Edge, g: Edge, vs: set<nat>, ws: set<nat>) {
    forall a: Assignment :: Sat(f, g, vs, a) <==> Sat(f, g, ws, a)
  }

  lemma SameProductIs(r: Edge, f: Edge, g: Edge, vs: set<nat>, ws: set<nat>)
    requires SameProduct(f, g, vs, ws) && IsAndExists(r, f, g, vs)
    ensures IsAndExists(r, f, g, ws)
  {
  }

  /** A quantified variable that occurs in neither operand can be skipped. */
  lemma SkipVariable(perm: seq<nat>, i: nat, f: Edge, g: Edge, vs: set<nat>, ws: set<nat>)
    requires IsOrder(perm) && Bdd(perm, f) && Bdd(perm, g) && i < |perm| && i !in vs
    requires perm[i] < Top(perm, f.node) && perm[i] < Top(perm, g.node)
    requires SameProduct(f, g, {i} + vs, ws)
    ensures SameProduct(f, g, vs, ws)
  {
    forall a: Assignment ensures Sat(f, g, vs, a) <==> Sat(f, g, ws, a) {
      SatQuantify(perm, f, g, i, vs, a);
    }
  }

  lemma ExistsJoin(perm: seq<nat>, i: nat, vs: set<nat>, f: Edge, t: Edge, e: Edge, r: Edge)
    requires IsOrder(perm) && Bdd(perm, f) && i < |perm| && i !in vs && perm[i] <= Top(perm, f.node)
    requires IsExists(t, Cof(f, i, true), vs) && IsExists(e, Cof(f, i, false), vs) && IsOr(r, t, e)
    ensures IsExists(r, f, {i} + vs)
  {
    ExistsIsAndExists(t, Cof(f, i, true), ONE, vs);
    ExistsIsAndExists(e, Cof(f, i, false), ONE, vs);
    AndExistsJoin(perm, i, vs, f, ONE, t, e, r);
    ExistsIsAndExists(r, f, ONE, {i} + vs);
  }

  lemma ExistsBranch(i: nat, vs: set<nat>, f: Edge, t: Edge, e: Edge, r: Edge)
    requires i !in vs && IsExists(t, Cof(f, i, true), vs) && IsExists(e, Cof(f, i, false), vs)
    requires IsIte(r, Var(i), t, e)
    ensures IsExists(r, f, vs)
  {
    ExistsIsAndExists(t, Cof(f, i, true), ONE, vs);
    ExistsIsAndExists(e, Cof(f, i, false), ONE, vs);
    forall a: Assignment ensures Eval(r, a) == if i in a then Eval(t, a) else Eval(e, a) {
      VarEval(i, a);
    }
    AndExistsBranch(i, vs, f, ONE, t, e, r);
    ExistsIsAndExists(r, f, ONE, vs);
  }

  /** When one cofactor is 1, or they are complementary, quantification gives 1. */
  lemma ExistsOne(perm: seq<nat>, i: nat, vs: set<nat>, f: Edge)
    requires IsOrder(perm) && Bdd(perm, f) && i < |perm| && i !in vs && perm[i] <= Top(perm, f.node)
    requires Cof(f, i, true) == ONE || Cof(f, i, false) == ONE || Cof(f, i, true) == Not(Cof(f, i, false))
    ensures IsExists(ONE, f, {i} + vs)
  {
    forall a: Assignment
      ensures Eval(ONE, a) <==> exists b: Assignment :: AgreeOff(a, b, {i} + vs) && Eval(f, b)
    {
      var s := Eval(Cof(f, i, true), a);
      CofactorEval(perm, f, i, s, a);
      assert Eval(Cof(f, i, s), a);
      assert AgreeOff(a, With(a, i, s), {i} + vs);
    }
  }

  /** If quantifying one cofactor gives 1, so does quantifying the function. */
  lemma ExistsEarly(perm: seq<nat>, i: nat, vs: set<nat>, f: Edge)
    requires IsOrder(perm) && Bdd(perm, f) && i < |perm| && i !in vs && perm[i] <= Top(perm, f.node)
    requires IsExists(ONE, Cof(f, i, true), vs)
    ensures IsExists(ONE, f, {i} + vs)
  {
    ExistsIsAndExists(ONE, Cof(f, i, true), ONE, vs);
    AndExistsEarly(perm, i, vs, f, ONE, ONE);
    ExistsIsAndExists(ONE, f, ONE, {i} + vs);
  }

  lemma AgreeOffNothing(a: Assignment)
    ensures AgreeOff(a, a, {})
    ensures forall b: Assignment :: AgreeOff(a, b, {}) ==> a == b
  {
  }

  lemma ExistsNothing(f: Edge, vs: set<nat>)
    ensures IsExists(f, f, {})
    ensures f.node.Leaf? ==> IsExists(f, f, vs)
  {
    hide Eval, AgreeOff;
    forall a: Assignment
      ensures Eval(f, a) <==> exists b: Assignment :: AgreeOff(a, b, {}) && Eval(f, b)
    {
      AgreeOffNothing(a);
    }
    if f.node.Leaf? {
      ExistsOfConstant(f, vs);
    }
  }

  lemma ExistsOfConstant(f: Edge, vs: set<nat>)
    requires f.node.Leaf?
    ensures IsExists(f, f, vs)
  {
    forall a: Assignment ensures AgreeOff(a, a, vs) && Eval(f, a) == (f.comp != (f.node.value == TRUE)) {}
    hide Eval, AgreeOff;
  }

  /** Absorption: when t is one of the else cofactors (or 1), the else branch adds nothing. */
  lemma AbsorbThen(t: Edge, ft: Edge, gt: Edge, fe: Edge, ge: Edge, vs: set<nat>, a: Assignment)
    requires IsAndExists(t, ft, gt, vs) && (t == ONE || t == fe || t == ge)
    requires Sat(fe, ge, vs, a)
    ensures Eval(t, a)
  {
  }

  /** Absorption: t + not t * anything = t + anything, also under the quantifier. */
  lemma AbsorbComplement(t: Edge, ft: Edge, gt: Edge, fe: Edge, ge: Edge, vs: set<nat>, a: Assignment)
    requires IsAndExists(t, ft, gt, vs)
    requires t == Not(fe) && !Eval(t, a)
    ensures Sat(fe, ge, vs, a) <==> Sat(ge, ONE, vs, a)
  {
    if b: Assignment :| AgreeOff(a, b, vs) && Eval(fe, b) && Eval(ge, b) {
      assert Eval(ONE, b);
    }
    if b: Assignment :| AgreeOff(a, b, vs) && Eval(ge, b) && Eval(ONE, b) {
      QuantifiedAgree(t, ft, gt, vs, a, b);
      assert Eval(Not(t), b) && Not(t) == fe;
    }
  }

  lemma AndExistsSymmetric(r: Edge, f: Edge, g: Edge, vs: set<nat>)
    requires IsAndExists(r, f, g, vs)
    ensures IsAndExists(r, g, f, vs)
  {
  }

  /** The relational product of a conjunct that is absorbed is the quantification of the other. */
  lemma AndExistsAbsorbed(
    perm: seq<nat>, i: nat, vs: set<nat>, f: Edge, g: Edge, t: Edge, e: Edge, r: Edge)
    requires IsOrder(perm) && Bdd(perm, f) && Bdd(perm, g) && i < |perm| && i !in vs
    requires perm[i] <= Top(perm, f.node) && perm[i] <= Top(perm, g.node)
    requires IsAndExists(t, Cof(f, i, true), Cof(g, i, true), vs)
    requires t == Not(Cof(f, i, false)) && IsExists(e, Cof(g, i, false), vs)
    requires IsOr(r, t, e)
    ensures IsAndExists(r, f, g, {i} + vs)
  {
    var ft, gt, fe, ge := Cof(f, i, true), Cof(g, i, true), Cof(f, i, false), Cof(g, i, false);
    ExistsIsAndExists(e, ge, ONE, vs);
    forall a: Assignment ensures Eval(r, a) <==> Sat(f, g, {i} + vs, a) {
      SatQuantify(perm, f, g, i, vs, a);
      if !Eval(t, a) {
        AbsorbComplement(t, ft, gt, fe, ge, vs, a);
      }
    }
  }

  /** The relational product stops early when the then branch already covers the else branch. */
  lemma AndExistsEarly(
    perm: seq<nat>, i: nat, vs: set<nat>, f: Edge, g: Edge, t: Edge)
    requires IsOrder(perm) && Bdd(perm, f) && Bdd(perm, g) && i < |perm| && i !in vs
    requires perm[i] <= Top(perm, f.node) && perm[i] <= Top(perm, g.node)
    requires IsAndExists(t, Cof(f, i, true), Cof(g, i, true), vs)
    requires t == ONE || t == Cof(f, i, false) || t == Cof(g, i, false)
    ensures IsAndExists(t, f, g, {i} + vs)
  {
    var ft, gt, fe, ge := Cof(f, i, true), Cof(g, i, true), Cof(f, i, false), Cof(g, i, false);
    forall a: Assignment ensures Eval(t, a) <==> Sat(f, g, {i} + vs, a) {
      SatQuantify(perm, f, g, i, vs, a);
      if Sat(fe, ge, vs, a) {
        AbsorbThen(t, ft, gt, fe, ge, vs, a);
      }
    }
  }

  lemma AndExistsNothing(r: Edge, f: Edge, g: Edge)
    ensures IsAndExists(r, f, g, {}) <==> IsAnd(r, f, g)
  {
    forall a: Assignment ensures Sat(f, g, {}, a) <==> Eval(f, a) && Eval(g, a) {
      assert AgreeOff(a, a, {});
      forall b: Assignment | AgreeOff(a, b, {}) ensures a == b {}
    }
  }

  /** The relational products that need no recursion. */
  lemma AndExistsTerminal(f: Edge, g: Edge, vs: set<nat>)
    ensures IsAndExists(ZERO, ZERO, g, vs) && IsAndExists(ZERO, f, ZERO, vs)
    ensures IsAndExists(ZERO, f, Not(f), vs) && IsAndExists(ONE, ONE, ONE, vs)
  {
  }

  /** With an operand that is 1, or equal operands, the product is plain quantification. */
  lemma AndExistsPlain(r: Edge, f: Edge, g: Edge, vs: set<nat>)
    ensures (f == ONE || f == g) && IsExists(r, g, vs) ==> IsAndExists(r, f, g, vs)
    ensures (g == ONE || f == g) && IsExists(r, f, vs) ==> IsAndExists(r, f, g, vs)
  {
  }

  lemma AndExistsTop(perm: seq<nat>, r: Edge, f: Edge, g: Edge, vs: set<nat>)
    requires IsOrder(perm) && Bdd(perm, r) && Bdd(perm, f) && Bdd(perm, g) && IsAndExists(r, f, g, vs)
    ensures Min(Top(perm, f.node), Top(perm, g.node)) <= Top(perm, r.node)
  {
    var level := Min(Top(perm, f.node), Top(perm, g.node));
    forall i | 0 <= i < |perm| && perm[i] < level ensures Ignores(r, i) {
      forall a: Assignment ensures Eval(r, With(a, i, true)) == Eval(r, With(a, i, false)) {
        SatIgnores(perm, f, g, vs, i, a, true);
        SatIgnores(perm, f, g, vs, i, a, false);
      }
    }
    TopByIgnores(perm, r, level);
  }

  lemma SatIgnores(perm: seq<nat>, f: Edge, g: Edge, vs: set<nat>, i: nat, a: Assignment, s: bool)
    requires IsOrder(perm) && Bdd(perm, f) && Bdd(perm, g)
    requires i < |perm| && perm[i] < Top(perm, f.node) && perm[i] < Top(perm, g.node)
    ensures Sat(f, g, vs, With(a, i, s)) <==> Sat(f, g, vs, a)
  {
    if b: Assignment :| AgreeOff(With(a, i, s), b, vs) && Eval(f, b) && Eval(g, b) {
      EvalAboveTop(perm, f, i, b, i in a);
      EvalAboveTop(perm, g, i, b, i in a);
      assert AgreeOff(a, With(b, i, i in a), vs);
    }
    if b: Assignment :| AgreeOff(a, b, vs) && Eval(f, b) && Eval(g, b) {
      EvalAboveTop(perm, f, i, b, s);
      EvalAboveTop(perm, g, i, b, s);
      assert AgreeOff(With(a, i, s), With(b, i, s), vs);
    }
  }

  /** The relational product is what quantifying the conjunction gives, edge for edge. */
  lemma RelationalProduct(perm: seq<nat>, p: Edge, h: Edge, q: Edge, f: Edge, g: Edge, vs: set<nat>)
    requires IsOrder(perm) && Bdd(perm, p) && Bdd(perm, q)
    requires IsAndExists(p, f, g, vs) && IsAnd(h, f, g) && IsExists(q, h, vs)
    ensures p == q
  {
    forall a: Assignment ensures Eval(p, a) == Eval(q, a) {
      if b: Assignment :| AgreeOff(a, b, vs) && Eval(f, b) && Eval(g, b) {
        assert Eval(h, b);
      }
      if b: Assignment :| AgreeOff(a, b, vs) && Eval(h, b) {
        assert Eval(f, b) && Eval(g, b);
        assert Sat(f, g, vs, a);
      }
    }
    Canonical(perm, p, q);
  }

  /* ---------- positive cubes ---------- */

  predicate PositiveCube(e: Edge) {
    match e.node
    case Leaf(v) => e == ONE
    case Inner(_, t, el) => !e.comp && el == ZERO && PositiveCube(t)
  }

  function CubeVars(n: Node): set<nat> {
    match n
    case Leaf(_) => {}
    case Inner(i, t, _) => {i} + CubeVars(t.node)
  }

  /** A positive cube without its top variable. */
  lemma CubeStep(perm: seq<nat>, c: Edge)
    requires IsOrder(perm) && Bdd(perm, c) && PositiveCube(c) && c.node.Inner?
    ensures Bdd(perm, c.node.T) && PositiveCube(c.node.T) && !c.node.T.comp
    ensures CubeVars(c.node) == {c.node.index} + CubeVars(c.node.T.node)
    ensures c.node.index !in CubeVars(c.node.T.node)
    ensures Top(perm, c.node) < Top(perm, c.node.T.node)
  {
    CubeVarsBelow(perm, c.node.T.node);
  }

  lemma CubeOne(c: Edge)
    requires PositiveCube(c)
    ensures !c.comp && c != ZERO
    ensures c == ONE ==> CubeVars(c.node) == {}
    ensures c.node.Leaf? ==> c == ONE
  {
  }

  /** The variables of a cube lie at or below its top. */
  lemma {:induction false} CubeVarsBelow(perm: seq<nat>, n: Node)
    requires BddNode(perm, n)
    ensures forall i :: i in CubeVars(n) ==> i < |perm| && Top(perm, n) <= perm[i]
  {
    match n
    case Leaf(_) =>
    case Inner(_, t, _) => CubeVarsBelow(perm, t.node);
  }

  /** A positive cube is the conjunction of its variables. */
  lemma {:induction false} PositiveCubeEval(e: Edge, a: Assignment)
    requires PositiveCube(e)
    ensures Eval(e, a) <==> forall i :: i in CubeVars(e.node) ==> i in a
  {
    match e.node
    case Leaf(_) =>
    case Inner(_, t, _) =>
      PositiveCubeEval(t, a);
      assert !Eval(ZERO, a);
  }

  /** e is 1 exactly where all the given variables are 1. */
  ghost predicate IsProduct(e: Edge, vs: set<nat>) {
    forall a: Assignment :: Eval(e, a) <==> forall i :: i in vs ==> i in a
  }

  /** Every product of positive literals has the shape the engine looks for. */
  lemma {:induction false} ProductIsPositiveCube(perm: seq<nat>, e: Edge, vs: set<nat>)
    requires IsOrder(perm) && Bdd(perm, e) && IsProduct(e, vs)
    ensures PositiveCube(e)
    decreases e.node
  {
    assert Eval(e, ALL_ONES) by {
      forall i | i in vs ensures i in ALL_ONES {
        assert IsVariable(i);
      }
    }
    RegularIffTrueAtOnes(perm, e);
    match e.node
    case Leaf(_) =>
    case Inner(i, t, el) =>
      forall a: Assignment
        ensures Eval(t, a) <==> forall j :: j in vs - {i} ==> j in a
        ensures Eval(el, a) <==> i !in vs && forall j :: j in vs ==> j in a
      {
        CofactorEval(perm, e, i, true, a);
        CofactorEval(perm, e, i, false, a);
        assert forall j :: j in With(a, i, true) <==> j == i || j in a;
        assert forall j :: j in With(a, i, false) <==> j != i && j in a;
      }
      if i in vs {
        Canonical(perm, el, ZERO);
        ProductIsPositiveCube(perm, t, vs - {i});
      } else {
        assert vs - {i} == vs;
        Canonical(perm, t, el);  // impossible: the children of e differ
      }
  }

  /** The positive cubes are the products of positive literals, no more and no less. */
  lemma PositiveCubeIffProduct(perm: seq<nat>, e: Edge)
    requires IsOrder(perm) && Bdd(perm, e)
    ensures PositiveCube(e) <==> exists vs :: IsProduct(e, vs)
  {
    if PositiveCube(e) {
      forall a: Assignment ensures Eval(e, a) <==> forall i :: i in CubeVars(e.node) ==> i in a {
        PositiveCubeEval(e, a);
      }
      assert IsProduct(e, CubeVars(e.node));
    }
    if vs :| IsProduct(e, vs) {
      ProductIsPositiveCube(perm, e, vs);
    }
  }

  /* ---------- substitution ---------- */

  /** The assignment that gives variable i the value of sigma[i]. */
  ghost function Image(sigma: seq<Edge>, a: Assignment): Assignment {
    iset i | 0 <= i < |sigma| && Eval(sigma[i], a)
  }

  /** r is f with every variable i replaced, simultaneously, by sigma[i]. */
  ghost predicate IsSubst(r: Edge, f: Edge, sigma: seq<Edge>) {
    forall a: Assignment :: Eval(r, a) == Eval(f, Image(sigma, a))
  }

  /** r is f with g put for variable v. */
  ghost predicate IsCompose(r: Edge, f: Edge, g: Edge, v: nat) {
    forall a: Assignment :: Eval(r, a) == Eval(f, With(a, v, Eval(g, a)))
  }

  lemma SubstStep(f: Edge, sigma: seq<Edge>, t: Edge, e: Edge, r: Edge)
    requires f.node.Inner? && f.node.index < |sigma|
    requires IsSubst(t, Then(f), sigma) && IsSubst(e, Else(f), sigma)
    requires IsIte(r, sigma[f.node.index], t, e)
    ensures IsSubst(r, f, sigma)
  {
  }

  /** Substitution in the complement is the complement of substitution. */
  lemma SubstComplement(r: Edge, f: Edge, sigma: seq<Edge>, c: bool)
    requires IsSubst(r, f, sigma)
    ensures IsSubst(NotCond(r, c), NotCond(f, c), sigma)
  {
  }

  lemma SubstConstant(f: Edge, sigma: seq<Edge>)
    requires f.node.Leaf?
    ensures IsSubst(f, f, sigma)
  {
  }

  lemma ComposeComplement(r: Edge, f: Edge, g: Edge, v: nat, c: bool)
    requires IsCompose(r, f, g, v)
    ensures IsCompose(NotCond(r, c), NotCond(f, c), g, v)
  {
  }

  /** The substitution that renames variable i to m[i]. */
  function Renaming(m: seq<nat>): seq<Edge> {
    seq(|m|, i requires 0 <= i < |m| => Var(m[i]))
  }

  /** Renaming and renaming back gives the edge one started from. */
  lemma RenamingBack(perm: seq<nat>, m: seq<nat>, q: seq<nat>, f: Edge, r: Edge, s: Edge)
    requires IsOrder(perm) && Bdd(perm, f) && Bdd(perm, s) && |m| == |q| == |perm|
    requires forall i :: 0 <= i < |m| ==> m[i] < |q| && q[m[i]] == i
    requires IsSubst(r, f, Renaming(m)) && IsSubst(s, r, Renaming(q))
    ensures s == f
  {
    SupportBelowTop(perm, f.node);
    forall a: Assignment ensures Eval(s, a) == Eval(f, a) {
      var b := Image(Renaming(q), a);
      forall i | i in Support(f.node) ensures i in Image(Renaming(m), b) <==> i in a {
        VarEval(m[i], b);
        VarEval(q[m[i]], a);
      }
      EvalSupport(f.node, Image(Renaming(m), b), a);
    }
    Canonical(perm, s, f);
  }

  /** The variable map that exchanges each x with its y, filled in from left to right. */
  function Exchange(m: seq<nat>, x: seq<nat>, y: seq<nat>): (r: seq<nat>)
    requires |x| == |y| && forall i :: 0 <= i < |x| ==> x[i] < |m| && y[i] < |m|
    requires forall i :: 0 <= i < |m| ==> m[i] < |m|
    ensures |r| == |m| && forall i :: 0 <= i < |r| ==> r[i] < |m|
  {
    if x == [] then m
    else
      var n := |x| - 1;
      Exchange(m, x[..n], y[..n])[x[n] := y[n]][y[n] := x[n]]
  }

  function IdentityMap(n: nat): seq<nat> {
    seq(n, i requires 0 <= i < n => i)
  }

  /** No variable occurs twice, in one list or in both. */
  ghost predicate Disjoint(x: seq<nat>, y: seq<nat>) {
    && |x| == |y|
    && (forall i, j :: 0 <= i < j < |x| ==> x[i] != x[j] && y[i] != y[j])
    && (forall i, j :: 0 <= i < |x| && 0 <= j < |y| ==> x[i] != y[j])
  }

  /** m maps each x to its y and each y to its x, in the order of the lists. */
  ghost predicate IsExchange(m: seq<nat>, n: nat, x: seq<nat>, y: seq<nat>) {
    && |x| == |y|
    && (forall i :: 0 <= i < |x| ==> x[i] < n && y[i] < n)
    && m == Exchange(IdentityMap(n), x, y)
  }

  /** r is f with the variables exchanged. */
  ghost predicate IsSwap(r: Edge, f: Edge, n: nat, x: seq<nat>, y: seq<nat>) {
    && |x| == |y|
    && (forall i :: 0 <= i < |x| ==> x[i] < n && y[i] < n)
    && IsSubst(r, f, Renaming(Exchange(IdentityMap(n), x, y)))
  }

  /** On disjoint lists the map really exchanges. */
  lemma {:induction false} ExchangeAt(n: nat, x: seq<nat>, y: seq<nat>, i: nat)
    requires Disjoint(x, y) && forall j :: 0 <= j < |x| ==> x[j] < n && y[j] < n
    requires i < |x|
    ensures var m := Exchange(IdentityMap(n), x, y); m[x[i]] == y[i] && m[y[i]] == x[i]
  {
    var k := |x| - 1;
    var before: seq<nat> := Exchange(IdentityMap(n), x[..k], y[..k]);
    var half: seq<nat> := before[x[k] := y[k]];
    assert Exchange(IdentityMap(n), x, y) == half[y[k] := x[k]];
    if i < k {
      ExchangeAt(n, x[..k], y[..k], i);
    }
  }

  /** It fixes every variable that is in neither list. */
  lemma {:induction false} ExchangeElsewhere(n: nat, x: seq<nat>, y: seq<nat>, v: nat)
    requires |x| == |y| && forall j :: 0 <= j < |x| ==> x[j] < n && y[j] < n
    requires v < n && v !in x && v !in y
    ensures Exchange(IdentityMap(n), x, y)[v] == v
  {
    if x != [] {
      var k := |x| - 1;
      assert x[k] in x && y[k] in y;
      ExchangeElsewhere(n, x[..k], y[..k], v);
    }
  }

  /** Exchanging twice changes nothing. */
  lemma ExchangeTwice(n: nat, x: seq<nat>, y: seq<nat>, v: nat)
    requires Disjoint(x, y) && forall i :: 0 <= i < |x| ==> x[i] < n && y[i] < n
    requires v < n
    ensures var m := Exchange(IdentityMap(n), x, y); m[v] < n && m[m[v]] == v
  {
    if v in x {
      var i :| 0 <= i < |x| && x[i] == v;
      ExchangeAt(n, x, y, i);
    } else if v in y {
      var i :| 0 <= i < |y| && y[i] == v;
      ExchangeAt(n, x, y, i);
    } else {
      ExchangeElsewhere(n, x, y, v);
    }
  }

  /** Swapping two disjoint lists of variables twice returns the original edge. */
  lemma SwapTwice(perm: seq<nat>, x: seq<nat>, y: seq<nat>, f: Edge, r: Edge, s: Edge)
    requires IsOrder(perm) && Bdd(perm, f) && Bdd(perm, s) && Disjoint(x, y)
    requires IsSwap(r, f, |perm|, x, y) && IsSwap(s, r, |perm|, x, y)
    ensures s == f
  {
    var m := Exchange(IdentityMap(|perm|), x, y);
    forall i | 0 <= i < |m| ensures m[i] < |m| && m[m[i]] == i {
      ExchangeTwice(|perm|, x, y, i);
    }
    RenamingBack(perm, m, m, f, r, s);
  }

  /** Below the deepest proper substitution a function is its own image. */
  lemma SubstCutOff(perm: seq<nat>, f: Edge, sigma: seq<Edge>)
    requires IsOrder(perm) && Bdd(perm, f) && |sigma| == |perm|
    requires forall i :: 0 <= i < |perm| && Top(perm, f.node) <= perm[i] ==> sigma[i] == Var(i)
    ensures IsSubst(f, f, sigma)
  {
    SupportBelowTop(perm, f.node);
    forall a: Assignment ensures Eval(f, a) == Eval(f, Image(sigma, a)) {
      forall i | i in Support(f.node) ensures i in a <==> i in Image(sigma, a) {
        VarEval(i, a);
      }
      EvalSupport(f.node, a, Image(sigma, a));
    }
  }

  lemma ComposeStep(
    i: nat, v: nat, f: Edge, g: Edge, t: Edge, e: Edge, r: Edge)
    requires i != v
    requires IsCompose(t, Cof(f, i, true), Cof(g, i, true), v)
    requires IsCompose(e, Cof(f, i, false), Cof(g, i, false), v)
    requires IsIte(r, Var(i), t, e)
    ensures IsCompose(r, f, g, v)
  {
    forall a: Assignment ensures Eval(r, a) == Eval(f, With(a, v, Eval(g, a))) {
      Shannon(g, i, a);
      Shannon(f, i, With(a, v, Eval(g, a)));
      VarEval(i, a);
    }
  }

  /** Composition at the top variable of f. */
  lemma ComposeHere(perm: seq<nat>, f: Edge, g: Edge, v: nat, r: Edge)
    requires IsOrder(perm) && Bdd(perm, f) && f.node.Inner? && f.node.index == v
    requires IsIte(r, g, Then(f), Else(f))
    ensures IsCompose(r, f, g, v)
  {
    forall a: Assignment ensures Eval(r, a) == Eval(f, With(a, v, Eval(g, a))) {
      CofactorEval(perm, f, v, Eval(g, a), a);
    }
  }

  /** Composition with a variable that does not occur in f. */
  lemma ComposeBelow(perm: seq<nat>, f: Edge, g: Edge, v: nat)
    requires IsOrder(perm) && Bdd(perm, f) && v < |perm| && perm[v] < Top(perm, f.node)
    ensures IsCompose(f, f, g, v)
  {
    forall a: Assignment ensures Eval(f, a) == Eval(f, With(a, v, Eval(g, a))) {
      EvalAboveTop(perm, f, v, a, Eval(g, a));
    }
  }

  function Identity(n: nat): seq<Edge> {
    seq(n, i requires 0 <= i < n => Var(i))
  }

  /** Composing at one variable gives the edge of the vector that changes only that variable. */
  lemma ComposeIsVectorCompose(perm: seq<nat>, r: Edge, q: Edge, f: Edge, g: Edge, v: nat)
    requires IsOrder(perm) && Bdd(perm, f) && Bdd(perm, r) && Bdd(perm, q) && v < |perm|
    requires IsCompose(r, f, g, v) && IsSubst(q, f, Identity(|perm|)[v := g])
    ensures r == q
  {
    var sigma := Identity(|perm|)[v := g];
    SupportBelowTop(perm, f.node);
    forall a: Assignment ensures Eval(r, a) == Eval(q, a) {
      forall i | i in Support(f.node)
        ensures i in Image(sigma, a) <==> i in With(a, v, Eval(g, a))
      {
        VarEval(i, a);
      }
      EvalSupport(f.node, Image(sigma, a), With(a, v, Eval(g, a)));
    }
    Canonical(perm, r, q);
  }

  /* ---------- difference with respect to a variable ---------- */

  /** r is 1 where flipping variable v flips f. */
  ghost predicate IsDifference(r: Edge, f: Edge, v: nat) {
    forall a: Assignment :: Eval(r, a) == (Eval(f, With(a, v, true)) != Eval(f, With(a, v, false)))
  }

  lemma DifferenceStep(perm: seq<nat>, v: nat, f: Edge, t: Edge, e: Edge, r: Edge)
    requires IsOrder(perm) && Bdd(perm, f) && f.node.Inner? && f.node.index != v
    requires IsDifference(t, Then(f), v) && IsDifference(e, Else(f), v)
    requires IsIte(r, Var(f.node.index), t, e)
    ensures IsDifference(r, f, v)
  {
    var i := f.node.index;
    forall a: Assignment
      ensures Eval(r, a) == (Eval(f, With(a, v, true)) != Eval(f, With(a, v, false)))
    {
      VarEval(i, a);
      Shannon(f, i, With(a, v, true));
      Shannon(f, i, With(a, v, false));
    }
  }

  lemma DifferenceHere(perm: seq<nat>, v: nat, f: Edge, r: Edge)
    requires IsOrder(perm) && Bdd(perm, f) && f.node.Inner? && f.node.index == v
    requires IsXor(r, Then(f), Else(f))
    ensures IsDifference(r, f, v)
  {
    forall a: Assignment
      ensures Eval(r, a) == (Eval(f, With(a, v, true)) != Eval(f, With(a, v, false)))
    {
      CofactorEval(perm, f, v, true, a);
      CofactorEval(perm, f, v, false, a);
    }
  }

  /* ---------- approximation ---------- */

  /** r lies on the chosen side of the relational product: above it when over, below it otherwise. */
  ghost predicate IsClipped(r: Edge, f: Edge, g: Edge, vs: set<nat>, over: bool) {
    forall a: Assignment ::
      if over then Sat(f, g, vs, a) ==> Eval(r, a) else Eval(r, a) ==> Sat(f, g, vs, a)
  }

  lemma ClippedBranch(i: nat, vs: set<nat>, f: Edge, g: Edge, t: Edge, e: Edge, r: Edge, over: bool)
    requires i !in vs
    requires IsClipped(t, Cof(f, i, true), Cof(g, i, true), vs, over)
    requires IsClipped(e, Cof(f, i, false), Cof(g, i, false), vs, over)
    requires IsBranch(r, i, t, e)
    ensures IsClipped(r, f, g, vs, over)
  {
    forall a: Assignment
      ensures if over then Sat(f, g, vs, a) ==> Eval(r, a) else Eval(r, a) ==> Sat(f, g, vs, a)
    {
      SatBranch(f, g, i, vs, a);
    }
  }

  /** The disjunction of two approximations, taken as the complement of an approximate conjunction
      of complements in the opposite direction, stays on the chosen side. */
  lemma ClippedJoin(
    perm: seq<nat>, i: nat, vs: set<nat>, f: Edge, g: Edge, t: Edge, e: Edge, r: Edge, over: bool)
    requires IsOrder(perm) && Bdd(perm, f) && Bdd(perm, g) && i < |perm| && i !in vs
    requires perm[i] <= Top(perm, f.node) && perm[i] <= Top(perm, g.node)
    requires IsClipped(t, Cof(f, i, true), Cof(g, i, true), vs, over)
    requires IsClipped(e, Cof(f, i, false), Cof(g, i, false), vs, over)
    requires IsClipped(Not(r), Not(t), Not(e), {}, !over)
    ensures IsClipped(r, f, g, {i} + vs, over)
  {
    forall a: Assignment
      ensures if over then Sat(f, g, {i} + vs, a) ==> Eval(r, a) else Eval(r, a) ==> Sat(f, g, {i} + vs, a)
    {
      SatQuantify(perm, f, g, i, vs, a);
      SatNothing(Not(t), Not(e), a);
      assert Eval(Not(r), a) == !Eval(r, a);
    }
  }

  lemma SatNothing(f: Edge, g: Edge, a: Assignment)
    ensures Sat(f, g, {}, a) <==> Eval(f, a) && Eval(g, a)
  {
    assert AgreeOff(a, a, {});
    forall b: Assignment | AgreeOff(a, b, {}) ensures a == b {}
  }

  /** The approximations given at the depth limit: an operand that implies the other, 0 when the
      operands are disjoint, and otherwise the constant on the chosen side. */
  lemma ClippedAtLimit(f: Edge, g: Edge, over: bool)
    ensures LessEq(f, g) ==> IsClipped(f, f, g, {}, over)
    ensures LessEq(g, f) ==> IsClipped(g, f, g, {}, over)
    ensures LessEq(f, Not(g)) || LessEq(g, Not(f)) ==> IsClipped(ZERO, f, g, {}, over)
  {
    forall a: Assignment ensures Sat(f, g, {}, a) <==> Eval(f, a) && Eval(g, a) {
      SatNothing(f, g, a);
    }
    if LessEq(f, Not(g)) || LessEq(g, Not(f)) {
      forall a: Assignment ensures !(Eval(f, a) && Eval(g, a)) {
        assert Eval(Not(g), a) == !Eval(g, a) && Eval(Not(f), a) == !Eval(f, a);
      }
    }
  }

  lemma ClippedConstant(f: Edge, g: Edge, vs: set<nat>)
    ensures IsClipped(ONE, f, g, vs, true) && IsClipped(ZERO, f, g, vs, false)
  {
  }

  /** If the then branch is approximated by 1, so is the quantified function. */
  lemma ClippedEarly(perm: seq<nat>, i: nat, vs: set<nat>, f: Edge, g: Edge, over: bool)
    requires IsOrder(perm) && Bdd(perm, f) && Bdd(perm, g) && i < |perm| && i !in vs
    requires perm[i] <= Top(perm, f.node) && perm[i] <= Top(perm, g.node)
    requires IsClipped(ONE, Cof(f, i, true), Cof(g, i, true), vs, over)
    ensures IsClipped(ONE, f, g, {i} + vs, over)
  {
    forall a: Assignment ensures Eval(ONE, a) ==> over || Sat(f, g, {i} + vs, a) {
      SatQuantify(perm, f, g, i, vs, a);
    }
  }

  lemma ClippedSymmetric(f: Edge, g: Edge, vs: set<nat>, over: bool)
    ensures forall r :: IsClipped(r, g, f, vs, over) ==> IsClipped(r, f, g, vs, over)
  {
  }

  lemma ClippedSkip(perm: seq<nat>, i: nat, vs: set<nat>, f: Edge, g: Edge, r: Edge, over: bool)
    requires IsOrder(perm) && Bdd(perm, f) && Bdd(perm, g) && i < |perm| && i !in vs
    requires perm[i] < Top(perm, f.node) && perm[i] < Top(perm, g.node)
    requires IsClipped(r, f, g, vs, over)
    ensures IsClipped(r, f, g, {i} + vs, over)
  {
    forall a: Assignment
      ensures if over then Sat(f, g, {i} + vs, a) ==> Eval(r, a) else Eval(r, a) ==> Sat(f, g, {i} + vs, a)
    {
      SatQuantify(perm, f, g, i, vs, a);
    }
  }

  /** An answer on the chosen side, or the relational product itself. */
  ghost predicate Approximates(r: Edge, f: Edge, g: Edge, vs: set<nat>, over: bool, exact: bool) {
    IsClipped(r, f, g, vs, over) && (exact ==> IsAndExists(r, f, g, vs))
  }

  /** Only the product itself lies on both sides. */
  lemma BothSides(r: Edge, f: Edge, g: Edge, vs: set<nat>, over: bool)
    ensures Approximates(r, f, g, vs, over, true) <==>
            IsClipped(r, f, g, vs, over) && IsClipped(r, f, g, vs, !over)
    ensures IsAndExists(r, f, g, vs) <==> Approximates(r, f, g, vs, over, true)
  {
  }

  lemma ApproximateBranch(
    i: nat, vs: set<nat>, f: Edge, g: Edge, t: Edge, e: Edge, r: Edge, over: bool, exact: bool)
    requires i !in vs && IsBranch(r, i, t, e)
    requires Approximates(t, Cof(f, i, true), Cof(g, i, true), vs, over, exact)
    requires Approximates(e, Cof(f, i, false), Cof(g, i, false), vs, over, exact)
    ensures Approximates(r, f, g, vs, over, exact)
  {
    hide IsClipped, IsAndExists, IsBranch;
    ClippedBranch(i, vs, f, g, t, e, r, over);
    if exact {
      AndExistsBranch(i, vs, f, g, t, e, r);
    }
  }

  lemma ApproximateJoin(
    perm: seq<nat>, i: nat, vs: set<nat>, f: Edge, g: Edge, t: Edge, e: Edge, r: Edge, over: bool, exact: bool)
    requires IsOrder(perm) && Bdd(perm, f) && Bdd(perm, g) && i < |perm| && i !in vs
    requires perm[i] <= Top(perm, f.node) && perm[i] <= Top(perm, g.node)
    requires Approximates(t, Cof(f, i, true), Cof(g, i, true), vs, over, exact)
    requires Approximates(e, Cof(f, i, false), Cof(g, i, false), vs, over, exact)
    requires Approximates(Not(r), Not(t), Not(e), {}, !over, exact)
    ensures Approximates(r, f, g, {i} + vs, over, exact)
  {
    hide IsClipped, IsAndExists, IsAnd, IsOr, BddNode, IsOrder;
    ClippedJoin(perm, i, vs, f, g, t, e, r, over);
    if exact {
      AndExistsNothing(Not(r), Not(t), Not(e));
      OrByAnd(r, t, e);
      AndExistsJoin(perm, i, vs, f, g, t, e, r);
    }
  }

  /** If the then branch is approximated by 1, so is the quantified function. */
  lemma ApproximateEarly(perm: seq<nat>, i: nat, vs: set<nat>, f: Edge, g: Edge, over: bool, exact: bool)
    requires IsOrder(perm) && Bdd(perm, f) && Bdd(perm, g) && i < |perm| && i !in vs
    requires perm[i] <= Top(perm, f.node) && perm[i] <= Top(perm, g.node)
    requires Approximates(ONE, Cof(f, i, true), Cof(g, i, true), vs, over, exact)
    ensures Approximates(ONE, f, g, {i} + vs, over, exact)
  {
    hide IsClipped, IsAndExists, BddNode, IsOrder;
    ClippedEarly(perm, i, vs, f, g, over);
    if exact {
      AndExistsEarly(perm, i, vs, f, g, ONE);
    }
  }

  lemma ApproximateSkip(
    perm: seq<nat>, i: nat, vs: set<nat>, f: Edge, g: Edge, r: Edge, over: bool, exact: bool)
    requires IsOrder(perm) && Bdd(perm, f) && Bdd(perm, g) && i < |perm| && i !in vs
    requires perm[i] < Top(perm, f.node) && perm[i] < Top(perm, g.node)
    requires Approximates(r, f, g, vs, over, exact)
    ensures Approximates(r, f, g, {i} + vs, over, exact)
  {
    hide IsClipped, IsAndExists, BddNode, IsOrder;
    ClippedSkip(perm, i, vs, f, g, r, over);
    if exact {
      SkipVariable(perm, i, f, g, vs, {i} + vs);
      SameProductIs(r, f, g, vs, {i} + vs);
    }
  }

  lemma ApproximateSymmetric(f: Edge, g: Edge, vs: set<nat>, over: bool, exact: bool)
    ensures forall r :: Approximates(r, g, f, vs, over, exact) ==> Approximates(r, f, g, vs, over, exact)
  {
    ClippedSymmetric(f, g, vs, over);
    forall r | IsAndExists(r, g, f, vs) ensures IsAndExists(r, f, g, vs) {
      AndExistsSymmetric(r, g, f, vs);
    }
  }

  /** A recursion no deeper than the number of levels left never meets the limit; a negative distance
      has no limit at all. */
  predicate Enough(distance: int, levels: nat) {
    distance < 0 || distance >= levels
  }

  /* ---------- literals ---------- */

  datatype Literal = Literal(v: nat, phase: bool)

  ghost predicate Holds(l: Literal, a: Assignment) {
    (l.v in a) == l.phase
  }

  /** f is 1 only where the literal holds. */
  ghost predicate Implies(f: Edge, l: Literal) {
    forall a: Assignment :: Eval(f, a) ==> Holds(l, a)
  }

  /** A product of literals, of either phase. */
  predicate IsCube(e: Edge)
    decreases e.node
  {
    match e.node
    case Leaf(_) => e == ONE
    case Inner(_, _, _) =>
      (Then(e) == ZERO && Else(e) != ZERO && IsCube(CubeTail(e))) ||
      (Then(e) != ZERO && Else(e) == ZERO && IsCube(CubeTail(e)))
  }

  /** The cube without its top literal. */
  function CubeTail(e: Edge): (r: Edge)
    requires e.node.Inner?
    ensures r.node < e.node
  {
    if Then(e) == ZERO then Else(e) else Then(e)
  }

  function Literals(e: Edge): set<Literal>
    decreases e.node
  {
    if e.node.Leaf? then {}
    else {Literal(e.node.index, Then(e) != ZERO)} + Literals(CubeTail(e))
  }

  /** r is the cube of the literals f implies. */
  ghost predicate IsEssential(perm: seq<nat>, r: Edge, f: Edge) {
    IsCube(r) && forall l: Literal :: l.v < |perm| ==> (l in Literals(r) <==> Implies(f, l))
  }

  /** r is the cube of the literals that occur in both cubes. */
  ghost predicate IsCommonLiterals(r: Edge, f: Edge, g: Edge) {
    IsCube(r) && Literals(r) == Literals(f) * Literals(g)
  }

  /* ---------- algebraic diagrams ---------- */

  /** Every leaf the diagram reaches is TRUE or FALSE. */
  ghost predicate Boolean(n: Node) {
    forall a: Assignment :: LeafAt(n, a) == TRUE || LeafAt(n, a) == FALSE
  }

  /** The ADD takes TRUE where the BDD is 1 and FALSE elsewhere. */
  ghost predicate IsIndicator(n: Node, f: Edge) {
    forall a: Assignment :: LeafAt(n, a) == if Eval(f, a) then TRUE else FALSE
  }

  ghost predicate IsCmpl(r: Node, f: Node) {
    forall a: Assignment :: LeafAt(r, a) == if LeafAt(f, a) == FALSE then TRUE else FALSE
  }

  ghost predicate IsAddIte(r: Node, f: Node, g: Node, h: Node) {
    forall a: Assignment :: LeafAt(r, a) == if LeafAt(f, a) == TRUE then LeafAt(g, a) else LeafAt(h, a)
  }
}
