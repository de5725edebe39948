/** Decision diagrams as mathematical values: the graph a node pointer unfolds to, the function it
    denotes, and the canonical form the engine keeps. */
module Diagrams {

  /** Constants. TRUE is the one BDD constant; FALSE is the ADD leaf, which is not the complement of
      TRUE; the remaining leaves are arbitrary ADD values. */
  datatype Value = TRUE | FALSE | OTHER(id: nat)

  datatype Node = Leaf(value: Value) | Inner(index: nat, T: Edge, E: Edge)

  /** An edge carries the complement attribute that the C code keeps in the low bit of a pointer. */
  datatype Edge = Edge(comp: bool, node: Node)

  /** The variables that are assigned 1. */
  type Assignment = iset<nat>

  const ONE := Edge(false, Leaf(TRUE))

  const ZERO := Edge(true, Leaf(TRUE))

  function Not(e: Edge): Edge {
    Edge(!e.comp, e.node)
  }

  function NotCond(e: Edge, c: bool): Edge {
    Edge(e.comp != c, e.node)
  }

  /** The projection function of variable i. */
  function Var(i: nat): Edge {
    Edge(false, Inner(i, ONE, ZERO))
  }

  /* ---------- meaning ---------- */

  ghost predicate EvalNode(n: Node, a: Assignment) {
    match n
    case Leaf(v) => v == TRUE
    case Inner(i, t, e) =>
      if i in a then t.comp != EvalNode(t.node, a) else e.comp != EvalNode(e.node, a)
  }

  ghost predicate Eval(e: Edge, a: Assignment) {
    e.comp != EvalNode(e.node, a)
  }

  /** The leaf an ADD reaches. */
  ghost function LeafAt(n: Node, a: Assignment): Value {
    match n
    case Leaf(v) => v
    case Inner(i, t, e) => if i in a then LeafAt(t.node, a) else LeafAt(e.node, a)
  }

  ghost function With(a: Assignment, i: nat, b: bool): Assignment {
    if b then a + iset{i} else a - iset{i}
  }

  function Support(n: Node): set<nat> {
    match n
    case Leaf(_) => {}
    case Inner(i, t, e) => {i} + Support(t.node) + Support(e.node)
  }

  ghost predicate Equivalent(f: Edge, g: Edge) {
    forall a: Assignment :: Eval(f, a) == Eval(g, a)
  }

  /** Changing variable i never changes the value of e. */
  ghost predicate Ignores(e: Edge, i: nat) {
    forall a: Assignment :: Eval(e, With(a, i, true)) == Eval(e, With(a, i, false))
  }

  /* ---------- order and canonical form ---------- */

  /** perm[i] is the level of variable i. */
  ghost predicate IsOrder(perm: seq<nat>) {
    && (forall i :: 0 <= i < |perm| ==> perm[i] < |perm|)
    && (forall i, j :: 0 <= i < |perm| && 0 <= j < |perm| && perm[i] == perm[j] ==> i == j)
  }

  /** The level of the top variable; a constant lies below every variable. */
  function Top(perm: seq<nat>, n: Node): (level: nat)
  {
    if n.Inner? && n.index < |perm| then perm[n.index] else |perm|
  }

  function Min(x: nat, y: nat): nat {
    if y < x then y else x
  }

  /** How much of the order lies at or below the higher of two tops: what the recursions decrease. */
  function Rank(perm: seq<nat>, f: Edge, g: Edge): nat {
    var top := Min(Top(perm, f.node), Top(perm, g.node));
    if top <= |perm| then |perm| - top else 0
  }

  function Rank3(perm: seq<nat>, f: Edge, g: Edge, h: Edge): nat {
    var top := Min(Top(perm, f.node), Min(Top(perm, g.node), Top(perm, h.node)));
    if top <= |perm| then |perm| - top else 0
  }

  /** The shape of every internal node: levels increase along edges, the then-edge is regular and
      the two children differ. */
  ghost predicate Shaped(perm: seq<nat>, i: nat, t: Edge, e: Edge) {
    && i < |perm|
    && perm[i] < Top(perm, t.node)
    && perm[i] < Top(perm, e.node)
    && !t.comp
    && t != e
  }

  ghost predicate BddNode(perm: seq<nat>, n: Node) {
    match n
    case Leaf(v) => v == TRUE
    case Inner(i, t, e) => Shaped(perm, i, t, e) && BddNode(perm, t.node) && BddNode(perm, e.node)
  }

  ghost predicate Bdd(perm: seq<nat>, e: Edge) {
    BddNode(perm, e.node)
  }

  /** ADDs have no complemented edges, and any leaf. */
  ghost predicate AddNode(perm: seq<nat>, n: Node) {
    match n
    case Leaf(v) => true
    case Inner(i, t, e) =>
      Shaped(perm, i, t, e) && !e.comp && AddNode(perm, t.node) && AddNode(perm, e.node)
  }

  ghost predicate Add(perm: seq<nat>, e: Edge) {
    !e.comp && AddNode(perm, e.node)
  }

  /* ---------- cofactors ---------- */

  function Then(e: Edge): Edge
    requires e.node.Inner?
  {
    NotCond(e.node.T, e.comp)
  }

  function Else(e: Edge): Edge
    requires e.node.Inner?
  {
    NotCond(e.node.E, e.comp)
  }

  /** The cofactor of e at variable i when no variable above i occurs in e. */
  function Cof(e: Edge, i: nat, b: bool): Edge {
    if e.node.Inner? && e.node.index == i then (if b then Then(e) else Else(e)) else e
  }

  lemma {:induction false} EvalSupport(n: Node, a: Assignment, b: Assignment)
    requires forall i :: i in Support(n) ==> (i in a <==> i in b)
    ensures EvalNode(n, a) == EvalNode(n, b)
    ensures LeafAt(n, a) == LeafAt(n, b)
  {
    match n
    case Leaf(_) =>
    case Inner(i, t, e) =>
      EvalSupport(t.node, a, b);
      EvalSupport(e.node, a, b);
  }

  lemma {:induction false} SupportBelowTop(perm: seq<nat>, n: Node)
    requires BddNode(perm, n) || AddNode(perm, n)
    ensures forall i :: i in Support(n) ==> i < |perm| && Top(perm, n) <= perm[i]
  {
    match n
    case Leaf(_) =>
    case Inner(_, t, e) =>
      SupportBelowTop(perm, t.node);
      SupportBelowTop(perm, e.node);
  }

  /** A function ignores every variable above its top variable. */
  lemma EvalAboveTop(perm: seq<nat>, e: Edge, i: nat, a: Assignment, b: bool)
    requires Bdd(perm, e) && i < |perm| && perm[i] < Top(perm, e.node)
    ensures Eval(e, With(a, i, b)) == Eval(e, a)
  {
    SupportBelowTop(perm, e.node);
    EvalSupport(e.node, With(a, i, b), a);
  }

  lemma IgnoresAbove(perm: seq<nat>, e: Edge, i: nat)
    requires Bdd(perm, e) && i < |perm| && perm[i] < Top(perm, e.node)
    ensures Ignores(e, i)
  {
    forall a: Assignment ensures Eval(e, With(a, i, true)) == Eval(e, With(a, i, false)) {
      EvalAboveTop(perm, e, i, a, true);
      EvalAboveTop(perm, e, i, a, false);
    }
  }

  /** The cofactor at i is the restriction of the function to i = b. */
  lemma CofactorEval(perm: seq<nat>, e: Edge, i: nat, b: bool, a: Assignment)
    requires IsOrder(perm) && Bdd(perm, e) && i < |perm| && perm[i] <= Top(perm, e.node)
    ensures Eval(Cof(e, i, b), a) == Eval(e, With(a, i, b))
  {
    if e.node.Inner? && e.node.index == i {
      EvalAboveTop(perm, Cof(e, i, b), i, a, b);
    } else {
      EvalAboveTop(perm, e, i, a, b);
    }
  }

  /** Cofactors stay in canonical form and lie below the variable they were taken at. */
  lemma CofactorShape(perm: seq<nat>, e: Edge, i: nat, b: bool)
    requires IsOrder(perm) && Bdd(perm, e) && i < |perm| && perm[i] <= Top(perm, e.node)
    ensures Bdd(perm, Cof(e, i, b)) && perm[i] < Top(perm, Cof(e, i, b).node)
  {
  }

  /* ---------- canonicity ---------- */

  ghost predicate IsVariable(i: nat) {
    true
  }

  ghost const ALL_ONES: Assignment := iset i | IsVariable(i)

  lemma {:induction false} TrueAtAllOnes(perm: seq<nat>, n: Node)
    requires BddNode(perm, n)
    ensures EvalNode(n, ALL_ONES)
  {
    match n
    case Leaf(_) =>
    case Inner(_, t, _) => TrueAtAllOnes(perm, t.node);
  }

  /** An edge is regular exactly when its function is 1 where every variable is 1. */
  lemma RegularIffTrueAtOnes(perm: seq<nat>, e: Edge)
    requires Bdd(perm, e)
    ensures !e.comp <==> Eval(e, ALL_ONES)
  {
    TrueAtAllOnes(perm, e.node);
  }

  lemma EquivalentCofactors(perm: seq<nat>, f: Edge, g: Edge, i: nat, b: bool)
    requires IsOrder(perm) && Bdd(perm, f) && Bdd(perm, g) && Equivalent(f, g)
    requires i < |perm| && perm[i] <= Top(perm, f.node) && perm[i] <= Top(perm, g.node)
    ensures Equivalent(Cof(f, i, b), Cof(g, i, b))
  {
    forall a: Assignment ensures Eval(Cof(f, i, b), a) == Eval(Cof(g, i, b), a) {
      CofactorEval(perm, f, i, b, a);
      CofactorEval(perm, g, i, b, a);
    }
  }

  /** Two canonical edges that denote the same function are the same edge. */
  lemma {:induction false} Canonical(perm: seq<nat>, f: Edge, g: Edge)
    requires IsOrder(perm) && Bdd(perm, f) && Bdd(perm, g) && Equivalent(f, g)
    ensures f == g
    decreases |perm| - Min(Top(perm, f.node), Top(perm, g.node)), Top(perm, f.node)
  {
    if Top(perm, g.node) < Top(perm, f.node) {
      Canonical(perm, g, f);
    } else if f.node.Inner? {
      var i := f.node.index;
      EquivalentCofactors(perm, f, g, i, true);
      EquivalentCofactors(perm, f, g, i, false);
      if Top(perm, f.node) < Top(perm, g.node) {
        Canonical(perm, Then(f), Else(f));  // impossible: the children of f differ
      } else {
        RegularIffTrueAtOnes(perm, f);
        RegularIffTrueAtOnes(perm, g);
        Canonical(perm, Then(f), Then(g));
        Canonical(perm, Else(f), Else(g));
      }
    } else {
      RegularIffTrueAtOnes(perm, f);
      RegularIffTrueAtOnes(perm, g);
    }
  }

  lemma CanonicalIff(perm: seq<nat>, f: Edge, g: Edge)
    requires IsOrder(perm) && Bdd(perm, f) && Bdd(perm, g)
    ensures Equivalent(f, g) <==> f == g
  {
    if Equivalent(f, g) {
      Canonical(perm, f, g);
    }
  }

  /** A canonical edge that ignores every variable above a level has its top variable at or below it. */
  lemma TopByIgnores(perm: seq<nat>, r: Edge, level: nat)
    requires IsOrder(perm) && Bdd(perm, r) && level <= |perm|
    requires forall i :: 0 <= i < |perm| && perm[i] < level ==> Ignores(r, i)
    ensures level <= Top(perm, r.node)
  {
    if Top(perm, r.node) < level {
      var i := r.node.index;
      assert Ignores(r, i);
      forall a: Assignment ensures Eval(Then(r), a) == Eval(Else(r), a) {
        CofactorEval(perm, r, i, true, a);
        CofactorEval(perm, r, i, false, a);
      }
      Canonical(perm, Then(r), Else(r));
    }
  }

  /** Every edge other than the constants takes both values. */
  lemma NonConstant(perm: seq<nat>, f: Edge)
    requires IsOrder(perm) && Bdd(perm, f)
    ensures (exists a: Assignment :: Eval(f, a)) <==> f != ZERO
    ensures (exists a: Assignment :: !Eval(f, a)) <==> f != ONE
  {
    if forall a: Assignment :: !Eval(f, a) {
      Canonical(perm, f, ZERO);
    }
    if forall a: Assignment :: Eval(f, a) {
      Canonical(perm, f, ONE);
    }
  }
}
