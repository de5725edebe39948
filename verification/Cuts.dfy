/** Conjunction and relational product cut off after a number of branchings: which assignments keep
    their exact value. The number is measured on the diagrams. No algorithm is mentioned here. */
module Cuts {
  import opened Diagrams
  import opened Semantics

  /* ---------- pairs of operands ---------- */

  /** One implication test decides the conjunction: it is an operand, or 0. */
  ghost predicate Decided(f: Edge, g: Edge) {
    LessEq(f, g) || LessEq(g, f) || LessEq(f, Not(g))
  }

  lemma NotEval(f: Edge, a: Assignment)
    ensures Eval(Not(f), a) == !Eval(f, a)
  {
  }

  lemma DecidedSymmetric(f: Edge, g: Edge)
    ensures Decided(f, g) <==> Decided(g, f)
  {
    forall a: Assignment ensures Eval(Not(g), a) == !Eval(g, a) && Eval(Not(f), a) == !Eval(f, a) {
    }
    if LessEq(f, Not(g)) {
      assert LessEq(g, Not(f));
    }
    if LessEq(g, Not(f)) {
      assert LessEq(f, Not(g));
    }
  }

  /** A constant decides. */
  lemma DecidedConstant(f: Edge, g: Edge)
    requires f.node.Leaf? || g.node.Leaf?
    ensures Decided(f, g)
  {
    var c := if f.node.Leaf? then f else g;
    forall a: Assignment ensures Eval(c, a) == (c.comp != (c.node.value == TRUE)) {
    }
  }

  lemma DecidedCofactors(perm: seq<nat>, f: Edge, g: Edge, i: nat, b: bool)
    requires IsOrder(perm) && Bdd(perm, f) && Bdd(perm, g) && i < |perm|
    requires perm[i] <= Top(perm, f.node) && perm[i] <= Top(perm, g.node) && Decided(f, g)
    ensures Decided(Cof(f, i, b), Cof(g, i, b))
  {
    hide Eval;
    forall a: Assignment
      ensures Eval(Cof(f, i, b), a) == Eval(f, With(a, i, b)) && Eval(Cof(g, i, b), a) == Eval(g, With(a, i, b))
      ensures Eval(Not(Cof(g, i, b)), a) == !Eval(Cof(g, i, b), a)
      ensures Eval(Not(g), With(a, i, b)) == !Eval(g, With(a, i, b))
    {
      CofactorEval(perm, f, i, b, a);
      CofactorEval(perm, g, i, b, a);
      NotEval(Cof(g, i, b), a);
      NotEval(g, With(a, i, b));
    }
  }

  /** The variable at which a pair of operands is split. */
  function TopVar(perm: seq<nat>, f: Edge, g: Edge): nat
    requires f.node.Inner? && g.node.Inner?
  {
    if Top(perm, g.node) < Top(perm, f.node) then g.node.index else f.node.index
  }

  lemma TopVarAt(perm: seq<nat>, f: Edge, g: Edge, i: nat)
    requires IsOrder(perm) && Bdd(perm, f) && Bdd(perm, g) && f.node.Inner? && g.node.Inner?
    requires i < |perm| && perm[i] == Min(Top(perm, f.node), Top(perm, g.node))
    ensures i == TopVar(perm, f, g)
  {
  }

  /** What the split of an undecided pair gives. */
  lemma SplitPair(perm: seq<nat>, f: Edge, g: Edge)
    requires IsOrder(perm) && Bdd(perm, f) && Bdd(perm, g) && f.node.Inner? && g.node.Inner?
    ensures var i := TopVar(perm, f, g);
            && i < |perm| && perm[i] == Min(Top(perm, f.node), Top(perm, g.node)) < |perm|
            && TopVar(perm, g, f) == i
            && (forall b :: Cof(f, i, b).node < f.node || (Cof(f, i, b) == f && Cof(g, i, b).node < g.node))
            && (forall b :: Bdd(perm, Cof(f, i, b)) && Bdd(perm, Cof(g, i, b)))
            && (forall b :: perm[i] < Top(perm, Cof(f, i, b).node) && perm[i] < Top(perm, Cof(g, i, b).node))
            && (forall b :: Rank(perm, Cof(f, i, b), Cof(g, i, b)) < Rank(perm, f, g))
  {
    var i := TopVar(perm, f, g);
    forall b ensures Bdd(perm, Cof(f, i, b)) && Bdd(perm, Cof(g, i, b))
      ensures perm[i] < Top(perm, Cof(f, i, b).node) && perm[i] < Top(perm, Cof(g, i, b).node)
    {
      CofactorShape(perm, f, i, b);
      CofactorShape(perm, g, i, b);
    }
  }

  function Max(x: nat, y: nat): nat {
    if x < y then y else x
  }

  /** The branchings after which every path of the two operands has met a decided pair. */
  ghost function Needed(perm: seq<nat>, f: Edge, g: Edge): (n: nat)
    decreases f.node, g.node
  {
    DecidedConstantAt(f, g);
    if Decided(f, g) then 0
    else
      var i := TopVar(perm, f, g);
      1 + Max(Needed(perm, Cof(f, i, true), Cof(g, i, true)), Needed(perm, Cof(f, i, false), Cof(g, i, false)))
  }

  lemma DecidedConstantAt(f: Edge, g: Edge)
    ensures !Decided(f, g) ==> f.node.Inner? && g.node.Inner?
  {
    if f.node.Leaf? || g.node.Leaf? {
      DecidedConstant(f, g);
    }
  }

  /** The path of the assignment meets a decided pair within d branchings; a negative d is no limit. */
  ghost predicate Finishes(perm: seq<nat>, f: Edge, g: Edge, d: int, a: Assignment)
    decreases f.node, g.node
  {
    DecidedConstantAt(f, g);
    Decided(f, g) ||
    (d != 0 &&
     var i := TopVar(perm, f, g);
     Finishes(perm, Cof(f, i, i in a), Cof(g, i, i in a), d - 1, a))
  }

  /** Needed never exceeds the number of levels. */
  lemma {:induction false} NeededAtMostLevels(perm: seq<nat>, f: Edge, g: Edge)
    requires IsOrder(perm) && Bdd(perm, f) && Bdd(perm, g)
    ensures Needed(perm, f, g) <= Rank(perm, f, g)
    decreases f.node, g.node
  {
    DecidedConstantAt(f, g);
    if !Decided(f, g) {
      var i := TopVar(perm, f, g);
      SplitPair(perm, f, g);
      NeededAtMostLevels(perm, Cof(f, i, true), Cof(g, i, true));
      NeededAtMostLevels(perm, Cof(f, i, false), Cof(g, i, false));
    }
  }

  /** With the number of branchings needed, or no limit, every path finishes. */
  lemma {:induction false} NeededFinishes(perm: seq<nat>, f: Edge, g: Edge, d: int, a: Assignment)
    requires Enough(d, Needed(perm, f, g))
    ensures Finishes(perm, f, g, d, a)
    decreases f.node, g.node
  {
    DecidedConstantAt(f, g);
    if !Decided(f, g) {
      var i := TopVar(perm, f, g);
      NeededFinishes(perm, Cof(f, i, i in a), Cof(g, i, i in a), d - 1, a);
    }
  }

  /** And only then. */
  lemma {:induction false} FinishesNeeded(perm: seq<nat>, f: Edge, g: Edge, d: int)
    requires IsOrder(perm) && Bdd(perm, f) && Bdd(perm, g)
    requires forall a: Assignment :: Finishes(perm, f, g, d, a)
    ensures Enough(d, Needed(perm, f, g))
    decreases f.node, g.node
  {
    hide Eval, Decided;
    DecidedConstantAt(f, g);
    if !Decided(f, g) && d >= 0 {
      var i, rest := TopVar(perm, f, g), d - 1;
      SplitPair(perm, f, g);
      assert Finishes(perm, f, g, d, iset{});
      forall a: Assignment
        ensures Finishes(perm, Cof(f, i, true), Cof(g, i, true), rest, a)
        ensures Finishes(perm, Cof(f, i, false), Cof(g, i, false), rest, a)
      {
        assert Finishes(perm, f, g, d, With(a, i, true)) && Finishes(perm, f, g, d, With(a, i, false));
        FinishesIgnores(perm, Cof(f, i, true), Cof(g, i, true), rest, a, i, true);
        FinishesIgnores(perm, Cof(f, i, false), Cof(g, i, false), rest, a, i, false);
      }
      FinishesNeeded(perm, Cof(f, i, true), Cof(g, i, true), rest);
      FinishesNeeded(perm, Cof(f, i, false), Cof(g, i, false), rest);
    }
  }

  /** A path does not look at variables above its operands. */
  lemma {:induction false} FinishesIgnores(
    perm: seq<nat>, f: Edge, g: Edge, d: int, a: Assignment, i: nat, b: bool)
    requires IsOrder(perm) && Bdd(perm, f) && Bdd(perm, g) && i < |perm|
    requires perm[i] < Top(perm, f.node) && perm[i] < Top(perm, g.node)
    ensures Finishes(perm, f, g, d, With(a, i, b)) == Finishes(perm, f, g, d, a)
    decreases f.node, g.node
  {
    hide Decided;
    DecidedConstantAt(f, g);
    if !Decided(f, g) && d != 0 {
      var j := TopVar(perm, f, g);
      SplitPair(perm, f, g);
      FinishesIgnores(perm, Cof(f, j, j in a), Cof(g, j, j in a), d - 1, a, i, b);
    }
  }

  lemma {:induction false} PairsSymmetric(perm: seq<nat>, f: Edge, g: Edge)
    requires IsOrder(perm) && Bdd(perm, f) && Bdd(perm, g)
    ensures Needed(perm, g, f) == Needed(perm, f, g)
    ensures forall d, a :: Finishes(perm, g, f, d, a) == Finishes(perm, f, g, d, a)
    decreases f.node, g.node
  {
    DecidedSymmetric(f, g);
    DecidedConstantAt(f, g);
    if !Decided(f, g) {
      var i := TopVar(perm, f, g);
      SplitPair(perm, f, g);
      PairsSymmetric(perm, Cof(f, i, true), Cof(g, i, true));
      PairsSymmetric(perm, Cof(f, i, false), Cof(g, i, false));
    }
  }

  /* ---------- the conjunction without a memory ---------- */

  ghost predicate ExactAt(r: Edge, f: Edge, g: Edge, a: Assignment) {
    Eval(r, a) == (Eval(f, a) && Eval(g, a))
  }

  /** The conjunction cut off after d branchings: exact where the path finishes, and the constant on the
      chosen side everywhere else. */
  ghost predicate IsCut(perm: seq<nat>, r: Edge, f: Edge, g: Edge, d: int, over: bool) {
    forall a: Assignment ::
      Eval(r, a) == if Finishes(perm, f, g, d, a) then Eval(f, a) && Eval(g, a) else over
  }

  lemma CutBranch(
    perm: seq<nat>, i: nat, f: Edge, g: Edge, t: Edge, e: Edge, r: Edge, d: int, over: bool)
    requires IsOrder(perm) && Bdd(perm, f) && Bdd(perm, g) && f.node.Inner? && g.node.Inner?
    requires i == TopVar(perm, f, g) && d != 0 && IsBranch(r, i, t, e)
    requires IsCut(perm, t, Cof(f, i, true), Cof(g, i, true), d - 1, over)
    requires IsCut(perm, e, Cof(f, i, false), Cof(g, i, false), d - 1, over)
    ensures IsCut(perm, r, f, g, d, over)
  {
    SplitPair(perm, f, g);
    if Decided(f, g) {
      DecidedCofactors(perm, f, g, i, true);
      DecidedCofactors(perm, f, g, i, false);
    }
    hide Eval, Cof, BddNode, IsOrder, Decided;
    forall a: Assignment
      ensures Eval(r, a) == if Finishes(perm, f, g, d, a) then Eval(f, a) && Eval(g, a) else over
    {
      Shannon(f, i, a);
      Shannon(g, i, a);
    }
  }

  lemma CutSymmetric(perm: seq<nat>, f: Edge, g: Edge, d: int, over: bool)
    requires IsOrder(perm) && Bdd(perm, f) && Bdd(perm, g)
    ensures forall r :: IsCut(perm, r, g, f, d, over) ==> IsCut(perm, r, f, g, d, over)
  {
    PairsSymmetric(perm, f, g);
  }

  /** A decided pair is answered exactly at every depth, and no other pair at depth 0. */
  lemma CutHere(perm: seq<nat>, r: Edge, f: Edge, g: Edge, d: int, over: bool)
    ensures Decided(f, g) && IsAndExists(r, f, g, {}) ==> IsCut(perm, r, f, g, d, over)
    ensures !Decided(f, g) && r == (if over then ONE else ZERO) ==> IsCut(perm, r, f, g, 0, over)
  {
    AndExistsNothing(r, f, g);
    forall a: Assignment ensures Eval(ONE, a) && !Eval(ZERO, a) {
      ConstantEval(a);
    }
  }

  /* ---------- the conjunction with a memory ---------- */

  /** Exact at the given assignments for the given pairs, whatever the distance. */
  type Trust = (Edge, Edge, Assignment) -> bool

  ghost predicate Settles(sure: Trust, f: Edge, g: Edge, d: int, a: Assignment) {
    Decided(f, g) || (d != 0 && sure(f, g, a))
  }

  ghost predicate SureAt(sure: Trust, r: Edge, f: Edge, g: Edge, d: int) {
    forall a: Assignment :: Settles(sure, f, g, d, a) ==> ExactAt(r, f, g, a)
  }

  ghost predicate Symmetric(sure: Trust) {
    forall f, g, a :: sure(f, g, a) ==> sure(g, f, a)
  }

  /** Wherever the recursion from f and g meets a trusted pair, the next pair on the way of the
      assignment is decided, or trusted with some distance left. */
  ghost predicate Keeps(perm: seq<nat>, sure: Trust, f: Edge, g: Edge, d: int)
    decreases f.node, g.node
  {
    DecidedConstantAt(f, g);
    Decided(f, g) || d == 0 ||
    (var i := TopVar(perm, f, g);
     && (forall a: Assignment :: sure(f, g, a) ==> Settles(sure, Cof(f, i, i in a), Cof(g, i, i in a), d - 1, a))
     && Keeps(perm, sure, Cof(f, i, true), Cof(g, i, true), d - 1)
     && Keeps(perm, sure, Cof(f, i, false), Cof(g, i, false), d - 1))
  }

  lemma SureBranch(perm: seq<nat>, sure: Trust, i: nat, f: Edge, g: Edge, t: Edge, e: Edge, r: Edge, d: int)
    requires IsOrder(perm) && Bdd(perm, f) && Bdd(perm, g) && f.node.Inner? && g.node.Inner?
    requires i == TopVar(perm, f, g) && d != 0 && IsBranch(r, i, t, e) && Keeps(perm, sure, f, g, d)
    requires SureAt(sure, t, Cof(f, i, true), Cof(g, i, true), d - 1)
    requires SureAt(sure, e, Cof(f, i, false), Cof(g, i, false), d - 1)
    ensures SureAt(sure, r, f, g, d)
  {
    SplitPair(perm, f, g);
    if Decided(f, g) {
      DecidedCofactors(perm, f, g, i, true);
      DecidedCofactors(perm, f, g, i, false);
    }
    hide Eval, Cof, BddNode, IsOrder, Decided;
    forall a: Assignment | Settles(sure, f, g, d, a) ensures ExactAt(r, f, g, a) {
      Shannon(f, i, a);
      Shannon(g, i, a);
      assert Settles(sure, Cof(f, i, i in a), Cof(g, i, i in a), d - 1, a);
    }
  }

  lemma {:induction false} KeepsSymmetric(perm: seq<nat>, sure: Trust, f: Edge, g: Edge, d: int)
    requires IsOrder(perm) && Bdd(perm, f) && Bdd(perm, g) && Symmetric(sure) && Keeps(perm, sure, f, g, d)
    ensures Keeps(perm, sure, g, f, d)
    decreases f.node, g.node
  {
    DecidedSymmetric(f, g);
    DecidedConstantAt(f, g);
    if !Decided(f, g) && d != 0 {
      var i := TopVar(perm, f, g);
      SplitPair(perm, f, g);
      KeepsSymmetric(perm, sure, Cof(f, i, true), Cof(g, i, true), d - 1);
      KeepsSymmetric(perm, sure, Cof(f, i, false), Cof(g, i, false), d - 1);
      forall a: Assignment | sure(g, f, a)
        ensures Settles(sure, Cof(g, i, i in a), Cof(f, i, i in a), d - 1, a)
      {
        assert sure(f, g, a);
        DecidedSymmetric(Cof(f, i, i in a), Cof(g, i, i in a));
      }
    }
  }

  /* ---------- paths that no shallow visit spoils ---------- */

  ghost predicate SamePair(f: Edge, g: Edge, x: Edge, y: Edge) {
    (f == x && g == y) || (f == y && g == x)
  }

  /** Some way from f and g leads to the pair x, y after k branchings at undecided pairs. */
  ghost predicate Meets(perm: seq<nat>, f: Edge, g: Edge, k: nat, x: Edge, y: Edge)
    decreases f.node, g.node
  {
    DecidedConstantAt(f, g);
    if k == 0 then SamePair(f, g, x, y)
    else
      !Decided(f, g) &&
      var i := TopVar(perm, f, g);
      || Meets(perm, Cof(f, i, true), Cof(g, i, true), k - 1, x, y)
      || Meets(perm, Cof(f, i, false), Cof(g, i, false), k - 1, x, y)
  }

  /** The pair x, y is undecided and on the way of the assignment from f and g. */
  ghost predicate OnPath(perm: seq<nat>, f: Edge, g: Edge, a: Assignment, x: Edge, y: Edge)
    decreases f.node, g.node
  {
    DecidedConstantAt(f, g);
    !Decided(f, g) &&
    (|| SamePair(f, g, x, y)
     || var i := TopVar(perm, f, g);
        OnPath(perm, Cof(f, i, i in a), Cof(g, i, i in a), a, x, y))
  }

  /** The path of the assignment finishes within d branchings, and so does the rest of it from each of
      its pairs, wherever the recursion meets that pair with some distance left. */
  ghost predicate Unspoiled(perm: seq<nat>, f: Edge, g: Edge, d: int, a: Assignment) {
    && Finishes(perm, f, g, d, a)
    && forall k: nat, x, y ::
         OnPath(perm, f, g, a, x, y) && Meets(perm, f, g, k, x, y) && (d < 0 || k < d) ==>
         Finishes(perm, x, y, d - k, a)
  }

  /** Trusting the pairs on unspoiled paths. */
  ghost function OnUnspoiled(perm: seq<nat>, f: Edge, g: Edge, d: int): Trust {
    (x: Edge, y: Edge, a: Assignment) => OnPath(perm, f, g, a, x, y) && Unspoiled(perm, f, g, d, a)
  }

  lemma {:induction false} OnPathSymmetric(perm: seq<nat>, f: Edge, g: Edge, a: Assignment, x: Edge, y: Edge)
    requires OnPath(perm, f, g, a, x, y)
    ensures OnPath(perm, f, g, a, y, x) && !Decided(x, y)
    decreases f.node, g.node
  {
    DecidedConstantAt(f, g);
    if SamePair(f, g, x, y) {
      DecidedSymmetric(f, g);
    } else {
      var i := TopVar(perm, f, g);
      OnPathSymmetric(perm, Cof(f, i, i in a), Cof(g, i, i in a), a, x, y);
    }
  }

  /** The path goes on to the next pair. */
  lemma {:induction false} OnPathNext(perm: seq<nat>, f: Edge, g: Edge, a: Assignment, x: Edge, y: Edge)
    requires IsOrder(perm) && Bdd(perm, f) && Bdd(perm, g) && OnPath(perm, f, g, a, x, y)
    ensures x.node.Inner? && y.node.Inner?
    ensures var j := TopVar(perm, x, y);
            Decided(Cof(x, j, j in a), Cof(y, j, j in a)) ||
            OnPath(perm, f, g, a, Cof(x, j, j in a), Cof(y, j, j in a))
    decreases f.node, g.node
  {
    DecidedConstantAt(f, g);
    var i := TopVar(perm, f, g);
    SplitPair(perm, f, g);
    DecidedSymmetric(Cof(f, i, i in a), Cof(g, i, i in a));
    if !SamePair(f, g, x, y) {
      OnPathNext(perm, Cof(f, i, i in a), Cof(g, i, i in a), a, x, y);
    }
  }

  /** A way can be prolonged by one branching. */
  lemma {:induction false} MeetsNext(perm: seq<nat>, f: Edge, g: Edge, k: nat, x: Edge, y: Edge, b: bool)
    requires IsOrder(perm) && Bdd(perm, f) && Bdd(perm, g) && Meets(perm, f, g, k, x, y)
    requires !Decided(x, y) && x.node.Inner? && y.node.Inner?
    ensures var j := TopVar(perm, x, y); Meets(perm, f, g, k + 1, Cof(x, j, b), Cof(y, j, b))
    decreases f.node, g.node
  {
    hide BddNode, IsOrder, Decided;
    DecidedConstantAt(f, g);
    DecidedSymmetric(x, y);
    if !Decided(f, g) {
      var i := TopVar(perm, f, g);
      SplitPair(perm, f, g);
      if k == 0 {
        assert TopVar(perm, x, y) == i;
        assert Meets(perm, Cof(f, i, b), Cof(g, i, b), 0, Cof(x, i, b), Cof(y, i, b));
      } else if Meets(perm, Cof(f, i, true), Cof(g, i, true), k - 1, x, y) {
        MeetsNext(perm, Cof(f, i, true), Cof(g, i, true), k - 1, x, y, b);
      } else {
        MeetsNext(perm, Cof(f, i, false), Cof(g, i, false), k - 1, x, y, b);
      }
    }
  }

  /** The pairs on unspoiled paths can be trusted. */
  lemma {:induction false} UnspoiledKeeps(
    perm: seq<nat>, f0: Edge, g0: Edge, d0: int, k: nat, f: Edge, g: Edge)
    requires IsOrder(perm) && Bdd(perm, f0) && Bdd(perm, g0) && Bdd(perm, f) && Bdd(perm, g)
    requires Meets(perm, f0, g0, k, f, g) && (d0 < 0 || k <= d0)
    ensures Keeps(perm, OnUnspoiled(perm, f0, g0, d0), f, g, d0 - k)
    decreases f.node, g.node
  {
    hide BddNode, IsOrder, Decided, Unspoiled, OnPath, Meets, Settles, Finishes;
    DecidedConstantAt(f, g);
    if !Decided(f, g) && d0 - k != 0 {
      var sure := OnUnspoiled(perm, f0, g0, d0);
      var i := TopVar(perm, f, g);
      SplitPair(perm, f, g);
      MeetsNext(perm, f0, g0, k, f, g, true);
      MeetsNext(perm, f0, g0, k, f, g, false);
      UnspoiledKeeps(perm, f0, g0, d0, k + 1, Cof(f, i, true), Cof(g, i, true));
      UnspoiledKeeps(perm, f0, g0, d0, k + 1, Cof(f, i, false), Cof(g, i, false));
      forall a: Assignment | sure(f, g, a)
        ensures Settles(sure, Cof(f, i, i in a), Cof(g, i, i in a), d0 - k - 1, a)
      {
        NextSettles(perm, f0, g0, d0, k, f, g, a);
      }
    }
  }

  lemma NextSettles(
    perm: seq<nat>, f0: Edge, g0: Edge, d0: int, k: nat, f: Edge, g: Edge, a: Assignment)
    requires IsOrder(perm) && Bdd(perm, f0) && Bdd(perm, g0) && f.node.Inner? && g.node.Inner?
    requires Meets(perm, f0, g0, k, f, g) && (d0 < 0 || k < d0) && !Decided(f, g)
    requires OnPath(perm, f0, g0, a, f, g) && Unspoiled(perm, f0, g0, d0, a)
    ensures var i := TopVar(perm, f, g);
            Settles(OnUnspoiled(perm, f0, g0, d0), Cof(f, i, i in a), Cof(g, i, i in a), d0 - k - 1, a)
  {
    hide IsOrder, Bdd, Decided, Cof, OnPath, Meets;
    var i := TopVar(perm, f, g);
    assert Finishes(perm, f, g, d0 - k, a);
    assert Finishes(perm, Cof(f, i, i in a), Cof(g, i, i in a), d0 - k - 1, a);
    OnPathNext(perm, f0, g0, a, f, g);
  }

  lemma UnspoiledIsTrusted(perm: seq<nat>, f: Edge, g: Edge, d: int)
    requires IsOrder(perm) && Bdd(perm, f) && Bdd(perm, g)
    ensures Symmetric(OnUnspoiled(perm, f, g, d)) && Keeps(perm, OnUnspoiled(perm, f, g, d), f, g, d)
    ensures forall a :: Unspoiled(perm, f, g, d, a) ==> Settles(OnUnspoiled(perm, f, g, d), f, g, d, a)
  {
    var sure := OnUnspoiled(perm, f, g, d);
    forall x, y, a | sure(x, y, a) ensures sure(y, x, a) {
      OnPathSymmetric(perm, f, g, a, x, y);
    }
    UnspoiledKeeps(perm, f, g, d, 0, f, g);
  }

  /* ---------- when finishing is enough ---------- */

  /** Every undecided pair is met after one number of branchings only. */
  ghost predicate OneDepth(perm: seq<nat>, f: Edge, g: Edge) {
    forall k: nat, l: nat, x, y ::
      Meets(perm, f, g, k, x, y) && Meets(perm, f, g, l, x, y) && !Decided(x, y) ==> k == l
  }

  lemma {:induction false} PathMeets(
    perm: seq<nat>, f: Edge, g: Edge, d: int, a: Assignment, x: Edge, y: Edge) returns (k: nat)
    requires IsOrder(perm) && Bdd(perm, f) && Bdd(perm, g)
    requires OnPath(perm, f, g, a, x, y) && Finishes(perm, f, g, d, a)
    ensures Meets(perm, f, g, k, x, y) && Finishes(perm, x, y, d - k, a)
    decreases f.node, g.node
  {
    hide BddNode, IsOrder, Decided;
    DecidedConstantAt(f, g);
    if SamePair(f, g, x, y) {
      k := 0;
      PairsSymmetric(perm, f, g);
    } else {
      var i := TopVar(perm, f, g);
      SplitPair(perm, f, g);
      k := PathMeets(perm, Cof(f, i, i in a), Cof(g, i, i in a), d - 1, a, x, y);
      k := k + 1;
    }
  }

  /** Then nothing spoils a path: finishing is enough. */
  lemma OneDepthUnspoiled(perm: seq<nat>, f: Edge, g: Edge, d: int, a: Assignment)
    requires IsOrder(perm) && Bdd(perm, f) && Bdd(perm, g) && OneDepth(perm, f, g)
    ensures Unspoiled(perm, f, g, d, a) <==> Finishes(perm, f, g, d, a)
  {
    hide BddNode, IsOrder, Decided, Meets, OnPath;
    if Finishes(perm, f, g, d, a) {
      forall k: nat, x, y |
        OnPath(perm, f, g, a, x, y) && Meets(perm, f, g, k, x, y) && (d < 0 || k < d)
        ensures Finishes(perm, x, y, d - k, a)
      {
        var l := PathMeets(perm, f, g, d, a, x, y);
        OnPathSymmetric(perm, f, g, a, x, y);
      }
    }
  }

  /** With enough distance for every path, no path is spoiled. */
  lemma {:induction false} NeededAfter(perm: seq<nat>, f: Edge, g: Edge, k: nat, x: Edge, y: Edge)
    requires IsOrder(perm) && Bdd(perm, f) && Bdd(perm, g) && Meets(perm, f, g, k, x, y)
    ensures Needed(perm, x, y) + k <= Needed(perm, f, g) || Decided(x, y)
    decreases f.node, g.node
  {
    hide BddNode, IsOrder, Decided;
    DecidedConstantAt(f, g);
    if k == 0 {
      PairsSymmetric(perm, f, g);
    } else {
      var i := TopVar(perm, f, g);
      SplitPair(perm, f, g);
      if Meets(perm, Cof(f, i, true), Cof(g, i, true), k - 1, x, y) {
        NeededAfter(perm, Cof(f, i, true), Cof(g, i, true), k - 1, x, y);
      } else {
        NeededAfter(perm, Cof(f, i, false), Cof(g, i, false), k - 1, x, y);
      }
    }
  }

  lemma NeededUnspoiled(perm: seq<nat>, f: Edge, g: Edge, d: int, a: Assignment)
    requires IsOrder(perm) && Bdd(perm, f) && Bdd(perm, g) && Enough(d, Needed(perm, f, g))
    ensures Unspoiled(perm, f, g, d, a)
  {
    NeededFinishes(perm, f, g, d, a);
    forall k: nat, x, y |
      OnPath(perm, f, g, a, x, y) && Meets(perm, f, g, k, x, y) && (d < 0 || k < d)
      ensures Finishes(perm, x, y, d - k, a)
    {
      NeededAfter(perm, f, g, k, x, y);
      OnPathSymmetric(perm, f, g, a, x, y);
      NeededFinishes(perm, x, y, d - k, a);
    }
  }

  /* ---------- when it is not ---------- */

  /** x2 and x3; x2 and x4; the first again, unless x0 and not x1. */
  const P := Edge(false, Inner(2, Var(3), ZERO))
  const Q := Edge(false, Inner(2, Var(4), ZERO))
  const DETOUR := Edge(false, Inner(1, P, ZERO))
  const ROOT := Edge(false, Inner(0, DETOUR, P))
  const FIVE := [0, 1, 2, 3, 4]

  lemma NotDecided(f: Edge, g: Edge, a: Assignment, b: Assignment, c: Assignment)
    requires Eval(f, a) && !Eval(g, a) && Eval(g, b) && !Eval(f, b) && Eval(f, c) && Eval(g, c)
    ensures !Decided(f, g)
  {
    NotEval(g, c);
  }

  lemma ExampleValues(a: Assignment)
    ensures Eval(P, a) == (2 in a && 3 in a) && Eval(Q, a) == (2 in a && 4 in a)
    ensures Eval(DETOUR, a) == (1 in a && 2 in a && 3 in a)
    ensures Eval(ROOT, a) == ((0 in a ==> 1 in a) && 2 in a && 3 in a)
    ensures Eval(Var(3), a) == (3 in a) && Eval(Var(4), a) == (4 in a)
  {
    VarEval(3, a);
    VarEval(4, a);
    ConstantEval(a);
    assert EvalNode(P.node, a) == (2 in a && 3 in a);
    assert EvalNode(DETOUR.node, a) == (1 in a && 2 in a && 3 in a);
  }

  lemma ExamplePairs()
    ensures !Decided(ROOT, Q) && !Decided(DETOUR, Q) && !Decided(P, Q) && !Decided(Var(3), Var(4))
    ensures Decided(ONE, Var(4)) && Decided(ZERO, Q) && Decided(ZERO, ZERO)
  {
    var some, other, both: Assignment := iset{1, 2, 3}, iset{2, 4}, iset{1, 2, 3, 4};
    ExampleValues(some);
    ExampleValues(other);
    ExampleValues(both);
    NotDecided(ROOT, Q, some, other, both);
    NotDecided(DETOUR, Q, some, other, both);
    NotDecided(P, Q, some, other, both);
    NotDecided(Var(3), Var(4), some, other, both);
    DecidedConstant(ONE, Var(4));
    DecidedConstant(ZERO, Q);
    DecidedConstant(ZERO, ZERO);
  }

  lemma ExampleShape()
    ensures IsOrder(FIVE) && Bdd(FIVE, ROOT) && Bdd(FIVE, Q) && Bdd(FIVE, P) && Bdd(FIVE, DETOUR)
    ensures TopVar(FIVE, ROOT, Q) == 0 && TopVar(FIVE, DETOUR, Q) == 1 && TopVar(FIVE, P, Q) == 2
    ensures Cof(ROOT, 0, true) == DETOUR && Cof(ROOT, 0, false) == P
    ensures Cof(DETOUR, 1, true) == P && Cof(DETOUR, 1, false) == ZERO
    ensures Cof(P, 2, true) == Var(3) && Cof(P, 2, false) == ZERO
    ensures forall i, b :: i < 2 ==> Cof(Q, i, b) == Q
    ensures Cof(Q, 2, true) == Var(4) && Cof(Q, 2, false) == ZERO
    ensures TopVar(FIVE, Var(3), Var(4)) == 3
    ensures Cof(Var(3), 3, true) == ONE && Cof(Var(4), 3, true) == Var(4)
  {
    assert BddNode(FIVE, Var(3).node) && BddNode(FIVE, Var(4).node);
    assert BddNode(FIVE, P.node) && BddNode(FIVE, Q.node);
    assert BddNode(FIVE, DETOUR.node);
  }

  /** Finishing is not enough in general. The path of the assignment finishes within three branchings,
      over the pair P, Q with two of them left, and the conjunction is 1. The recursion meets that pair
      before, after the detour, with one branching left, and may remember the answer 0; with it the
      whole answer is 0. */
  lemma SpoiledBySharing()
    ensures IsOrder(FIVE) && Bdd(FIVE, ROOT) && Bdd(FIVE, Q)
    ensures var a: Assignment := iset{2, 3, 4};
            && Finishes(FIVE, ROOT, Q, 3, a) && Eval(ROOT, a) && Eval(Q, a)
            && OnPath(FIVE, ROOT, Q, a, P, Q) && Meets(FIVE, ROOT, Q, 2, P, Q)
            && !Unspoiled(FIVE, ROOT, Q, 3, a)
    ensures IsCut(FIVE, ZERO, P, Q, 1, false) && IsCut(FIVE, ZERO, DETOUR, Q, 2, false)
    ensures IsBranch(ZERO, 0, ZERO, ZERO)
  {
    ExampleShape();
    ExamplePairs();
    var a: Assignment := iset{2, 3, 4};
    ExampleValues(a);
    hide Decided, Eval, Cof, BddNode, TopVar;
    assert Finishes(FIVE, ONE, Var(4), 0, a);
    assert Finishes(FIVE, Var(3), Var(4), 1, a);
    assert Finishes(FIVE, P, Q, 2, a);
    assert Meets(FIVE, P, Q, 0, P, Q);
    assert Meets(FIVE, DETOUR, Q, 1, P, Q);
    assert OnPath(FIVE, P, Q, a, P, Q);
    assert !Finishes(FIVE, P, Q, 3 - 2, a) by {
      assert !Finishes(FIVE, Var(3), Var(4), 0, a);
    }
    forall c: Assignment
      ensures Finishes(FIVE, P, Q, 1, c) ==> !(Eval(P, c) && Eval(Q, c))
      ensures Finishes(FIVE, DETOUR, Q, 2, c) ==> !(Eval(DETOUR, c) && Eval(Q, c))
      ensures !Eval(ZERO, c)
    {
      ExampleValues(c);
      ConstantEval(c);
      assert !Finishes(FIVE, Var(3), Var(4), 0, c);
    }
  }

  /* ---------- the relational product ---------- */

  /** Operands whose product is a constant at once. */
  predicate Trivial(f: Edge, g: Edge) {
    f == ZERO || g == ZERO || f == Not(g) || (f == ONE && g == ONE)
  }

  /** Operands whose product is plain quantification. */
  predicate Plain(f: Edge, g: Edge) {
    f == ONE || g == ONE || f == g
  }

  ghost predicate IsProductEdge(perm: seq<nat>, r: Edge, f: Edge, g: Edge, vs: set<nat>) {
    Bdd(perm, r) && IsAndExists(r, f, g, vs)
  }

  /** Every joint path of the operands and the cube comes to an end within d branchings: at a product
      that is a constant or plain quantification, or with the cube used up and enough left for the
      conjunction. Dropping a cube variable above the operands counts as a branching. A quantified
      branching also needs enough for the disjunction of its two products, unless the first is 1. */
  ghost predicate Suffices(perm: seq<nat>, f: Edge, g: Edge, cube: Edge, d: int)
    decreases f.node, g.node, cube.node, 0
  {
    if Trivial(f, g) then true
    else if cube.node.Leaf? then Enough(d, Needed(perm, f, g))
    else if Plain(f, g) || f.node.Leaf? || g.node.Leaf? then true
    else if d == 0 then false
    else
      var top := Min(Top(perm, f.node), Top(perm, g.node));
      var i := TopVar(perm, f, g);
      var rest := cube.node.T;
      if Top(perm, cube.node) < top then Suffices(perm, f, g, rest, d - 1)
      else if Top(perm, cube.node) == top then
        && Suffices(perm, Cof(f, i, true), Cof(g, i, true), rest, d - 1)
        && forall t ::
             IsProductEdge(perm, t, Cof(f, i, true), Cof(g, i, true), CubeVars(rest.node)) && t != ONE ==>
             ElseSuffices(perm, t, Cof(f, i, false), Cof(g, i, false), rest, d - 1)
      else
        && Suffices(perm, Cof(f, i, true), Cof(g, i, true), cube, d - 1)
        && Suffices(perm, Cof(f, i, false), Cof(g, i, false), cube, d - 1)
  }

  /** Enough for the product of fe and ge and for its disjunction with t. */
  ghost predicate ElseSuffices(perm: seq<nat>, t: Edge, fe: Edge, ge: Edge, rest: Edge, d: int)
    decreases fe.node, ge.node, rest.node, 1
  {
    && Suffices(perm, fe, ge, rest, d)
    && forall e ::
         IsProductEdge(perm, e, fe, ge, CubeVars(rest.node)) ==> Enough(d, Needed(perm, Not(t), Not(e)))
  }

  /** The product cut off after d branchings, when no remembered answer is used. The branchings at cube
      variables join the two products by a cut conjunction of their complements, on the other side. */
  ghost predicate IsCutProduct(perm: seq<nat>, r: Edge, f: Edge, g: Edge, cube: Edge, d: int, over: bool)
    decreases f.node, g.node, cube.node, 2
  {
    if Trivial(f, g) then IsAndExists(r, f, g, CubeVars(cube.node))
    else if cube.node.Leaf? then IsCut(perm, r, f, g, d, over)
    else if Plain(f, g) || f.node.Leaf? || g.node.Leaf? then IsAndExists(r, f, g, CubeVars(cube.node))
    else if d == 0 then r == if over then ONE else ZERO
    else
      var top := Min(Top(perm, f.node), Top(perm, g.node));
      if Top(perm, cube.node) < top then IsCutProduct(perm, r, f, g, cube.node.T, d - 1, over)
      else if Top(perm, cube.node) == top then CutJoined(perm, r, f, g, cube, d, over)
      else CutBranched(perm, r, f, g, cube, d, over)
  }

  /** The top variable of the operands is quantified. */
  ghost predicate CutJoined(perm: seq<nat>, r: Edge, f: Edge, g: Edge, cube: Edge, d: int, over: bool)
    requires f.node.Inner? && g.node.Inner? && cube.node.Inner?
    decreases f.node, g.node, cube.node, 1
  {
    var i := TopVar(perm, f, g);
    exists t ::
      && Bdd(perm, t) && IsCutProduct(perm, t, Cof(f, i, true), Cof(g, i, true), cube.node.T, d - 1, over)
      && if t == ONE then r == ONE
         else ElseJoins(perm, r, t, Cof(f, i, false), Cof(g, i, false), cube.node.T, d - 1, over)
  }

  /** The top variable of the operands is kept. */
  ghost predicate CutBranched(perm: seq<nat>, r: Edge, f: Edge, g: Edge, cube: Edge, d: int, over: bool)
    requires f.node.Inner? && g.node.Inner? && cube.node.Inner?
    decreases f.node, g.node, cube.node, 1
  {
    var i := TopVar(perm, f, g);
    exists t, e ::
      && Bdd(perm, t) && IsCutProduct(perm, t, Cof(f, i, true), Cof(g, i, true), cube, d - 1, over)
      && Bdd(perm, e) && IsCutProduct(perm, e, Cof(f, i, false), Cof(g, i, false), cube, d - 1, over)
      && IsBranch(r, i, t, e)
  }

  /** r joins t and the cut product of fe and ge. */
  ghost predicate ElseJoins(
    perm: seq<nat>, r: Edge, t: Edge, fe: Edge, ge: Edge, rest: Edge, d: int, over: bool)
    decreases fe.node, ge.node, rest.node, 3
  {
    exists e ::
      && Bdd(perm, e) && IsCutProduct(perm, e, fe, ge, rest, d, over)
      && IsCut(perm, Not(r), Not(t), Not(e), d, !over)
  }

  /** As many branchings as there are levels below the operands and the cube suffice. */
  lemma {:induction false} LevelsSuffice(perm: seq<nat>, f: Edge, g: Edge, cube: Edge, d: int)
    requires IsOrder(perm) && Bdd(perm, f) && Bdd(perm, g) && Bdd(perm, cube) && PositiveCube(cube)
    requires Enough(d, Rank3(perm, f, g, cube))
    ensures Suffices(perm, f, g, cube, d)
    decreases f.node, g.node, cube.node
  {
    hide PositiveCube, CubeVars, IsOrder, Cof, Suffices, ElseSuffices, IsProductEdge, Needed, Top;
    if Trivial(f, g) || cube.node.Leaf? || Plain(f, g) || f.node.Leaf? || g.node.Leaf? {
      NeededAtMostLevels(perm, f, g);
      SufficesAtOnce(perm, f, g, cube, d);
    } else {
      var top := Min(Top(perm, f.node), Top(perm, g.node));
      var i := TopVar(perm, f, g);
      SplitPair(perm, f, g);
      CubeStep(perm, cube);
      hide BddNode;
      if Top(perm, cube.node) < top {
        LevelsSuffice(perm, f, g, cube.node.T, d - 1);
      } else if Top(perm, cube.node) == top {
        LevelsSuffice(perm, Cof(f, i, true), Cof(g, i, true), cube.node.T, d - 1);
        LevelsSuffice(perm, Cof(f, i, false), Cof(g, i, false), cube.node.T, d - 1);
        LevelsSufficeElse(perm, f, g, cube.node.T, d - 1);
      } else {
        LevelsSuffice(perm, Cof(f, i, true), Cof(g, i, true), cube, d - 1);
        LevelsSuffice(perm, Cof(f, i, false), Cof(g, i, false), cube, d - 1);
      }
      SufficesDeeper(perm, f, g, cube, d);
    }
  }

  lemma SufficesAtOnce(perm: seq<nat>, f: Edge, g: Edge, cube: Edge, d: int)
    requires Trivial(f, g) || cube.node.Leaf? || Plain(f, g) || f.node.Leaf? || g.node.Leaf?
    requires cube.node.Leaf? ==> Enough(d, Needed(perm, f, g))
    ensures Suffices(perm, f, g, cube, d)
  {
  }

  lemma SufficesDeeper(perm: seq<nat>, f: Edge, g: Edge, cube: Edge, d: int)
    requires f.node.Inner? && g.node.Inner? && cube.node.Inner? && d != 0
    requires var top := Min(Top(perm, f.node), Top(perm, g.node));
             var i := TopVar(perm, f, g);
             if Top(perm, cube.node) < top then Suffices(perm, f, g, cube.node.T, d - 1)
             else if Top(perm, cube.node) == top then
               && Suffices(perm, Cof(f, i, true), Cof(g, i, true), cube.node.T, d - 1)
               && forall t ::
                    IsProductEdge(perm, t, Cof(f, i, true), Cof(g, i, true), CubeVars(cube.node.T.node)) && t != ONE ==>
                    ElseSuffices(perm, t, Cof(f, i, false), Cof(g, i, false), cube.node.T, d - 1)
             else
               && Suffices(perm, Cof(f, i, true), Cof(g, i, true), cube, d - 1)
               && Suffices(perm, Cof(f, i, false), Cof(g, i, false), cube, d - 1)
    ensures Suffices(perm, f, g, cube, d)
  {
    hide IsProductEdge, ElseSuffices, CubeVars, Cof, TopVar, Top;
  }

  lemma LevelsSufficeElse(perm: seq<nat>, f: Edge, g: Edge, rest: Edge, d: int)
    requires IsOrder(perm) && Bdd(perm, f) && Bdd(perm, g) && f.node.Inner? && g.node.Inner?
    requires Enough(d, Rank(perm, f, g) - 1)
    requires Suffices(perm, Cof(f, TopVar(perm, f, g), false), Cof(g, TopVar(perm, f, g), false), rest, d)
    ensures var i := TopVar(perm, f, g);
            forall t ::
              IsProductEdge(perm, t, Cof(f, i, true), Cof(g, i, true), CubeVars(rest.node)) ==>
              ElseSuffices(perm, t, Cof(f, i, false), Cof(g, i, false), rest, d)
  {
    hide Suffices, IsProductEdge, Needed, IsOrder, BddNode, TopVar, Cof;
    JoinNeeded(perm, f, g, CubeVars(rest.node));
  }

  /** The products of the two branches start below the operands. */
  lemma JoinNeeded(perm: seq<nat>, f: Edge, g: Edge, vs: set<nat>)
    requires IsOrder(perm) && Bdd(perm, f) && Bdd(perm, g) && f.node.Inner? && g.node.Inner?
    ensures var i := TopVar(perm, f, g);
            forall t, e ::
              && IsProductEdge(perm, t, Cof(f, i, true), Cof(g, i, true), vs)
              && IsProductEdge(perm, e, Cof(f, i, false), Cof(g, i, false), vs) ==>
              Needed(perm, Not(t), Not(e)) < Rank(perm, f, g)
  {
    hide IsOrder, BddNode, Cof, TopVar, Rank, Needed, IsProductEdge;
    var i := TopVar(perm, f, g);
    SplitPair(perm, f, g);
    forall t, e |
      && IsProductEdge(perm, t, Cof(f, i, true), Cof(g, i, true), vs)
      && IsProductEdge(perm, e, Cof(f, i, false), Cof(g, i, false), vs)
      ensures Needed(perm, Not(t), Not(e)) < Rank(perm, f, g)
    {
      ProductsNeeded(perm, t, Cof(f, i, true), Cof(g, i, true), e, Cof(f, i, false), Cof(g, i, false), vs);
    }
  }

  lemma ProductsNeeded(
    perm: seq<nat>, t: Edge, ft: Edge, gt: Edge, e: Edge, fe: Edge, ge: Edge, vs: set<nat>)
    requires IsOrder(perm) && Bdd(perm, ft) && Bdd(perm, gt) && Bdd(perm, fe) && Bdd(perm, ge)
    requires IsProductEdge(perm, t, ft, gt, vs) && IsProductEdge(perm, e, fe, ge, vs)
    ensures Needed(perm, Not(t), Not(e)) <= Max(Rank(perm, ft, gt), Rank(perm, fe, ge))
  {
    hide IsOrder, BddNode, IsAndExists;
    AndExistsTop(perm, t, ft, gt, vs);
    AndExistsTop(perm, e, fe, ge, vs);
    NeededAtMostLevels(perm, Not(t), Not(e));
  }

  lemma ProductSymmetric(perm: seq<nat>, f: Edge, g: Edge, vs: set<nat>)
    ensures forall r :: IsAndExists(r, f, g, vs) <==> IsAndExists(r, g, f, vs)
    ensures forall r :: IsProductEdge(perm, r, f, g, vs) <==> IsProductEdge(perm, r, g, f, vs)
  {
    forall r ensures IsAndExists(r, f, g, vs) <==> IsAndExists(r, g, f, vs) {
      if IsAndExists(r, f, g, vs) {
        AndExistsSymmetric(r, g, f, vs);
      }
      if IsAndExists(r, g, f, vs) {
        AndExistsSymmetric(r, f, g, vs);
      }
    }
  }

  lemma {:induction false} SufficesSymmetric(perm: seq<nat>, f: Edge, g: Edge, cube: Edge, d: int)
    requires IsOrder(perm) && Bdd(perm, f) && Bdd(perm, g) && Suffices(perm, f, g, cube, d)
    ensures Suffices(perm, g, f, cube, d)
    decreases f.node, g.node, cube.node
  {
    hide IsProductEdge, IsOrder, Cof, Eval, Enough, CubeVars, TopVar, Needed;
    PairsSymmetric(perm, f, g);
    if !Trivial(f, g) && cube.node.Inner? && !Plain(f, g) && f.node.Inner? && g.node.Inner? {
      var top := Min(Top(perm, f.node), Top(perm, g.node));
      var i := TopVar(perm, f, g);
      var rest := cube.node.T;
      SplitPair(perm, f, g);
      hide BddNode;
      if Top(perm, cube.node) < top {
        SufficesSymmetric(perm, f, g, rest, d - 1);
      } else if Top(perm, cube.node) == top {
        SufficesSymmetric(perm, Cof(f, i, true), Cof(g, i, true), rest, d - 1);
        if Suffices(perm, Cof(f, i, false), Cof(g, i, false), rest, d - 1) {
          SufficesSymmetric(perm, Cof(f, i, false), Cof(g, i, false), rest, d - 1);
        }
        ProductSymmetric(perm, Cof(f, i, true), Cof(g, i, true), CubeVars(rest.node));
        ProductSymmetric(perm, Cof(f, i, false), Cof(g, i, false), CubeVars(rest.node));
      } else {
        SufficesSymmetric(perm, Cof(f, i, true), Cof(g, i, true), cube, d - 1);
        SufficesSymmetric(perm, Cof(f, i, false), Cof(g, i, false), cube, d - 1);
      }
    }
  }

  lemma {:induction false} CutProductSymmetric(
    perm: seq<nat>, r: Edge, f: Edge, g: Edge, cube: Edge, d: int, over: bool)
    requires IsOrder(perm) && Bdd(perm, f) && Bdd(perm, g) && IsCutProduct(perm, r, f, g, cube, d, over)
    ensures IsCutProduct(perm, r, g, f, cube, d, over)
    decreases f.node, g.node, cube.node, 1
  {
    hide IsAndExists, IsOrder, Cof, Eval, Enough, CubeVars, TopVar, IsCut, CutJoined, CutBranched;
    ProductSymmetric(perm, f, g, CubeVars(cube.node));
    CutSymmetric(perm, g, f, d, over);
    if !Trivial(f, g) && cube.node.Inner? && !Plain(f, g) && f.node.Inner? && g.node.Inner? && d != 0 {
      var top := Min(Top(perm, f.node), Top(perm, g.node));
      if Top(perm, cube.node) < top {
        CutProductSymmetric(perm, r, f, g, cube.node.T, d - 1, over);
      } else if Top(perm, cube.node) == top {
        CutJoinedSymmetric(perm, r, f, g, cube, d, over);
      } else {
        CutBranchedSymmetric(perm, r, f, g, cube, d, over);
      }
    }
  }

  lemma {:induction false} CutJoinedSymmetric(
    perm: seq<nat>, r: Edge, f: Edge, g: Edge, cube: Edge, d: int, over: bool)
    requires IsOrder(perm) && Bdd(perm, f) && Bdd(perm, g)
    requires f.node.Inner? && g.node.Inner? && cube.node.Inner? && CutJoined(perm, r, f, g, cube, d, over)
    ensures CutJoined(perm, r, g, f, cube, d, over)
    decreases f.node, g.node, cube.node, 0
  {
    hide IsOrder, Cof, TopVar, IsCutProduct, ElseJoins;
    PairsSymmetric(perm, f, g);
    SplitPair(perm, f, g);
    hide BddNode;
    var i, rest := TopVar(perm, f, g), cube.node.T;
    var ft, gt, fe, ge := Cof(f, i, true), Cof(g, i, true), Cof(f, i, false), Cof(g, i, false);
    var t :|
      && Bdd(perm, t) && IsCutProduct(perm, t, ft, gt, rest, d - 1, over)
      && if t == ONE then r == ONE else ElseJoins(perm, r, t, fe, ge, rest, d - 1, over);
    CutProductSymmetric(perm, t, ft, gt, rest, d - 1, over);
    if t != ONE {
      ElseJoinsSymmetric(perm, r, t, fe, ge, rest, d - 1, over);
    }
  }

  lemma {:induction false} CutBranchedSymmetric(
    perm: seq<nat>, r: Edge, f: Edge, g: Edge, cube: Edge, d: int, over: bool)
    requires IsOrder(perm) && Bdd(perm, f) && Bdd(perm, g)
    requires f.node.Inner? && g.node.Inner? && cube.node.Inner? && CutBranched(perm, r, f, g, cube, d, over)
    ensures CutBranched(perm, r, g, f, cube, d, over)
    decreases f.node, g.node, cube.node, 0
  {
    hide IsOrder, Cof, TopVar, IsCutProduct, IsBranch;
    PairsSymmetric(perm, f, g);
    SplitPair(perm, f, g);
    hide BddNode;
    var i := TopVar(perm, f, g);
    var ft, gt, fe, ge := Cof(f, i, true), Cof(g, i, true), Cof(f, i, false), Cof(g, i, false);
    var t, e :|
      && Bdd(perm, t) && IsCutProduct(perm, t, ft, gt, cube, d - 1, over)
      && Bdd(perm, e) && IsCutProduct(perm, e, fe, ge, cube, d - 1, over)
      && IsBranch(r, i, t, e);
    CutProductSymmetric(perm, t, ft, gt, cube, d - 1, over);
    CutProductSymmetric(perm, e, fe, ge, cube, d - 1, over);
  }

  lemma {:induction false} ElseJoinsSymmetric(
    perm: seq<nat>, r: Edge, t: Edge, fe: Edge, ge: Edge, rest: Edge, d: int, over: bool)
    requires IsOrder(perm) && Bdd(perm, fe) && Bdd(perm, ge) && ElseJoins(perm, r, t, fe, ge, rest, d, over)
    ensures ElseJoins(perm, r, t, ge, fe, rest, d, over)
    decreases fe.node, ge.node, rest.node, 2
  {
    hide IsCut, IsCutProduct, IsOrder, BddNode;
    var e :|
      && Bdd(perm, e) && IsCutProduct(perm, e, fe, ge, rest, d, over)
      && IsCut(perm, Not(r), Not(t), Not(e), d, !over);
    CutProductSymmetric(perm, e, fe, ge, rest, d, over);
  }

  lemma CutUnique(perm: seq<nat>, r: Edge, s: Edge, f: Edge, g: Edge, d: int, over: bool)
    requires IsOrder(perm) && Bdd(perm, r) && Bdd(perm, s)
    requires IsCut(perm, r, f, g, d, over) && IsCut(perm, s, f, g, d, over)
    ensures r == s
  {
    Canonical(perm, r, s);
  }

  /** Only one edge is the product cut off there. */
  lemma {:induction false} CutProductUnique(
    perm: seq<nat>, r: Edge, s: Edge, f: Edge, g: Edge, cube: Edge, d: int, over: bool)
    requires IsOrder(perm) && Bdd(perm, f) && Bdd(perm, g) && Bdd(perm, r) && Bdd(perm, s)
    requires IsCutProduct(perm, r, f, g, cube, d, over) && IsCutProduct(perm, s, f, g, cube, d, over)
    ensures r == s
    decreases f.node, g.node, cube.node, 1
  {
    hide IsAndExists, IsOrder, Eval, CubeVars, IsCut, CutJoined, CutBranched;
    SameProductSameEdge(perm, r, s, f, g, CubeVars(cube.node));
    if IsCut(perm, r, f, g, d, over) && IsCut(perm, s, f, g, d, over) {
      CutUnique(perm, r, s, f, g, d, over);
    }
    if !Trivial(f, g) && cube.node.Inner? && !Plain(f, g) && f.node.Inner? && g.node.Inner? && d != 0 {
      var top := Min(Top(perm, f.node), Top(perm, g.node));
      hide BddNode;
      if Top(perm, cube.node) < top {
        CutProductUnique(perm, r, s, f, g, cube.node.T, d - 1, over);
      } else if Top(perm, cube.node) == top {
        CutJoinedUnique(perm, r, s, f, g, cube, d, over);
      } else {
        CutBranchedUnique(perm, r, s, f, g, cube, d, over);
      }
    }
  }

  lemma {:induction false} CutJoinedUnique(
    perm: seq<nat>, r: Edge, s: Edge, f: Edge, g: Edge, cube: Edge, d: int, over: bool)
    requires IsOrder(perm) && Bdd(perm, f) && Bdd(perm, g) && Bdd(perm, r) && Bdd(perm, s)
    requires f.node.Inner? && g.node.Inner? && cube.node.Inner?
    requires CutJoined(perm, r, f, g, cube, d, over) && CutJoined(perm, s, f, g, cube, d, over)
    ensures r == s
    decreases f.node, g.node, cube.node, 0
  {
    hide IsOrder, Cof, TopVar, IsCutProduct, ElseJoins;
    var i := TopVar(perm, f, g);
    var rest := cube.node.T;
    var ft, gt, fe, ge := Cof(f, i, true), Cof(g, i, true), Cof(f, i, false), Cof(g, i, false);
    SplitPair(perm, f, g);
    hide BddNode;
    var t :|
      && Bdd(perm, t) && IsCutProduct(perm, t, ft, gt, rest, d - 1, over)
      && if t == ONE then r == ONE else ElseJoins(perm, r, t, fe, ge, rest, d - 1, over);
    var t' :|
      && Bdd(perm, t') && IsCutProduct(perm, t', ft, gt, rest, d - 1, over)
      && if t' == ONE then s == ONE else ElseJoins(perm, s, t', fe, ge, rest, d - 1, over);
    CutProductUnique(perm, t, t', ft, gt, rest, d - 1, over);
    if t != ONE {
      ElseJoinsUnique(perm, r, s, t, fe, ge, rest, d - 1, over);
    }
  }

  lemma {:induction false} CutBranchedUnique(
    perm: seq<nat>, r: Edge, s: Edge, f: Edge, g: Edge, cube: Edge, d: int, over: bool)
    requires IsOrder(perm) && Bdd(perm, f) && Bdd(perm, g) && Bdd(perm, r) && Bdd(perm, s)
    requires f.node.Inner? && g.node.Inner? && cube.node.Inner?
    requires CutBranched(perm, r, f, g, cube, d, over) && CutBranched(perm, s, f, g, cube, d, over)
    ensures r == s
    decreases f.node, g.node, cube.node, 0
  {
    hide IsOrder, Cof, TopVar, IsCutProduct, IsBranch;
    var i := TopVar(perm, f, g);
    var ft, gt, fe, ge := Cof(f, i, true), Cof(g, i, true), Cof(f, i, false), Cof(g, i, false);
    SplitPair(perm, f, g);
    hide BddNode;
    var t, e :|
      && Bdd(perm, t) && IsCutProduct(perm, t, ft, gt, cube, d - 1, over)
      && Bdd(perm, e) && IsCutProduct(perm, e, fe, ge, cube, d - 1, over)
      && IsBranch(r, i, t, e);
    var t', e' :|
      && Bdd(perm, t') && IsCutProduct(perm, t', ft, gt, cube, d - 1, over)
      && Bdd(perm, e') && IsCutProduct(perm, e', fe, ge, cube, d - 1, over)
      && IsBranch(s, i, t', e');
    CutProductUnique(perm, t, t', ft, gt, cube, d - 1, over);
    CutProductUnique(perm, e, e', fe, ge, cube, d - 1, over);
    BranchUnique(perm, r, s, i, t, e);
  }

  lemma {:induction false} ElseJoinsUnique(
    perm: seq<nat>, r: Edge, s: Edge, t: Edge, fe: Edge, ge: Edge, rest: Edge, d: int, over: bool)
    requires IsOrder(perm) && Bdd(perm, fe) && Bdd(perm, ge) && Bdd(perm, r) && Bdd(perm, s)
    requires ElseJoins(perm, r, t, fe, ge, rest, d, over) && ElseJoins(perm, s, t, fe, ge, rest, d, over)
    ensures r == s
    decreases fe.node, ge.node, rest.node, 2
  {
    var e :|
      && Bdd(perm, e) && IsCutProduct(perm, e, fe, ge, rest, d, over)
      && IsCut(perm, Not(r), Not(t), Not(e), d, !over);
    var e' :|
      && Bdd(perm, e') && IsCutProduct(perm, e', fe, ge, rest, d, over)
      && IsCut(perm, Not(s), Not(t), Not(e'), d, !over);
    hide IsCut, IsCutProduct, IsOrder;
    CutProductUnique(perm, e, e', fe, ge, rest, d, over);
    NotShape(perm, r);
    NotShape(perm, s);
    CutUnique(perm, Not(r), Not(s), Not(t), Not(e), d, !over);
  }

  lemma NotShape(perm: seq<nat>, r: Edge)
    requires Bdd(perm, r)
    ensures Bdd(perm, Not(r))
  {
  }

  lemma BranchUnique(perm: seq<nat>, r: Edge, s: Edge, i: nat, t: Edge, e: Edge)
    requires IsOrder(perm) && Bdd(perm, r) && Bdd(perm, s) && IsBranch(r, i, t, e) && IsBranch(s, i, t, e)
    ensures r == s
  {
    Canonical(perm, r, s);
  }

  lemma SameProductSameEdge(perm: seq<nat>, r: Edge, s: Edge, f: Edge, g: Edge, vs: set<nat>)
    requires IsOrder(perm) && Bdd(perm, r) && Bdd(perm, s)
    ensures IsAndExists(r, f, g, vs) && IsAndExists(s, f, g, vs) ==> r == s
  {
    if IsAndExists(r, f, g, vs) && IsAndExists(s, f, g, vs) {
      Canonical(perm, r, s);
    }
  }
}
