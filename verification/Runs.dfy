/** Whole runs: scripts of operations on one manager. What a script computes does not depend on the
    computed table: not on its size, hash function, resizes, flushes or earlier contents, nor on the
    order of pointers in memory. */
module Runs {
  import opened Diagrams
  import opened Semantics
  import opened ComputedTables
  import opened Managers
  import opened BddIte
  import opened BddAbs
  import opened AndAbs
  import opened Clip
  import opened Compose
  import opened Essent
  import opened Bridge

  /** Operands are numbers of earlier results, BDDs or FALSE/TRUE ADDs. The first BDDs are the
      projection functions. */
  datatype Command =
    | And(f: nat, g: nat)
    | Xor(f: nat, g: nat)
    | Ite(f: nat, g: nat, h: nat)
    | Leq(f: nat, g: nat)
    | Exist(f: nat, cube: nat)
    | Univ(f: nat, cube: nat)
    | AndExist(f: nat, g: nat, cube: nat)
    | BooleanDiff(f: nat, v: nat)
    | ComposeAt(f: nat, g: nat, v: nat)
    | VectorCompose(f: nat, vector: seq<nat>)
    | SwapVariables(f: nat, x: seq<nat>, y: seq<nat>)
    | VarMap(f: nat)
    | Essential(f: nat)
    | CommonEssential(f: nat, g: nat)
    | ToBdd(n: nat)
    | ToAdd(f: nat)
    | AddCmpl(n: nat)
    | AddIte(n: nat, p: nat, q: nat)
    | SetMap(x: seq<nat>, y: seq<nat>)
    | ClipAnd(f: nat, g: nat, distance: int, over: bool)
    | ClipAndAbstract(f: nat, g: nat, cube: nat, distance: int, over: bool)
    | Flush
    | Resize

  /** The results so far, BDDs and ADDs, and the registered variable map. */
  datatype State = State(results: seq<Edge>, adds: seq<Edge>, varMap: Option<seq<nat>>)

  /** An operand; a number without a result stands for 1. */
  function Operand(s: State, i: nat): Edge {
    if i < |s.results| then s.results[i] else ONE
  }

  function AddOperand(s: State, i: nat): Edge {
    if i < |s.adds| then s.adds[i] else ONE
  }

  predicate Variables(n: nat, x: seq<nat>, y: seq<nat>) {
    |x| == |y| && forall i :: 0 <= i < |x| ==> x[i] < n && y[i] < n
  }

  /** Commands that the engine, or the type of its arguments, refuses change nothing. */
  predicate Allowed(n: nat, s: State, c: Command) {
    match c
    case Exist(_, cube) => PositiveCube(Operand(s, cube))
    case Univ(_, cube) => PositiveCube(Operand(s, cube))
    case AndExist(_, _, cube) => PositiveCube(Operand(s, cube))
    case ComposeAt(_, _, v) => v < n
    case VectorCompose(_, vector) => |vector| == n
    case SwapVariables(_, x, y) => Variables(n, x, y)
    case SetMap(x, y) => Variables(n, x, y)
    case VarMap(_) => s.varMap.Some?
    case _ => true
  }

  function MapOf(n: nat, x: seq<nat>, y: seq<nat>): seq<nat>
    requires Variables(n, x, y)
  {
    Exchange(IdentityMap(n), x, y)
  }

  ghost function Operands(s: State, vector: seq<nat>): seq<Edge> {
    seq(|vector|, i requires 0 <= i < |vector| => Operand(s, vector[i]))
  }

  /** f implies the literal, and is not 0, of which the engine reports no essential literals. */
  ghost predicate Forces(f: Edge, l: Literal) {
    f != ZERO && Implies(f, l)
  }

  /** r is the cube of the literals that both functions force. */
  ghost predicate IsForced(n: nat, r: Edge, f: Edge, g: Edge) {
    IsCube(r) && forall l: Literal :: l.v < n ==> (l in Literals(r) <==> Forces(f, l) && Forces(g, l))
  }

  /** r is what the command promises. */
  ghost predicate Answers(n: nat, s: State, c: Command, r: Edge)
    requires Allowed(n, s, c)
  {
    match c
    case And(f, g) => IsAnd(r, Operand(s, f), Operand(s, g))
    case Xor(f, g) => IsXor(r, Operand(s, f), Operand(s, g))
    case Ite(f, g, h) => IsIte(r, Operand(s, f), Operand(s, g), Operand(s, h))
    case Leq(f, g) => r == if LessEq(Operand(s, f), Operand(s, g)) then ONE else ZERO
    case Exist(f, cube) => IsExists(r, Operand(s, f), CubeVars(Operand(s, cube).node))
    case Univ(f, cube) => IsForall(r, Operand(s, f), CubeVars(Operand(s, cube).node))
    case AndExist(f, g, cube) =>
      IsAndExists(r, Operand(s, f), Operand(s, g), CubeVars(Operand(s, cube).node))
    case BooleanDiff(f, v) => IsDifference(r, Operand(s, f), v)
    case ComposeAt(f, g, v) => IsCompose(r, Operand(s, f), Operand(s, g), v)
    case VectorCompose(f, vector) => IsSubst(r, Operand(s, f), Operands(s, vector))
    case SwapVariables(f, x, y) => IsSubst(r, Operand(s, f), Renaming(MapOf(n, x, y)))
    case VarMap(f) => IsSubst(r, Operand(s, f), Renaming(s.varMap.value))
    case Essential(f) => IsForced(n, r, Operand(s, f), Operand(s, f))
    case CommonEssential(f, g) => IsForced(n, r, Operand(s, f), Operand(s, g))
    case ToBdd(m) => IsIndicator(AddOperand(s, m).node, r)
    case ToAdd(f) => IsIndicator(r.node, Operand(s, f))
    case AddCmpl(m) => IsCmpl(r.node, AddOperand(s, m).node)
    case AddIte(m, p, q) => IsAddIte(r.node, AddOperand(s, m).node, AddOperand(s, p).node, AddOperand(s, q).node)
    case _ => false
  }

  ghost predicate Answered(n: nat, s: State, c: Command, r: Edge) {
    Allowed(n, s, c) && Answers(n, s, c, r)
  }

  predicate Silent(c: Command) {
    c.SetMap? || c.ClipAnd? || c.ClipAndAbstract? || c.Flush? || c.Resize?
  }

  /** The result is an ADD. */
  predicate GivesAdd(c: Command) {
    c.ToAdd? || c.AddCmpl? || c.AddIte?
  }

  function MapAfter(n: nat, s: State, c: Command): Option<seq<nat>> {
    if c.SetMap? && Variables(n, c.x, c.y) then Some(MapOf(n, c.x, c.y)) else s.varMap
  }

  /** What one command does to the state: no word about the computed table. An approximation gives no
      result, so that the script is deterministic. */
  ghost predicate Next(perm: seq<nat>, s: State, c: Command, t: State) {
    if Silent(c) then t == s.(varMap := MapAfter(|perm|, s, c))
    else if !Allowed(|perm|, s, c) then t == s
    else if GivesAdd(c) then
      && Extends(t.adds, s.adds) && t == s.(adds := t.adds)
      && Add(perm, t.adds[|s.adds|]) && Answers(|perm|, s, c, t.adds[|s.adds|])
    else
      && Extends(t.results, s.results) && t == s.(results := t.results)
      && Bdd(perm, t.results[|s.results|]) && Answers(|perm|, s, c, t.results[|s.results|])
  }

  /** The list has one more element. */
  ghost predicate Extends(longer: seq<Edge>, list: seq<Edge>) {
    |longer| == |list| + 1 && longer[..|list|] == list
  }

  lemma SameExtension(x: seq<Edge>, y: seq<Edge>, list: seq<Edge>)
    requires Extends(x, list) && Extends(y, list) && x[|list|] == y[|list|]
    ensures x == y
  {
    assert x == x[..|list|] + [x[|list|]] && y == y[..|list|] + [y[|list|]];
  }

  /** The states a script goes through. */
  ghost predicate IsRun(perm: seq<nat>, script: seq<Command>, states: seq<State>) {
    |states| == |script| + 1 &&
    forall k :: 0 <= k < |script| ==> Next(perm, states[k], script[k], states[k + 1])
  }

  /** What is promised of a BDD determines the edge. */
  lemma AnswerUnique(perm: seq<nat>, s: State, c: Command, r: Edge, q: Edge)
    requires IsOrder(perm) && Bdd(perm, r) && Bdd(perm, q) && !GivesAdd(c)
    requires Answered(|perm|, s, c, r) && Answered(|perm|, s, c, q)
    ensures r == q
  {
    hide Eval, IsForced, LeafAt;
    if c.Essential? {
      ForcedUnique(perm, r, q, Operand(s, c.f), Operand(s, c.f));
    } else if c.CommonEssential? {
      ForcedUnique(perm, r, q, Operand(s, c.f), Operand(s, c.g));
    } else {
      if c.ToBdd? {
        SameIndicator(AddOperand(s, c.n).node, r, q);
      } else {
        forall a: Assignment ensures Eval(r, a) == Eval(q, a) {
        }
      }
      Canonical(perm, r, q);
    }
  }

  lemma SameIndicator(n: Node, r: Edge, q: Edge)
    requires IsIndicator(n, r) && IsIndicator(n, q)
    ensures Equivalent(r, q)
  {
  }

  /** Cubes of the same literals are the same edge. */
  lemma ForcedUnique(perm: seq<nat>, r: Edge, q: Edge, f: Edge, g: Edge)
    requires IsOrder(perm) && Bdd(perm, r) && Bdd(perm, q)
    requires IsForced(|perm|, r, f, g) && IsForced(|perm|, q, f, g)
    ensures r == q
  {
    hide Forces, Eval, BddNode, IsOrder;
    LiteralsBelow(perm, r);
    LiteralsBelow(perm, q);
    assert Literals(r) == Literals(q);
    forall a: Assignment ensures Eval(r, a) == Eval(q, a) {
      CubeEval(r, a);
      CubeEval(q, a);
    }
    Canonical(perm, r, q);
  }

  /** What is promised of an ADD determines it. */
  lemma AddAnswerUnique(perm: seq<nat>, s: State, c: Command, r: Edge, q: Edge)
    requires IsOrder(perm) && Add(perm, r) && Add(perm, q) && GivesAdd(c)
    requires Answered(|perm|, s, c, r) && Answered(|perm|, s, c, q)
    ensures r == q
  {
    AddCanonical(perm, r, q);
  }

  lemma NextUnique(perm: seq<nat>, s: State, c: Command, t: State, u: State)
    requires IsOrder(perm) && Next(perm, s, c, t) && Next(perm, s, c, u)
    ensures t == u
  {
    hide Answers, Bdd, Add;
    if Allowed(|perm|, s, c) && GivesAdd(c) {
      AddAnswerUnique(perm, s, c, t.adds[|s.adds|], u.adds[|s.adds|]);
      SameExtension(t.adds, u.adds, s.adds);
    } else if Allowed(|perm|, s, c) && !Silent(c) {
      AnswerUnique(perm, s, c, t.results[|s.results|], u.results[|s.results|]);
      SameExtension(t.results, u.results, s.results);
    }
  }

  /** Two runs of a script from the same results agree step by step, whatever computed them. */
  lemma {:induction false} RunsAgree(perm: seq<nat>, script: seq<Command>, x: seq<State>, y: seq<State>, k: nat)
    requires IsOrder(perm) && IsRun(perm, script, x) && IsRun(perm, script, y)
    requires x[0] == y[0] && k < |x|
    ensures x[k] == y[k]
  {
    if k > 0 {
      RunsAgree(perm, script, x, y, k - 1);
      NextUnique(perm, x[k - 1], script[k - 1], x[k], y[k]);
    }
  }

  /** In every state of a manager, two pointers to BDDs are equal exactly when the functions are. */
  lemma Canonicity(dd: Manager, p: Ptr, q: Ptr)
    requires dd.Valid() && dd.HasBdd(p) && dd.HasBdd(q)
    ensures p == q <==> Equivalent(Fn(p), Fn(q))
  {
    hide Manager.Valid, Manager.ClipsExact, Manager.Vouched, ComputedTable.Hits;
    dd.PointerEquality(p, q);
    CanonicalIff(dd.perm, Fn(p), Fn(q));
  }

  /* ---------- running a script on a manager ---------- */

  /** The pointers a script has been given. */
  datatype Registers = Registers(bdds: seq<Ptr>, adds: seq<Ptr>)

  /** The pointers stand for the results of the state. */
  ghost predicate Holding(dd: Manager, regs: Registers, s: State)
    reads dd
  {
    && |regs.bdds| == |s.results| && |regs.adds| == |s.adds| && dd.varMap == s.varMap
    && (forall i :: 0 <= i < |regs.bdds| ==> dd.HasBdd(regs.bdds[i]) && Fn(regs.bdds[i]) == s.results[i])
    && (forall i :: 0 <= i < |regs.adds| ==>
          HasBooleanAdd(dd, regs.adds[i]) && Fn(regs.adds[i]) == s.adds[i])
  }

  ghost predicate HasBooleanAdd(dd: Manager, p: Ptr)
    reads dd`nodes
  {
    dd.HasAdd(p) && Boolean(Fn(p).node)
  }

  function PtrAt(dd: Manager, regs: Registers, i: nat): Ptr {
    if i < |regs.bdds| then regs.bdds[i] else dd.True()
  }

  function AddPtrAt(dd: Manager, regs: Registers, i: nat): Ptr {
    if i < |regs.adds| then regs.adds[i] else dd.True()
  }

  lemma AddPtrAtOperand(dd: Manager, regs: Registers, s: State, i: nat)
    requires dd.Valid() && Holding(dd, regs, s)
    ensures HasBooleanAdd(dd, AddPtrAt(dd, regs, i)) && Fn(AddPtrAt(dd, regs, i)) == AddOperand(s, i)
  {
    hide Manager.Valid, Manager.ClipsExact, Manager.Vouched, ComputedTable.Hits, LeafAt;
    if i >= |regs.adds| {
      TrueLeaf();
    }
  }

  lemma TrueLeaf()
    ensures Boolean(ONE.node) && forall perm :: Add(perm, ONE)
  {
  }

  lemma PtrAtOperand(dd: Manager, regs: Registers, s: State, i: nat)
    requires dd.Valid() && Holding(dd, regs, s)
    ensures dd.HasBdd(PtrAt(dd, regs, i)) && Fn(PtrAt(dd, regs, i)) == Operand(s, i)
  {
  }

  method Connective(dd: Manager, regs: Registers, c: Command, ghost s: State) returns (r: Outcome)
    requires dd.Valid() && Holding(dd, regs, s) && (c.And? || c.Xor? || c.Ite? || c.Leq?)
    modifies dd, dd.table, dd.table.slots
    ensures dd.Valid() && dd.Continues()
    ensures r.Null? ==> dd.Full()
    ensures r.Ok? ==> dd.HasBdd(r.ptr) && Answered(|dd.perm|, s, c, Fn(r.ptr))
  {
    hide Manager.Valid, Manager.ClipsExact, Manager.Vouched, ComputedTable.Hits, BddNode, IsAnd, IsXor, IsIte, LessEq;
    PtrAtOperand(dd, regs, s, c.f);
    PtrAtOperand(dd, regs, s, c.g);
    var f, g := PtrAt(dd, regs, c.f), PtrAt(dd, regs, c.g);
    if c.And? {
      r := BddAndRecur(dd, f, g);
    } else if c.Xor? {
      r := BddXorRecur(dd, f, g);
    } else if c.Leq? {
      var leq := BddLeq(dd, f, g);
      r := Ok(if leq then dd.True() else dd.False());
    } else {
      PtrAtOperand(dd, regs, s, c.h);
      r := BddIteRecur(dd, f, g, PtrAt(dd, regs, c.h));
    }
  }

  method Quantify(dd: Manager, regs: Registers, c: Command, ghost s: State) returns (r: Outcome, allowed: bool)
    requires dd.Valid() && Holding(dd, regs, s) && (c.Exist? || c.Univ? || c.AndExist? || c.BooleanDiff?)
    modifies dd, dd.table, dd.table.slots
    ensures dd.Valid() && dd.Continues()
    ensures allowed <==> Allowed(|dd.perm|, s, c)
    ensures allowed && r.Null? ==> dd.Full()
    ensures allowed && r.Ok? ==> dd.HasBdd(r.ptr) && Answered(|dd.perm|, s, c, Fn(r.ptr))
  {
    hide Manager.Valid, Manager.ClipsExact, Manager.Vouched, ComputedTable.Hits, BddNode, IsExists, IsForall,
      IsAndExists, IsDifference;
    hide PositiveCube, CubeVars;
    PtrAtOperand(dd, regs, s, c.f);
    var f := PtrAt(dd, regs, c.f);
    allowed := true;
    if c.BooleanDiff? {
      r := BddBooleanDiff(dd, f, c.v);
      return;
    }
    PtrAtOperand(dd, regs, s, c.cube);
    var cube := PtrAt(dd, regs, c.cube);
    allowed := CheckPositiveCube(dd, cube);
    if !allowed {
      r := Null;
    } else if c.Exist? {
      r := BddExistAbstract(dd, f, cube);
    } else if c.Univ? {
      r := BddUnivAbstract(dd, f, cube);
    } else {
      PtrAtOperand(dd, regs, s, c.g);
      r := BddAndAbstractRecur(dd, f, PtrAt(dd, regs, c.g), cube);
    }
  }

  /** The projection functions of the given variables. */
  function VarPtrs(dd: Manager, x: seq<nat>): (r: seq<Ptr>)
    requires forall i :: 0 <= i < |x| ==> x[i] < |dd.vars|
    ensures |r| == |x|
  {
    seq(|x|, i requires 0 <= i < |x| => dd.VarPtr(x[i]))
  }

  lemma VarPtrsAre(dd: Manager, x: seq<nat>)
    requires dd.Valid() && forall i :: 0 <= i < |x| ==> x[i] < |dd.vars|
    ensures AreVars(dd, VarPtrs(dd, x)) && Indices(VarPtrs(dd, x)) == x
  {
  }

  function PtrsAt(dd: Manager, regs: Registers, vector: seq<nat>): seq<Ptr> {
    seq(|vector|, i requires 0 <= i < |vector| => PtrAt(dd, regs, vector[i]))
  }

  lemma PtrsAtOperands(dd: Manager, regs: Registers, s: State, vector: seq<nat>)
    requires dd.Valid() && Holding(dd, regs, s) && |vector| == |dd.perm|
    ensures IsVector(dd, PtrsAt(dd, regs, vector)) && Fns(PtrsAt(dd, regs, vector)) == Operands(s, vector)
  {
    hide Manager.Valid, Manager.ClipsExact, Manager.Vouched, ComputedTable.Hits, BddNode;
    forall i | 0 <= i < |vector|
      ensures dd.HasBdd(PtrAt(dd, regs, vector[i])) && Fn(PtrAt(dd, regs, vector[i])) == Operand(s, vector[i])
    {
      PtrAtOperand(dd, regs, s, vector[i]);
    }
  }

  method Substitute(dd: Manager, regs: Registers, c: Command, ghost s: State) returns (r: Outcome, allowed: bool)
    requires dd.Valid() && Holding(dd, regs, s)
    requires c.ComposeAt? || c.VectorCompose? || c.SwapVariables? || c.VarMap?
    modifies dd, dd.table, dd.table.slots
    ensures dd.Valid() && dd.Continues()
    ensures allowed <==> Allowed(|dd.perm|, s, c)
    ensures allowed && r.Null? ==> dd.Full()
    ensures allowed && r.Ok? ==> dd.HasBdd(r.ptr) && Answered(|dd.perm|, s, c, Fn(r.ptr))
  {
    hide Manager.Valid, Manager.ClipsExact, Manager.Vouched, ComputedTable.Hits, BddNode, IsSubst, IsCompose,
      Exchange, Renaming, Indices, Holding;
    hide Operands, Fns;
    PtrAtOperand(dd, regs, s, c.f);
    HoldingMap(dd, regs, s);
    var f := PtrAt(dd, regs, c.f);
    r, allowed := Null, true;
    match c
    case ComposeAt(_, g, v) =>
      PtrAtOperand(dd, regs, s, g);
      if v < |dd.perm| {
        r := BddCompose(dd, f, PtrAt(dd, regs, g), v);
      } else {
        allowed := false;
      }
    case VectorCompose(_, vector) =>
      if |vector| == |dd.perm| {
        PtrsAtOperands(dd, regs, s, vector);
        r := BddVectorCompose(dd, f, PtrsAt(dd, regs, vector));
      } else {
        allowed := false;
      }
    case SwapVariables(_, x, y) =>
      if Variables(|dd.perm|, x, y) {
        VarPtrsAre(dd, x);
        VarPtrsAre(dd, y);
        r := BddSwapVariables(dd, f, VarPtrs(dd, x), VarPtrs(dd, y));
      } else {
        allowed := false;
      }
    case VarMap(_) =>
      if dd.varMap.Some? {
        r := BddVarMap(dd, f);
      } else {
        allowed := false;
      }
  }

  lemma HoldingMap(dd: Manager, regs: Registers, s: State)
    requires Holding(dd, regs, s)
    ensures dd.varMap == s.varMap
  {
  }

  /** The essential literals, and those two functions have in common. */
  method Literally(dd: Manager, regs: Registers, c: Command, ghost s: State) returns (r: Outcome)
    requires dd.Valid() && Holding(dd, regs, s) && (c.Essential? || c.CommonEssential?)
    modifies dd, dd.table, dd.table.slots
    ensures dd.Valid() && dd.Continues()
    ensures r.Null? ==> dd.Full()
    ensures r.Ok? ==> dd.HasBdd(r.ptr) && Answered(|dd.perm|, s, c, Fn(r.ptr))
  {
    hide Manager.Valid, Manager.ClipsExact, Manager.Vouched, ComputedTable.Hits, BddNode, IsForced, IsCommonLiterals,
      IsCube, Literals;
    PtrAtOperand(dd, regs, s, c.f);
    var ess :- EssentialOf(dd, PtrAt(dd, regs, c.f));
    if c.Essential? {
      return Ok(ess);
    }
    PtrAtOperand(dd, regs, s, c.g);
    r := InCommon(dd, ess, PtrAt(dd, regs, c.f), PtrAt(dd, regs, c.g));
  }

  method EssentialOf(dd: Manager, f: Ptr) returns (r: Outcome)
    requires dd.Valid() && dd.HasBdd(f)
    modifies dd, dd.table, dd.table.slots
    ensures dd.Valid() && dd.Continues()
    ensures r.Null? ==> dd.Full()
    ensures r.Ok? ==> HasLiterals(dd, r.ptr) && IsForced(|dd.perm|, Fn(r.ptr), Fn(f), Fn(f))
  {
    hide Manager.Valid, Manager.ClipsExact, Manager.Vouched, ComputedTable.Hits, BddNode, IsEssential, IsForced, IsCube;
    dd.PointerEquality(f, dd.False());
    r := FindEssentialRecur(dd, f);
    if r.Ok? {
      ForcedAlone(dd.perm, Fn(r.ptr), Fn(f));
    }
  }

  /** The essential literals of f, whose cube is given, that are essential for g too. */
  method InCommon(dd: Manager, ess: Ptr, f: Ptr, g: Ptr) returns (r: Outcome)
    requires dd.Valid() && HasLiterals(dd, ess) && dd.HasBdd(f) && dd.HasBdd(g)
    requires IsForced(|dd.perm|, Fn(ess), Fn(f), Fn(f))
    modifies dd, dd.table, dd.table.slots
    ensures dd.Valid() && dd.Continues()
    ensures r.Null? ==> dd.Full()
    ensures r.Ok? ==> dd.HasBdd(r.ptr) && IsForced(|dd.perm|, Fn(r.ptr), Fn(f), Fn(g))
  {
    hide Manager.Valid, Manager.ClipsExact, Manager.Vouched, ComputedTable.Hits, BddNode, IsForced, IsCube,
      IsCommonLiterals;
    var other :- EssentialOf(dd, g);
    var n :- LiteralSetIntersectionRecur(dd, ess, other);
    ForcedTogether(|dd.perm|, Fn(n), Fn(ess), Fn(other), Fn(f), Fn(g));
    r := Ok(n);
  }

  lemma ForcedAlone(perm: seq<nat>, r: Edge, f: Edge)
    requires if f == ZERO then r == ONE else IsEssential(perm, r, f)
    ensures IsCube(r) && IsForced(|perm|, r, f, f)
  {
    OneIsCube();
  }

  lemma ForcedTogether(n: nat, r: Edge, x: Edge, y: Edge, f: Edge, g: Edge)
    requires IsCommonLiterals(r, x, y) && IsForced(n, x, f, f) && IsForced(n, y, g, g)
    ensures IsForced(n, r, f, g)
  {
    hide Forces, IsCube, Literals;
  }

  /** Conversion to a BDD. */
  method Convert(dd: Manager, regs: Registers, c: Command, ghost s: State) returns (r: Outcome)
    requires dd.Valid() && Holding(dd, regs, s) && c.ToBdd?
    modifies dd, dd.table, dd.table.slots
    ensures dd.Valid() && dd.Continues()
    ensures r.Null? ==> dd.Full()
    ensures r.Ok? ==> dd.HasBdd(r.ptr) && Answered(|dd.perm|, s, c, Fn(r.ptr))
  {
    hide Manager.Valid, Manager.ClipsExact, Manager.Vouched, ComputedTable.Hits, BddNode, IsIndicator, Boolean;
    AddPtrAtOperand(dd, regs, s, c.n);
    r := AddBddBooleanMap(dd, AddPtrAt(dd, regs, c.n));
  }

  /** The operations whose result is an ADD. */
  method MakeAdd(dd: Manager, regs: Registers, c: Command, ghost s: State) returns (r: Outcome)
    requires dd.Valid() && Holding(dd, regs, s) && GivesAdd(c)
    modifies dd, dd.table, dd.table.slots
    ensures dd.Valid() && dd.Continues()
    ensures r.Null? ==> dd.Full()
    ensures r.Ok? ==> HasBooleanAdd(dd, r.ptr) && Answered(|dd.perm|, s, c, Fn(r.ptr))
  {
    hide Manager.Valid, Manager.ClipsExact, Manager.Vouched, ComputedTable.Hits, BddNode, AddNode, IsIndicator,
      Boolean, IsCmpl, IsAddIte, Rank3, Right;
    match c
    case ToAdd(f) =>
      PtrAtOperand(dd, regs, s, f);
      var n :- BddToAddRecur(dd, PtrAt(dd, regs, f));
      IndicatorBoolean(Fn(n).node, Operand(s, f));
      r := Ok(n);
    case AddCmpl(m) =>
      AddPtrAtOperand(dd, regs, s, m);
      var n :- AddCmplRecur(dd, AddPtrAt(dd, regs, m));
      CmplBoolean(Fn(n).node, AddOperand(s, m).node);
      r := Ok(n);
    case AddIte(m, p, q) =>
      AddPtrAtOperand(dd, regs, s, m);
      AddPtrAtOperand(dd, regs, s, p);
      AddPtrAtOperand(dd, regs, s, q);
      var n :- AddIteRecur(dd, AddPtrAt(dd, regs, m), AddPtrAt(dd, regs, p), AddPtrAt(dd, regs, q));
      IteBoolean(Fn(n).node, AddOperand(s, m).node, AddOperand(s, p).node, AddOperand(s, q).node);
      r := Ok(n);
  }

  lemma CmplBoolean(r: Node, f: Node)
    requires IsCmpl(r, f)
    ensures Boolean(r)
  {
  }

  lemma IteBoolean(r: Node, f: Node, g: Node, h: Node)
    requires IsAddIte(r, f, g, h) && Boolean(g) && Boolean(h)
    ensures Boolean(r)
  {
  }

  /** The commands that give no result. */
  method Perform(dd: Manager, regs: Registers, c: Command, ghost s: State) returns (ok: bool)
    requires dd.Valid() && Holding(dd, regs, s) && Silent(c)
    modifies dd, dd.table, dd.table.slots
    ensures dd.Valid() && old(dd.nodes) <= dd.nodes
    ensures dd.table.slots == old(dd.table.slots) || fresh(dd.table.slots)
    ensures !ok ==> dd.Full()
    ensures dd.varMap == MapAfter(|dd.perm|, s, c)
  {
    hide Manager.Valid, Manager.ClipsExact, Manager.Vouched, ComputedTable.Hits, BddNode, IsClipped, Exchange,
      Renaming, Indices, Holding;
    HoldingMap(dd, regs, s);
    ok := true;
    match c
    case SetMap(x, y) =>
      if Variables(|dd.perm|, x, y) {
        VarPtrsAre(dd, x);
        VarPtrsAre(dd, y);
        SetVarMap(dd, VarPtrs(dd, x), VarPtrs(dd, y));
      }
    case ClipAnd(f, g, distance, over) =>
      PtrAtOperand(dd, regs, s, f);
      PtrAtOperand(dd, regs, s, g);
      var r := BddClippingAnd(dd, PtrAt(dd, regs, f), PtrAt(dd, regs, g), distance, over);
      ok := r.Ok?;
    case ClipAndAbstract(f, g, cube, distance, over) =>
      PtrAtOperand(dd, regs, s, f);
      PtrAtOperand(dd, regs, s, g);
      PtrAtOperand(dd, regs, s, cube);
      var positive := CheckPositiveCube(dd, PtrAt(dd, regs, cube));
      if positive {
        var r := BddClippingAndAbstract(
          dd, PtrAt(dd, regs, f), PtrAt(dd, regs, g), PtrAt(dd, regs, cube), distance, over);
        ok := r.Ok?;
      }
    case Flush =>
      dd.FlushCache();
    case Resize =>
      dd.ResizeCache();
  }

  /** One command. The new results are the old ones, perhaps with one more. */
  method Step(dd: Manager, regs: Registers, c: Command, ghost s: State)
    returns (ok: bool, next: Registers, ghost t: State)
    requires dd.Valid() && Holding(dd, regs, s)
    modifies dd, dd.table, dd.table.slots
    ensures dd.Valid() && (dd.table.slots == old(dd.table.slots) || fresh(dd.table.slots))
    ensures !ok ==> dd.Full()
    ensures ok ==> Next(dd.perm, s, c, t) && Holding(dd, next, t)
  {
    hide Manager.Valid, Manager.ClipsExact, Manager.Vouched, ComputedTable.Hits, BddNode, AddNode, Answers, Allowed,
      Boolean, MapAfter;
    next, t, ok := regs, s, true;
    if Silent(c) {
      ok := Perform(dd, regs, c, s);
      t := s.(varMap := dd.varMap);
    } else if GivesAdd(c) {
      ok, next, t := AddStep(dd, regs, c, s);
    } else {
      var r, allowed := MakeBdd(dd, regs, c, s);
      ok := allowed ==> r.Ok?;
      if allowed && ok {
        next := regs.(bdds := regs.bdds + [r.ptr]);
        t := s.(results := s.results + [Fn(r.ptr)]);
      }
    }
  }

  method AddStep(dd: Manager, regs: Registers, c: Command, ghost s: State)
    returns (ok: bool, next: Registers, ghost t: State)
    requires dd.Valid() && Holding(dd, regs, s) && GivesAdd(c)
    modifies dd, dd.table, dd.table.slots
    ensures dd.Valid() && (dd.table.slots == old(dd.table.slots) || fresh(dd.table.slots))
    ensures !ok ==> dd.Full()
    ensures ok ==> Next(dd.perm, s, c, t) && Holding(dd, next, t)
  {
    hide Manager.Valid, Manager.ClipsExact, Manager.Vouched, ComputedTable.Hits, BddNode, AddNode, Answers, Allowed,
      Boolean;
    next, t := regs, s;
    var r := MakeAdd(dd, regs, c, s);
    ok := r.Ok?;
    if ok {
      next := regs.(adds := regs.adds + [r.ptr]);
      t := s.(adds := s.adds + [Fn(r.ptr)]);
    }
  }

  method MakeBdd(dd: Manager, regs: Registers, c: Command, ghost s: State) returns (r: Outcome, allowed: bool)
    requires dd.Valid() && Holding(dd, regs, s) && !Silent(c) && !GivesAdd(c)
    modifies dd, dd.table, dd.table.slots
    ensures dd.Valid() && dd.Continues()
    ensures allowed <==> Allowed(|dd.perm|, s, c)
    ensures allowed && r.Null? ==> dd.Full()
    ensures allowed && r.Ok? ==> dd.HasBdd(r.ptr) && Answered(|dd.perm|, s, c, Fn(r.ptr))
  {
    hide Manager.Valid, Manager.ClipsExact, Manager.Vouched, ComputedTable.Hits, BddNode, AddNode, Answers, Boolean,
      Holding;
    allowed := true;
    if c.And? || c.Xor? || c.Ite? || c.Leq? {
      r := Connective(dd, regs, c, s);
    } else if c.Exist? || c.Univ? || c.AndExist? || c.BooleanDiff? {
      r, allowed := Quantify(dd, regs, c, s);
    } else if c.Essential? || c.CommonEssential? {
      r := Literally(dd, regs, c, s);
    } else if c.ToBdd? {
      r := Convert(dd, regs, c, s);
    } else {
      r, allowed := Substitute(dd, regs, c, s);
    }
  }

  ghost function Start(n: nat, varMap: Option<seq<nat>>): State {
    State(Identity(n), [], varMap)
  }

  /** Runs a script, starting from the projection functions. It stops early only if the unique table is
      full. */
  method Run(dd: Manager, script: seq<Command>) returns (ok: bool, results: Registers, ghost states: seq<State>)
    requires dd.Valid()
    modifies dd, dd.table, dd.table.slots
    ensures dd.Valid()
    ensures !ok ==> dd.Full()
    ensures ok ==> IsRun(dd.perm, script, states) && states[0] == Start(|dd.perm|, old(dd.varMap))
    ensures ok ==> Holding(dd, results, states[|script|])
  {
    hide Manager.Valid, Manager.ClipsExact, Manager.Vouched, ComputedTable.Hits, BddNode, Next, Holding;
    results := Registers(VarPtrs(dd, seq(|dd.vars|, i => i)), []);
    states := [Start(|dd.perm|, dd.varMap)];
    StartHolds(dd);
    for k := 0 to |script|
      invariant dd.Valid() && (dd.table.slots == old(dd.table.slots) || fresh(dd.table.slots))
      invariant |states| == k + 1 && IsRun(dd.perm, script[..k], states)
      invariant states[0] == Start(|dd.perm|, old(dd.varMap))
      invariant Holding(dd, results, states[k])
    {
      ghost var t;
      ok, results, t := Step(dd, results, script[k], states[k]);
      if !ok {
        return;
      }
      states := states + [t];
    }
    assert script[..|script|] == script;
    ok := true;
  }

  lemma StartHolds(dd: Manager)
    requires dd.Valid()
    ensures Holding(dd, Registers(VarPtrs(dd, seq(|dd.vars|, i => i)), []), Start(|dd.perm|, dd.varMap))
  {
  }
}
