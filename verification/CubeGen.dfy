/** The generator that enumerates a disjoint cover of a diagram by its paths, else branch first. */
module CubeGenerators {
  import opened Diagrams
  import opened Managers
  import opened ComputedTables

  /* ---------- the cubes of a diagram ---------- */

  /** A cube gives each variable 0, 1, or 2 for don't care. */
  type Cube = seq<int>

  ghost predicate Fits(n: Node, c: Cube) {
    forall i :: i in Support(n) ==> i < |c|
  }

  lemma FitsChildren(n: Node, c: Cube)
    requires Fits(n, c) && n.Inner?
    ensures n.index < |c|
    ensures forall d: Cube :: |d| == |c| ==> Fits(n.T.node, d) && Fits(n.E.node, d)
  {
    assert n.index in Support(n) && Support(n.T.node) <= Support(n) && Support(n.E.node) <= Support(n);
  }

  /** The paths of e to 1, as cubes that extend c. */
  ghost function Cubes(e: Edge, c: Cube): (r: seq<Cube>)
    requires Fits(e.node, c)
    decreases e.node
  {
    match e.node
    case Leaf(_) => if e == ZERO then [] else [c]
    case Inner(i, _, _) =>
      FitsChildren(e.node, c);
      Cubes(Else(e), c[i := 0]) + Cubes(Then(e), c[i := 1])
  }

  ghost predicate MatchesAt(c: Cube, a: Assignment, i: nat)
    requires i < |c|
  {
    c[i] == 2 || c[i] == if i in a then 1 else 0
  }

  /** The assignment lies in the cube. */
  ghost predicate Matches(c: Cube, a: Assignment) {
    forall i :: 0 <= i < |c| ==> MatchesAt(c, a, i)
  }

  /** How many of the cubes hold the assignment. */
  ghost function Hits(cubes: seq<Cube>, a: Assignment): nat {
    if cubes == [] then 0
    else Hits(cubes[..|cubes| - 1], a) + if Matches(cubes[|cubes| - 1], a) then 1 else 0
  }

  lemma {:induction false} HitsConcat(x: seq<Cube>, y: seq<Cube>, a: Assignment)
    ensures Hits(x + y, a) == Hits(x, a) + Hits(y, a)
  {
    if y == [] {
      assert x + y == x;
    } else {
      assert (x + y)[..|x + y| - 1] == x + y[..|y| - 1];
      HitsConcat(x, y[..|y| - 1], a);
    }
  }

  lemma MatchesFixed(c: Cube, i: nat, b: bool, a: Assignment)
    requires i < |c| && c[i] == 2
    ensures Matches(c[i := if b then 1 else 0], a) <==> Matches(c, a) && (i in a <==> b)
  {
    var d := c[i := if b then 1 else 0];
    assert Matches(d, a) ==> MatchesAt(d, a, i);
    forall k | 0 <= k < |c| && k != i ensures MatchesAt(d, a, k) <==> MatchesAt(c, a, k) {}
  }

  /** Every assignment that satisfies e lies in exactly one of its cubes, the others in none. */
  lemma {:induction false} CubesPartition(perm: seq<nat>, e: Edge, c: Cube, a: Assignment)
    requires IsOrder(perm) && Bdd(perm, e) && |c| == |perm| && Fits(e.node, c)
    requires forall i :: i in Support(e.node) ==> c[i] == 2
    ensures Hits(Cubes(e, c), a) == if Matches(c, a) && Eval(e, a) then 1 else 0
    decreases e.node
  {
    match e.node
    case Leaf(_) =>
      assert Hits([], a) == 0;
    case Inner(i, t, el) =>
      SupportBelowTop(perm, t.node);
      SupportBelowTop(perm, el.node);
      CubesPartition(perm, Else(e), c[i := 0], a);
      CubesPartition(perm, Then(e), c[i := 1], a);
      HitsConcat(Cubes(Else(e), c[i := 0]), Cubes(Then(e), c[i := 1]), a);
      MatchesFixed(c, i, false, a);
      MatchesFixed(c, i, true, a);
  }

  /** A cube fixes only variables of the diagram, to 0 or 1. */
  lemma {:induction false} CubesFixSupport(e: Edge, c: Cube, k: nat)
    requires Fits(e.node, c) && k < |Cubes(e, c)|
    ensures |Cubes(e, c)[k]| == |c|
    ensures forall i :: 0 <= i < |c| ==>
              Cubes(e, c)[k][i] == c[i] || (i in Support(e.node) && Cubes(e, c)[k][i] in {0, 1})
    decreases e.node
  {
    match e.node
    case Leaf(_) =>
    case Inner(v, _, _) =>
      FitsChildren(e.node, c);
      var m := |Cubes(Else(e), c[v := 0])|;
      if k < m {
        CubesFixSupport(Else(e), c[v := 0], k);
      } else {
        CubesFixSupport(Then(e), c[v := 1], k - m);
      }
  }

  function Blank(n: nat): Cube {
    seq(n, _ => 2)
  }

  /* ---------- paths on the stack ---------- */

  function PThen(p: Ptr): Ptr
    requires p.node.kind.Internal?
  {
    PNotCond(p.node.kind.T, p.comp)
  }

  function PElse(p: Ptr): Ptr
    requires p.node.kind.Internal?
  {
    PNotCond(p.node.kind.E, p.comp)
  }

  /** Every node below n is what its diagram says, and the only constant is one. */
  ghost predicate Sound(one: DdNode, n: DdNode)
    decreases n.tree
  {
    && n.tree == TreeOf(n.kind)
    && (n.kind.Constant? ==> n == one && n.tree == ONE.node)
    && (n.kind.Internal? ==> Sound(one, n.kind.T.node) && Sound(one, n.kind.E.node))
  }

  lemma {:induction false} SoundBdd(dd: Manager, n: DdNode)
    requires dd.Valid() && n in dd.nodes && BddNode(dd.perm, n.tree)
    ensures Sound(dd.one, n)
    decreases n.tree
  {
    dd.Constants(Ptr(false, n));
    if n != dd.one {
      dd.Children(Ptr(false, n));
      SoundBdd(dd, n.kind.T.node);
      SoundBdd(dd, n.kind.E.node);
    }
  }

  ghost predicate IsStep(p: Ptr, q: Ptr) {
    p.node.kind.Internal? && (q == PThen(p) || q == PElse(p))
  }

  /** The pointers form a path of a canonical diagram. */
  ghost predicate IsPath(perm: seq<nat>, one: DdNode, stack: seq<Ptr>) {
    && |stack| > 0
    && (forall k :: 0 <= k < |stack| ==> Sound(one, stack[k].node) && Bdd(perm, Fn(stack[k])))
    && (forall k :: 0 < k < |stack| ==> IsStep(stack[k - 1], stack[k]))
  }

  /** The cube that leads along the path. */
  ghost function CubeOf(perm: seq<nat>, one: DdNode, stack: seq<Ptr>): (c: Cube)
    requires IsPath(perm, one, stack)
    ensures |c| == |perm|
  {
    var n := |stack| - 1;
    if n == 0 then Blank(|perm|)
    else
      var prev := stack[n - 1];
      assert IsStep(prev, stack[n]);
      CubeOf(perm, one, stack[..n])[prev.node.kind.index := if stack[n] == PThen(prev) then 1 else 0]
  }

  /** The cubes still to come once the last pointer of the path has been dealt with: those of the
      then branches that were passed by. */
  ghost function Pending(perm: seq<nat>, one: DdNode, stack: seq<Ptr>): (r: seq<Cube>)
    requires IsOrder(perm) && IsPath(perm, one, stack)
  {
    var n := |stack| - 1;
    if n == 0 then []
    else
      var prev := stack[n - 1];
      assert IsStep(prev, stack[n]);
      FitsBdd(perm, Then(Fn(prev)));
      (if stack[n] == PThen(prev) then []
       else Cubes(Then(Fn(prev)), CubeOf(perm, one, stack[..n])[prev.node.kind.index := 1]))
      + Pending(perm, one, stack[..n])
  }

  lemma FitsBdd(perm: seq<nat>, e: Edge)
    requires Bdd(perm, e)
    ensures forall c: Cube :: |c| == |perm| ==> Fits(e.node, c)
  {
    SupportBelowTop(perm, e.node);
  }

  /** A path fixes only variables above its end. */
  lemma {:induction false} FreeBelow(perm: seq<nat>, one: DdNode, stack: seq<Ptr>, i: nat)
    requires IsOrder(perm) && IsPath(perm, one, stack)
    requires i < |perm| && Top(perm, Fn(stack[|stack| - 1]).node) <= perm[i]
    ensures CubeOf(perm, one, stack)[i] == 2
  {
    var n := |stack| - 1;
    if n > 0 {
      assert IsStep(stack[n - 1], stack[n]);
      FreeBelow(perm, one, stack[..n], i);
    }
  }

  /** Levels increase along a path, so that it has at most one pointer per level and the constant. */
  lemma {:induction false} PathLength(perm: seq<nat>, one: DdNode, stack: seq<Ptr>)
    requires IsOrder(perm) && IsPath(perm, one, stack)
    ensures |stack| - 1 <= Top(perm, Fn(stack[|stack| - 1]).node) <= |perm|
  {
    var n := |stack| - 1;
    if n > 0 {
      assert IsStep(stack[n - 1], stack[n]);
      PathLength(perm, one, stack[..n]);
    }
  }

  /* ---------- moves on the stack ---------- */

  ghost function Work(n: Node): nat {
    match n
    case Leaf(_) => 1
    case Inner(_, t, e) => 1 + Work(t.node) + Work(e.node)
  }

  /** The size of the branches passed by. */
  ghost function PendingWork(perm: seq<nat>, one: DdNode, stack: seq<Ptr>): nat
    requires IsPath(perm, one, stack)
  {
    var n := |stack| - 1;
    if n == 0 then 0
    else
      var prev := stack[n - 1];
      assert IsStep(prev, stack[n]);
      (if stack[n] == PThen(prev) then 0 else Work(Then(Fn(prev)).node)) + PendingWork(perm, one, stack[..n])
  }

  /** The cubes below the end of the path, and those pending. */
  ghost function Ahead(perm: seq<nat>, one: DdNode, stack: seq<Ptr>): seq<Cube>
    requires IsOrder(perm) && IsPath(perm, one, stack)
  {
    var top := Fn(stack[|stack| - 1]);
    FitsBdd(perm, top);
    Cubes(top, CubeOf(perm, one, stack)) + Pending(perm, one, stack)
  }

  ghost function WorkAhead(perm: seq<nat>, one: DdNode, stack: seq<Ptr>): nat
    requires IsPath(perm, one, stack)
  {
    Work(stack[|stack| - 1].node.tree) + PendingWork(perm, one, stack)
  }

  lemma PathEnd(perm: seq<nat>, one: DdNode, stack: seq<Ptr>)
    requires IsOrder(perm) && IsPath(perm, one, stack)
    ensures |stack| > 0
    ensures |stack| == 1 ==> Pending(perm, one, stack) == [] && PendingWork(perm, one, stack) == 0
    ensures |stack| > 1 ==> IsStep(stack[|stack| - 2], stack[|stack| - 1])
  {
  }

  /** At the end of a path to 1 the cube is the path's own; a path to 0 has none. */
  lemma AtConstant(perm: seq<nat>, one: DdNode, stack: seq<Ptr>)
    requires IsOrder(perm) && IsPath(perm, one, stack)
    requires stack[|stack| - 1].node.kind.Constant?
    ensures var top := stack[|stack| - 1];
            && top.node == one
            && Ahead(perm, one, stack) ==
               (if top.comp then [] else [CubeOf(perm, one, stack)]) + Pending(perm, one, stack)
            && PendingWork(perm, one, stack) < WorkAhead(perm, one, stack)
  {
  }

  /** Going down to the else branch leaves the then branch pending. */
  lemma Descend(perm: seq<nat>, one: DdNode, stack: seq<Ptr>)
    requires IsOrder(perm) && IsPath(perm, one, stack)
    requires stack[|stack| - 1].node.kind.Internal?
    ensures var top := stack[|stack| - 1];
            var next := stack + [PElse(top)];
            && IsPath(perm, one, next)
            && top.node.kind.index < |perm|
            && CubeOf(perm, one, next) == CubeOf(perm, one, stack)[top.node.kind.index := 0]
            && Ahead(perm, one, next) == Ahead(perm, one, stack)
            && WorkAhead(perm, one, next) < WorkAhead(perm, one, stack)
  {
    hide Sound, BddNode, IsOrder, IsPath, CubeOf, Pending, PendingWork;
    PathEnd(perm, one, stack);
    var top := stack[|stack| - 1];
    Extend(perm, one, stack, PElse(top));
  }

  /** Replacing the else branch at the end by the then branch. */
  lemma FollowThen(perm: seq<nat>, one: DdNode, stack: seq<Ptr>)
    requires IsOrder(perm) && IsPath(perm, one, stack) && |stack| > 1
    requires stack[|stack| - 2].node.kind.Internal?
    requires stack[|stack| - 1] != PThen(stack[|stack| - 2])
    ensures var n := |stack| - 1;
            var prev := stack[n - 1];
            var next := stack[n := PThen(prev)];
            && IsPath(perm, one, next)
            && prev.node.kind.index < |perm|
            && CubeOf(perm, one, next) == CubeOf(perm, one, stack)[prev.node.kind.index := 1]
            && Ahead(perm, one, next) == Pending(perm, one, stack)
            && WorkAhead(perm, one, next) == PendingWork(perm, one, stack)
  {
    hide Sound, BddNode, IsOrder, IsPath, CubeOf, Pending, PendingWork, Cubes;
    var n := |stack| - 1;
    PathEnd(perm, one, stack);
    PathPrefix(perm, one, stack);
    Extend(perm, one, stack[..n], stack[n]);
    Extend(perm, one, stack[..n], PThen(stack[n - 1]));
    assert stack == stack[..n] + [stack[n]];
    assert stack[n := PThen(stack[n - 1])] == stack[..n] + [PThen(stack[n - 1])];
  }

  lemma PathPrefix(perm: seq<nat>, one: DdNode, stack: seq<Ptr>)
    requires IsPath(perm, one, stack) && |stack| > 1
    ensures IsPath(perm, one, stack[..|stack| - 1])
  {
  }

  /** A path one step longer. */
  lemma Extend(perm: seq<nat>, one: DdNode, stack: seq<Ptr>, q: Ptr)
    requires IsOrder(perm) && IsPath(perm, one, stack) && IsStep(stack[|stack| - 1], q)
    ensures var top := stack[|stack| - 1];
            var next := stack + [q];
            && IsPath(perm, one, next)
            && top.node.kind.index < |perm|
            && Fn(top).node.Inner? && Fn(top).node.index == top.node.kind.index
            && PThen(top) != PElse(top) && Fn(PThen(top)) == Then(Fn(top)) && Fn(PElse(top)) == Else(Fn(top))
            && Fits(Then(Fn(top)).node, CubeOf(perm, one, stack))
            && CubeOf(perm, one, next) ==
               CubeOf(perm, one, stack)[top.node.kind.index := if q == PThen(top) then 1 else 0]
            && Pending(perm, one, next) ==
               (if q == PThen(top) then []
                else Cubes(Then(Fn(top)), CubeOf(perm, one, stack)[top.node.kind.index := 1]))
               + Pending(perm, one, stack)
            && PendingWork(perm, one, next) ==
               (if q == PThen(top) then 0 else Work(Then(Fn(top)).node)) + PendingWork(perm, one, stack)
  {
    hide Sound, BddNode, IsOrder, Cubes, Work, IsStep;
    var top := stack[|stack| - 1];
    assert (stack + [q])[..|stack|] == stack;
    ExtendPath(perm, one, stack, q);
    FitsBdd(perm, Then(Fn(top)));
  }

  lemma ExtendPath(perm: seq<nat>, one: DdNode, stack: seq<Ptr>, q: Ptr)
    requires IsPath(perm, one, stack) && IsStep(stack[|stack| - 1], q)
    ensures IsPath(perm, one, stack + [q])
    ensures var top := stack[|stack| - 1];
            && top.node.kind.Internal? && top.node.kind.index < |perm|
            && Fn(top).node.Inner? && Fn(top).node.index == top.node.kind.index && Bdd(perm, Then(Fn(top)))
            && PThen(top) != PElse(top) && Fn(PThen(top)) == Then(Fn(top)) && Fn(PElse(top)) == Else(Fn(top))
  {
    StepDown(perm, one, stack[|stack| - 1]);
    hide Sound, BddNode;
  }

  lemma StepDown(perm: seq<nat>, one: DdNode, p: Ptr)
    requires Sound(one, p.node) && Bdd(perm, Fn(p)) && p.node.kind.Internal?
    ensures Sound(one, PThen(p).node) && Bdd(perm, Fn(PThen(p)))
    ensures Sound(one, PElse(p).node) && Bdd(perm, Fn(PElse(p)))
    ensures p.node.kind.index < |perm| && PThen(p) != PElse(p)
    ensures p.node.tree == TreeOf(p.node.kind)
  {
  }

  /** Leaving a then branch. */
  lemma Pop(perm: seq<nat>, one: DdNode, stack: seq<Ptr>)
    requires IsOrder(perm) && IsPath(perm, one, stack) && |stack| > 1
    requires stack[|stack| - 2].node.kind.Internal?
    requires stack[|stack| - 1] == PThen(stack[|stack| - 2])
    ensures var n := |stack| - 1;
            var prev := stack[n - 1];
            && IsPath(perm, one, stack[..n])
            && prev.node.kind.index < |perm|
            && CubeOf(perm, one, stack[..n]) == CubeOf(perm, one, stack)[prev.node.kind.index := 2]
            && Pending(perm, one, stack[..n]) == Pending(perm, one, stack)
            && PendingWork(perm, one, stack[..n]) == PendingWork(perm, one, stack)
  {
    var n := |stack| - 1;
    var prev := stack[n - 1];
    assert IsStep(prev, stack[n]);
    FreeBelow(perm, one, stack[..n], prev.node.kind.index);
  }

  lemma StartPath(dd: Manager, f: Ptr)
    requires dd.Valid() && dd.HasBdd(f)
    ensures IsPath(dd.perm, dd.one, [f]) && CubeOf(dd.perm, dd.one, [f]) == Blank(|dd.perm|)
    ensures Fits(Fn(f).node, Blank(|dd.perm|))
    ensures Ahead(dd.perm, dd.one, [f]) == Cubes(Fn(f), Blank(|dd.perm|))
  {
    hide Manager.Valid, Manager.ClipsExact, Manager.Vouched, ComputedTable.Hits;
    SoundBdd(dd, f.node);
    FitsBdd(dd.perm, Fn(f));
  }

  /* ---------- the generator ---------- */

  class CubeGenerator {
    ghost const perm: seq<nat>
    /** DD_TRUE of the manager. */
    const one: DdNode
    var cube: array<int>
    var stack: seq<Ptr>
    var empty: bool

    ghost predicate Valid()
      reads this, cube
    {
      && IsOrder(perm) && one.tree == ONE.node && IsPath(perm, one, stack)
      && cube.Length == |perm| && cube[..] == CubeOf(perm, one, stack)
      && |stack| <= |perm| + 1
    }

    /** The current cube, if there is one, and those that the generator has yet to produce. */
    ghost function Rest(): (r: seq<Cube>)
      reads this, cube
      ensures !empty && Valid() ==> |r| > 0 && r[0] == cube[..]
      ensures empty ==> r == []
    {
      if empty || !Valid() then [] else [cube[..]] + Pending(perm, one, stack)
    }

    /** Starts the enumeration at the first cube. */
    constructor First(dd: Manager, f: Ptr)
      requires dd.Valid() && dd.HasBdd(f)
      ensures Fits(Fn(f).node, Blank(|dd.perm|)) && Rest() == Cubes(Fn(f), Blank(|dd.perm|))
      ensures !empty ==> Valid()
      ensures fresh(cube) && cube.Length == |dd.perm|
    {
      hide Manager.Valid, Manager.ClipsExact, Manager.Vouched, ComputedTable.Hits, IsPath, CubeOf, Ahead, Cubes,
        IsOrder, BddNode, Rest;
      perm := dd.perm;
      one := dd.one;
      cube := new int[|dd.vars|](_ => 2);
      stack := [f];
      new;
      StartPath(dd, f);
      assert cube[..] == Blank(|perm|);
      Search();
    }

    /** Moves on to the next cube. */
    method Next()
      requires Valid() && !empty
      modifies this`stack, this`empty, cube
      ensures old(Rest()) == [old(cube[..])] + Rest()
      ensures !empty ==> Valid()
    {
      var more := Backtrack();
      if more {
        Search();
      } else {
        empty := true;
      }
    }

    /** Pops the stack up to a branch that has not been followed, and follows it. */
    method Backtrack() returns (more: bool)
      requires Valid()
      modifies this`stack, cube
      ensures more ==> Valid() && Ahead(perm, one, stack) == old(Pending(perm, one, stack))
      ensures more ==> WorkAhead(perm, one, stack) == old(PendingWork(perm, one, stack))
      ensures !more ==> old(Pending(perm, one, stack)) == []
    {
      hide IsPath, CubeOf, Pending, PendingWork, IsOrder, Ahead, WorkAhead;
      while true
        invariant Valid()
        invariant Pending(perm, one, stack) == old(Pending(perm, one, stack))
        invariant PendingWork(perm, one, stack) == old(PendingWork(perm, one, stack))
        decreases |stack|
      {
        PathEnd(perm, one, stack);
        if |stack| == 1 {
          return false;
        }
        var sp := |stack|;
        var top, prev := stack[sp - 1], stack[sp - 2];
        var next := PThen(prev);
        if next != top {
          FollowThen(perm, one, stack);
          ghost var before := cube[..];
          cube[prev.node.kind.index] := 1;
          assert cube[..] == before[prev.node.kind.index := 1];
          stack := stack[sp - 1 := next];
          return true;
        }
        Pop(perm, one, stack);
        ghost var before := cube[..];
        cube[prev.node.kind.index] := 2;
        assert cube[..] == before[prev.node.kind.index := 2];
        stack := stack[..sp - 1];
      }
    }

    /** Goes down to the next path that ends in 1. */
    method Search()
      requires Valid()
      modifies this`stack, this`empty, cube
      ensures Rest() == old(Ahead(perm, one, stack))
      ensures !empty ==> Valid()
    {
      hide IsPath, CubeOf, IsOrder, Ahead, WorkAhead, PendingWork, Pending, BddNode, Sound;
      while true
        invariant Valid()
        invariant Ahead(perm, one, stack) == old(Ahead(perm, one, stack))
        decreases WorkAhead(perm, one, stack)
      {
        PathEnd(perm, one, stack);
        var top := stack[|stack| - 1];
        if top.node.kind.Internal? {
          Descend(perm, one, stack);
          PathLength(perm, one, stack + [PElse(top)]);
          ghost var before := cube[..];
          cube[top.node.kind.index] := 0;
          assert cube[..] == before[top.node.kind.index := 0];
          stack := stack + [PElse(top)];
          continue;
        }
        AtConstant(perm, one, stack);
        if top == Ptr(true, one) {
          var more := Backtrack();
          if !more {
            empty := true;
            return;
          }
        } else {
          empty := false;
          return;
        }
      }
    }
  }
}
