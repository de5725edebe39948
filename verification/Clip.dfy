/** Directed approximation: conjunction and relational product with a bound on the recursion depth. */
module Clip {
  import opened Diagrams
  import opened Semantics
  import opened ComputedTables
  import opened Cuts
  import opened Managers
  import opened BddIte
  import opened BddAbs

  /** An approximation of f and g from above when over, from below otherwise, whatever the distance
      left. It is the conjunction itself when one implication test decides it, and when the distance is
      enough for the operands and every remembered approximation is exact; then this remains so. When it
      is not enough, the value is still exact on every path that finishes and that no shallower visit
      spoils. Without a remembered answer it is exact on every path that finishes, and the constant on
      the chosen side on every other. */
  method BddClippingAnd(dd: Manager, f: Ptr, g: Ptr, maxDepth: int, over: bool) returns (r: Outcome)
    requires dd.Valid() && dd.HasBdd(f) && dd.HasBdd(g)
    modifies dd, dd.table, dd.table.slots
    ensures dd.Valid() && dd.Grows()
    ensures r.Null? ==> dd.Full()
    ensures r.Ok? ==> dd.HasBdd(r.ptr) && IsClipped(Fn(r.ptr), Fn(f), Fn(g), {}, over)
    ensures r.Ok? && Decided(Fn(f), Fn(g)) ==> IsAnd(Fn(r.ptr), Fn(f), Fn(g))
    ensures Enough(maxDepth, Needed(dd.perm, Fn(f), Fn(g))) && old(dd.ClipsExact()) ==>
              dd.ClipsExact() && (r.Ok? ==> IsAnd(Fn(r.ptr), Fn(f), Fn(g)))
    ensures r.Ok? && old(dd.ClipsExact()) ==>
              forall a :: Unspoiled(dd.perm, Fn(f), Fn(g), maxDepth, a) ==> ExactAt(Fn(r.ptr), Fn(f), Fn(g), a)
    ensures r.Ok? && dd.table.Hits() == old(dd.table.Hits()) ==>
              IsCut(dd.perm, Fn(r.ptr), Fn(f), Fn(g), maxDepth, over)
  {
    hide Manager.Valid, Manager.ClipsExact, Manager.Vouched, ComputedTable.Hits, BddNode, IsOrder;
    hide IsAndExists, IsClipped, IsAnd, IsCut, Unspoiled, Keeps, Settles;
    hide Symmetric, Decided;
    ghost var trusted := dd.ClipsExact();
    ghost var exact := Enough(maxDepth, Needed(dd.perm, Fn(f), Fn(g))) && trusted;
    dd.SetTrust(OnUnspoiled(dd.perm, Fn(f), Fn(g), maxDepth));
    UnspoiledIsTrusted(dd.perm, Fn(f), Fn(g), maxDepth);
    TrustExact(dd);
    r := BddClippingAndRecur(dd, f, g, maxDepth, over, exact, trusted);
    if r.Ok? {
      AndExistsNothing(Fn(r.ptr), Fn(f), Fn(g));
    }
  }

  lemma TrustExact(dd: Manager)
    ensures dd.ClipsExact() ==> dd.Vouched()
  {
    if dd.ClipsExact() {
      ExactVouches(dd.table.contents, dd.sure);
    }
  }

  /** The same for the relational product: exact when every joint path of the operands and the cube ends
      within the distance, and determined when no remembered answer is used. */
  method BddClippingAndAbstract(dd: Manager, f: Ptr, g: Ptr, cube: Ptr, maxDepth: int, over: bool)
    returns (r: Outcome)
    requires dd.Valid() && dd.HasBdd(f) && dd.HasBdd(g) && HasCube(dd, cube)
    modifies dd, dd.table, dd.table.slots
    ensures dd.Valid() && dd.Grows()
    ensures r.Null? ==> dd.Full()
    ensures r.Ok? ==> dd.HasBdd(r.ptr) && IsClipped(Fn(r.ptr), Fn(f), Fn(g), CubeVars(Fn(cube).node), over)
    ensures Suffices(dd.perm, Fn(f), Fn(g), Fn(cube), maxDepth) && old(dd.ClipsExact()) ==>
              dd.ClipsExact() && (r.Ok? ==> IsAndExists(Fn(r.ptr), Fn(f), Fn(g), CubeVars(Fn(cube).node)))
    ensures r.Ok? && dd.table.Hits() == old(dd.table.Hits()) ==>
              IsCutProduct(dd.perm, Fn(r.ptr), Fn(f), Fn(g), Fn(cube), maxDepth, over)
  {
    hide Manager.Valid, Manager.ClipsExact, Manager.Vouched, ComputedTable.Hits, BddNode, IsOrder;
    hide IsAndExists, IsClipped, PositiveCube, CubeVars, Suffices, IsCutProduct;
    ghost var exact := Suffices(dd.perm, Fn(f), Fn(g), Fn(cube), maxDepth) && dd.ClipsExact();
    r := BddClipAndAbsRecur(dd, f, g, cube, maxDepth, over, exact);
  }

  /* ---------- the conjunction ---------- */

  /** What the recursion promises of its result. */
  ghost predicate ClippedAnd(
    perm: seq<nat>, sure: Trust, r: Edge, f: Edge, g: Edge, d: int, over: bool, exact: bool, trusted: bool,
    quiet: bool)
  {
    && Below(perm, r, f, g)
    && Approximates(r, f, g, {}, over, exact || Decided(f, g))
    && (trusted ==> SureAt(sure, r, f, g, d))
    && (quiet ==> IsCut(perm, r, f, g, d, over))
  }

  /** What it keeps of the memory. */
  twostate predicate Kept(dd: Manager, exact: bool, trusted: bool)
    reads dd, dd.table, dd.table.slots
  {
    && dd.Grows() && dd.sure == old(dd.sure)
    && (exact ==> dd.ClipsExact()) && (trusted ==> dd.Vouched())
  }

  /** The recursive step; exact says that the distance is enough and the memory exact, trusted that the
      memory can be trusted where the manager says so. */
  method BddClippingAndRecur(
    dd: Manager, f0: Ptr, g0: Ptr, distance: int, over: bool, ghost exact: bool, ghost trusted: bool)
    returns (r: Outcome)
    requires dd.Valid() && dd.HasBdd(f0) && dd.HasBdd(g0)
    requires exact ==> Enough(distance, Needed(dd.perm, Fn(f0), Fn(g0))) && dd.ClipsExact()
    requires trusted ==> Symmetric(dd.sure) && Keeps(dd.perm, dd.sure, Fn(f0), Fn(g0), distance) && dd.Vouched()
    modifies dd, dd.table, dd.table.slots
    ensures dd.Valid() && Kept(dd, exact, trusted)
    ensures r.Null? ==> dd.Full()
    ensures r.Ok? ==>
              && dd.HasBdd(r.ptr)
              && ClippedAnd(dd.perm, dd.sure, Fn(r.ptr), Fn(f0), Fn(g0), distance, over, exact, trusted,
                            dd.table.Hits() == old(dd.table.Hits()))
    decreases Rank(dd.perm, Fn(f0), Fn(g0)), 1
  {
    hide Manager.Valid, Manager.ClipsExact, Manager.Vouched, ComputedTable.Hits, BddNode, IsOrder;
    hide ClippedAnd, Symmetric, Keeps, Needed, Enough, Rank;
    hide Decided, Min, Approximates, IsCut, SureAt;
    var done := ClippingTerminal(dd, f0, g0, distance, over, exact, trusted);
    if done.Some? {
      LessQuiet(dd.perm, dd.sure, Fn(done.value), Fn(f0), Fn(g0), distance, over, exact, trusted, true,
                dd.table.Hits() == old(dd.table.Hits()));
      return Ok(done.value);
    }
    var f, g := f0, g0;
    ClippedAndSymmetric(dd, f, g, distance, over, exact, trusted);
    if * {
      f, g := g, f;
    }
    if * {
      var hit := RecallAnd(dd, f, g, distance, over, exact, trusted);
      if hit.Some? {
        return Ok(hit.value);
      }
    }
    ghost var hits := dd.table.Hits();
    var b :- ClippingAndSplit(dd, f, g, distance, over, exact, trusted);
    ghost var quiet := dd.table.Hits() == old(dd.table.Hits());
    LessQuiet(dd.perm, dd.sure, Fn(b), Fn(f), Fn(g), distance, over, exact, trusted,
              dd.table.Hits() == hits, quiet);
    LessQuiet(dd.perm, dd.sure, Fn(b), Fn(f), Fn(g), distance, over, exact, trusted, quiet, false);
    if * {
      RememberAnd(dd, f, g, distance, over, b, exact, trusted);
    }
    r := Ok(b);
  }

  lemma LessQuiet(
    perm: seq<nat>, sure: Trust, r: Edge, f: Edge, g: Edge, d: int, over: bool, exact: bool, trusted: bool,
    quiet: bool, less: bool)
    requires ClippedAnd(perm, sure, r, f, g, d, over, exact, trusted, quiet) && (less ==> quiet)
    ensures ClippedAnd(perm, sure, r, f, g, d, over, exact, trusted, less)
  {
  }

  /** Nothing depends on which operand comes first. */
  lemma ClippedAndSymmetric(dd: Manager, f: Ptr, g: Ptr, d: int, over: bool, exact: bool, trusted: bool)
    requires dd.Valid() && dd.HasBdd(f) && dd.HasBdd(g)
    requires trusted ==> Symmetric(dd.sure) && Keeps(dd.perm, dd.sure, Fn(f), Fn(g), d)
    ensures Rank(dd.perm, Fn(f), Fn(g)) == Rank(dd.perm, Fn(g), Fn(f))
    ensures Needed(dd.perm, Fn(f), Fn(g)) == Needed(dd.perm, Fn(g), Fn(f))
    ensures trusted ==> Keeps(dd.perm, dd.sure, Fn(g), Fn(f), d)
    ensures forall r, quiet ::
              ClippedAnd(dd.perm, dd.sure, r, Fn(g), Fn(f), d, over, exact, trusted, quiet) ==>
              ClippedAnd(dd.perm, dd.sure, r, Fn(f), Fn(g), d, over, exact, trusted, quiet)
  {
    hide Manager.Valid, BddNode, IsOrder, Approximates, IsCut, Keeps, Needed, ExactAt;
    PairsSymmetric(dd.perm, Fn(f), Fn(g));
    CutSymmetric(dd.perm, Fn(f), Fn(g), d, over);
    DecidedSymmetric(Fn(f), Fn(g));
    ApproximateSymmetric(Fn(f), Fn(g), {}, over, exact || Decided(Fn(f), Fn(g)));
    if trusted {
      KeepsSymmetric(dd.perm, dd.sure, Fn(f), Fn(g), d);
      forall r | SureAt(dd.sure, r, Fn(g), Fn(f), d) ensures SureAt(dd.sure, r, Fn(f), Fn(g), d) {
        SureSymmetric(dd.sure, r, Fn(f), Fn(g), d);
      }
    }
  }

  lemma SureSymmetric(sure: Trust, r: Edge, f: Edge, g: Edge, d: int)
    requires Symmetric(sure) && SureAt(sure, r, g, f, d)
    ensures SureAt(sure, r, f, g, d)
  {
    DecidedSymmetric(f, g);
    hide Decided;
    forall a: Assignment | Settles(sure, f, g, d, a) ensures ExactAt(r, f, g, a) {
      assert Settles(sure, g, f, d, a);
    }
  }

  /** A remembered answer, possibly of another distance. */
  method RecallAnd(
    dd: Manager, f: Ptr, g: Ptr, ghost distance: int, over: bool, ghost exact: bool, ghost trusted: bool)
    returns (hit: Option<Ptr>)
    requires dd.Valid() && (exact ==> dd.ClipsExact()) && (trusted ==> dd.Vouched())
    modifies dd.table, dd.table.slots
    ensures dd.Valid() && Kept(dd, exact, trusted)
    ensures dd.nodes == old(dd.nodes) && dd.unique == old(dd.unique)
    ensures hit.Some? ==>
              && dd.HasBdd(hit.value)
              && ClippedAnd(dd.perm, dd.sure, Fn(hit.value), Fn(f), Fn(g), distance, over, exact, trusted, false)
    ensures hit.Some? ==> dd.table.Hits() > old(dd.table.Hits())
  {
    hide Manager.Valid, Manager.ClipsExact, Manager.Vouched, ComputedTable.Hits, BddNode, IsOrder;
    hide IsClipped, Below, Decided;
    hit := dd.Lookup(ClipAndKey(f, g, over));
    if hit.Some? {
      AndExistsNothing(Fn(hit.value), Fn(f), Fn(g));
      hide IsAndExists, IsAnd;
      if trusted {
        assert VouchesFor(ClipAndKey(f, g, over), Fn(hit.value), dd.sure);
        DecidedExact(dd.sure, Fn(hit.value), Fn(f), Fn(g), distance);
      }
    }
  }

  lemma DecidedExact(sure: Trust, r: Edge, f: Edge, g: Edge, d: int)
    requires Decided(f, g) ==> IsAnd(r, f, g)
    requires forall a: Assignment :: sure(f, g, a) ==> ExactAt(r, f, g, a)
    ensures SureAt(sure, r, f, g, d)
  {
  }

  method RememberAnd(
    dd: Manager, f: Ptr, g: Ptr, ghost distance: int, over: bool, b: Ptr, ghost exact: bool, ghost trusted: bool)
    requires dd.Valid() && dd.HasBdd(b) && distance != 0
    requires ClippedAnd(dd.perm, dd.sure, Fn(b), Fn(f), Fn(g), distance, over, exact, trusted, false)
    requires (exact ==> dd.ClipsExact()) && (trusted ==> dd.Vouched())
    modifies dd.table, dd.table.slots
    ensures dd.Valid() && Kept(dd, exact, trusted)
    ensures dd.nodes == old(dd.nodes) && dd.unique == old(dd.unique)
    ensures dd.table.Hits() == old(dd.table.Hits())
  {
    hide Manager.Valid, Manager.ClipsExact, Manager.Vouched, ComputedTable.Hits, BddNode, IsOrder;
    hide IsClipped, Below, Decided;
    AndExistsNothing(Fn(b), Fn(f), Fn(g));
    hide IsAndExists, IsAnd;
    if trusted {
      assert VouchesFor(ClipAndKey(f, g, over), Fn(b), dd.sure) by {
        forall a: Assignment | dd.sure(Fn(f), Fn(g), a) ensures ExactAt(Fn(b), Fn(f), Fn(g), a) {
          assert Settles(dd.sure, Fn(f), Fn(g), distance, a);
        }
      }
    }
    dd.Insert(ClipAndKey(f, g, over), b);
  }

  /** Constant, equal and complementary operands, and the depth limit. */
  method ClippingTerminal(
    dd: Manager, f: Ptr, g: Ptr, distance: int, over: bool, ghost exact: bool, ghost trusted: bool)
    returns (done: Option<Ptr>)
    requires dd.Valid() && dd.HasBdd(f) && dd.HasBdd(g)
    requires exact ==> Enough(distance, Needed(dd.perm, Fn(f), Fn(g))) && dd.ClipsExact()
    requires trusted ==> dd.Vouched()
    modifies dd.table, dd.table.slots
    ensures dd.Valid() && Kept(dd, exact, trusted)
    ensures dd.nodes == old(dd.nodes) && dd.unique == old(dd.unique)
    ensures done.Some? ==>
              && dd.HasBdd(done.value)
              && ClippedAnd(dd.perm, dd.sure, Fn(done.value), Fn(f), Fn(g), distance, over, exact, trusted, true)
    ensures done.None? ==> f.node != dd.one && g.node != dd.one && distance != 0
    ensures done.None? ==> dd.table.Hits() == old(dd.table.Hits())
  {
    hide Manager.Valid, Manager.ClipsExact, Manager.Vouched, ComputedTable.Hits, BddNode, IsOrder;
    hide ClippedAnd, LessEq, IsAnd, Needed, Decided;
    dd.Constants(f);
    dd.Constants(g);
    TerminalAnd(Fn(f), Fn(g));
    if f == dd.False() || g == dd.False() || f == PNot(g) {
      ClippedExactly(dd.perm, dd.sure, ZERO, Fn(f), Fn(g), distance, over, exact, trusted);
      done := Some(dd.False());
    } else if f == g || g == dd.True() {
      ClippedExactly(dd.perm, dd.sure, Fn(f), Fn(f), Fn(g), distance, over, exact, trusted);
      done := Some(f);
    } else if f == dd.True() {
      ClippedExactly(dd.perm, dd.sure, Fn(g), Fn(f), Fn(g), distance, over, exact, trusted);
      done := Some(g);
    } else if distance == 0 {
      var p := ClippingLimit(dd, f, g, over);
      if Decided(Fn(f), Fn(g)) {
        ClippedExactly(dd.perm, dd.sure, Fn(p), Fn(f), Fn(g), distance, over, exact, trusted);
      } else {
        ClippedAtZero(dd.perm, dd.sure, Fn(p), Fn(f), Fn(g), over, exact, trusted);
      }
      done := Some(p);
    } else {
      done := None;
    }
  }

  /** The conjunctions that need no recursion. */
  lemma TerminalAnd(f: Edge, g: Edge)
    ensures f == ZERO || g == ZERO || f == Not(g) ==> IsAnd(ZERO, f, g) && Decided(f, g)
    ensures f == g || g == ONE ==> IsAnd(f, f, g) && Decided(f, g)
    ensures f == ONE ==> IsAnd(g, f, g) && Decided(f, g)
  {
    AndConstant(f);
    AndConstant(g);
    if f.node.Leaf? || g.node.Leaf? {
      DecidedConstant(f, g);
    }
    assert f == Not(g) ==> LessEq(f, Not(g));
    assert f == g ==> LessEq(f, g);
  }

  /** An exact answer is all that can be asked for. */
  lemma ClippedExactly(
    perm: seq<nat>, sure: Trust, r: Edge, f: Edge, g: Edge, d: int, over: bool, exact: bool, trusted: bool)
    requires IsAnd(r, f, g) && Decided(f, g) && Below(perm, r, f, g)
    ensures ClippedAnd(perm, sure, r, f, g, d, over, exact, trusted, true)
  {
    AndExistsNothing(r, f, g);
    CutHere(perm, r, f, g, d, over);
    BothSides(r, f, g, {}, over);
  }

  /** At depth 0 an undecided pair gets the constant. */
  lemma ClippedAtZero(
    perm: seq<nat>, sure: Trust, r: Edge, f: Edge, g: Edge, over: bool, exact: bool, trusted: bool)
    requires !Decided(f, g) && r == (if over then ONE else ZERO) && Below(perm, r, f, g)
    requires exact ==> Enough(0, Needed(perm, f, g))
    ensures ClippedAnd(perm, sure, r, f, g, 0, over, exact, trusted, true)
  {
    CutHere(perm, r, f, g, 0, over);
    ClippedConstant(f, g, {});
  }

  /** One last attempt at the right result, by implication tests; then the constant. */
  method ClippingLimit(dd: Manager, f: Ptr, g: Ptr, over: bool) returns (p: Ptr)
    requires dd.Valid() && dd.HasBdd(f) && dd.HasBdd(g)
    modifies dd.table, dd.table.slots
    ensures dd.Valid() && dd.Continues() && dd.nodes == old(dd.nodes) && dd.unique == old(dd.unique)
    ensures dd.HasBdd(p) && Below(dd.perm, Fn(p), Fn(f), Fn(g))
    ensures if Decided(Fn(f), Fn(g)) then IsAnd(Fn(p), Fn(f), Fn(g)) else Fn(p) == if over then ONE else ZERO
  {
    hide Manager.Valid, Manager.ClipsExact, Manager.Vouched, ComputedTable.Hits, BddNode, IsOrder;
    hide LessEq, IsAnd;
    dd.Constants(f);
    dd.Constants(g);
    DecidedAnd(Fn(f), Fn(g));
    var fg := BddLeq(dd, f, g);
    if fg {
      return f;
    }
    var gf := BddLeq(dd, g, f);
    if gf {
      return g;
    }
    if over {
      var disjoint := BddLeq(dd, f, PNot(g));
      if !disjoint {
        disjoint := BddLeq(dd, g, PNot(f));
      }
      if disjoint {
        return dd.False();
      }
    }
    p := PNotCond(dd.True(), !over);
  }

  lemma DecidedAnd(f: Edge, g: Edge)
    ensures LessEq(f, g) ==> IsAnd(f, f, g)
    ensures LessEq(g, f) ==> IsAnd(g, f, g)
    ensures LessEq(f, Not(g)) <==> LessEq(g, Not(f))
    ensures LessEq(f, Not(g)) ==> IsAnd(ZERO, f, g)
  {
    forall a: Assignment
      ensures Eval(Not(g), a) == !Eval(g, a) && Eval(Not(f), a) == !Eval(f, a) && !Eval(ZERO, a)
    {
      NotEval(f, a);
      NotEval(g, a);
      ConstantEval(a);
    }
    hide Eval;
  }

  method ClippingAndSplit(
    dd: Manager, f: Ptr, g: Ptr, distance: int, over: bool, ghost exact: bool, ghost trusted: bool)
    returns (r: Outcome)
    requires dd.Valid() && dd.HasBdd(f) && dd.HasBdd(g) && f.node != dd.one && g.node != dd.one && distance != 0
    requires exact ==> Enough(distance, Needed(dd.perm, Fn(f), Fn(g))) && dd.ClipsExact()
    requires trusted ==> Symmetric(dd.sure) && Keeps(dd.perm, dd.sure, Fn(f), Fn(g), distance) && dd.Vouched()
    modifies dd, dd.table, dd.table.slots
    ensures dd.Valid() && Kept(dd, exact, trusted)
    ensures r.Null? ==> dd.Full()
    ensures r.Ok? ==>
              && dd.HasBdd(r.ptr)
              && ClippedAnd(dd.perm, dd.sure, Fn(r.ptr), Fn(f), Fn(g), distance, over, exact, trusted,
                            dd.table.Hits() == old(dd.table.Hits()))
    decreases Rank(dd.perm, Fn(f), Fn(g)), 0
  {
    hide Manager.Valid, Manager.ClipsExact, Manager.Vouched, ComputedTable.Hits, BddNode, IsOrder;
    hide IsBranch, Cof, ClippedAnd, Symmetric, Keeps, Needed, Enough, Rank, TopVar;
    hide TreeOf, Min, Decided, Right;
    dd.Constants(f);
    dd.Constants(g);
    var index, ft, fe, gt, ge := dd.Split(f, g);
    TopVarAt(dd.perm, Fn(f), Fn(g), index);
    SplitDistance(dd.perm, dd.sure, Fn(f), Fn(g), distance, exact, trusted);
    var t :- BddClippingAndRecur(dd, ft, gt, distance - 1, over, exact, trusted);
    ghost var hits := dd.table.Hits();
    var e :- BddClippingAndRecur(dd, fe, ge, distance - 1, over, exact, trusted);
    ghost var quiet := dd.table.Hits() == old(dd.table.Hits());
    LessQuiet(dd.perm, dd.sure, Fn(t), Fn(ft), Fn(gt), distance - 1, over, exact, trusted,
              hits == old(dd.table.Hits()), quiet);
    LessQuiet(dd.perm, dd.sure, Fn(e), Fn(fe), Fn(ge), distance - 1, over, exact, trusted,
              dd.table.Hits() == hits, quiet);
    r := BuildClippedAnd(dd, index, f, g, t, e, distance, over, exact, trusted, quiet);
  }

  /** Joins the approximations of the two branches at the variable they were split at. */
  method BuildClippedAnd(
    dd: Manager, index: nat, f: Ptr, g: Ptr, t: Ptr, e: Ptr, ghost distance: int, ghost over: bool,
    ghost exact: bool, ghost trusted: bool, ghost quiet: bool) returns (r: Outcome)
    requires dd.Valid() && dd.HasBdd(f) && dd.HasBdd(g) && dd.HasBdd(t) && dd.HasBdd(e) && distance != 0
    requires Fn(f).node.Inner? && Fn(g).node.Inner? && index == TopVar(dd.perm, Fn(f), Fn(g))
    requires trusted ==> Keeps(dd.perm, dd.sure, Fn(f), Fn(g), distance)
    requires ClippedAnd(dd.perm, dd.sure, Fn(t), Cof(Fn(f), index, true), Cof(Fn(g), index, true),
                        distance - 1, over, exact, trusted, quiet)
    requires ClippedAnd(dd.perm, dd.sure, Fn(e), Cof(Fn(f), index, false), Cof(Fn(g), index, false),
                        distance - 1, over, exact, trusted, quiet)
    modifies dd`unique, dd`nodes
    ensures dd.Valid() && dd.Continues()
    ensures r.Null? ==> dd.Full()
    ensures r.Ok? ==>
              && dd.HasBdd(r.ptr)
              && ClippedAnd(dd.perm, dd.sure, Fn(r.ptr), Fn(f), Fn(g), distance, over, exact, trusted, quiet)
  {
    hide Manager.Valid, Manager.ClipsExact, Manager.Vouched, ComputedTable.Hits, BddNode, IsOrder;
    hide IsBranch, Cof, ClippedAnd, Keeps, TopVar;
    SplitPair(dd.perm, Fn(f), Fn(g));
    StartsBelow(dd.perm, index, dd.sure, Fn(t), Cof(Fn(f), index, true), Cof(Fn(g), index, true),
                distance - 1, over, exact, trusted, quiet);
    StartsBelow(dd.perm, index, dd.sure, Fn(e), Cof(Fn(f), index, false), Cof(Fn(g), index, false),
                distance - 1, over, exact, trusted, quiet);
    var b :- dd.Build(index, t, e);
    BuildBelow(dd, b, index, t, e);
    ClippedAndBranch(
      dd.perm, dd.sure, Fn(f), Fn(g), Fn(t), Fn(e), Fn(b), distance, over, exact, trusted, quiet);
    r := Ok(b);
  }

  lemma StartsBelow(
    perm: seq<nat>, i: nat, sure: Trust, r: Edge, f: Edge, g: Edge, d: int, over: bool, exact: bool, trusted: bool,
    quiet: bool)
    requires ClippedAnd(perm, sure, r, f, g, d, over, exact, trusted, quiet)
    requires i < |perm| && perm[i] < Top(perm, f.node) && perm[i] < Top(perm, g.node)
    ensures perm[i] < Top(perm, r.node)
  {
  }

  /** What is left for the branches. */
  lemma SplitDistance(
    perm: seq<nat>, sure: Trust, f: Edge, g: Edge, d: int, exact: bool, trusted: bool)
    requires IsOrder(perm) && Bdd(perm, f) && Bdd(perm, g) && f.node.Inner? && g.node.Inner? && d != 0
    requires exact ==> Enough(d, Needed(perm, f, g))
    requires trusted ==> Keeps(perm, sure, f, g, d)
    ensures var i := TopVar(perm, f, g);
            forall b ::
              && (exact ==> Enough(d - 1, Needed(perm, Cof(f, i, b), Cof(g, i, b))))
              && (trusted ==> Keeps(perm, sure, Cof(f, i, b), Cof(g, i, b), d - 1))
  {
    var i := TopVar(perm, f, g);
    SplitPair(perm, f, g);
    if Decided(f, g) {
      DecidedCofactors(perm, f, g, i, true);
      DecidedCofactors(perm, f, g, i, false);
    }
    hide Decided, Cof, BddNode, TopVar, Settles;
    forall b: bool
      ensures exact ==> Enough(d - 1, Needed(perm, Cof(f, i, b), Cof(g, i, b)))
      ensures trusted ==> Keeps(perm, sure, Cof(f, i, b), Cof(g, i, b), d - 1)
    {
      assert b == true || b == false;
    }
  }

  lemma ClippedAndBranch(
    perm: seq<nat>, sure: Trust, f: Edge, g: Edge, t: Edge, e: Edge, r: Edge, d: int, over: bool, exact: bool,
    trusted: bool, quiet: bool)
    requires IsOrder(perm) && Bdd(perm, f) && Bdd(perm, g) && f.node.Inner? && g.node.Inner? && d != 0
    requires trusted ==> Keeps(perm, sure, f, g, d)
    requires var i := TopVar(perm, f, g);
             && IsBranch(r, i, t, e) && i < |perm| && perm[i] <= Top(perm, r.node)
             && ClippedAnd(perm, sure, t, Cof(f, i, true), Cof(g, i, true), d - 1, over, exact, trusted, quiet)
             && ClippedAnd(perm, sure, e, Cof(f, i, false), Cof(g, i, false), d - 1, over, exact, trusted, quiet)
    ensures ClippedAnd(perm, sure, r, f, g, d, over, exact, trusted, quiet)
  {
    var i := TopVar(perm, f, g);
    SplitPair(perm, f, g);
    if Decided(f, g) {
      DecidedCofactors(perm, f, g, i, true);
      DecidedCofactors(perm, f, g, i, false);
    }
    hide Decided, Cof, BddNode, IsOrder, IsBranch, IsClipped, IsAndExists, IsCut, SureAt, Keeps, TopVar;
    ApproximateBranch(i, {}, f, g, t, e, r, over, exact || Decided(f, g));
    if trusted {
      SureBranch(perm, sure, i, f, g, t, e, r, d);
    }
    if quiet {
      CutBranch(perm, i, f, g, t, e, r, d, over);
    }
  }

  /** A branch on a variable starts no higher than that variable. */
  lemma BuildBelow(dd: Manager, b: Ptr, i: nat, t: Ptr, e: Ptr)
    requires dd.Valid() && dd.HasBdd(b) && dd.HasBdd(t) && dd.HasBdd(e) && i < |dd.perm|
    requires dd.perm[i] < Top(dd.perm, Fn(t).node) && dd.perm[i] < Top(dd.perm, Fn(e).node)
    requires IsBranch(Fn(b), i, Fn(t), Fn(e))
    ensures dd.perm[i] <= Top(dd.perm, Fn(b).node)
  {
    hide Manager.Valid, Manager.ClipsExact, Manager.Vouched, ComputedTable.Hits, BddNode, Eval;
    var perm := dd.perm;
    forall j | 0 <= j < |perm| && perm[j] < perm[i] ensures Ignores(Fn(b), j) {
      BranchIgnores(perm, Fn(b), i, Fn(t), Fn(e), j);
    }
    TopByIgnores(perm, Fn(b), perm[i]);
  }

  lemma BranchIgnores(perm: seq<nat>, b: Edge, i: nat, t: Edge, e: Edge, j: nat)
    requires IsBranch(b, i, t, e) && Bdd(perm, t) && Bdd(perm, e) && i < |perm| && j < |perm|
    requires perm[i] < Top(perm, t.node) && perm[i] < Top(perm, e.node) && perm[j] < perm[i]
    ensures Ignores(b, j)
  {
    IgnoresAbove(perm, t, j);
    IgnoresAbove(perm, e, j);
  }

  /* ---------- the relational product ---------- */

  /** What the recursion promises of its result. */
  ghost predicate ClippedProduct(
    perm: seq<nat>, r: Edge, f: Edge, g: Edge, cube: Edge, d: int, over: bool, exact: bool, quiet: bool)
  {
    && Below(perm, r, f, g)
    && Approximates(r, f, g, CubeVars(cube.node), over, exact)
    && (quiet ==> IsCutProduct(perm, r, f, g, cube, d, over))
  }

  lemma LessQuietProduct(
    perm: seq<nat>, r: Edge, f: Edge, g: Edge, cube: Edge, d: int, over: bool, exact: bool, quiet: bool,
    less: bool)
    requires ClippedProduct(perm, r, f, g, cube, d, over, exact, quiet) && (less ==> quiet)
    ensures ClippedProduct(perm, r, f, g, cube, d, over, exact, less)
  {
  }

  /** An approximation of the relational product on the chosen side; exact says that the distance is
      enough and the memory exact. */
  method BddClipAndAbsRecur(
    dd: Manager, f0: Ptr, g0: Ptr, cube: Ptr, distance: int, over: bool, ghost exact: bool) returns (r: Outcome)
    requires dd.Valid() && dd.HasBdd(f0) && dd.HasBdd(g0) && HasCube(dd, cube)
    requires exact ==> Suffices(dd.perm, Fn(f0), Fn(g0), Fn(cube), distance) && dd.ClipsExact()
    modifies dd, dd.table, dd.table.slots
    ensures dd.Valid() && Kept(dd, exact, false)
    ensures r.Null? ==> dd.Full()
    ensures r.Ok? ==>
              && dd.HasBdd(r.ptr)
              && ClippedProduct(dd.perm, Fn(r.ptr), Fn(f0), Fn(g0), Fn(cube), distance, over, exact,
                                dd.table.Hits() == old(dd.table.Hits()))
    decreases Rank(dd.perm, Fn(f0), Fn(g0)), Fn(cube).node, 3
  {
    hide Manager.Valid, Manager.ClipsExact, Manager.Vouched, ComputedTable.Hits, BddNode, IsOrder;
    hide PositiveCube, ClippedProduct, Suffices, Rank, Trivial, Plain;
    var simple: bool;
    r, simple := ClipAndAbsSimple(dd, f0, g0, cube, distance, over, exact);
    if simple {
      return;
    }
    var f, g := f0, g0;
    ClippedProductSymmetric(dd, f, g, cube, distance, over, exact);
    if * {
      f, g := g, f;
    }
    if * {
      var hit := RecallProduct(dd, f, g, cube, distance, over, exact);
      if hit.Some? {
        return Ok(hit.value);
      }
    }
    ghost var hits := dd.table.Hits();
    var remember: bool;
    r, remember := ClipAndAbsDeeper(dd, f, g, cube, distance, over, exact);
    if r.Null? {
      return;
    }
    ghost var quiet := dd.table.Hits() == old(dd.table.Hits());
    LessQuietProduct(dd.perm, Fn(r.ptr), Fn(f), Fn(g), Fn(cube), distance, over, exact, dd.table.Hits() == hits, quiet);
    LessQuietProduct(dd.perm, Fn(r.ptr), Fn(f), Fn(g), Fn(cube), distance, over, exact, quiet, false);
    var shared: bool := *;
    if remember && shared {
      RememberProduct(dd, f, g, cube, distance, over, r.ptr, exact);
    }
  }

  lemma ClippedProductSymmetric(dd: Manager, f: Ptr, g: Ptr, cube: Ptr, d: int, over: bool, exact: bool)
    requires dd.Valid() && dd.HasBdd(f) && dd.HasBdd(g)
    requires exact ==> Suffices(dd.perm, Fn(f), Fn(g), Fn(cube), d)
    ensures Rank(dd.perm, Fn(f), Fn(g)) == Rank(dd.perm, Fn(g), Fn(f))
    ensures Trivial(Fn(f), Fn(g)) <==> Trivial(Fn(g), Fn(f))
    ensures Plain(Fn(f), Fn(g)) <==> Plain(Fn(g), Fn(f))
    ensures exact ==> Suffices(dd.perm, Fn(g), Fn(f), Fn(cube), d)
    ensures forall r, quiet ::
              ClippedProduct(dd.perm, r, Fn(g), Fn(f), Fn(cube), d, over, exact, quiet) ==>
              ClippedProduct(dd.perm, r, Fn(f), Fn(g), Fn(cube), d, over, exact, quiet)
  {
    hide Manager.Valid, BddNode, IsOrder, Approximates, IsCutProduct, Suffices;
    ApproximateSymmetric(Fn(f), Fn(g), CubeVars(Fn(cube).node), over, exact);
    if exact {
      SufficesSymmetric(dd.perm, Fn(f), Fn(g), Fn(cube), d);
    }
    forall r | IsCutProduct(dd.perm, r, Fn(g), Fn(f), Fn(cube), d, over)
      ensures IsCutProduct(dd.perm, r, Fn(f), Fn(g), Fn(cube), d, over)
    {
      CutProductSymmetric(dd.perm, r, Fn(g), Fn(f), Fn(cube), d, over);
    }
  }

  method RecallProduct(
    dd: Manager, f: Ptr, g: Ptr, cube: Ptr, ghost distance: int, over: bool, ghost exact: bool)
    returns (hit: Option<Ptr>)
    requires dd.Valid() && (exact ==> dd.ClipsExact())
    modifies dd.table, dd.table.slots
    ensures dd.Valid() && Kept(dd, exact, false)
    ensures dd.nodes == old(dd.nodes) && dd.unique == old(dd.unique)
    ensures hit.Some? ==>
              && dd.HasBdd(hit.value)
              && ClippedProduct(dd.perm, Fn(hit.value), Fn(f), Fn(g), Fn(cube), distance, over, exact, false)
    ensures hit.Some? ==> dd.table.Hits() > old(dd.table.Hits())
  {
    hide Manager.Valid, Manager.ClipsExact, Manager.Vouched, ComputedTable.Hits, BddNode, IsOrder;
    hide IsClipped, IsAndExists, Below, CubeVars, IsCutProduct;
    hit := dd.Lookup(ClipAndExistKey(f, g, cube, over));
  }

  method RememberProduct(
    dd: Manager, f: Ptr, g: Ptr, cube: Ptr, ghost distance: int, over: bool, b: Ptr, ghost exact: bool)
    requires dd.Valid() && dd.HasBdd(b) && (exact ==> dd.ClipsExact())
    requires ClippedProduct(dd.perm, Fn(b), Fn(f), Fn(g), Fn(cube), distance, over, exact, false)
    modifies dd.table, dd.table.slots
    ensures dd.Valid() && Kept(dd, exact, false)
    ensures dd.nodes == old(dd.nodes) && dd.unique == old(dd.unique)
    ensures dd.table.Hits() == old(dd.table.Hits())
  {
    hide Manager.Valid, Manager.ClipsExact, Manager.Vouched, ComputedTable.Hits, BddNode, IsOrder;
    hide IsClipped, IsAndExists, Below, CubeVars, IsCutProduct;
    dd.Insert(ClipAndExistKey(f, g, cube, over), b);
  }

  /** Constant, equal and complementary operands, the cube used up, and the depth limit. */
  method ClipAndAbsSimple(
    dd: Manager, f: Ptr, g: Ptr, cube: Ptr, distance: int, over: bool, ghost exact: bool)
    returns (r: Outcome, simple: bool)
    requires dd.Valid() && dd.HasBdd(f) && dd.HasBdd(g) && HasCube(dd, cube)
    requires exact ==> Suffices(dd.perm, Fn(f), Fn(g), Fn(cube), distance) && dd.ClipsExact()
    modifies dd, dd.table, dd.table.slots
    ensures dd.Valid() && Kept(dd, exact, false)
    ensures simple && r.Null? ==> dd.Full()
    ensures simple && r.Ok? ==>
              && dd.HasBdd(r.ptr)
              && ClippedProduct(dd.perm, Fn(r.ptr), Fn(f), Fn(g), Fn(cube), distance, over, exact,
                                dd.table.Hits() == old(dd.table.Hits()))
    ensures !simple ==> f.node != dd.one && g.node != dd.one && cube.node != dd.one && distance != 0
    ensures !simple ==> !Trivial(Fn(f), Fn(g)) && !Plain(Fn(f), Fn(g)) && Fn(cube).node.Inner?
    ensures !simple ==> dd.table.Hits() == old(dd.table.Hits())
  {
    hide Manager.Valid, Manager.ClipsExact, Manager.Vouched, ComputedTable.Hits, BddNode, IsOrder;
    hide IsAndExists, IsExists, ClippedProduct, CubeVars, PositiveCube, Suffices;
    ghost var vs := CubeVars(Fn(cube).node);
    dd.Constants(f);
    dd.Constants(g);
    dd.Constants(cube);
    dd.PointerEquality(f, g);
    dd.PointerEquality(f, PNot(g));
    CubeOne(Fn(cube));
    AndExistsTerminal(Fn(f), Fn(g), vs);
    simple := true;
    if f == dd.False() || g == dd.False() || f == PNot(g) {
      ProductExactly(dd, dd.False(), f, g, cube, distance, over, exact);
      r := Ok(dd.False());
    } else if f == dd.True() && g == dd.True() {
      ProductExactly(dd, dd.True(), f, g, cube, distance, over, exact);
      r := Ok(dd.True());
    } else if cube == dd.True() {
      SufficesOne(dd.perm, Fn(f), Fn(g), distance);
      var n :- BddClippingAndRecur(dd, f, g, distance, over, exact, false);
      ClippedAndIsProduct(
        dd.perm, dd.sure, Fn(n), Fn(f), Fn(g), distance, over, exact, dd.table.Hits() == old(dd.table.Hits()));
      r := Ok(n);
    } else if f == dd.True() || f == g {
      var n :- BddExistAbstractRecur(dd, g, cube);
      AndExistsPlain(Fn(n), Fn(f), Fn(g), vs);
      ProductExactly(dd, n, f, g, cube, distance, over, exact);
      r := Ok(n);
    } else if g == dd.True() {
      var n :- BddExistAbstractRecur(dd, f, cube);
      AndExistsPlain(Fn(n), Fn(f), Fn(g), vs);
      ProductExactly(dd, n, f, g, cube, distance, over, exact);
      r := Ok(n);
    } else if distance == 0 {
      ConstantProduct(dd, f, g, cube, over, exact, dd.table.Hits() == old(dd.table.Hits()));
      r := Ok(PNotCond(dd.True(), !over));
    } else {
      r, simple := Null, false;
    }
  }

  lemma SufficesOne(perm: seq<nat>, f: Edge, g: Edge, d: int)
    requires !Trivial(f, g)
    ensures Suffices(perm, f, g, ONE, d) ==> Enough(d, Needed(perm, f, g))
  {
  }

  /** An exact answer is all that can be asked for. */
  lemma ProductExactly(dd: Manager, n: Ptr, f: Ptr, g: Ptr, cube: Ptr, d: int, over: bool, exact: bool)
    requires dd.Valid() && dd.HasBdd(n) && dd.HasBdd(f) && dd.HasBdd(g)
    requires IsAndExists(Fn(n), Fn(f), Fn(g), CubeVars(Fn(cube).node))
    requires Trivial(Fn(f), Fn(g)) || (Plain(Fn(f), Fn(g)) && Fn(cube).node.Inner?)
    ensures forall quiet :: ClippedProduct(dd.perm, Fn(n), Fn(f), Fn(g), Fn(cube), d, over, exact, quiet)
  {
    hide Manager.Valid, BddNode, IsAndExists, IsClipped;
    BothSides(Fn(n), Fn(f), Fn(g), CubeVars(Fn(cube).node), over);
    AndExistsTop(dd.perm, Fn(n), Fn(f), Fn(g), CubeVars(Fn(cube).node));
  }

  lemma ClippedAndIsProduct(
    perm: seq<nat>, sure: Trust, r: Edge, f: Edge, g: Edge, d: int, over: bool, exact: bool, quiet: bool)
    requires !Trivial(f, g) && ClippedAnd(perm, sure, r, f, g, d, over, exact, false, quiet)
    ensures ClippedProduct(perm, r, f, g, ONE, d, over, exact, quiet)
  {
    hide IsClipped, IsAndExists, IsCut, Decided;
    assert CubeVars(ONE.node) == {};
  }

  lemma ConstantProduct(dd: Manager, f: Ptr, g: Ptr, cube: Ptr, over: bool, exact: bool, quiet: bool)
    requires dd.Valid() && dd.HasBdd(f) && dd.HasBdd(g) && f.node != dd.one && g.node != dd.one
    requires !Trivial(Fn(f), Fn(g)) && !Plain(Fn(f), Fn(g)) && Fn(cube).node.Inner?
    requires exact ==> Suffices(dd.perm, Fn(f), Fn(g), Fn(cube), 0)
    ensures ClippedProduct(
              dd.perm, Fn(PNotCond(dd.True(), !over)), Fn(f), Fn(g), Fn(cube), 0, over, exact, quiet)
  {
    hide Manager.Valid, BddNode, IsClipped, IsAndExists, CubeVars, Trivial, Plain;
    dd.Constants(f);
    dd.Constants(g);
    ClippedConstant(Fn(f), Fn(g), CubeVars(Fn(cube).node));
  }

  /** Clips below the operands' top. A cube variable above both is dropped; that result is not
      remembered for this cube. */
  method ClipAndAbsDeeper(
    dd: Manager, f: Ptr, g: Ptr, cube: Ptr, distance: int, over: bool, ghost exact: bool)
    returns (r: Outcome, remember: bool)
    requires Undetermined(dd, f, g, cube, distance, exact)
    modifies dd, dd.table, dd.table.slots
    ensures dd.Valid() && Kept(dd, exact, false)
    ensures r.Null? ==> dd.Full()
    ensures r.Ok? ==>
              && dd.HasBdd(r.ptr)
              && ClippedProduct(dd.perm, Fn(r.ptr), Fn(f), Fn(g), Fn(cube), distance, over, exact,
                                dd.table.Hits() == old(dd.table.Hits()))
    decreases Rank(dd.perm, Fn(f), Fn(g)), Fn(cube).node, 2
  {
    hide Manager.Valid, Manager.ClipsExact, Manager.Vouched, ComputedTable.Hits, BddNode, IsOrder;
    hide PositiveCube, Suffices, Rank, ClippedProduct, Top, Trivial, Plain;
    dd.Constants(f);
    dd.Constants(g);
    dd.Constants(cube);
    var top := Min(dd.Level(f.node), dd.Level(g.node));
    remember := dd.Level(cube.node) >= top;
    if dd.Level(cube.node) < top {
      r := ClipAndAbsSkip(dd, f, g, cube, distance, over, exact);
    } else if dd.Level(cube.node) == top {
      r := ClipAndAbsHere(dd, f, g, cube, distance, over, exact);
    } else {
      r := ClipAndAbsBelow(dd, f, g, cube, distance, over, exact);
    }
  }

  /** The recursion has to go deeper, with some distance left. */
  ghost predicate Undetermined(dd: Manager, f: Ptr, g: Ptr, cube: Ptr, distance: int, exact: bool)
    reads dd, dd.table, dd.table.slots
  {
    && dd.Valid() && dd.HasBdd(f) && dd.HasBdd(g) && HasCube(dd, cube)
    && f.node != dd.one && g.node != dd.one && cube.node != dd.one && distance != 0
    && !Trivial(Fn(f), Fn(g)) && !Plain(Fn(f), Fn(g))
    && (exact ==> Suffices(dd.perm, Fn(f), Fn(g), Fn(cube), distance) && dd.ClipsExact())
  }

  /** What Suffices says of the next step. */
  lemma SufficesNext(perm: seq<nat>, f: Edge, g: Edge, cube: Edge, d: int)
    requires !Trivial(f, g) && !Plain(f, g) && f.node.Inner? && g.node.Inner? && cube.node.Inner? && d != 0
    requires Suffices(perm, f, g, cube, d)
    ensures var top := Min(Top(perm, f.node), Top(perm, g.node));
            var i := TopVar(perm, f, g);
            && (Top(perm, cube.node) < top ==> Suffices(perm, f, g, cube.node.T, d - 1))
            && (Top(perm, cube.node) == top ==>
                  Suffices(perm, Cof(f, i, true), Cof(g, i, true), cube.node.T, d - 1))
            && (Top(perm, cube.node) > top ==>
                  && Suffices(perm, Cof(f, i, true), Cof(g, i, true), cube, d - 1)
                  && Suffices(perm, Cof(f, i, false), Cof(g, i, false), cube, d - 1))
  {
  }

  lemma SufficesElse(perm: seq<nat>, f: Edge, g: Edge, cube: Edge, d: int, t: Edge)
    requires !Trivial(f, g) && !Plain(f, g) && f.node.Inner? && g.node.Inner? && cube.node.Inner? && d != 0
    requires Suffices(perm, f, g, cube, d) && Top(perm, cube.node) == Min(Top(perm, f.node), Top(perm, g.node))
    requires var i := TopVar(perm, f, g);
             t != ONE && IsProductEdge(perm, t, Cof(f, i, true), Cof(g, i, true), CubeVars(cube.node.T.node))
    ensures var i := TopVar(perm, f, g);
            ElseSuffices(perm, t, Cof(f, i, false), Cof(g, i, false), cube.node.T, d - 1)
  {
  }

  /** The cube starts above both operands: drop its top variable. */
  method ClipAndAbsSkip(
    dd: Manager, f: Ptr, g: Ptr, cube: Ptr, distance: int, over: bool, ghost exact: bool) returns (r: Outcome)
    requires Undetermined(dd, f, g, cube, distance, exact)
    requires Top(dd.perm, Fn(cube).node) < Min(Top(dd.perm, Fn(f).node), Top(dd.perm, Fn(g).node))
    modifies dd, dd.table, dd.table.slots
    ensures dd.Valid() && Kept(dd, exact, false)
    ensures r.Null? ==> dd.Full()
    ensures r.Ok? ==>
              && dd.HasBdd(r.ptr)
              && ClippedProduct(dd.perm, Fn(r.ptr), Fn(f), Fn(g), Fn(cube), distance, over, exact,
                                dd.table.Hits() == old(dd.table.Hits()))
    decreases Rank(dd.perm, Fn(f), Fn(g)), Fn(cube).node, 0
  {
    hide Manager.Valid, Manager.ClipsExact, Manager.Vouched, ComputedTable.Hits, BddNode, IsOrder;
    hide PositiveCube, Suffices, Rank, ClippedProduct, Trivial, Plain, CubeVars;
    dd.Constants(f);
    dd.Constants(g);
    dd.Constants(cube);
    dd.Children(cube);
    CubeStep(dd.perm, Fn(cube));
    if exact {
      SufficesNext(dd.perm, Fn(f), Fn(g), Fn(cube), distance);
    }
    var n :- BddClipAndAbsRecur(dd, f, g, cube.node.kind.T, distance - 1, over, exact);
    SkippedProduct(dd.perm, Fn(n), Fn(f), Fn(g), Fn(cube), distance, over, exact,
                   dd.table.Hits() == old(dd.table.Hits()));
    r := Ok(n);
  }

  lemma SkippedProduct(
    perm: seq<nat>, r: Edge, f: Edge, g: Edge, cube: Edge, d: int, over: bool, exact: bool, quiet: bool)
    requires IsOrder(perm) && Bdd(perm, f) && Bdd(perm, g) && Bdd(perm, cube) && PositiveCube(cube)
    requires !Trivial(f, g) && !Plain(f, g) && f.node.Inner? && g.node.Inner? && cube.node.Inner? && d != 0
    requires Top(perm, cube.node) < Min(Top(perm, f.node), Top(perm, g.node))
    requires ClippedProduct(perm, r, f, g, cube.node.T, d - 1, over, exact, quiet)
    ensures ClippedProduct(perm, r, f, g, cube, d, over, exact, quiet)
  {
    hide Approximates;
    CubeStep(perm, cube);
    ApproximateSkip(perm, cube.node.index, CubeVars(cube.node.T.node), f, g, r, over, exact);
  }

  /** The top variable is quantified: the disjunction is a complemented clipped conjunction of the
      complements, clipped in the opposite direction. */
  method ClipAndAbsHere(
    dd: Manager, f: Ptr, g: Ptr, cube: Ptr, distance: int, over: bool, ghost exact: bool) returns (r: Outcome)
    requires Undetermined(dd, f, g, cube, distance, exact)
    requires Top(dd.perm, Fn(cube).node) == Min(Top(dd.perm, Fn(f).node), Top(dd.perm, Fn(g).node))
    modifies dd, dd.table, dd.table.slots
    ensures dd.Valid() && Kept(dd, exact, false)
    ensures r.Null? ==> dd.Full()
    ensures r.Ok? ==>
              && dd.HasBdd(r.ptr)
              && ClippedProduct(dd.perm, Fn(r.ptr), Fn(f), Fn(g), Fn(cube), distance, over, exact,
                                dd.table.Hits() == old(dd.table.Hits()))
    decreases Rank(dd.perm, Fn(f), Fn(g)), Fn(cube).node, 1
  {
    hide Manager.Valid, Manager.ClipsExact, Manager.Vouched, ComputedTable.Hits, BddNode, IsOrder;
    hide PositiveCube, Suffices, Rank, ClippedProduct, Trivial, Plain, CubeVars, Cof, TopVar;
    dd.Constants(f);
    dd.Constants(g);
    dd.Constants(cube);
    dd.Children(cube);
    CubeStep(dd.perm, Fn(cube));
    var index, ft, fe, gt, ge := dd.Split(f, g);
    TopVarAt(dd.perm, Fn(f), Fn(g), index);
    var rest := cube.node.kind.T;
    if exact {
      SufficesNext(dd.perm, Fn(f), Fn(g), Fn(cube), distance);
    }
    var t :- BddClipAndAbsRecur(dd, ft, gt, rest, distance - 1, over, exact);
    ghost var hits := dd.table.Hits();
    if t == dd.True() {
      EarlyProduct(dd.perm, Fn(f), Fn(g), Fn(cube), distance, over, exact, hits == old(dd.table.Hits()));
      return Ok(dd.True());
    }
    dd.PointerEquality(t, dd.True());
    r := ClipAndAbsElse(dd, f, g, cube, t, fe, ge, distance, over, exact, hits == old(dd.table.Hits()));
    if r.Ok? {
      LessQuietProduct(
        dd.perm, Fn(r.ptr), Fn(f), Fn(g), Fn(cube), distance, over, exact,
        hits == old(dd.table.Hits()) && dd.table.Hits() == hits, dd.table.Hits() == old(dd.table.Hits()));
    }
  }

  /** The else branch and the disjunction, when the then branch is not 1. */
  method ClipAndAbsElse(
    dd: Manager, f: Ptr, g: Ptr, cube: Ptr, t: Ptr, fe: Ptr, ge: Ptr, distance: int, over: bool,
    ghost exact: bool, ghost quietly: bool) returns (r: Outcome)
    requires Undetermined(dd, f, g, cube, distance, exact)
    requires Fn(f).node.Inner? && Fn(g).node.Inner? && Fn(cube).node.Inner?
    requires Top(dd.perm, Fn(cube).node) == Min(Top(dd.perm, Fn(f).node), Top(dd.perm, Fn(g).node))
    requires dd.HasBdd(t) && Fn(t) != ONE && dd.HasBdd(fe) && dd.HasBdd(ge)
    requires Rank(dd.perm, Fn(fe), Fn(ge)) < Rank(dd.perm, Fn(f), Fn(g))
    requires var i := TopVar(dd.perm, Fn(f), Fn(g));
             && Fn(fe) == Cof(Fn(f), i, false) && Fn(ge) == Cof(Fn(g), i, false)
             && ClippedProduct(dd.perm, Fn(t), Cof(Fn(f), i, true), Cof(Fn(g), i, true), Fn(cube).node.T,
                               distance - 1, over, exact, quietly)
    modifies dd, dd.table, dd.table.slots
    ensures dd.Valid() && Kept(dd, exact, false)
    ensures r.Null? ==> dd.Full()
    ensures r.Ok? ==>
              && dd.HasBdd(r.ptr)
              && ClippedProduct(dd.perm, Fn(r.ptr), Fn(f), Fn(g), Fn(cube), distance, over, exact,
                                quietly && dd.table.Hits() == old(dd.table.Hits()))
    decreases Rank(dd.perm, Fn(f), Fn(g)), Fn(cube).node, 0
  {
    hide Manager.Valid, Manager.ClipsExact, Manager.Vouched, ComputedTable.Hits, BddNode, IsOrder;
    hide PositiveCube, Suffices, Rank, ClippedProduct, ClippedAnd, Trivial, Plain, CubeVars, Cof, TopVar;
    hide Needed, Enough;
    hide Below, TreeOf, Decided, Right;
    dd.Constants(cube);
    dd.Children(cube);
    CubeStep(dd.perm, Fn(cube));
    var rest := cube.node.kind.T;
    ghost var i := TopVar(dd.perm, Fn(f), Fn(g));
    ghost var ft, gt := Cof(Fn(f), i, true), Cof(Fn(g), i, true);
    if exact {
      ExactProduct(dd.perm, Fn(t), ft, gt, Fn(rest), distance - 1, over, quietly);
      SufficesElse(dd.perm, Fn(f), Fn(g), Fn(cube), distance, Fn(t));
    }
    var e :- BddClipAndAbsRecur(dd, fe, ge, rest, distance - 1, over, exact);
    ghost var later := dd.table.Hits();
    if exact {
      ExactProduct(dd.perm, Fn(e), Fn(fe), Fn(ge), Fn(rest), distance - 1, over, later == old(dd.table.Hits()));
    }
    var n :- BddClippingAndRecur(dd, PNot(t), PNot(e), distance - 1, !over, exact, false);
    ghost var quiet := quietly && dd.table.Hits() == old(dd.table.Hits());
    LessQuietProduct(dd.perm, Fn(t), ft, gt, Fn(rest), distance - 1, over, exact, quietly, quiet);
    LessQuietProduct(dd.perm, Fn(e), Fn(fe), Fn(ge), Fn(rest), distance - 1, over, exact,
                     later == old(dd.table.Hits()), quiet);
    LessQuiet(dd.perm, dd.sure, Fn(n), Fn(PNot(t)), Fn(PNot(e)), distance - 1, !over, exact, false,
              dd.table.Hits() == later, quiet);
    JoinedProduct(dd.perm, dd.sure, Fn(n), Fn(t), Fn(e), Fn(f), Fn(g), Fn(cube), distance, over, exact, quiet);
    r := Ok(PNot(n));
  }

  lemma ExactProduct(
    perm: seq<nat>, r: Edge, f: Edge, g: Edge, cube: Edge, d: int, over: bool, quiet: bool)
    requires Bdd(perm, r) && ClippedProduct(perm, r, f, g, cube, d, over, true, quiet)
    ensures IsProductEdge(perm, r, f, g, CubeVars(cube.node))
  {
  }

  /** The then branch is 1. */
  lemma EarlyProduct(
    perm: seq<nat>, f: Edge, g: Edge, cube: Edge, d: int, over: bool, exact: bool, quiet: bool)
    requires IsOrder(perm) && Bdd(perm, f) && Bdd(perm, g) && Bdd(perm, cube) && PositiveCube(cube)
    requires !Trivial(f, g) && !Plain(f, g) && f.node.Inner? && g.node.Inner? && cube.node.Inner? && d != 0
    requires Top(perm, cube.node) == Min(Top(perm, f.node), Top(perm, g.node))
    requires var i := TopVar(perm, f, g);
             ClippedProduct(perm, ONE, Cof(f, i, true), Cof(g, i, true), cube.node.T, d - 1, over, exact, quiet)
    ensures ClippedProduct(perm, ONE, f, g, cube, d, over, exact, quiet)
  {
    hide Approximates, Cof, Trivial, Plain, CubeVars, PositiveCube;
    var i := TopVar(perm, f, g);
    SplitPair(perm, f, g);
    CubeStep(perm, cube);
    ApproximateEarly(perm, i, CubeVars(cube.node.T.node), f, g, over, exact);
    hide IsOrder, TopVar;
    if quiet {
      assert Bdd(perm, ONE);
      assert CutJoined(perm, ONE, f, g, cube, d, over);
    }
  }

  lemma JoinedProduct(
    perm: seq<nat>, sure: Trust, n: Edge, t: Edge, e: Edge, f: Edge, g: Edge, cube: Edge, d: int, over: bool,
    exact: bool, quiet: bool)
    requires IsOrder(perm) && Bdd(perm, f) && Bdd(perm, g) && Bdd(perm, cube) && PositiveCube(cube)
    requires Bdd(perm, t) && Bdd(perm, e) && t != ONE
    requires !Trivial(f, g) && !Plain(f, g) && f.node.Inner? && g.node.Inner? && cube.node.Inner? && d != 0
    requires Top(perm, cube.node) == Min(Top(perm, f.node), Top(perm, g.node))
    requires var i := TopVar(perm, f, g);
             && ClippedProduct(perm, t, Cof(f, i, true), Cof(g, i, true), cube.node.T, d - 1, over, exact, quiet)
             && ClippedProduct(perm, e, Cof(f, i, false), Cof(g, i, false), cube.node.T, d - 1, over, exact, quiet)
    requires ClippedAnd(perm, sure, n, Not(t), Not(e), d - 1, !over, exact, false, quiet)
    ensures ClippedProduct(perm, Not(n), f, g, cube, d, over, exact, quiet)
  {
    hide Cof, IsCut, IsCutProduct, Trivial, Plain, IsClipped, IsAndExists, Decided;
    var i := TopVar(perm, f, g);
    SplitPair(perm, f, g);
    CubeStep(perm, cube);
    assert Not(Not(n)) == n;
    ApproximateJoin(perm, i, CubeVars(cube.node.T.node), f, g, t, e, Not(n), over, exact);
    hide BddNode, IsOrder;
    if quiet {
      JoinedCut(perm, n, t, e, f, g, cube, d, over);
    }
  }

  lemma JoinedCut(
    perm: seq<nat>, n: Edge, t: Edge, e: Edge, f: Edge, g: Edge, cube: Edge, d: int, over: bool)
    requires Bdd(perm, t) && Bdd(perm, e) && t != ONE
    requires !Trivial(f, g) && !Plain(f, g) && f.node.Inner? && g.node.Inner? && cube.node.Inner? && d != 0
    requires Top(perm, cube.node) == Min(Top(perm, f.node), Top(perm, g.node))
    requires var i := TopVar(perm, f, g);
             && IsCutProduct(perm, t, Cof(f, i, true), Cof(g, i, true), cube.node.T, d - 1, over)
             && IsCutProduct(perm, e, Cof(f, i, false), Cof(g, i, false), cube.node.T, d - 1, over)
    requires IsCut(perm, n, Not(t), Not(e), d - 1, !over)
    ensures IsCutProduct(perm, Not(n), f, g, cube, d, over)
  {
    hide Cof, TopVar, IsCut, Trivial, Plain, BddNode, Top;
    var i := TopVar(perm, f, g);
    assert Not(Not(n)) == n;
    assert ElseJoins(perm, Not(n), t, Cof(f, i, false), Cof(g, i, false), cube.node.T, d - 1, over);
    assert CutJoined(perm, Not(n), f, g, cube, d, over);
  }

  /** The top variable is not quantified: keep it. */
  method ClipAndAbsBelow(
    dd: Manager, f: Ptr, g: Ptr, cube: Ptr, distance: int, over: bool, ghost exact: bool) returns (r: Outcome)
    requires Undetermined(dd, f, g, cube, distance, exact)
    requires Min(Top(dd.perm, Fn(f).node), Top(dd.perm, Fn(g).node)) < Top(dd.perm, Fn(cube).node)
    modifies dd, dd.table, dd.table.slots
    ensures dd.Valid() && Kept(dd, exact, false)
    ensures r.Null? ==> dd.Full()
    ensures r.Ok? ==>
              && dd.HasBdd(r.ptr)
              && ClippedProduct(dd.perm, Fn(r.ptr), Fn(f), Fn(g), Fn(cube), distance, over, exact,
                                dd.table.Hits() == old(dd.table.Hits()))
    decreases Rank(dd.perm, Fn(f), Fn(g)), Fn(cube).node, 0
  {
    hide Manager.Valid, Manager.ClipsExact, Manager.Vouched, ComputedTable.Hits, BddNode, IsOrder;
    hide PositiveCube, Suffices, Rank, ClippedProduct, Trivial, Plain, CubeVars, Cof, TopVar, IsBranch;
    hide ElseSuffices, LevelOf, Right;
    dd.Constants(f);
    dd.Constants(g);
    dd.Constants(cube);
    var index, ft, fe, gt, ge := dd.Split(f, g);
    TopVarAt(dd.perm, Fn(f), Fn(g), index);
    if exact {
      SufficesNext(dd.perm, Fn(f), Fn(g), Fn(cube), distance);
    }
    var t :- BddClipAndAbsRecur(dd, ft, gt, cube, distance - 1, over, exact);
    ghost var hits := dd.table.Hits();
    var e :- BddClipAndAbsRecur(dd, fe, ge, cube, distance - 1, over, exact);
    ghost var quiet := dd.table.Hits() == old(dd.table.Hits());
    LessQuietProduct(dd.perm, Fn(t), Fn(ft), Fn(gt), Fn(cube), distance - 1, over, exact,
                     hits == old(dd.table.Hits()), quiet);
    LessQuietProduct(dd.perm, Fn(e), Fn(fe), Fn(ge), Fn(cube), distance - 1, over, exact,
                     dd.table.Hits() == hits, quiet);
    r := BuildClippedProduct(dd, index, f, g, cube, t, e, distance, over, exact, quiet);
  }

  method BuildClippedProduct(
    dd: Manager, index: nat, f: Ptr, g: Ptr, cube: Ptr, t: Ptr, e: Ptr, ghost distance: int, ghost over: bool,
    ghost exact: bool, ghost quiet: bool) returns (r: Outcome)
    requires dd.Valid() && dd.HasBdd(f) && dd.HasBdd(g) && HasCube(dd, cube) && dd.HasBdd(t) && dd.HasBdd(e)
    requires !Trivial(Fn(f), Fn(g)) && !Plain(Fn(f), Fn(g)) && distance != 0
    requires Fn(f).node.Inner? && Fn(g).node.Inner? && Fn(cube).node.Inner?
    requires index == TopVar(dd.perm, Fn(f), Fn(g))
    requires Top(dd.perm, Fn(cube).node) > Min(Top(dd.perm, Fn(f).node), Top(dd.perm, Fn(g).node))
    requires ClippedProduct(dd.perm, Fn(t), Cof(Fn(f), index, true), Cof(Fn(g), index, true), Fn(cube),
                            distance - 1, over, exact, quiet)
    requires ClippedProduct(dd.perm, Fn(e), Cof(Fn(f), index, false), Cof(Fn(g), index, false), Fn(cube),
                            distance - 1, over, exact, quiet)
    modifies dd`unique, dd`nodes
    ensures dd.Valid() && dd.Continues()
    ensures r.Null? ==> dd.Full()
    ensures r.Ok? ==>
              && dd.HasBdd(r.ptr)
              && ClippedProduct(dd.perm, Fn(r.ptr), Fn(f), Fn(g), Fn(cube), distance, over, exact, quiet)
  {
    hide Manager.Valid, Manager.ClipsExact, Manager.Vouched, ComputedTable.Hits, BddNode, IsOrder;
    hide IsBranch, Cof, ClippedProduct, TopVar, Trivial, Plain, PositiveCube;
    SplitPair(dd.perm, Fn(f), Fn(g));
    ProductStartsBelow(dd.perm, index, Fn(t), Cof(Fn(f), index, true), Cof(Fn(g), index, true), Fn(cube),
                       distance - 1, over, exact, quiet);
    ProductStartsBelow(dd.perm, index, Fn(e), Cof(Fn(f), index, false), Cof(Fn(g), index, false), Fn(cube),
                       distance - 1, over, exact, quiet);
    var b :- dd.Build(index, t, e);
    BuildBelow(dd, b, index, t, e);
    BranchedProduct(dd.perm, Fn(b), Fn(t), Fn(e), Fn(f), Fn(g), Fn(cube), distance, over, exact, quiet);
    r := Ok(b);
  }

  lemma ProductStartsBelow(
    perm: seq<nat>, i: nat, r: Edge, f: Edge, g: Edge, cube: Edge, d: int, over: bool, exact: bool, quiet: bool)
    requires ClippedProduct(perm, r, f, g, cube, d, over, exact, quiet)
    requires i < |perm| && perm[i] < Top(perm, f.node) && perm[i] < Top(perm, g.node)
    ensures perm[i] < Top(perm, r.node)
  {
  }

  lemma BranchedProduct(
    perm: seq<nat>, b: Edge, t: Edge, e: Edge, f: Edge, g: Edge, cube: Edge, d: int, over: bool, exact: bool,
    quiet: bool)
    requires IsOrder(perm) && Bdd(perm, f) && Bdd(perm, g) && Bdd(perm, cube)
    requires Bdd(perm, t) && Bdd(perm, e)
    requires !Trivial(f, g) && !Plain(f, g) && f.node.Inner? && g.node.Inner? && cube.node.Inner? && d != 0
    requires Top(perm, cube.node) > Min(Top(perm, f.node), Top(perm, g.node))
    requires var i := TopVar(perm, f, g);
             && i < |perm| && perm[i] <= Top(perm, b.node) && IsBranch(b, i, t, e)
             && ClippedProduct(perm, t, Cof(f, i, true), Cof(g, i, true), cube, d - 1, over, exact, quiet)
             && ClippedProduct(perm, e, Cof(f, i, false), Cof(g, i, false), cube, d - 1, over, exact, quiet)
    ensures ClippedProduct(perm, b, f, g, cube, d, over, exact, quiet)
  {
    hide Cof, IsCut, Trivial, Plain, Approximates, IsBranch;
    var i := TopVar(perm, f, g);
    SplitPair(perm, f, g);
    CubeVarsBelow(perm, cube.node);
    ApproximateBranch(i, CubeVars(cube.node), f, g, t, e, b, over, exact);
    if quiet {
      assert CutBranched(perm, b, f, g, cube, d, over);
    }
  }
}
