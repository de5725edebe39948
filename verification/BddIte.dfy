/** The kernel operations: conjunction, exclusive or, if-then-else and implication. */
module BddIte {
  import opened Diagrams
  import opened Semantics
  import opened ComputedTables
  import opened Managers

  method BddAndRecur(dd: Manager, f0: Ptr, g0: Ptr) returns (r: Outcome)
    requires dd.Valid() && dd.HasBdd(f0) && dd.HasBdd(g0)
    modifies dd, dd.table, dd.table.slots
    ensures dd.Valid() && dd.Continues()
    ensures r.Null? ==> dd.Full()
    ensures r.Ok? ==> dd.HasBdd(r.ptr) && IsAnd(Fn(r.ptr), Fn(f0), Fn(g0))
    decreases Rank(dd.perm, Fn(f0), Fn(g0)), 1
  {
    hide Manager.Valid, BddNode, Eval, IsOrder, Manager.ClipsExact, Manager.Vouched, ComputedTable.Hits;
    var f, g := f0, g0;
    AndConstant(Fn(f));
    AndConstant(Fn(g));
    if f.node == g.node {
      return Ok(if f == g then f else dd.False());
    }
    if f.node == dd.one {
      return Ok(if f == dd.True() then g else f);
    }
    if g.node == dd.one {
      return Ok(if g == dd.True() then f else g);
    }
    // the order of the two pointers is arbitrary
    if * {
      f, g := g, f;
    }
    // whether a node is shared decides if the cache is consulted
    if * {
      var hit := dd.Lookup(AndKey(f, g));
      if hit.Some? {
        return Ok(hit.value);
      }
    }
    var b :- AndSplit(dd, f, g);
    if * {
      dd.Insert(AndKey(f, g), b);
    }
    r := Ok(b);
  }

  /** Recurs on the cofactors and joins the results. */
  method AndSplit(dd: Manager, f: Ptr, g: Ptr) returns (r: Outcome)
    requires dd.Valid() && dd.HasBdd(f) && dd.HasBdd(g) && f.node != dd.one && g.node != dd.one
    modifies dd, dd.table, dd.table.slots
    ensures dd.Valid() && dd.Continues()
    ensures r.Null? ==> dd.Full()
    ensures r.Ok? ==> dd.HasBdd(r.ptr) && IsAnd(Fn(r.ptr), Fn(f), Fn(g))
    decreases Rank(dd.perm, Fn(f), Fn(g)), 0
  {
    hide Manager.Valid, Manager.ClipsExact, Manager.Vouched, ComputedTable.Hits, BddNode, Eval, IsOrder, IsBranch,
      Top, Cof, IsAnd;
    var index, fv, fnv, gv, gnv := dd.Split(f, g);
    var t :- BddAndRecur(dd, fv, gv);
    var e :- BddAndRecur(dd, fnv, gnv);
    AndTop(dd.perm, Fn(t), Fn(fv), Fn(gv));
    AndTop(dd.perm, Fn(e), Fn(fnv), Fn(gnv));
    var b :- dd.Build(index, t, e);
    AndStep(index, Fn(f), Fn(g), Fn(t), Fn(e), Fn(b));
    r := Ok(b);
  }

  method BddXorRecur(dd: Manager, f0: Ptr, g0: Ptr) returns (r: Outcome)
    requires dd.Valid() && dd.HasBdd(f0) && dd.HasBdd(g0)
    modifies dd, dd.table, dd.table.slots
    ensures dd.Valid() && dd.Continues()
    ensures r.Null? ==> dd.Full()
    ensures r.Ok? ==> dd.HasBdd(r.ptr) && IsXor(Fn(r.ptr), Fn(f0), Fn(g0))
    decreases Rank(dd.perm, Fn(f0), Fn(g0)), 1
  {
    hide Manager.Valid, BddNode, Eval, IsOrder, IsXor, Manager.ClipsExact, Manager.Vouched, ComputedTable.Hits;
    var done, f, g := XorNormalize(dd, f0, g0);
    if done.Some? {
      return Ok(done.value);
    }
    var hit := dd.Lookup(XorKey(f, g));
    if hit.Some? {
      return Ok(hit.value);
    }
    var b :- XorSplit(dd, f, g);
    dd.Insert(XorKey(f, g), b);
    r := Ok(b);
  }

  /** Recurs on the cofactors and joins the results. */
  method XorSplit(dd: Manager, f: Ptr, g: Ptr) returns (r: Outcome)
    requires dd.Valid() && dd.HasBdd(f) && dd.HasBdd(g) && f.node != dd.one && g.node != dd.one
    modifies dd, dd.table, dd.table.slots
    ensures dd.Valid() && dd.Continues()
    ensures r.Null? ==> dd.Full()
    ensures r.Ok? ==> dd.HasBdd(r.ptr) && IsXor(Fn(r.ptr), Fn(f), Fn(g))
    decreases Rank(dd.perm, Fn(f), Fn(g)), 0
  {
    hide Manager.Valid, Manager.ClipsExact, Manager.Vouched, ComputedTable.Hits, BddNode, Eval, IsOrder, IsBranch,
      Top, Cof, IsXor;
    var index, fv, fnv, gv, gnv := dd.Split(f, g);
    var t :- BddXorRecur(dd, fv, gv);
    var e :- BddXorRecur(dd, fnv, gnv);
    XorTop(dd.perm, Fn(t), Fn(fv), Fn(gv));
    XorTop(dd.perm, Fn(e), Fn(fnv), Fn(gnv));
    var b :- dd.Build(index, t, e);
    XorStep(index, Fn(f), Fn(g), Fn(t), Fn(e), Fn(b));
    r := Ok(b);
  }

  /** The terminal cases, and the operands rearranged so that the first is regular. */
  method XorNormalize(dd: Manager, f0: Ptr, g0: Ptr) returns (done: Option<Ptr>, f: Ptr, g: Ptr)
    requires dd.Valid() && dd.HasBdd(f0) && dd.HasBdd(g0)
    ensures done.Some? ==> dd.HasBdd(done.value) && IsXor(Fn(done.value), Fn(f0), Fn(g0))
    ensures done.None? ==>
              && dd.HasBdd(f) && dd.HasBdd(g) && f.node != dd.one && g.node != dd.one && !f.comp
              && Rank(dd.perm, Fn(f), Fn(g)) == Rank(dd.perm, Fn(f0), Fn(g0))
              && forall r :: IsXor(r, Fn(f), Fn(g)) <==> IsXor(r, Fn(f0), Fn(g0))
  {
    hide Manager.Valid, Manager.ClipsExact, Manager.Vouched, ComputedTable.Hits, BddNode, Eval, IsOrder;
    f, g := f0, g0;
    XorConstant(Fn(f));
    XorConstant(Fn(g));
    XorConstant(Fn(PNot(f)));
    XorConstant(Fn(PNot(g)));
    XorComplement(Fn(f), Fn(g));
    if f == g {
      return Some(dd.False()), f, g;
    }
    if f == PNot(g) {
      return Some(dd.True()), f, g;
    }
    if * {
      f, g := g, f;
    }
    if g == dd.False() {
      return Some(f), f, g;
    }
    if g == dd.True() {
      return Some(PNot(f)), f, g;
    }
    if f.comp {
      f, g := PNot(f), PNot(g);
    }
    if f == dd.True() {
      return Some(PNot(g)), f, g;
    }
    done := None;
  }

  /** Whether f implies g. No nodes are created. */
  method BddLeq(dd: Manager, f0: Ptr, g0: Ptr) returns (res: bool)
    requires dd.Valid() && dd.HasBdd(f0) && dd.HasBdd(g0)
    modifies dd.table, dd.table.slots
    ensures dd.Valid() && dd.Continues() && dd.nodes == old(dd.nodes) && dd.unique == old(dd.unique)
    ensures res <==> LessEq(Fn(f0), Fn(g0))
    decreases Rank(dd.perm, Fn(f0), Fn(g0))
  {
    hide Manager.Valid, Manager.ClipsExact, Manager.Vouched, ComputedTable.Hits, BddNode, Eval, IsOrder, LessEq, Top,
      Cof;
    var done, f, g := LeqNormalize(dd, f0, g0);
    if done.Some? {
      return done.value;
    }
    var hit := dd.Lookup(LeqKey(f, g));
    if hit.Some? {
      dd.PointerEquality(hit.value, dd.True());
      return hit.value == dd.True();
    }
    var index, fv, fnv, gv, gnv := dd.Split(f, g);
    LessEqStep(dd.perm, index, Fn(f), Fn(g));
    // the negative cofactors are the more likely to disagree
    res := BddLeq(dd, fnv, gnv);
    if res {
      res := BddLeq(dd, fv, gv);
    }
    dd.Insert(LeqKey(f, g), if res then dd.True() else dd.False());
  }

  /** The terminal cases, and the operands rearranged so that the second is regular. */
  method LeqNormalize(dd: Manager, f0: Ptr, g0: Ptr) returns (done: Option<bool>, f: Ptr, g: Ptr)
    requires dd.Valid() && dd.HasBdd(f0) && dd.HasBdd(g0)
    ensures done.Some? ==> (done.value <==> LessEq(Fn(f0), Fn(g0)))
    ensures done.None? ==>
              && dd.HasBdd(f) && dd.HasBdd(g) && f.node != dd.one && g.node != dd.one && !g.comp
              && Rank(dd.perm, Fn(f), Fn(g)) == Rank(dd.perm, Fn(f0), Fn(g0))
              && (LessEq(Fn(f), Fn(g)) <==> LessEq(Fn(f0), Fn(g0)))
  {
    hide Manager.Valid, Manager.ClipsExact, Manager.Vouched, ComputedTable.Hits, BddNode, Eval, IsOrder, LessEq;
    f, g := f0, g0;
    LessEqTerminal(dd.perm, Fn(f), Fn(g));
    LessEqContrapositive(Fn(f), Fn(g));
    if f == g {
      return Some(true), f, g;
    }
    if g.comp {
      // a regular edge is 1 at all ones, where a complemented one is 0
      if !f.comp {
        return Some(false), f, g;
      }
      f, g := PNot(g), PNot(f);
    } else if f.comp {
      if * {
        f, g := PNot(g), PNot(f);
      }
    }
    LessEqTerminal(dd.perm, Fn(f), Fn(g));
    dd.PointerEquality(g, dd.True());
    dd.PointerEquality(f, dd.False());
    if g == dd.True() {
      return Some(true), f, g;
    }
    if f == dd.True() {
      return Some(false), f, g;
    }
    if PNot(f) == g {
      return Some(false), f, g;
    }
    if f == dd.False() {
      return Some(true), f, g;
    }
    done := None;
  }

  /** if f then g else h. */
  method BddIteRecur(dd: Manager, f0: Ptr, g0: Ptr, h0: Ptr) returns (r: Outcome)
    requires dd.Valid() && dd.HasBdd(f0) && dd.HasBdd(g0) && dd.HasBdd(h0)
    modifies dd, dd.table, dd.table.slots
    ensures dd.Valid() && dd.Continues()
    ensures r.Null? ==> dd.Full()
    ensures r.Ok? ==> dd.HasBdd(r.ptr) && IsIte(Fn(r.ptr), Fn(f0), Fn(g0), Fn(h0))
    decreases Rank3(dd.perm, Fn(f0), Fn(g0), Fn(h0)), 2
  {
    hide Manager.Valid, Manager.ClipsExact, Manager.Vouched, ComputedTable.Hits, BddNode, Eval, IsOrder, IsIte, Top,
      SameIte;
    var simple: bool;
    r, simple := IteSimple(dd, f0, g0, h0);
    if simple {
      return;
    }
    var comple, f, g, h, topf, topg, toph := VarToCanonicalSimple(dd, f0, g0, h0);
    var b :- IteCanonical(dd, f, g, h, topf, topg, toph);
    IteComplement(Fn(b), Fn(f), Fn(g), Fn(h), comple, Fn(f0), Fn(g0), Fn(h0));
    r := Ok(PNotCond(b, comple));
  }

  /** The cases with a constant operand, or with two operands that are equal or complementary. */
  method IteSimple(dd: Manager, f: Ptr, g: Ptr, h: Ptr) returns (r: Outcome, simple: bool)
    requires dd.Valid() && dd.HasBdd(f) && dd.HasBdd(g) && dd.HasBdd(h)
    modifies dd, dd.table, dd.table.slots
    ensures dd.Valid() && dd.Continues()
    ensures simple && r.Null? ==> dd.Full()
    ensures simple && r.Ok? ==> dd.HasBdd(r.ptr) && IsIte(Fn(r.ptr), Fn(f), Fn(g), Fn(h))
    ensures !simple ==> f.node != dd.one && g.node != dd.one && h.node != dd.one && g != h
  {
    hide Manager.Valid, Manager.ClipsExact, Manager.Vouched, ComputedTable.Hits, BddNode, Eval, IsOrder, IsIte, IsAnd,
      IsXor;
    IteTerminal(Fn(f), Fn(g), Fn(h));
    simple := true;
    if f == dd.True() {
      r := Ok(g);
    } else if f == dd.False() {
      r := Ok(h);
    } else if g == dd.True() || f == g {
      if h == dd.False() {
        r := Ok(f);
      } else {
        var n :- BddAndRecur(dd, PNot(f), PNot(h));
        IteConnective(Fn(n), Fn(f), Fn(g), Fn(h));
        r := Ok(PNot(n));
      }
    } else if g == dd.False() || f == PNot(g) {
      if h == dd.True() {
        r := Ok(PNot(f));
      } else {
        var n :- BddAndRecur(dd, PNot(f), h);
        IteConnective(Fn(n), Fn(f), Fn(g), Fn(h));
        r := Ok(n);
      }
    } else if h == dd.False() || f == h {
      var n :- BddAndRecur(dd, f, g);
      IteConnective(Fn(n), Fn(f), Fn(g), Fn(h));
      r := Ok(n);
    } else if h == dd.True() || f == PNot(h) {
      var n :- BddAndRecur(dd, f, PNot(g));
      IteConnective(Fn(n), Fn(f), Fn(g), Fn(h));
      r := Ok(PNot(n));
    } else if g == h {
      r := Ok(g);
    } else if g == PNot(h) {
      var n :- BddXorRecur(dd, f, h);
      IteConnective(Fn(n), Fn(f), Fn(g), Fn(h));
      r := Ok(n);
    } else {
      r, simple := Null, false;
    }
  }

  /** Makes the first two operands regular; comple tells whether the result must be complemented. */
  method VarToCanonicalSimple(dd: Manager, f0: Ptr, g0: Ptr, h0: Ptr)
    returns (comple: bool, f: Ptr, g: Ptr, h: Ptr, topf: nat, topg: nat, toph: nat)
    ensures !f.comp && !g.comp
    ensures f.node == f0.node && (g0 != h0 ==> g != h)
    ensures (g.node == g0.node && h.node == h0.node) || (g.node == h0.node && h.node == g0.node)
    ensures SameIte(Fn(f), Fn(g), Fn(h), comple, Fn(f0), Fn(g0), Fn(h0))
    ensures topf == dd.Level(f.node) && topg == dd.Level(g.node) && toph == dd.Level(h.node)
  {
    f, g, h := f0, g0, h0;
    if f.comp {
      f, g, h := PNot(f), h, g;
    }
    comple := g.comp;
    if g.comp {
      g, h := PNot(g), PNot(h);
    }
    topf, topg, toph := dd.Level(f.node), dd.Level(g.node), dd.Level(h.node);
  }

  /** The recursion on non-constant operands, the first two of them regular, and their levels. */
  method IteCanonical(dd: Manager, f: Ptr, g: Ptr, h: Ptr, topf: nat, topg: nat, toph: nat)
    returns (r: Outcome)
    requires topf == dd.Level(f.node) && topg == dd.Level(g.node) && toph == dd.Level(h.node)
    requires dd.Valid() && dd.HasBdd(f) && dd.HasBdd(g) && dd.HasBdd(h)
    requires !f.comp && !g.comp && g != h
    requires f.node != dd.one && g.node != dd.one && h.node != dd.one
    modifies dd, dd.table, dd.table.slots
    ensures dd.Valid() && dd.Continues()
    ensures r.Null? ==> dd.Full()
    ensures r.Ok? ==> dd.HasBdd(r.ptr) && IsIte(Fn(r.ptr), Fn(f), Fn(g), Fn(h))
    decreases Rank3(dd.perm, Fn(f), Fn(g), Fn(h)), 1
  {
    hide Manager.Valid, Manager.ClipsExact, Manager.Vouched, ComputedTable.Hits, BddNode, Eval, IsOrder, IsIte;
    dd.Constants(f);
    dd.Constants(g);
    dd.Constants(h);
    var v := Min(topg, toph);
    if topf < v && f.node.kind.T == dd.True() && f.node.kind.E == dd.False() {
      r := IteOnVariable(dd, f, g, h);
      return;
    }
    var hit := dd.Lookup(IteKey(f, g, h));
    if hit.Some? {
      return Ok(hit.value);
    }
    var index := f.node.kind.index;
    if topg == v && v < topf {
      index := g.node.kind.index;
    } else if v < topf {
      index := h.node.kind.index;
    }
    var b :- IteAt(dd, index, f, g, h);
    dd.Insert(IteKey(f, g, h), b);
    r := Ok(b);
  }

  /** When the condition is a variable above both branches, the result is one node. */
  method IteOnVariable(dd: Manager, f: Ptr, g: Ptr, h: Ptr) returns (r: Outcome)
    requires dd.Valid() && dd.HasBdd(f) && dd.HasBdd(g) && dd.HasBdd(h)
    requires !f.comp && !g.comp && g != h && f.node != dd.one
    requires f.node.kind.Internal? && f.node.kind.T == dd.True() && f.node.kind.E == dd.False()
    requires Top(dd.perm, Fn(f).node) < Top(dd.perm, Fn(g).node)
    requires Top(dd.perm, Fn(f).node) < Top(dd.perm, Fn(h).node)
    modifies dd, dd.table, dd.table.slots
    ensures dd.Valid() && dd.Continues()
    ensures r.Null? ==> dd.Full()
    ensures r.Ok? ==> dd.HasBdd(r.ptr) && IsIte(Fn(r.ptr), Fn(f), Fn(g), Fn(h))
  {
    hide Manager.Valid, Manager.ClipsExact, Manager.Vouched, ComputedTable.Hits, BddNode, IsIte, IsOrder;
    dd.Constants(f);
    dd.Children(f);
    dd.Constants(g);
    dd.Constants(h);
    dd.PointerEquality(g, h);
    r := dd.UniqueInter(f.node.kind.index, g, h);
    if r.Ok? {
      IteOfVariable(Fn(r.ptr), f.node.kind.index, Fn(g), Fn(h));
    }
  }

  /** Recurs on the cofactors at the given variable and joins the results. */
  method IteAt(dd: Manager, index: nat, f: Ptr, g: Ptr, h: Ptr) returns (r: Outcome)
    requires dd.Valid() && dd.HasBdd(f) && dd.HasBdd(g) && dd.HasBdd(h)
    requires !f.comp && !g.comp && index < |dd.perm|
    requires dd.perm[index] ==
             Min(Top(dd.perm, Fn(f).node), Min(Top(dd.perm, Fn(g).node), Top(dd.perm, Fn(h).node)))
    modifies dd, dd.table, dd.table.slots
    ensures dd.Valid() && dd.Continues()
    ensures r.Null? ==> dd.Full()
    ensures r.Ok? ==> dd.HasBdd(r.ptr) && IsIte(Fn(r.ptr), Fn(f), Fn(g), Fn(h))
    decreases Rank3(dd.perm, Fn(f), Fn(g), Fn(h)), 0
  {
    hide Manager.Valid, Manager.ClipsExact, Manager.Vouched, ComputedTable.Hits, BddNode, Eval, IsOrder, IsIte,
      IsBranch, Top, Cof, Rank3, Min;
    var fv, fnv, gv, gnv, hv, hnv := Split3(dd, index, f, g, h);
    var t :- BddIteRecur(dd, fv, gv, hv);
    var e :- BddIteRecur(dd, fnv, gnv, hnv);
    IteBelow(dd.perm, index, Fn(t), Fn(fv), Fn(gv), Fn(hv));
    IteBelow(dd.perm, index, Fn(e), Fn(fnv), Fn(gnv), Fn(hnv));
    // t needs no test for the complement bit: it is 1 at all ones, because fv and gv are
    IteRegular(dd.perm, Fn(t), Fn(fv), Fn(gv), Fn(hv));
    var b :- IteNode(dd, index, t, e);
    IteStep(index, Fn(f), Fn(g), Fn(h), Fn(t), Fn(e), Fn(b));
    r := Ok(b);
  }

  /** An if-then-else of operands below a variable stays below it. */
  lemma IteBelow(perm: seq<nat>, i: nat, r: Edge, f: Edge, g: Edge, h: Edge)
    requires IsOrder(perm) && Bdd(perm, r) && Bdd(perm, f) && Bdd(perm, g) && Bdd(perm, h)
    requires IsIte(r, f, g, h) && i < |perm|
    requires perm[i] < Top(perm, f.node) && perm[i] < Top(perm, g.node) && perm[i] < Top(perm, h.node)
    ensures perm[i] < Top(perm, r.node)
  {
    IteTop(perm, r, f, g, h);
  }

  /** Splits three operands at the highest of their top variables. */
  method Split3(dd: Manager, index: nat, f: Ptr, g: Ptr, h: Ptr)
    returns (fv: Ptr, fnv: Ptr, gv: Ptr, gnv: Ptr, hv: Ptr, hnv: Ptr)
    requires dd.Valid() && dd.HasBdd(f) && dd.HasBdd(g) && dd.HasBdd(h) && index < |dd.perm|
    requires dd.perm[index] ==
             Min(Top(dd.perm, Fn(f).node), Min(Top(dd.perm, Fn(g).node), Top(dd.perm, Fn(h).node)))
    ensures dd.HasBdd(fv) && dd.HasBdd(fnv) && dd.HasBdd(gv) && dd.HasBdd(gnv) && dd.HasBdd(hv) && dd.HasBdd(hnv)
    ensures Fn(fv) == Cof(Fn(f), index, true) && Fn(fnv) == Cof(Fn(f), index, false)
    ensures Fn(gv) == Cof(Fn(g), index, true) && Fn(gnv) == Cof(Fn(g), index, false)
    ensures Fn(hv) == Cof(Fn(h), index, true) && Fn(hnv) == Cof(Fn(h), index, false)
    ensures fv.comp == f.comp && gv.comp == g.comp
    ensures dd.perm[index] < Top(dd.perm, Fn(fv).node) && dd.perm[index] < Top(dd.perm, Fn(fnv).node)
    ensures dd.perm[index] < Top(dd.perm, Fn(gv).node) && dd.perm[index] < Top(dd.perm, Fn(gnv).node)
    ensures dd.perm[index] < Top(dd.perm, Fn(hv).node) && dd.perm[index] < Top(dd.perm, Fn(hnv).node)
    ensures Rank3(dd.perm, Fn(fv), Fn(gv), Fn(hv)) < Rank3(dd.perm, Fn(f), Fn(g), Fn(h))
    ensures Rank3(dd.perm, Fn(fnv), Fn(gnv), Fn(hnv)) < Rank3(dd.perm, Fn(f), Fn(g), Fn(h))
  {
    hide Manager.Valid, Manager.ClipsExact, Manager.Vouched, ComputedTable.Hits, BddNode, IsOrder, Cof, Top;
    fv, fnv := dd.Cofactors(f, index);
    gv, gnv := dd.Cofactors(g, index);
    hv, hnv := dd.Cofactors(h, index);
  }

  /** The node for a regular then-child, built without looking at its complement bit. */
  method IteNode(dd: Manager, index: nat, t: Ptr, e: Ptr) returns (r: Outcome)
    requires dd.Valid() && dd.HasBdd(t) && dd.HasBdd(e) && index < |dd.perm| && !t.comp
    requires dd.perm[index] < Top(dd.perm, Fn(t).node) && dd.perm[index] < Top(dd.perm, Fn(e).node)
    modifies dd`unique, dd`nodes
    ensures dd.Valid() && dd.Continues()
    ensures r.Null? ==> dd.Full()
    ensures r.Ok? ==> dd.HasBdd(r.ptr) && IsBranch(Fn(r.ptr), index, Fn(t), Fn(e))
  {
    hide Manager.Valid, Manager.ClipsExact, Manager.Vouched, ComputedTable.Hits, BddNode, Eval, IsOrder, IsBranch, Top;
    BranchOfNode(index, Fn(t), Fn(e));
    if t == e {
      r := Ok(t);
    } else {
      dd.PointerEquality(t, e);
      r := dd.UniqueInter(index, t, e);
    }
  }
}
