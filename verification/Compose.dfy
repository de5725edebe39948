/** Composition, simultaneous substitution, renaming, and the registered variable map. */
module Compose {
  import opened Diagrams
  import opened Semantics
  import opened ComputedTables
  import opened Managers
  import opened BddIte

  /* ---------- composition at one variable ---------- */

  method BddCompose(dd: Manager, f: Ptr, g: Ptr, v: int) returns (r: Outcome)
    requires dd.Valid() && dd.HasBdd(f) && dd.HasBdd(g)
    modifies dd, dd.table, dd.table.slots
    ensures dd.Valid() && dd.Continues()
    ensures r.Null? ==> dd.Full() || v < 0 || v >= |dd.vars|
    ensures r.Ok? ==> 0 <= v < |dd.vars| && dd.HasBdd(r.ptr) && IsCompose(Fn(r.ptr), Fn(f), Fn(g), v)
  {
    if v < 0 || v >= |dd.vars| {
      return Null;
    }
    dd.Projection(v);
    r := BddComposeRecur(dd, f, g, dd.VarPtr(v));
  }

  method BddComposeRecur(dd: Manager, f: Ptr, g: Ptr, proj: Ptr) returns (r: Outcome)
    requires dd.Valid() && dd.HasBdd(f) && dd.HasBdd(g) && dd.HasBdd(proj) && proj.node != dd.one
    modifies dd, dd.table, dd.table.slots
    ensures dd.Valid() && dd.Continues()
    ensures r.Null? ==> dd.Full()
    ensures r.Ok? ==> dd.HasBdd(r.ptr) && IsCompose(Fn(r.ptr), Fn(f), Fn(g), Fn(proj).node.index)
    decreases Rank(dd.perm, Fn(f), Fn(g)), 1
  {
    hide Manager.Valid, Manager.ClipsExact, Manager.Vouched, ComputedTable.Hits, BddNode, Eval, IsCompose;
    dd.Constants(f);
    dd.Constants(proj);
    var v := proj.node.kind.index;
    if dd.Level(f.node) > dd.perm[v] {
      ComposeBelow(dd.perm, Fn(f), Fn(g), v);
      return Ok(f);
    }
    // solved for the regular pointer, then complemented like f
    var reg := Regular(f);
    var hit := dd.Lookup(ComposeKey(reg, g, proj));
    if hit.Some? {
      ComposeComplement(Fn(hit.value), Fn(reg), Fn(g), v, f.comp);
      return Ok(PNotCond(hit.value, f.comp));
    }
    var b: Ptr;
    if dd.Level(reg.node) == dd.perm[v] {
      b :- ComposeHere(dd, reg, g, v);
    } else {
      b :- ComposeSplit(dd, reg, g, proj);
    }
    dd.Insert(ComposeKey(reg, g, proj), b);
    ComposeComplement(Fn(b), Fn(reg), Fn(g), v, f.comp);
    r := Ok(PNotCond(b, f.comp));
  }

  /** v is the top variable of f: put g in its place. */
  method ComposeHere(dd: Manager, f: Ptr, g: Ptr, v: nat) returns (r: Outcome)
    requires dd.Valid() && dd.HasBdd(f) && !f.comp && dd.HasBdd(g) && f.node != dd.one
    requires v < |dd.perm| && Top(dd.perm, Fn(f).node) == dd.perm[v]
    modifies dd, dd.table, dd.table.slots
    ensures dd.Valid() && dd.Continues()
    ensures r.Null? ==> dd.Full()
    ensures r.Ok? ==> dd.HasBdd(r.ptr) && IsCompose(Fn(r.ptr), Fn(f), Fn(g), v)
  {
    hide Manager.Valid, Manager.ClipsExact, Manager.Vouched, ComputedTable.Hits, BddNode, Eval, IsCompose, IsIte;
    dd.Constants(f);
    var t, e := dd.Cofactors(f, v);
    var n :- BddIteRecur(dd, g, t, e);
    Semantics.ComposeHere(dd.perm, Fn(f), Fn(g), v, Fn(n));
    r := Ok(n);
  }

  /** v lies below the top of f: descend f and g together. */
  method ComposeSplit(dd: Manager, f: Ptr, g: Ptr, proj: Ptr) returns (r: Outcome)
    requires dd.Valid() && dd.HasBdd(f) && dd.HasBdd(g) && dd.HasBdd(proj) && proj.node != dd.one
    requires f.node != dd.one && Top(dd.perm, Fn(f).node) < Top(dd.perm, Fn(proj).node)
    modifies dd, dd.table, dd.table.slots
    ensures dd.Valid() && dd.Continues()
    ensures r.Null? ==> dd.Full()
    ensures r.Ok? ==> dd.HasBdd(r.ptr) && IsCompose(Fn(r.ptr), Fn(f), Fn(g), Fn(proj).node.index)
    decreases Rank(dd.perm, Fn(f), Fn(g)), 0
  {
    hide Manager.Valid, Manager.ClipsExact, Manager.Vouched, ComputedTable.Hits, BddNode, Eval, IsOrder, IsCompose,
      IsIte, Cof;
    dd.Constants(proj);
    var index, ft, fe, gt, ge := dd.Split(f, g);
    var t :- BddComposeRecur(dd, ft, gt, proj);
    var e :- BddComposeRecur(dd, fe, ge, proj);
    dd.Projection(index);
    var n :- BddIteRecur(dd, dd.VarPtr(index), t, e);
    ComposeStep(index, Fn(proj).node.index, Fn(f), Fn(g), Fn(t), Fn(e), Fn(n));
    r := Ok(n);
  }

  /* ---------- local tables ---------- */

  datatype Item = Item(value: Ptr, count: int)

  /** The table of one call: an entry disappears once it has been used as often as it is shared. */
  class LocalTable {
    var items: map<DdNode, Item>

    constructor ()
      ensures items == map[]
    {
      items := map[];
    }

    method Lookup1(n: DdNode) returns (r: Option<Ptr>)
      modifies this
      ensures r.Some? ==> n in old(items) && r.value == old(items)[n].value
      ensures r.None? ==> n !in old(items)
      ensures forall m :: m in items ==> m in old(items) && items[m].value == old(items)[m].value
    {
      if n !in items {
        return None;
      }
      var item := items[n];
      if item.count - 1 == 0 {
        items := items - {n};
      } else {
        items := items[n := Item(item.value, item.count - 1)];
      }
      r := Some(item.value);
    }

    method Insert1(n: DdNode, value: Ptr, count: int)
      modifies this
      ensures items == old(items)[n := Item(value, count)]
    {
      items := items[n := Item(value, count)];
    }
  }

  /** Every entry holds its node with sigma substituted. */
  ghost predicate Substituted(
    perm: seq<nat>, nodes: set<DdNode>, items: map<DdNode, Item>, sigma: seq<Edge>)
  {
    forall n :: n in items ==>
      && items[n].value.node in nodes
      && Bdd(perm, Fn(items[n].value))
      && IsSubst(Fn(items[n].value), Edge(false, n.tree), sigma)
  }

  lemma SubstitutedGrows(
    perm: seq<nat>, nodes: set<DdNode>, more: set<DdNode>, items: map<DdNode, Item>, sigma: seq<Edge>)
    requires Substituted(perm, nodes, items, sigma) && nodes <= more
    ensures Substituted(perm, more, items, sigma)
  {
  }

  lemma SubstitutedFewer(
    perm: seq<nat>, nodes: set<DdNode>, items: map<DdNode, Item>, fewer: map<DdNode, Item>,
    sigma: seq<Edge>)
    requires Substituted(perm, nodes, items, sigma)
    requires forall m :: m in fewer ==> m in items && fewer[m].value == items[m].value
    ensures Substituted(perm, nodes, fewer, sigma)
  {
  }

  lemma SubstitutedInsert(
    perm: seq<nat>, nodes: set<DdNode>, items: map<DdNode, Item>, sigma: seq<Edge>,
    n: DdNode, item: Item)
    requires Substituted(perm, nodes, items, sigma)
    requires item.value.node in nodes && Bdd(perm, Fn(item.value))
    requires IsSubst(Fn(item.value), Edge(false, n.tree), sigma)
    ensures Substituted(perm, nodes, items[n := item], sigma)
  {
  }

  lemma SubstitutedAt(
    perm: seq<nat>, nodes: set<DdNode>, items: map<DdNode, Item>, sigma: seq<Edge>, n: DdNode)
    requires Substituted(perm, nodes, items, sigma) && n in items
    ensures items[n].value.node in nodes && Bdd(perm, Fn(items[n].value))
    ensures IsSubst(Fn(items[n].value), Edge(false, n.tree), sigma)
  {
  }

  /** A local table with the entries it may hold. */
  ghost predicate Substitutes(dd: Manager, local: LocalTable, sigma: seq<Edge>)
    reads dd`nodes, local
  {
    Substituted(dd.perm, dd.nodes, local.items, sigma)
  }

  method Recall(dd: Manager, local: LocalTable, n: DdNode, ghost sigma: seq<Edge>)
    returns (r: Option<Ptr>)
    requires Substitutes(dd, local, sigma)
    modifies local
    ensures Substitutes(dd, local, sigma)
    ensures r.Some? ==> dd.HasBdd(r.value) && IsSubst(Fn(r.value), Edge(false, n.tree), sigma)
  {
    if n in local.items {
      SubstitutedAt(dd.perm, dd.nodes, local.items, sigma, n);
    }
    ghost var before := local.items;
    r := local.Lookup1(n);
    SubstitutedFewer(dd.perm, dd.nodes, before, local.items, sigma);
  }

  /** Remembers a result for a shared node. */
  method Record(dd: Manager, local: LocalTable, n: DdNode, value: Ptr, fanout: int, ghost sigma: seq<Edge>)
    requires Substitutes(dd, local, sigma)
    requires dd.HasBdd(value) && IsSubst(Fn(value), Edge(false, n.tree), sigma)
    modifies local
    ensures Substitutes(dd, local, sigma)
  {
    SubstitutedInsert(dd.perm, dd.nodes, local.items, sigma, n, Item(value, fanout));
    local.Insert1(n, value, fanout);
  }

  /** Replaces the variable of a node by v over its two results, and remembers the node. */
  method IteAndRecord(
    dd: Manager, local: LocalTable, reg: Ptr, v: Ptr, t: Ptr, e: Ptr, ghost sigma: seq<Edge>)
    returns (r: Outcome)
    requires dd.Valid() && dd.HasBdd(reg) && !reg.comp && Fn(reg).node.Inner?
    requires dd.HasBdd(v) && dd.HasBdd(t) && dd.HasBdd(e) && Substitutes(dd, local, sigma)
    requires Fn(reg).node.index < |sigma| && Fn(v) == sigma[Fn(reg).node.index]
    requires IsSubst(Fn(t), Then(Fn(reg)), sigma) && IsSubst(Fn(e), Else(Fn(reg)), sigma)
    modifies dd, dd.table, dd.table.slots, local
    ensures dd.Valid() && dd.Continues() && Substitutes(dd, local, sigma)
    ensures r.Null? ==> dd.Full()
    ensures r.Ok? ==> dd.HasBdd(r.ptr) && IsSubst(Fn(r.ptr), Fn(reg), sigma)
  {
    hide Manager.Valid, Manager.ClipsExact, Manager.Vouched, ComputedTable.Hits, BddNode, Eval, IsOrder, IsSubst,
      IsIte, Substituted;
    ghost var nodes := dd.nodes;
    r := BddIteRecur(dd, v, t, e);
    SubstitutedGrows(dd.perm, nodes, dd.nodes, local.items, sigma);
    if r.Ok? {
      SubstStep(Fn(reg), sigma, Fn(t), Fn(e), Fn(r.ptr));
      if * {
        var fanout: int := *;
        Record(dd, local, reg.node, r.ptr, fanout, sigma);
      }
    }
  }

  /* ---------- simultaneous substitution ---------- */

  ghost function Fns(vector: seq<Ptr>): seq<Edge> {
    seq(|vector|, i requires 0 <= i < |vector| => Fn(vector[i]))
  }

  ghost predicate IsVector(dd: Manager, vector: seq<Ptr>)
    reads dd`nodes
  {
    |vector| == |dd.perm| && forall i :: 0 <= i < |vector| ==> dd.HasBdd(vector[i])
  }

  method BddVectorCompose(dd: Manager, f: Ptr, vector: seq<Ptr>) returns (r: Outcome)
    requires dd.Valid() && dd.HasBdd(f) && IsVector(dd, vector)
    modifies dd, dd.table, dd.table.slots
    ensures dd.Valid() && dd.Continues()
    ensures r.Null? ==> dd.Full()
    ensures r.Ok? ==> dd.HasBdd(r.ptr) && IsSubst(Fn(r.ptr), Fn(f), Fns(vector))
  {
    var local := new LocalTable();
    var deepest := Deepest(dd, vector);
    r := BddVectorComposeRecur(dd, local, f, vector, deepest);
  }

  /** The deepest level with a proper substitution, or -1. */
  method Deepest(dd: Manager, vector: seq<Ptr>) returns (deepest: int)
    requires dd.Valid() && IsVector(dd, vector)
    ensures -1 <= deepest < |dd.perm|
    ensures forall i :: 0 <= i < |dd.perm| && deepest < dd.perm[i] ==> vector[i] == dd.VarPtr(i)
    ensures deepest >= 0 ==>
              exists i :: 0 <= i < |dd.perm| && dd.perm[i] == deepest && vector[i] != dd.VarPtr(i)
  {
    deepest := |dd.perm| - 1;
    while deepest >= 0
      invariant -1 <= deepest < |dd.perm|
      invariant forall i :: 0 <= i < |dd.perm| && deepest < dd.perm[i] ==> vector[i] == dd.VarPtr(i)
    {
      var i := dd.invperm[deepest];
      if vector[i] != dd.VarPtr(i) {
        return;
      }
      deepest := deepest - 1;
    }
  }

  method BddVectorComposeRecur(
    dd: Manager, local: LocalTable, f: Ptr, vector: seq<Ptr>, deepest: int) returns (r: Outcome)
    requires dd.Valid() && dd.HasBdd(f) && IsVector(dd, vector)
    requires deepest < |dd.perm|
    requires forall i :: 0 <= i < |dd.perm| && deepest < dd.perm[i] ==> vector[i] == dd.VarPtr(i)
    requires Substitutes(dd, local, Fns(vector))
    modifies dd, dd.table, dd.table.slots, local
    ensures dd.Valid() && dd.Continues()
    ensures Substitutes(dd, local, Fns(vector))
    ensures r.Null? ==> dd.Full()
    ensures r.Ok? ==> dd.HasBdd(r.ptr) && IsSubst(Fn(r.ptr), Fn(f), Fns(vector))
    decreases Rank(dd.perm, Fn(f), ONE), 1
  {
    hide Manager.Valid, Manager.ClipsExact, Manager.Vouched, ComputedTable.Hits, BddNode, Eval, IsOrder, IsSubst,
      IsIte, Substitutes, Right;
    ghost var sigma := Fns(vector);
    dd.Constants(f);
    if dd.Level(f.node) > deepest {
      forall i | 0 <= i < |dd.perm| && Top(dd.perm, Fn(f).node) <= dd.perm[i] ensures sigma[i] == Var(i) {
        dd.Projection(i);
      }
      SubstCutOff(dd.perm, Fn(f), sigma);
      return Ok(f);
    }
    var reg := Regular(f);
    var hit := Recall(dd, local, reg.node, sigma);
    if hit.Some? {
      SubstComplement(Fn(hit.value), Fn(reg), sigma, f.comp);
      return Ok(PNotCond(hit.value, f.comp));
    }
    var n :- VectorComposeNode(dd, local, reg, vector, deepest);
    SubstComplement(Fn(n), Fn(reg), sigma, f.comp);
    r := Ok(PNotCond(n, f.comp));
  }

  /** Substitutes in the children of a regular node and joins them. */
  method VectorComposeNode(
    dd: Manager, local: LocalTable, reg: Ptr, vector: seq<Ptr>, deepest: int) returns (r: Outcome)
    requires dd.Valid() && dd.HasBdd(reg) && !reg.comp && reg.node != dd.one && IsVector(dd, vector)
    requires deepest < |dd.perm|
    requires forall i :: 0 <= i < |dd.perm| && deepest < dd.perm[i] ==> vector[i] == dd.VarPtr(i)
    requires Substitutes(dd, local, Fns(vector))
    modifies dd, dd.table, dd.table.slots, local
    ensures dd.Valid() && dd.Continues()
    ensures Substitutes(dd, local, Fns(vector))
    ensures r.Null? ==> dd.Full()
    ensures r.Ok? ==> dd.HasBdd(r.ptr) && IsSubst(Fn(r.ptr), Fn(reg), Fns(vector))
    decreases Rank(dd.perm, Fn(reg), ONE), 0
  {
    hide Manager.Valid, Manager.ClipsExact, Manager.Vouched, ComputedTable.Hits, BddNode, Eval, IsOrder, IsSubst,
      IsIte, Substitutes, Right;
    dd.Constants(reg);
    var index := reg.node.kind.index;
    var ft, fe := dd.Cofactors(reg, index);
    var t :- BddVectorComposeRecur(dd, local, ft, vector, deepest);
    var e :- BddVectorComposeRecur(dd, local, fe, vector, deepest);
    r := IteAndRecord(dd, local, reg, vector[index], t, e, Fns(vector));
  }

  /* ---------- renaming ---------- */

  /** Replaces variable i by variable permut[i]. */
  method BddPermute(dd: Manager, f: Ptr, permut: seq<nat>) returns (r: Outcome)
    requires dd.Valid() && dd.HasBdd(f) && IsRenaming(dd.perm, permut)
    modifies dd, dd.table, dd.table.slots
    ensures dd.Valid() && dd.Continues()
    ensures r.Null? ==> dd.Full()
    ensures r.Ok? ==> dd.HasBdd(r.ptr) && IsSubst(Fn(r.ptr), Fn(f), Renaming(permut))
  {
    var local := new LocalTable();
    r := BddPermuteRecur(dd, local, f, permut);
  }

  method BddPermuteRecur(dd: Manager, local: LocalTable, f: Ptr, permut: seq<nat>) returns (r: Outcome)
    requires dd.Valid() && dd.HasBdd(f) && IsRenaming(dd.perm, permut)
    requires Substitutes(dd, local, Renaming(permut))
    modifies dd, dd.table, dd.table.slots, local
    ensures dd.Valid() && dd.Continues()
    ensures Substitutes(dd, local, Renaming(permut))
    ensures r.Null? ==> dd.Full()
    ensures r.Ok? ==> dd.HasBdd(r.ptr) && IsSubst(Fn(r.ptr), Fn(f), Renaming(permut))
    decreases Rank(dd.perm, Fn(f), ONE), 1
  {
    hide Manager.Valid, Manager.ClipsExact, Manager.Vouched, ComputedTable.Hits, BddNode, Eval, IsOrder, IsSubst,
      IsIte, Substitutes, Right;
    ghost var sigma := Renaming(permut);
    dd.Constants(f);
    if f.node.kind.Constant? {
      SubstConstant(Fn(f), sigma);
      return Ok(f);
    }
    var reg := Regular(f);
    if * {
      var hit := Recall(dd, local, reg.node, sigma);
      if hit.Some? {
        SubstComplement(Fn(hit.value), Fn(reg), sigma, f.comp);
        return Ok(PNotCond(hit.value, f.comp));
      }
    }
    var n :- PermuteNode(dd, local, reg, permut);
    SubstComplement(Fn(n), Fn(reg), sigma, f.comp);
    r := Ok(PNotCond(n, f.comp));
  }

  /** Renames the children of a regular node and joins them at the new variable. */
  method PermuteNode(dd: Manager, local: LocalTable, reg: Ptr, permut: seq<nat>) returns (r: Outcome)
    requires dd.Valid() && dd.HasBdd(reg) && !reg.comp && reg.node != dd.one && IsRenaming(dd.perm, permut)
    requires Substitutes(dd, local, Renaming(permut))
    modifies dd, dd.table, dd.table.slots, local
    ensures dd.Valid() && dd.Continues()
    ensures Substitutes(dd, local, Renaming(permut))
    ensures r.Null? ==> dd.Full()
    ensures r.Ok? ==> dd.HasBdd(r.ptr) && IsSubst(Fn(r.ptr), Fn(reg), Renaming(permut))
    decreases Rank(dd.perm, Fn(reg), ONE), 0
  {
    hide Manager.Valid, Manager.ClipsExact, Manager.Vouched, ComputedTable.Hits, BddNode, Eval, IsOrder, IsSubst,
      IsIte, Substitutes, Right;
    dd.Constants(reg);
    var index := reg.node.kind.index;
    var ft, fe := dd.Cofactors(reg, index);
    var t :- BddPermuteRecur(dd, local, ft, permut);
    var e :- BddPermuteRecur(dd, local, fe, permut);
    dd.Projection(permut[index]);
    r := IteAndRecord(dd, local, reg, dd.VarPtr(permut[index]), t, e, Renaming(permut));
  }

  ghost predicate AreVars(dd: Manager, x: seq<Ptr>)
    reads dd`nodes
  {
    forall i :: 0 <= i < |x| ==> dd.HasBdd(x[i]) && Fn(x[i]).node.Inner?
  }

  ghost function Indices(x: seq<Ptr>): seq<nat>
  {
    seq(|x|, i requires 0 <= i < |x| => if Fn(x[i]).node.Inner? then Fn(x[i]).node.index else 0)
  }

  /** Fills an array with the identity, then exchanges each x with its y. */
  method FillExchange(dd: Manager, x: seq<Ptr>, y: seq<Ptr>, mapping: array<nat>)
    requires dd.Valid() && AreVars(dd, x) && AreVars(dd, y) && |x| == |y|
    requires mapping.Length == |dd.perm|
    modifies mapping
    ensures IsExchange(mapping[..], |dd.perm|, Indices(x), Indices(y))
  {
    hide BddNode, Manager.Valid, Manager.ClipsExact, Manager.Vouched, ComputedTable.Hits;
    forall i | 0 <= i < |x|
      ensures x[i].node.kind.Internal? && x[i].node.kind.index == Indices(x)[i] < |dd.perm|
      ensures y[i].node.kind.Internal? && y[i].node.kind.index == Indices(y)[i] < |dd.perm|
    {
      dd.Constants(x[i]);
      dd.Constants(y[i]);
    }
    var size := mapping.Length;
    for i := 0 to size
      invariant forall j :: 0 <= j < i ==> mapping[j] == j
    {
      mapping[i] := i;
    }
    assert mapping[..] == IdentityMap(size);
    for i := 0 to |x|
      invariant mapping[..] == Exchange(IdentityMap(size), Indices(x)[..i], Indices(y)[..i])
    {
      ghost var before := mapping[..];
      var j := x[i].node.kind.index;
      var k := y[i].node.kind.index;
      mapping[j] := k;
      mapping[k] := j;
      assert mapping[..] == before[j := k][k := j];
      assert Indices(x)[..i + 1][..i] == Indices(x)[..i];
      assert Indices(y)[..i + 1][..i] == Indices(y)[..i];
    }
    assert Indices(x)[..|x|] == Indices(x) && Indices(y)[..|x|] == Indices(y);
  }

  method BddSwapVariables(dd: Manager, f: Ptr, x: seq<Ptr>, y: seq<Ptr>) returns (r: Outcome)
    requires dd.Valid() && dd.HasBdd(f) && AreVars(dd, x) && AreVars(dd, y) && |x| == |y|
    modifies dd, dd.table, dd.table.slots
    ensures dd.Valid() && dd.Continues()
    ensures r.Null? ==> dd.Full()
    ensures r.Ok? ==> dd.HasBdd(r.ptr) && IsSwap(Fn(r.ptr), Fn(f), |dd.perm|, Indices(x), Indices(y))
  {
    hide BddNode, Manager.Valid, Manager.ClipsExact, Manager.Vouched, ComputedTable.Hits, IsSubst;
    var permut := new nat[|dd.perm|];
    FillExchange(dd, x, y, permut);
    r := BddPermute(dd, f, permut[..]);
  }

  /* ---------- the registered variable map ---------- */

  /** Registers a map. Replacing an earlier one flushes the cache: its entries were computed with the
      old map. The first registration need not. */
  method SetVarMap(dd: Manager, x: seq<Ptr>, y: seq<Ptr>)
    requires dd.Valid() && AreVars(dd, x) && AreVars(dd, y) && |x| == |y|
    modifies dd`varMap, dd.table, dd.table.slots
    ensures dd.Valid() && dd.nodes == old(dd.nodes) && dd.unique == old(dd.unique)
    ensures dd.table.slots == old(dd.table.slots)
    ensures dd.varMap.Some? && IsExchange(dd.varMap.value, |dd.perm|, Indices(x), Indices(y))
  {
    hide BddNode, Manager.Valid, Manager.ClipsExact, Manager.Vouched, ComputedTable.Hits;
    if dd.varMap.Some? {
      dd.FlushCache();
    }
    var mapping := new nat[|dd.perm|];
    FillExchange(dd, x, y, mapping);
    dd.RegisterMap(mapping[..]);
  }

  /** Nothing less than the flush will do: every memory that is right for one map is right for another
      exactly when the maps are the same. Otherwise the renaming of a single variable on which they
      differ may have been remembered. */
  lemma FlushNeeded(dd: Manager, m: seq<nat>, q: seq<nat>)
    requires dd.Valid() && IsRenaming(dd.perm, m) && IsRenaming(dd.perm, q)
    ensures (forall contents: map<Key, Ptr> ::
               Remembers(dd.perm, dd.nodes, contents, Some(m)) ==>
               Remembers(dd.perm, dd.nodes, contents, Some(q))) <==> m == q
  {
    hide Manager.Valid, Manager.ClipsExact, Manager.Vouched, ComputedTable.Hits, BddNode;
    if m != q {
      var i :| 0 <= i < |m| && m[i] != q[i];
      dd.Projection(i);
      dd.Projection(m[i]);
      dd.Projection(q[i]);
      var contents := map[VarMapKey(dd.VarPtr(i)) := dd.VarPtr(m[i])];
      RenamedVariable(m, i, m[i]);
      RenamedVariable(q, i, m[i]);
      assert Remembers(dd.perm, dd.nodes, contents, Some(m));
      assert VarMapKey(dd.VarPtr(i)) in contents;
    }
  }

  /** A variable is the image of another exactly when the map says so. */
  lemma RenamedVariable(m: seq<nat>, i: nat, j: nat)
    requires i < |m|
    ensures IsSubst(Var(j), Var(i), Renaming(m)) <==> j == m[i]
  {
    forall a: Assignment ensures Eval(Var(j), a) == (j in a)
      ensures Eval(Var(i), Image(Renaming(m), a)) == (m[i] in a)
    {
      VarEval(j, a);
      VarEval(i, Image(Renaming(m), a));
      VarEval(m[i], a);
    }
    var a: Assignment := iset{j};
    assert Eval(Var(j), a) && (Eval(Var(i), Image(Renaming(m), a)) <==> j == m[i]);
  }

  method BddVarMap(dd: Manager, f: Ptr) returns (r: Outcome)
    requires dd.Valid() && dd.HasBdd(f)
    modifies dd, dd.table, dd.table.slots
    ensures dd.Valid() && dd.Continues()
    ensures r.Null? ==> dd.Full() || dd.varMap == None
    ensures r.Ok? ==>
              dd.varMap.Some? && dd.HasBdd(r.ptr) && IsSubst(Fn(r.ptr), Fn(f), Renaming(dd.varMap.value))
  {
    if dd.varMap == None {
      return Null;
    }
    r := BddVarMapRecur(dd, f);
  }

  method BddVarMapRecur(dd: Manager, f: Ptr) returns (r: Outcome)
    requires dd.Valid() && dd.HasBdd(f) && dd.varMap.Some? && IsRenaming(dd.perm, dd.varMap.value)
    modifies dd, dd.table, dd.table.slots
    ensures dd.Valid() && dd.Continues()
    ensures r.Null? ==> dd.Full()
    ensures r.Ok? ==> dd.HasBdd(r.ptr) && IsSubst(Fn(r.ptr), Fn(f), Renaming(dd.varMap.value))
    decreases Rank(dd.perm, Fn(f), ONE), 1
  {
    hide Manager.Valid, Manager.ClipsExact, Manager.Vouched, ComputedTable.Hits, BddNode, Eval, IsOrder, IsSubst, IsIte;
    var permut := dd.varMap.value;
    ghost var sigma := Renaming(permut);
    dd.Constants(f);
    if f.node.kind.Constant? {
      SubstConstant(Fn(f), sigma);
      return Ok(f);
    }
    var reg := Regular(f);
    if * {
      var hit := dd.Lookup(VarMapKey(reg));
      if hit.Some? {
        SubstComplement(Fn(hit.value), Fn(reg), sigma, f.comp);
        return Ok(PNotCond(hit.value, f.comp));
      }
    }
    var n :- VarMapNode(dd, reg);
    if * {
      dd.Insert(VarMapKey(reg), n);
    }
    SubstComplement(Fn(n), Fn(reg), sigma, f.comp);
    r := Ok(PNotCond(n, f.comp));
  }

  /** Renames the children of a regular node and joins them at the new variable. */
  method VarMapNode(dd: Manager, reg: Ptr) returns (r: Outcome)
    requires dd.Valid() && dd.HasBdd(reg) && !reg.comp && reg.node.kind.Internal?
    requires dd.varMap.Some? && IsRenaming(dd.perm, dd.varMap.value)
    modifies dd, dd.table, dd.table.slots
    ensures dd.Valid() && dd.Continues()
    ensures r.Null? ==> dd.Full()
    ensures r.Ok? ==> dd.HasBdd(r.ptr) && IsSubst(Fn(r.ptr), Fn(reg), Renaming(dd.varMap.value))
    decreases Rank(dd.perm, Fn(reg), ONE), 0
  {
    hide Manager.Valid, Manager.ClipsExact, Manager.Vouched, ComputedTable.Hits, BddNode, Eval, IsOrder, IsSubst, IsIte;
    var permut := dd.varMap.value;
    dd.Constants(reg);
    var index := reg.node.kind.index;
    var ft, fe := dd.Cofactors(reg, index);
    var t :- BddVarMapRecur(dd, ft);
    var e :- BddVarMapRecur(dd, fe);
    dd.Projection(permut[index]);
    var n :- BddIteRecur(dd, dd.VarPtr(permut[index]), t, e);
    SubstStep(Fn(reg), Renaming(permut), Fn(t), Fn(e), Fn(n));
    r := Ok(n);
  }
}
