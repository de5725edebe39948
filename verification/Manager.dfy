/** The manager: nodes shared through the unique table, and the computed table that remembers the
    results of operations on them. */
module Managers {
  import opened Diagrams
  import opened Semantics
  import opened ComputedTables
  import opened Cuts
  import Orders

  /** A pointer to a node with the complement attribute in its low bit. */
  datatype Ptr = Ptr(comp: bool, node: DdNode)

  /** What a node stores: the value of a constant, or its index and children. */
  datatype Kind = Constant(value: Value) | Internal(index: nat, T: Ptr, E: Ptr)

  /** The collision-list pointer of a node; traversals borrow its complement bit as a mark. */
  datatype Link = Link(comp: bool, to: DdNode?)

  class DdNode {
    const kind: Kind
    /** The diagram below this node. */
    ghost const tree: Node
    var next: Link

    constructor (kind: Kind)
      ensures this.kind == kind && tree == TreeOf(kind) && next == Link(false, null)
    {
      this.kind := kind;
      this.tree := TreeOf(kind);
      this.next := Link(false, null);
    }
  }

  /** The edge a pointer stands for. */
  ghost function Fn(p: Ptr): Edge {
    Edge(p.comp, p.node.tree)
  }

  ghost function TreeOf(kind: Kind): Node {
    match kind
    case Constant(v) => Leaf(v)
    case Internal(i, t, e) => Inner(i, Fn(t), Fn(e))
  }

  function PNot(p: Ptr): Ptr {
    Ptr(!p.comp, p.node)
  }

  function PNotCond(p: Ptr, c: bool): Ptr {
    Ptr(p.comp != c, p.node)
  }

  function Regular(p: Ptr): Ptr {
    Ptr(false, p.node)
  }

  /** NULL, or a pointer. NULL propagates through `:-`. */
  datatype Outcome = Null | Ok(ptr: Ptr) {
    predicate IsFailure() {
      Null?
    }

    function PropagateFailure(): Outcome
      requires Null?
    {
      Null
    }

    function Extract(): Ptr
      requires Ok?
    {
      ptr
    }
  }

  /** The operation and operands of a computed-table entry. */
  datatype Key =
    | AndKey(f: Ptr, g: Ptr)
    | XorKey(f: Ptr, g: Ptr)
    | IteKey(f: Ptr, g: Ptr, h: Ptr)
    | LeqKey(f: Ptr, g: Ptr)
    | ExistKey(f: Ptr, cube: Ptr)
    | AndExistKey(f: Ptr, g: Ptr, cube: Ptr)
    | DifferenceKey(f: Ptr, v: Ptr)
    | ClipAndKey(f: Ptr, g: Ptr, over: bool)
    | ClipAndExistKey(f: Ptr, g: Ptr, cube: Ptr, over: bool)
    | ComposeKey(f: Ptr, g: Ptr, proj: Ptr)
    | VarMapKey(f: Ptr)
    | EssentialKey(f: Ptr)
    | LiteralsKey(f: Ptr, g: Ptr)
    | ToAddKey(f: Ptr)
    | ToBddKey(f: Ptr)
    | CmplKey(f: Ptr)
    | AddIteKey(f: Ptr, g: Ptr, h: Ptr)

  /** v is a right answer for the key, whatever computed it. */
  ghost predicate Right(perm: seq<nat>, varMap: Option<seq<nat>>, key: Key, v: Edge) {
    match key
    case AndKey(f, g) => Bdd(perm, v) && IsAnd(v, Fn(f), Fn(g))
    case XorKey(f, g) => Bdd(perm, v) && IsXor(v, Fn(f), Fn(g))
    case IteKey(f, g, h) => Bdd(perm, v) && IsIte(v, Fn(f), Fn(g), Fn(h))
    case LeqKey(f, g) => (v == ONE || v == ZERO) && (v == ONE <==> LessEq(Fn(f), Fn(g)))
    case ExistKey(f, cube) => Bdd(perm, v) && IsExists(v, Fn(f), CubeVars(Fn(cube).node))
    case AndExistKey(f, g, cube) =>
      Bdd(perm, v) && IsAndExists(v, Fn(f), Fn(g), CubeVars(Fn(cube).node))
    case DifferenceKey(f, x) =>
      Bdd(perm, v) && Fn(x).node.Inner? && IsDifference(v, Fn(f), Fn(x).node.index)
    case ClipAndKey(f, g, over) =>
      && Bdd(perm, v) && IsClipped(v, Fn(f), Fn(g), {}, over) && Below(perm, v, Fn(f), Fn(g))
      && (Decided(Fn(f), Fn(g)) ==> IsAnd(v, Fn(f), Fn(g)))
    case ClipAndExistKey(f, g, cube, over) =>
      && Bdd(perm, v) && IsClipped(v, Fn(f), Fn(g), CubeVars(Fn(cube).node), over)
      && Below(perm, v, Fn(f), Fn(g))
    case ComposeKey(f, g, proj) =>
      Bdd(perm, v) && Fn(proj).node.Inner? && IsCompose(v, Fn(f), Fn(g), Fn(proj).node.index)
    case VarMapKey(f) =>
      Bdd(perm, v) && varMap.Some? && IsSubst(v, Fn(f), Renaming(varMap.value))
    case EssentialKey(f) => Bdd(perm, v) && IsEssential(perm, v, Fn(f))
    case LiteralsKey(f, g) => Bdd(perm, v) && IsCommonLiterals(v, Fn(f), Fn(g))
    case ToAddKey(f) => Add(perm, v) && IsIndicator(v.node, Fn(f))
    case ToBddKey(f) => Bdd(perm, v) && IsIndicator(Fn(f).node, v)
    case CmplKey(f) => Add(perm, v) && IsCmpl(v.node, Fn(f).node)
    case AddIteKey(f, g, h) =>
      && Add(perm, v) && Rank3(perm, v, v, v) <= Rank3(perm, Fn(f), Fn(g), Fn(h))
      && (Boolean(Fn(f).node) ==> IsAddIte(v.node, Fn(f).node, Fn(g).node, Fn(h).node))
  }

  /** The answer of an approximating operation is exact. Every other answer is. */
  ghost predicate Exact(key: Key, v: Edge) {
    match key
    case ClipAndKey(f, g, _) => IsAndExists(v, Fn(f), Fn(g), {})
    case ClipAndExistKey(f, g, cube, _) => IsAndExists(v, Fn(f), Fn(g), CubeVars(Fn(cube).node))
    case _ => true
  }

  ghost predicate AllExact(contents: map<Key, Ptr>) {
    forall k :: k in contents ==> Exact(k, Fn(contents[k]))
  }

  /** The approximate conjunction is exact wherever it is trusted to be. */
  ghost predicate Vouches(contents: map<Key, Ptr>, sure: Trust) {
    forall k :: k in contents && k.ClipAndKey? ==> VouchesFor(k, Fn(contents[k]), sure)
  }

  ghost predicate VouchesFor(k: Key, v: Edge, sure: Trust) {
    k.ClipAndKey? ==> forall a: Assignment :: sure(Fn(k.f), Fn(k.g), a) ==> ExactAt(v, Fn(k.f), Fn(k.g), a)
  }

  lemma VouchesOverwrite(
    hash: Key -> Word, s: seq<Entry<Key, Ptr>>, shift: nat, contents: map<Key, Ptr>, key: Key, data: Ptr,
    sure: Trust)
    ensures Vouches(contents, sure) && VouchesFor(key, Fn(data), sure) ==>
              Vouches(Overwrite(hash, s, shift, contents, key, data), sure)
  {
  }

  /** A memory of exact answers can be trusted anywhere. */
  lemma ExactVouches(contents: map<Key, Ptr>, sure: Trust)
    requires AllExact(contents)
    ensures Vouches(contents, sure)
  {
    forall k | k in contents && k.ClipAndKey? ensures VouchesFor(k, Fn(contents[k]), sure) {
      assert Exact(k, Fn(contents[k]));
      AndExistsNothing(Fn(contents[k]), Fn(k.f), Fn(k.g));
    }
  }

  /** r starts no higher than f and g. */
  ghost predicate Below(perm: seq<nat>, r: Edge, f: Edge, g: Edge) {
    Min(Top(perm, f.node), Top(perm, g.node)) <= Top(perm, r.node)
  }

  /** Every node is in canonical form over nodes of the manager, and no two nodes have the same
      diagram: the unique table finds each internal node by its contents. */
  ghost predicate Stored(perm: seq<nat>, nodes: set<DdNode>, unique: map<Kind, DdNode>) {
    && (forall n :: n in nodes ==> WellFormed(perm, nodes, n))
    && (forall m, n :: m in nodes && n in nodes && m.tree == n.tree ==> m == n)
    && (forall k :: k in unique ==> unique[k] in nodes && unique[k].kind == k)
    && (forall n :: n in nodes && n.kind.Internal? ==> n.kind in unique)
  }

  ghost predicate WellFormed(perm: seq<nat>, nodes: set<DdNode>, n: DdNode) {
    && n.tree == TreeOf(n.kind)
    && (n.kind.Internal? ==> n.kind.T.node in nodes && n.kind.E.node in nodes)
    && (BddNode(perm, n.tree) || AddNode(perm, n.tree))
  }

  lemma StoreNew(perm: seq<nat>, node: DdNode, nodes: set<DdNode>, unique: map<Kind, DdNode>)
    requires Stored(perm, nodes, unique) && node.kind.Internal? && node.kind !in unique
    requires WellFormed(perm, nodes, node)
    ensures Stored(perm, nodes + {node}, unique[node.kind := node])
  {
  }

  /** Every entry of the computed table is a right answer over nodes of the manager. */
  ghost predicate Remembers(
    perm: seq<nat>, nodes: set<DdNode>, contents: map<Key, Ptr>, varMap: Option<seq<nat>>)
  {
    && (varMap.Some? ==> IsRenaming(perm, varMap.value))
    && (forall k :: k in contents ==>
          contents[k].node in nodes && Right(perm, varMap, k, Fn(contents[k])))
  }

  lemma RemembersGrows(
    perm: seq<nat>, nodes: set<DdNode>, more: set<DdNode>, contents: map<Key, Ptr>,
    varMap: Option<seq<nat>>)
    requires Remembers(perm, nodes, contents, varMap) && nodes <= more
    ensures Remembers(perm, more, contents, varMap)
  {
  }

  lemma RemembersOverwrite(
    perm: seq<nat>, nodes: set<DdNode>, varMap: Option<seq<nat>>, hash: Key -> Word,
    s: seq<Entry<Key, Ptr>>, shift: nat, contents: map<Key, Ptr>, key: Key, data: Ptr)
    requires Remembers(perm, nodes, contents, varMap)
    requires data.node in nodes && Right(perm, varMap, key, Fn(data))
    ensures Remembers(perm, nodes, Overwrite(hash, s, shift, contents, key, data), varMap)
  {
  }

  lemma AllExactOverwrite(
    hash: Key -> Word, s: seq<Entry<Key, Ptr>>, shift: nat, contents: map<Key, Ptr>, key: Key, data: Ptr)
    ensures AllExact(contents) && Exact(key, Fn(data)) ==>
              AllExact(Overwrite(hash, s, shift, contents, key, data))
  {
  }

  /** The first registration needs no flush: nothing was computed with a map before it. */
  lemma RemembersNewMap(
    perm: seq<nat>, nodes: set<DdNode>, contents: map<Key, Ptr>, varMap: Option<seq<nat>>, m: seq<nat>)
    requires Remembers(perm, nodes, contents, varMap) && IsRenaming(perm, m)
    requires varMap.Some? ==> contents == map[]
    ensures Remembers(perm, nodes, contents, Some(m))
  {
  }

  ghost predicate IsRenaming(perm: seq<nat>, m: seq<nat>) {
    |m| == |perm| && forall i :: 0 <= i < |m| ==> m[i] < |perm|
  }

  /** The level of a node; constants, and nodes without a proper index, lie below every variable. */
  function LevelOf(perm: seq<nat>, n: DdNode): nat {
    if n.kind.Internal? && n.kind.index < |perm| then perm[n.kind.index] else |perm|
  }

  lemma LevelIsTop(perm: seq<nat>, n: DdNode)
    requires n.tree == TreeOf(n.kind)
    ensures LevelOf(perm, n) == Top(perm, n.tree)
  {
  }

  class Manager {
    const perm: seq<nat>
    const invperm: seq<nat>
    /** DD_TRUE. */
    const one: DdNode
    /** DD_FALSE, the ADD leaf. */
    const falseLeaf: DdNode
    /** The projection functions. */
    const vars: seq<DdNode>
    const table: ComputedTable<Key, Ptr>
    /** No node is allocated once the unique table holds this many. */
    const maxLive: nat
    var unique: map<Kind, DdNode>
    var varMap: Option<seq<nat>>
    ghost var nodes: set<DdNode>
    /** Where the approximation under way trusts the remembered ones. */
    ghost var sure: Trust

    /** An empty manager over the given order, with its projection functions. */
    constructor (
      perm: seq<nat>, invperm: seq<nat>, maxLive: nat, hash: Key -> Word,
      cacheSize: nat, maxCacheSize: nat, uniqueSlots: nat, minHit: real)
      requires Orders.Inverse(perm, invperm)
      requires minHit >= 0.0 && uniqueSlots / 2 < 0x1_0000_0000
      requires 0 < cacheSize < 0x1_0000_0000 && maxCacheSize < 0x1_0000_0000
      ensures Valid() && this.perm == perm && this.maxLive == maxLive && varMap == None
      ensures fresh(table) && fresh(table.slots) && table.contents == map[]
    {
      this.perm := perm;
      this.invperm := invperm;
      this.maxLive := maxLive;
      var trueNode := new DdNode(Constant(TRUE));
      var falseNode := new DdNode(Constant(FALSE));
      one := trueNode;
      falseLeaf := falseNode;
      var projections: seq<DdNode> := [];
      var stored: map<Kind, DdNode> := map[];
      ghost var all := {trueNode, falseNode};
      for i := 0 to |perm|
        invariant trueNode in all && falseNode in all && Stored(perm, all, stored)
        invariant |projections| == i
        invariant forall j :: 0 <= j < i ==> projections[j] in all && projections[j].tree == Var(j).node
        invariant forall k :: k in stored ==> k.Internal? && k.index < i
      {
        var kind := Internal(i, Ptr(false, trueNode), Ptr(true, trueNode));
        var node := new DdNode(kind);
        StoreNew(perm, node, all, stored);
        all := all + {node};
        stored := stored[kind := node];
        projections := projections + [node];
      }
      this.vars := projections;
      this.unique := stored;
      this.varMap := None;
      this.nodes := all;
      this.sure := (f, g, a) => false;
      this.table := new ComputedTable(hash, cacheSize, maxCacheSize, uniqueSlots, minHit);
    }

    ghost predicate Valid()
      reads this, table, table.slots
      ensures Valid() ==> IsOrder(perm) && |vars| == |perm|
      ensures Valid() ==> HasBdd(True()) && Fn(True()) == ONE && Fn(False()) == ZERO
    {
      && Permuted()
      && Stored(perm, nodes, unique)
      && Remembers(perm, nodes, table.contents, varMap)
      && table.Valid()
    }

    /** perm and invperm are inverse, and vars holds the projection functions. */
    ghost predicate Permuted()
      reads this
    {
      && Orders.Inverse(perm, invperm) && IsOrder(perm) && |vars| == |perm|
      && one in nodes && one.tree == ONE.node
      && falseLeaf in nodes && falseLeaf.tree == Leaf(FALSE)
      && (forall i :: 0 <= i < |vars| ==> vars[i] in nodes && vars[i].tree == Var(i).node)
    }

    ghost predicate HasBdd(p: Ptr)
      reads this`nodes
    {
      p.node in nodes && Bdd(perm, Fn(p))
    }

    ghost predicate HasAdd(p: Ptr)
      reads this`nodes
    {
      p.node in nodes && Add(perm, Fn(p))
    }

    /** Every remembered approximation is exact. */
    ghost predicate ClipsExact()
      reads table
    {
      AllExact(table.contents)
    }

    ghost predicate Vouched()
      reads this`sure, table
    {
      Vouches(table.contents, sure)
    }

    /** Nodes are never lost, and the variable map and the order stay what they were. */
    twostate predicate Grows()
      reads this, table, table.slots
    {
      && old(nodes) <= nodes
      && varMap == old(varMap)
      && (table.slots == old(table.slots) || fresh(table.slots))
      && old(table.Hits()) <= table.Hits()
    }

    /** Moreover, no inexact approximation has been remembered. */
    twostate predicate Continues()
      reads this, table, table.slots
    {
      && Grows() && sure == old(sure)
      && (old(ClipsExact()) ==> ClipsExact()) && (old(Vouched()) ==> Vouched())
    }

    ghost predicate Full()
      reads this
    {
      |unique| >= maxLive
    }

    function True(): Ptr {
      Ptr(false, one)
    }

    function False(): Ptr {
      Ptr(true, one)
    }

    function VarPtr(i: nat): Ptr
      requires i < |vars|
    {
      Ptr(false, vars[i])
    }

    /** The variable at a level, or -1 if there is none. */
    function ReadInvPerm(level: nat): int {
      if level < |invperm| then invperm[level] else -1
    }

    function Level(n: DdNode): nat {
      LevelOf(perm, n)
    }

    /** Pointers of the manager are equal exactly when the edges they stand for are. */
    lemma PointerEquality(p: Ptr, q: Ptr)
      requires Valid() && p.node in nodes && q.node in nodes
      ensures p == q <==> Fn(p) == Fn(q)
    {
    }

    /** A pointer to a BDD other than the two constants points to an internal node. */
    lemma Constants(p: Ptr)
      requires Valid() && HasBdd(p)
      ensures p.node == one <==> Fn(p).node.Leaf?
      ensures p.node == one <==> p.node.kind.Constant?
      ensures p.node != one ==> p.node.kind.index < |perm| && p.node.kind.index == Fn(p).node.index
      ensures p.node != one ==> Level(p.node) == perm[p.node.kind.index] < |perm|
      ensures Level(p.node) == Top(perm, Fn(p).node) <= |perm|
    {
    }

    /** The children of an internal node belong to the manager. */
    lemma Children(p: Ptr)
      requires Valid() && HasBdd(p) && p.node != one
      ensures p.node.kind.Internal? && HasBdd(p.node.kind.T) && HasBdd(p.node.kind.E)
      ensures Fn(p).node == Inner(p.node.kind.index, Fn(p.node.kind.T), Fn(p.node.kind.E))
      ensures !p.node.kind.T.comp
    {
      Constants(p);
    }

    lemma Projection(i: nat)
      requires Valid() && i < |vars|
      ensures HasBdd(VarPtr(i)) && Fn(VarPtr(i)) == Var(i)
    {
    }

    lemma Found(kind: Kind)
      requires Valid() && kind in unique
      ensures unique[kind] in nodes && unique[kind].kind == kind && unique[kind].tree == TreeOf(kind)
    {
    }

    /** Finds the node in the unique table, or allocates it. */
    method UniqueInter(index: nat, t: Ptr, e: Ptr) returns (r: Outcome)
      requires Valid() && t.node in nodes && e.node in nodes
      requires Shaped(perm, index, Fn(t), Fn(e))
      requires (HasBdd(t) && HasBdd(e)) || (HasAdd(t) && HasAdd(e))
      modifies this`unique, this`nodes
      ensures Valid() && Continues()
      ensures r.Null? ==> Full()
      ensures r.Ok? ==> r.ptr.node in nodes && Fn(r.ptr) == Edge(false, Inner(index, Fn(t), Fn(e)))
      ensures r.Ok? && HasBdd(t) && HasBdd(e) ==> HasBdd(r.ptr)
      ensures r.Ok? && HasAdd(t) && HasAdd(e) ==> HasAdd(r.ptr)
    {
      hide Valid, ClipsExact, Vouched, ComputedTable.Hits;
      var kind := Internal(index, t, e);
      if kind in unique {
        Found(kind);
        return Ok(Ptr(false, unique[kind]));
      }
      if |unique| >= maxLive {
        return Null;
      }
      var node := Allocate(kind);
      r := Ok(Ptr(false, node));
    }

    /** Adds a node that the unique table does not hold. */
    method Allocate(kind: Kind) returns (node: DdNode)
      requires Valid() && kind.Internal? && kind !in unique
      requires kind.T.node in nodes && kind.E.node in nodes
      requires BddNode(perm, TreeOf(kind)) || AddNode(perm, TreeOf(kind))
      modifies this`unique, this`nodes
      ensures Valid() && fresh(node) && node.kind == kind && node.tree == TreeOf(kind)
      ensures nodes == old(nodes) + {node} && unique == old(unique)[kind := node]
    {
      hide Stored, Remembers, BddNode, AddNode;
      node := new DdNode(kind);
      StoreNew(perm, node, nodes, unique);
      RemembersGrows(perm, nodes, nodes + {node}, table.contents, varMap);
      nodes := nodes + {node};
      unique := unique[kind := node];
    }

    method Lookup(key: Key) returns (r: Option<Ptr>)
      requires Valid()
      modifies table, table.slots
      ensures Valid() && Continues() && nodes == old(nodes) && unique == old(unique)
      ensures r.Some? ==> r.value.node in nodes && Right(perm, varMap, key, Fn(r.value))
      ensures r.Some? && old(ClipsExact()) ==> Exact(key, Fn(r.value))
      ensures r.Some? && old(Vouched()) ==> VouchesFor(key, Fn(r.value), sure)
      ensures r.Some? ==> table.Hits() > old(table.Hits())
    {
      var granted: bool := *;
      r := table.Lookup(key, granted);
    }

    method Insert(key: Key, data: Ptr)
      requires Valid() && data.node in nodes && Right(perm, varMap, key, Fn(data))
      modifies table, table.slots
      ensures Valid() && Grows() && nodes == old(nodes) && unique == old(unique)
      ensures table.Hits() == old(table.Hits())
      ensures old(ClipsExact()) && Exact(key, Fn(data)) ==> ClipsExact()
      ensures old(Vouched()) && VouchesFor(key, Fn(data), sure) ==> Vouched()
      ensures Exact(key, Fn(data)) && VouchesFor(key, Fn(data), sure) ==> Continues()
    {
      hide Remembers, Stored, Permuted, AllExact, Overwrite, Exact, Right, Vouches, VouchesFor;
      VouchesOverwrite(
        table.hash, table.slots[..], table.cacheShift, table.contents, key, data, sure);
      AllExactOverwrite(table.hash, table.slots[..], table.cacheShift, table.contents, key, data);
      RemembersOverwrite(
        perm, nodes, varMap, table.hash, table.slots[..], table.cacheShift, table.contents, key, data);
      table.Insert(key, data);
    }

    method FlushCache()
      requires Valid()
      modifies table, table.slots
      ensures Valid() && Continues() && nodes == old(nodes) && unique == old(unique)
      ensures table.contents == map[] && table.slots == old(table.slots) && ClipsExact()
    {
      table.Flush();
    }

    /** Doubles the computed table, if its size may still grow. */
    method ResizeCache()
      requires Valid()
      modifies table
      ensures Valid() && Continues() && nodes == old(nodes) && unique == old(unique)
    {
      if table.cacheSlack >= 0 {
        var granted: bool := *;
        table.Resize(granted);
      }
    }

    /** Says where the next approximation may trust the remembered ones. */
    ghost method SetTrust(sure: Trust)
      requires Valid()
      modifies this`sure
      ensures Valid() && this.sure == sure
    {
      this.sure := sure;
    }

    /** Sets the variable map. No remembered answer may depend on an earlier one. */
    method RegisterMap(m: seq<nat>)
      requires Valid() && IsRenaming(perm, m) && (varMap.Some? ==> table.contents == map[])
      modifies this`varMap
      ensures Valid() && varMap == Some(m)
    {
      RemembersNewMap(perm, nodes, table.contents, varMap, m);
      varMap := Some(m);
    }

    /** The node "if variable index then t else e", with the complement moved off the then-edge. */
    method Build(index: nat, t: Ptr, e: Ptr) returns (r: Outcome)
      requires Valid() && HasBdd(t) && HasBdd(e) && index < |perm|
      requires perm[index] < Top(perm, Fn(t).node) && perm[index] < Top(perm, Fn(e).node)
      modifies this`unique, this`nodes
      ensures Valid() && Continues()
      ensures r.Null? ==> Full()
      ensures r.Ok? ==> HasBdd(r.ptr) && IsBranch(Fn(r.ptr), index, Fn(t), Fn(e))
    {
      if t == e {
        return Ok(t);
      }
      PointerEquality(t, e);
      if t.comp {
        var n :- UniqueInter(index, PNot(t), PNot(e));
        r := Ok(PNot(n));
      } else {
        r := UniqueInter(index, t, e);
      }
    }

    /** The cofactors of p at the given variable, when no variable above it occurs in p. */
    method Cofactors(p: Ptr, index: nat) returns (pv: Ptr, pnv: Ptr)
      requires Valid() && HasBdd(p) && index < |perm| && perm[index] <= Top(perm, Fn(p).node)
      ensures HasBdd(pv) && HasBdd(pnv)
      ensures Fn(pv) == Cof(Fn(p), index, true) && Fn(pnv) == Cof(Fn(p), index, false)
      ensures perm[index] < |perm| && pv.comp == p.comp
      ensures perm[index] < Top(perm, Fn(pv).node) && perm[index] < Top(perm, Fn(pnv).node)
    {
      CofactorShape(perm, Fn(p), index, true);
      CofactorShape(perm, Fn(p), index, false);
      if p.node.kind.Internal? && p.node.kind.index == index {
        pv, pnv := PNotCond(p.node.kind.T, p.comp), PNotCond(p.node.kind.E, p.comp);
      } else {
        pv, pnv := p, p;
      }
    }

    /** Splits two operands, not both constant, at the higher of their top variables. */
    method Split(f: Ptr, g: Ptr) returns (index: nat, fv: Ptr, fnv: Ptr, gv: Ptr, gnv: Ptr)
      requires Valid() && HasBdd(f) && HasBdd(g) && (f.node != one || g.node != one)
      ensures index < |perm| && perm[index] == Min(Top(perm, Fn(f).node), Top(perm, Fn(g).node))
      ensures HasBdd(fv) && HasBdd(fnv) && HasBdd(gv) && HasBdd(gnv)
      ensures Rank(perm, Fn(fv), Fn(gv)) < Rank(perm, Fn(f), Fn(g))
      ensures Rank(perm, Fn(fnv), Fn(gnv)) < Rank(perm, Fn(f), Fn(g))
      ensures Fn(fv) == Cof(Fn(f), index, true) && Fn(fnv) == Cof(Fn(f), index, false)
      ensures Fn(gv) == Cof(Fn(g), index, true) && Fn(gnv) == Cof(Fn(g), index, false)
      ensures perm[index] < Top(perm, Fn(fv).node) && perm[index] < Top(perm, Fn(fnv).node)
      ensures perm[index] < Top(perm, Fn(gv).node) && perm[index] < Top(perm, Fn(gnv).node)
    {
      hide Manager.Valid, BddNode, IsOrder, Cof;
      Constants(f);
      Constants(g);
      index := if Level(f.node) <= Level(g.node) then f.node.kind.index else g.node.kind.index;
      fv, fnv := Cofactors(f, index);
      gv, gnv := Cofactors(g, index);
    }
  }
}
