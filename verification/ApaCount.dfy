/** Exact minterm counts in arbitrary precision. */
module ApaCount {
  import opened Diagrams
  import opened Managers
  import opened ComputedTables
  import A = Apa

  /* ---------- counting ---------- */

  ghost function AsAssignment(s: set<nat>): Assignment {
    iset i | i in s
  }

  /** The satisfying assignments over the given variables, as sets of the variables that are 1. */
  ghost function Models(f: Edge, vars: set<nat>): set<set<nat>> {
    set s | s <= vars && Eval(f, AsAssignment(s))
  }

  ghost function Count(f: Edge, vars: set<nat>): nat {
    |Models(f, vars)|
  }

  /** Sets with and without i, paired by adding i. */
  lemma {:induction false} SameSize(withI: set<set<nat>>, without: set<set<nat>>, i: nat)
    requires forall s :: s in withI ==> i in s && s - {i} in without
    requires forall s :: s in without ==> i !in s && s + {i} in withI
    ensures |withI| == |without|
    decreases |withI|
  {
    if withI == {} {
      if s :| s in without {
        assert s + {i} in withI;
      }
      assert without == {};
    } else {
      var s :| s in withI;
      var t := s - {i};
      assert t + {i} == s;
      var w1, w2 := withI - {s}, without - {t};
      forall u | u in w1 ensures u - {i} in w2 {
        assert u == (u - {i}) + {i};
      }
      forall u | u in w2 ensures u + {i} in w1 {
        assert u == (u + {i}) - {i};
      }
      SameSize(w1, w2, i);
    }
  }

  /** When f does not mention i, half of its models contain i. */
  lemma HalfContain(f: Edge, vars: set<nat>, i: nat)
    requires i in vars && i !in Support(f.node)
    ensures var m := Models(f, vars);
            2 * |set s | s in m && i in s| == |m| == 2 * |set s | s in m && i !in s|
  {
    hide Models;
    var m := Models(f, vars);
    var withI, without := set s | s in m && i in s, set s | s in m && i !in s;
    forall s | s in withI ensures s - {i} in without {
      ModelsToggle(f, vars, i, s);
    }
    forall s | s in without ensures s + {i} in withI {
      ModelsToggle(f, vars, i, s);
    }
    SameSize(withI, without, i);
    assert m == withI + without;
  }

  lemma ModelsToggle(f: Edge, vars: set<nat>, i: nat, s: set<nat>)
    requires i in vars && i !in Support(f.node) && s in Models(f, vars)
    ensures s - {i} in Models(f, vars) && s + {i} in Models(f, vars)
  {
    EvalSupport(f.node, AsAssignment(s), AsAssignment(s - {i}));
    EvalSupport(f.node, AsAssignment(s), AsAssignment(s + {i}));
  }

  /** The count of a node is half the sum of the counts of its children. */
  lemma Halving(f: Edge, vars: set<nat>)
    requires f.node.Inner? && !f.comp && f.node.index in vars
    requires f.node.index !in Support(f.node.T.node) && f.node.index !in Support(f.node.E.node)
    ensures 2 * Count(f, vars) == Count(f.node.T, vars) + Count(f.node.E, vars)
  {
    var i, t, e := f.node.index, f.node.T, f.node.E;
    var mt, me := Models(t, vars), Models(e, vars);
    var high, low := set s | s in mt && i in s, set s | s in me && i !in s;
    HalfContain(t, vars, i);
    HalfContain(e, vars, i);
    forall s: set<nat> | s <= vars ensures s in Models(f, vars) <==> s in high + low {
      ShannonModel(f, s);
    }
    assert Models(f, vars) == high + low;
  }

  lemma ShannonModel(f: Edge, s: set<nat>)
    requires f.node.Inner? && !f.comp
    ensures Eval(f, AsAssignment(s)) ==
            if f.node.index in s then Eval(f.node.T, AsAssignment(s)) else Eval(f.node.E, AsAssignment(s))
  {
  }

  ghost function Powerset(vars: set<nat>): set<set<nat>> {
    set s | s <= vars
  }

  lemma {:induction false} Subsets(vars: set<nat>)
    ensures |Powerset(vars)| == A.Pow(2, |vars|)
    decreases |vars|
  {
    if vars == {} {
      var none: set<nat> := {};
      forall s | s in Powerset(vars) ensures s == none {}
      assert Powerset(vars) == {none};
    } else {
      var i :| i in vars;
      var rest := vars - {i};
      Subsets(rest);
      AddElement(rest, i);
      assert rest + {i} == vars;
    }
  }

  /** The subsets of rest with i added. */
  ghost function Extended(rest: set<nat>, i: nat): set<set<nat>> {
    set s | s <= rest + {i} && i in s
  }

  lemma PowersetSplits(rest: set<nat>, i: nat)
    requires i !in rest
    ensures Powerset(rest + {i}) == Extended(rest, i) + Powerset(rest)
    ensures Extended(rest, i) !! Powerset(rest)
  {
  }

  /** One more element doubles the number of subsets. */
  lemma AddElement(rest: set<nat>, i: nat)
    requires i !in rest
    ensures |Powerset(rest + {i})| == 2 * |Powerset(rest)|
  {
    PowersetSplits(rest, i);
    var withI, without := Extended(rest, i), Powerset(rest);
    forall s | s in withI ensures i in s && s - {i} in without {}
    forall s | s in without ensures i !in s && s + {i} in withI {}
    SameSize(withI, without, i);
    hide Powerset, Extended;
  }

  /** The true function has all assignments, and a function and its complement share them out. */
  lemma CountComplement(f: Edge, vars: set<nat>)
    ensures Count(ONE, vars) == A.Pow(2, |vars|)
    ensures Count(Not(f), vars) == A.Pow(2, |vars|) - Count(f, vars)
  {
    Subsets(vars);
    var all := Powerset(vars);
    assert Models(ONE, vars) == all;
    assert Models(f, vars) + Models(Not(f), vars) == all;
    assert Models(f, vars) !! Models(Not(f), vars);
  }

  /* ---------- the memo table ---------- */

  class MintermTable {
    var entries: map<DdNode, array<A.Digit>>

    constructor ()
      ensures entries == map[]
    {
      entries := map[];
    }

    /** Every entry is the count of its node over the variables. */
    ghost predicate Valid(digits: nat, vars: set<nat>)
      reads this, entries.Values
    {
      forall n :: n in entries ==>
        entries[n].Length == digits &&
        A.Value(A.BASE, entries[n][..]) == Count(Edge(false, n.tree), vars)
    }
  }

  /** The count of a regular node, in a buffer that is shared with the table or with max and min. */
  method CountMintermAux(
    dd: Manager, node: DdNode, digits: nat, max: array<A.Digit>, min: array<A.Digit>,
    background: DdNode, table: MintermTable, ghost vars: set<nat>) returns (mint: array<A.Digit>)
    requires dd.Valid() && dd.HasBdd(Ptr(false, node)) && Support(node.tree) <= vars
    requires digits > 0 && max.Length == min.Length == digits
    requires A.Value(A.BASE, max[..]) == A.Pow(2, |vars|) && A.Value(A.BASE, min[..]) == 0
    requires background != dd.one && table.Valid(digits, vars)
    modifies table
    ensures table.Valid(digits, vars)
    ensures mint.Length == digits && A.Value(A.BASE, mint[..]) == Count(Edge(false, node.tree), vars)
    decreases node.tree
  {
    hide Manager.Valid, Manager.ClipsExact, Manager.Vouched, ComputedTable.Hits, BddNode, A.Value, A.Pow, Count;
    dd.Constants(Ptr(false, node));
    CountComplement(ONE, vars);
    if node.kind.Constant? {
      mint := min;
      if node != background {
        mint := max;
      }
      return;
    }
    if * {
      if node in table.entries {
        return table.entries[node];
      }
    }
    dd.Children(Ptr(false, node));
    var t, e := node.kind.T, node.kind.E;
    ChildSupport(dd.perm, Fn(Ptr(false, node)));
    var mint1 := CountMintermAux(dd, t.node, digits, max, min, background, table, vars);
    var mint2 := CountMintermAux(dd, e.node, digits, max, min, background, table, vars);
    mint := AverageInto(mint1, mint2, e.comp, max, vars, Fn(t), Fn(e));
    Halving(Edge(false, node.tree), vars);
    if * {
      table.entries := table.entries[node := mint];
    }
  }

  lemma ChildSupport(perm: seq<nat>, f: Edge)
    requires IsOrder(perm) && Bdd(perm, f) && f.node.Inner?
    ensures f.node.index in Support(f.node)
    ensures Support(f.node.T.node) <= Support(f.node) && Support(f.node.E.node) <= Support(f.node)
    ensures f.node.index !in Support(f.node.T.node) && f.node.index !in Support(f.node.E.node)
  {
    SupportBelowTop(perm, f.node.T.node);
    SupportBelowTop(perm, f.node.E.node);
  }

  /** A new buffer with half the sum of the counts of t and e, the second complemented on the way if
      the else-edge is. The carry out of the sum becomes the top bit of the shifted result. */
  method AverageInto(
    mint1: array<A.Digit>, mint2: array<A.Digit>, comp: bool, max: array<A.Digit>,
    ghost vars: set<nat>, ghost t: Edge, ghost e: Edge) returns (mint: array<A.Digit>)
    requires mint1.Length == mint2.Length == max.Length > 0 && !t.comp && e.comp == comp
    requires A.Value(A.BASE, mint1[..]) == Count(t, vars)
    requires A.Value(A.BASE, mint2[..]) == Count(Edge(false, e.node), vars)
    requires A.Value(A.BASE, max[..]) == A.Pow(2, |vars|)
    ensures fresh(mint) && mint.Length == max.Length
    ensures (Count(t, vars) + Count(e, vars)) % 2 == 0 ==>
              2 * A.Value(A.BASE, mint[..]) == Count(t, vars) + Count(e, vars)
  {
    hide A.Value, A.Pow, Count;
    CountComplement(Edge(false, e.node), vars);
    mint := new A.Digit[max.Length];
    var carryout;
    if comp {
      var _ := A.ApaSubtract(max, mint2, mint);
      carryout := A.ApaAdd(mint1, mint, mint);
    } else {
      carryout := A.ApaAdd(mint1, mint2, mint);
    }
    ghost var low := mint[mint.Length - 1] % 2;
    ghost var sum := A.Value(A.BASE, mint[..]);
    A.ApaShiftRight(carryout, mint, mint);
  }

  /** The number of satisfying assignments of f over nvars variables that include its support. */
  method ApaCountMinterm(dd: Manager, f: Ptr, nvars: nat, background: DdNode, ghost vars: set<nat>)
    returns (count: array<A.Digit>)
    requires dd.Valid() && dd.HasBdd(f) && Support(Fn(f).node) <= vars && |vars| == nvars
    requires background != dd.one
    ensures fresh(count) && count.Length == A.NumberOfDigits(nvars + 1)
    ensures A.Value(A.BASE, count[..]) == Count(Fn(f), vars)
  {
    hide Manager.Valid, Manager.ClipsExact, Manager.Vouched, ComputedTable.Hits, BddNode, A.Value, A.Pow, Count;
    var digits := A.NumberOfDigits(nvars + 1);
    var max := new A.Digit[digits];
    A.ApaPowerOfTwo(max, nvars);
    var min := new A.Digit[digits];
    A.ApaSetToLiteral(min, 0);
    var table := new MintermTable();
    var i := CountMintermAux(dd, f.node, digits, max, min, background, table, vars);
    count := new A.Digit[digits];
    CountComplement(Edge(false, f.node.tree), vars);
    if f.comp {
      var _ := A.ApaSubtract(max, i, count);
    } else {
      A.ApaCopy(i, count);
    }
  }
}
