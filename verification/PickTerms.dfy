/** Listing all the terms of a function: each cube is expanded, through a matrix, into the rows of
    0s and 1s it stands for, and each row becomes the BDD of a term. */
module PickTerms {
  import opened Diagrams
  import opened Semantics
  import opened ComputedTables
  import opened Managers
  import opened BddIte
  import opened CubeGenerators

  /* ---------- the rows of a cube ---------- */

  /** How many of the values are don't cares. */
  function Free(vals: seq<int>): nat {
    if vals == [] then 0
    else (if vals[0] == 0 || vals[0] == 1 then 0 else 1) + Free(vals[1..])
  }

  /** Row i: the don't cares take the digits of i, least significant first, with 1 before 0. */
  function Row(vals: seq<int>, i: nat): (r: seq<int>)
    ensures |r| == |vals|
  {
    if vals == [] then []
    else if vals[0] == 0 || vals[0] == 1 then [vals[0]] + Row(vals[1..], i)
    else [1 - i % 2] + Row(vals[1..], i / 2)
  }

  function Rows(vals: seq<int>): (r: seq<seq<int>>)
    ensures |r| == Pow2(Free(vals))
  {
    seq(Pow2(Free(vals)), i requires 0 <= i < Pow2(Free(vals)) => Row(vals, i))
  }

  /** The row agrees with every value that is fixed. */
  ghost predicate Compatible(vals: seq<int>, bits: seq<int>) {
    && |bits| == |vals|
    && forall q :: 0 <= q < |vals| ==> bits[q] in {0, 1} && (vals[q] in {0, 1} ==> bits[q] == vals[q])
  }

  function Position(vals: seq<int>, bits: seq<int>): nat
    requires |bits| == |vals|
  {
    if vals == [] then 0
    else if vals[0] == 0 || vals[0] == 1 then Position(vals[1..], bits[1..])
    else 2 * Position(vals[1..], bits[1..]) + if bits[0] == 1 then 0 else 1
  }

  lemma CompatibleTail(vals: seq<int>, bits: seq<int>)
    requires |bits| == |vals| > 0
    ensures Compatible(vals, bits) <==>
            bits[0] in {0, 1} && (vals[0] in {0, 1} ==> bits[0] == vals[0]) && Compatible(vals[1..], bits[1..])
  {
  }

  /** Row i is bits exactly for compatible bits and the one position they have. */
  lemma {:induction false} RowBijection(vals: seq<int>, bits: seq<int>, i: nat)
    requires |bits| == |vals| && i < Pow2(Free(vals))
    ensures Row(vals, i) == bits <==> Compatible(vals, bits) && i == Position(vals, bits)
  {
    if vals != [] {
      CompatibleTail(vals, bits);
      assert bits == [bits[0]] + bits[1..];
      if vals[0] == 0 || vals[0] == 1 {
        RowBijection(vals[1..], bits[1..], i);
        assert Row(vals, i)[1..] == Row(vals[1..], i);
      } else {
        RowBijection(vals[1..], bits[1..], i / 2);
        assert Row(vals, i)[1..] == Row(vals[1..], i / 2);
      }
    }
  }

  lemma {:induction false} PositionInRange(vals: seq<int>, bits: seq<int>)
    requires Compatible(vals, bits)
    ensures Position(vals, bits) < Pow2(Free(vals))
  {
    if vals != [] {
      CompatibleTail(vals, bits);
      PositionInRange(vals[1..], bits[1..]);
    }
  }

  lemma OccursOnce<T>(s: seq<T>, x: T, k: nat)
    requires k < |s| && forall i :: 0 <= i < |s| ==> (s[i] == x <==> i == k)
    ensures multiset(s)[x] == 1
  {
    assert s == s[..k] + [s[k]] + s[k + 1..];
    assert x !in s[..k] && x !in s[k + 1..];
  }

  /** The rows of a cube list every compatible row once, and no other. */
  lemma RowsOnce(vals: seq<int>, bits: seq<int>)
    requires |bits| == |vals|
    ensures multiset(Rows(vals))[bits] == if Compatible(vals, bits) then 1 else 0
  {
    var rows := Rows(vals);
    forall i | 0 <= i < |rows|
      ensures rows[i] == bits <==> Compatible(vals, bits) && i == Position(vals, bits)
    {
      RowBijection(vals, bits, i);
    }
    if Compatible(vals, bits) {
      PositionInRange(vals, bits);
      OccursOnce(rows, bits, Position(vals, bits));
    } else {
      assert bits !in rows;
    }
  }

  /* ---------- the rows of a function ---------- */

  predicate InRange(vars: seq<nat>, n: nat) {
    forall q :: 0 <= q < |vars| ==> vars[q] < n
  }

  function Values(c: Cube, vars: seq<nat>): (r: seq<int>)
    requires InRange(vars, |c|)
    ensures |r| == |vars|
  {
    seq(|vars|, q requires 0 <= q < |vars| => c[vars[q]])
  }

  ghost function Restrict(vars: seq<nat>, a: Assignment): (r: seq<int>)
    ensures |r| == |vars|
  {
    seq(|vars|, q requires 0 <= q < |vars| => if vars[q] in a then 1 else 0)
  }

  predicate AllFit(cubes: seq<Cube>, vars: seq<nat>) {
    forall c :: c in cubes ==> InRange(vars, |c|)
  }

  function AllRows(cubes: seq<Cube>, vars: seq<nat>): (r: seq<seq<int>>)
    requires AllFit(cubes, vars)
  {
    if cubes == [] then []
    else AllRows(cubes[..|cubes| - 1], vars) + Rows(Values(cubes[|cubes| - 1], vars))
  }

  /** All values are 0, 1 or 2, and only the given variables are fixed. */
  ghost predicate FixesOnly(c: Cube, vars: seq<nat>) {
    forall i :: 0 <= i < |c| ==> c[i] in {0, 1, 2} && (c[i] != 2 ==> i in vars)
  }

  lemma CompatibleIffMatches(c: Cube, vars: seq<nat>, a: Assignment)
    requires InRange(vars, |c|) && FixesOnly(c, vars)
    ensures Compatible(Values(c, vars), Restrict(vars, a)) <==> Matches(c, a)
  {
    var vals, bits := Values(c, vars), Restrict(vars, a);
    if Compatible(vals, bits) {
      forall i | 0 <= i < |c| ensures MatchesAt(c, a, i) {
        if c[i] != 2 {
          var q :| 0 <= q < |vars| && vars[q] == i;
          assert bits[q] == vals[q];
        }
      }
    }
    if Matches(c, a) {
      forall q | 0 <= q < |vars| && vals[q] in {0, 1} ensures bits[q] == vals[q] {
        assert MatchesAt(c, a, vars[q]);
      }
    }
  }

  lemma {:induction false} RowsAreHits(cubes: seq<Cube>, vars: seq<nat>, a: Assignment)
    requires AllFit(cubes, vars) && forall c :: c in cubes ==> FixesOnly(c, vars)
    ensures multiset(AllRows(cubes, vars))[Restrict(vars, a)] == Hits(cubes, a)
  {
    if cubes != [] {
      var c := cubes[|cubes| - 1];
      RowsAreHits(cubes[..|cubes| - 1], vars, a);
      RowsOnce(Values(c, vars), Restrict(vars, a));
      CompatibleIffMatches(c, vars, a);
    }
  }

  /** Over variables that cover the support of f, the rows of its cubes list every satisfying
      assignment exactly once and no other. */
  lemma EveryAssignmentOnce(perm: seq<nat>, f: Edge, vars: seq<nat>, a: Assignment)
    requires IsOrder(perm) && Bdd(perm, f) && InRange(vars, |perm|)
    requires forall i :: i in Support(f.node) ==> i in vars
    ensures Fits(f.node, Blank(|perm|))
    ensures var cubes := Cubes(f, Blank(|perm|));
            && AllFit(cubes, vars)
            && multiset(AllRows(cubes, vars))[Restrict(vars, a)] == if Eval(f, a) then 1 else 0
  {
    var blank := Blank(|perm|);
    SupportBelowTop(perm, f.node);
    var cubes := Cubes(f, blank);
    CubesInRange(perm, f, vars);
    forall c | c in cubes ensures FixesOnly(c, vars) {
      var k :| 0 <= k < |cubes| && cubes[k] == c;
      CubesFixSupport(f, blank, k);
    }
    RowsAreHits(cubes, vars, a);
    CubesPartition(perm, f, blank, a);
    assert Matches(blank, a);
  }

  lemma CubesInRange(perm: seq<nat>, f: Edge, vars: seq<nat>)
    requires Bdd(perm, f) && InRange(vars, |perm|)
    ensures Fits(f.node, Blank(|perm|)) && AllFit(Cubes(f, Blank(|perm|)), vars)
  {
    SupportBelowTop(perm, f.node);
    var cubes := Cubes(f, Blank(|perm|));
    forall c | c in cubes ensures InRange(vars, |c|) {
      var k :| 0 <= k < |cubes| && cubes[k] == c;
      CubesFixSupport(f, Blank(|perm|), k);
    }
  }

  lemma AllRowsSnoc(x: seq<Cube>, last: seq<Cube>, vars: seq<nat>)
    requires AllFit(x + last, vars) && AllFit(x, vars) && |last| <= 1
    ensures AllRows([], vars) == []
    ensures last != [] ==>
              && InRange(vars, |last[0]|)
              && AllRows(x + last, vars) == AllRows(x, vars) + Rows(Values(last[0], vars))
  {
  }

  lemma {:induction false} AllRowsConcat(x: seq<Cube>, y: seq<Cube>, vars: seq<nat>)
    requires AllFit(x, vars) && AllFit(y, vars)
    ensures AllFit(x + y, vars) && AllRows(x + y, vars) == AllRows(x, vars) + AllRows(y, vars)
  {
    hide Rows, Values, InRange, AllRows;
    if y == [] {
      assert x + y == x;
      AllRowsSnoc(x, [], vars);
    } else {
      var k := |y| - 1;
      assert x + y == (x + y[..k]) + [y[k]] && y == y[..k] + [y[k]];
      AllRowsConcat(x, y[..k], vars);
      AllRowsSnoc(x + y[..k], [y[k]], vars);
      AllRowsSnoc(y[..k], [y[k]], vars);
    }
  }

  /* ---------- the matrix ---------- */

  lemma {:induction false} SlotOfHalf(i: nat, k: nat)
    ensures Slot(i / 2, k) == Slot(i, k + 1)
  {
    if k > 0 {
      SlotOfHalf(i, k - 1);
    }
  }

  lemma HalfBlocks(b: nat, p: nat)
    ensures b * (2 * p) == (2 * b) * p && (b + 1) * (2 * p) == (2 * b + 2) * p
    ensures (2 * b + 1) * p == (2 * b) * p + p && (2 * b + 2) * p == (2 * b) * p + 2 * p
  {
  }

  /** A block of consecutive numbers, as long as a power of two, shifts to one number. */
  lemma {:induction false} SlotOfBlock(i: nat, k: nat, block: nat)
    requires block * Pow2(k) <= i < (block + 1) * Pow2(k)
    ensures Slot(i, k) == block
  {
    if k > 0 {
      var p := Pow2(k - 1);
      HalfBlocks(block, p);
      if i < (2 * block + 1) * p {
        SlotOfBlock(i, k - 1, 2 * block);
      } else {
        SlotOfBlock(i, k - 1, 2 * block + 1);
      }
    }
  }

  lemma {:induction false} PrefixFree(vals: seq<int>, q: nat)
    requires q < |vals|
    ensures Free(vals[..q + 1]) == Free(vals[..q]) + if vals[q] == 0 || vals[q] == 1 then 0 else 1
  {
    if q > 0 {
      assert vals[..q + 1][1..] == vals[1..][..q] && vals[..q][1..] == vals[1..][..q - 1];
      PrefixFree(vals[1..], q - 1);
    }
  }

  lemma {:induction false} FreeGrows(vals: seq<int>, q: nat)
    requires q <= |vals|
    ensures Free(vals[..q]) <= Free(vals)
  {
    if q > 0 {
      assert vals[..q][1..] == vals[1..][..q - 1];
      FreeGrows(vals[1..], q - 1);
    }
  }

  /** The digit of a row at q, from the number of don't cares before q. */
  lemma {:induction false} RowAt(vals: seq<int>, i: nat, q: nat)
    requires q < |vals|
    ensures Row(vals, i)[q] ==
            if vals[q] == 0 || vals[q] == 1 then vals[q] else 1 - Slot(i, Free(vals[..q])) % 2
  {
    if q > 0 {
      assert vals[..q][1..] == vals[1..][..q - 1];
      if vals[0] == 0 || vals[0] == 1 {
        RowAt(vals[1..], i, q - 1);
      } else {
        RowAt(vals[1..], i / 2, q - 1);
        SlotOfHalf(i, Free(vals[1..][..q - 1]));
      }
    }
  }

  /** Where a block starts when blocks have the given length. */
  function StartOf(block: nat, length: nat): nat {
    block * length
  }

  lemma Pow2Multiple(k: nat, nd: nat) returns (m: nat)
    requires k < nd
    ensures Pow2(nd) == StartOf(2 * m, Pow2(k))
    decreases nd
  {
    if k + 1 == nd {
      m := 1;
    } else {
      m := Pow2Multiple(k, nd - 1);
      m := 2 * m;
    }
  }

  /** Another pair of blocks fits as long as one block does. */
  lemma PairFits(b: nat, m: nat, stride: nat)
    requires stride > 0
    ensures StartOf(2 * b, stride) + stride == StartOf(2 * b + 1, stride)
    ensures StartOf(2 * b + 1, stride) + stride == StartOf(2 * b + 2, stride)
    ensures StartOf(2 * b + 1, stride) <= StartOf(2 * m, stride) <==> b < m
    ensures b < m ==> StartOf(2 * b + 2, stride) <= StartOf(2 * m, stride)
    ensures StartOf(0, stride) == 0
  {
    HalfBlocks(m, stride);
    HalfBlocks(b, stride);
    if b < m {
      TimesMonotonic(2 * b + 2, 2 * m, stride);
    } else {
      TimesMonotonic(2 * m, 2 * b, stride);
    }
  }

  lemma TimesMonotonic(x: nat, y: nat, z: nat)
    requires x <= y
    ensures x * z <= y * z
  {
  }

  /** Fills column q with alternating blocks of 1s and 0s, each as long as the stride. */
  method FillAlternating(matrix: array2<int>, q: nat, lim: nat, num: nat, ghost nd: nat)
    requires 0 < lim <= nd && num == Pow2(nd) && num <= matrix.Length0 && q < matrix.Length1
    modifies matrix
    ensures forall i :: 0 <= i < num ==> matrix[i, q] == 1 - Slot(i, lim - 1) % 2
    ensures forall i, p :: 0 <= i < matrix.Length0 && 0 <= p < matrix.Length1 && p != q ==>
              matrix[i, p] == old(matrix[i, p])
  {
    hide Pow2, Slot, StartOf;
    var stride := Pow2(lim - 1);
    ghost var m := Pow2Multiple(lim - 1, nd);
    ghost var b := 0;
    PairFits(b, m, stride);
    var i, j := 0, stride;
    while j <= num
      invariant 0 <= b <= m && i == StartOf(2 * b, stride) && j == StartOf(2 * b + 1, stride)
      invariant j <= num <==> b < m
      invariant i <= num
      invariant forall k :: 0 <= k < i ==> matrix[k, q] == 1 - Slot(k, lim - 1) % 2
      invariant forall k, p :: 0 <= k < matrix.Length0 && 0 <= p < matrix.Length1 && p != q ==>
                  matrix[k, p] == old(matrix[k, p])
      decreases m - b
    {
      PairFits(b, m, stride);
      i := FillBlock(matrix, q, i, j, num, 1, lim - 1, 2 * b);
      j := j + stride;
      i := FillBlock(matrix, q, i, j, num, 0, lim - 1, 2 * b + 1);
      j := j + stride;
      b := b + 1;
      PairFits(b, m, stride);
    }
  }

  /** One block, up to j. */
  method FillBlock(
    matrix: array2<int>, q: nat, from: nat, j: nat, num: nat, digit: int, k: nat, ghost block: nat)
    returns (i: nat)
    requires from == StartOf(block, Pow2(k)) && j == StartOf(block + 1, Pow2(k))
    requires j <= num <= matrix.Length0 && q < matrix.Length1 && digit == 1 - block % 2
    modifies matrix
    ensures i == j
    ensures forall r :: from <= r < j ==> matrix[r, q] == 1 - Slot(r, k) % 2
    ensures forall r, p :: 0 <= r < matrix.Length0 && 0 <= p < matrix.Length1 && (p != q || r < from) ==>
              matrix[r, p] == old(matrix[r, p])
  {
    i := from;
    while i < j && i < num
      invariant from <= i <= j
      invariant forall r :: from <= r < i ==> matrix[r, q] == 1 - Slot(r, k) % 2
      invariant forall r, p :: 0 <= r < matrix.Length0 && 0 <= p < matrix.Length1 && (p != q || r < from) ==>
                  matrix[r, p] == old(matrix[r, p])
    {
      SlotOfBlock(i, k, block);
      matrix[i, q] := digit;
      i := i + 1;
    }
  }

  method FillFixed(matrix: array2<int>, q: nat, num: nat, digit: int)
    requires num <= matrix.Length0 && q < matrix.Length1
    modifies matrix
    ensures forall i :: 0 <= i < num ==> matrix[i, q] == digit
    ensures forall i, p :: 0 <= i < matrix.Length0 && 0 <= p < matrix.Length1 && p != q ==>
              matrix[i, p] == old(matrix[i, p])
  {
    for i := 0 to num
      invariant forall k :: 0 <= k < i ==> matrix[k, q] == digit
      invariant forall k, p :: 0 <= k < matrix.Length0 && 0 <= p < matrix.Length1 && p != q ==>
                  matrix[k, p] == old(matrix[k, p])
    {
      matrix[i, q] := digit;
    }
  }

  /** The number of don't cares of the cube among the variables. */
  method CountFree(cube: array<int>, vars: seq<nat>) returns (nd: nat)
    requires InRange(vars, cube.Length)
    ensures nd == Free(Values(cube[..], vars))
  {
    ghost var vals := Values(cube[..], vars);
    nd := 0;
    for q := 0 to |vars|
      invariant nd == Free(vals[..q])
    {
      PrefixFree(vals, q);
      if cube[vars[q]] != 0 && cube[vars[q]] != 1 {
        nd := nd + 1;
      }
    }
    assert vals[..|vars|] == vals;
  }

  /** Row i of the matrix is row i of the cube. A value other than 0, 1 and 2 is refused. */
  method FillMatrix(cube: array<int>, vars: seq<nat>) returns (ok: bool, matrix: array2<int>, num: nat)
    requires InRange(vars, cube.Length)
    ensures fresh(matrix)
    ensures ok <==> forall q :: 0 <= q < |vars| ==> cube[vars[q]] in {0, 1, 2}
    ensures var vals := Values(cube[..], vars);
            && num == |Rows(vals)| && num <= matrix.Length0 && |vars| <= matrix.Length1
            && (ok ==> forall i, p :: 0 <= i < num && 0 <= p < |vars| ==> matrix[i, p] == Row(vals, i)[p])
  {
    ghost var vals := Values(cube[..], vars);
    var nd := CountFree(cube, vars);
    num := Pow2(nd);
    matrix := new int[num + 1, |vars| + 1];
    var lim := 1;
    for q := 0 to |vars|
      invariant lim == 1 + Free(vals[..q])
      invariant forall p :: 0 <= p < q ==> cube[vars[p]] in {0, 1, 2}
      invariant forall i, p :: 0 <= i < num && 0 <= p < q ==> matrix[i, p] == Row(vals, i)[p]
    {
      PrefixFree(vals, q);
      forall i: nat ensures Row(vals, i)[q] ==
            if vals[q] == 0 || vals[q] == 1 then vals[q] else 1 - Slot(i, Free(vals[..q])) % 2 {
        RowAt(vals, i, q);
      }
      var value := cube[vars[q]];
      if value == 0 {
        FillFixed(matrix, q, num, 0);
      } else if value == 1 {
        FillFixed(matrix, q, num, 1);
      } else if value == 2 {
        FreeGrows(vals, q + 1);
        FillAlternating(matrix, q, lim, num, nd);
        lim := lim + 1;
      } else {
        ok := false;
        return;
      }
    }
    ok := true;
  }

  /* ---------- the terms ---------- */

  ghost predicate Agrees(vars: seq<nat>, bits: seq<int>, a: Assignment, q: nat)
    requires |bits| == |vars| && q < |vars|
  {
    vars[q] in a <==> bits[q] == 1
  }

  /** r is the product of the literals the row gives to the variables from number n on. */
  ghost predicate IsTerm(r: Edge, vars: seq<nat>, bits: seq<int>, n: nat)
    requires |bits| == |vars|
  {
    forall a: Assignment :: Eval(r, a) <==> forall q :: n <= q < |vars| ==> Agrees(vars, bits, a, q)
  }

  lemma EmptyTerm(vars: seq<nat>, bits: seq<int>)
    requires |bits| == |vars|
    ensures IsTerm(ONE, vars, bits, |vars|)
  {
  }

  lemma TermStep(r: Edge, s: Edge, vars: seq<nat>, bits: seq<int>, n: nat)
    requires |bits| == |vars| && n < |vars| && bits[n] in {0, 1} && IsTerm(s, vars, bits, n + 1)
    requires IsAnd(r, s, NotCond(Var(vars[n]), bits[n] == 0))
    ensures IsTerm(r, vars, bits, n)
  {
    forall a: Assignment
      ensures Eval(r, a) <==> forall q :: n <= q < |vars| ==> Agrees(vars, bits, a, q)
    {
      VarEval(vars[n], a);
      assert Eval(NotCond(Var(vars[n]), bits[n] == 0), a) == Agrees(vars, bits, a, n);
      assert (forall q :: n <= q < |vars| ==> Agrees(vars, bits, a, q)) <==>
             Agrees(vars, bits, a, n) && forall q :: n + 1 <= q < |vars| ==> Agrees(vars, bits, a, q);
    }
  }

  ghost predicate IsBits(bits: seq<int>) {
    forall q :: 0 <= q < |bits| ==> bits[q] in {0, 1}
  }

  /** result[k] is the term of row k. */
  ghost predicate AreTerms(
    perm: seq<nat>, nodes: set<DdNode>, terms: seq<Ptr>, vars: seq<nat>, rows: seq<seq<int>>)
  {
    && |terms| == |rows|
    && forall k :: 0 <= k < |rows| ==>
         && |rows[k]| == |vars| && terms[k].node in nodes && Bdd(perm, Fn(terms[k]))
         && IsTerm(Fn(terms[k]), vars, rows[k], 0)
  }

  lemma NoTerms(perm: seq<nat>, nodes: set<DdNode>, vars: seq<nat>)
    ensures AreTerms(perm, nodes, [], vars, [])
  {
  }

  lemma MoreTerms(
    perm: seq<nat>, nodes: set<DdNode>, more: set<DdNode>, x: seq<Ptr>, y: seq<Ptr>, vars: seq<nat>,
    u: seq<seq<int>>, v: seq<seq<int>>)
    requires AreTerms(perm, nodes, x, vars, u) && AreTerms(perm, more, y, vars, v) && nodes <= more
    ensures AreTerms(perm, more, x + y, vars, u + v)
  {
  }

  /** Builds the term of one row of the matrix, from the last variable to the first. */
  method BuildTerm(
    dd: Manager, matrix: array2<int>, j: nat, vars: seq<nat>, result: array<Ptr>, pos: nat, ghost bits: seq<int>)
    returns (ok: bool)
    requires dd.Valid() && InRange(vars, |dd.perm|) && pos < result.Length
    requires j < matrix.Length0 && |vars| <= matrix.Length1 && |bits| == |vars| && IsBits(bits)
    requires forall q :: 0 <= q < |vars| ==> matrix[j, q] == bits[q]
    modifies dd, dd.table, dd.table.slots, result
    ensures dd.Valid() && dd.Continues()
    ensures forall k :: 0 <= k < result.Length && k != pos ==> result[k] == old(result[k])
    ensures !ok ==> dd.Full()
    ensures ok ==> dd.HasBdd(result[pos]) && IsTerm(Fn(result[pos]), vars, bits, 0)
  {
    hide Manager.Valid, Manager.ClipsExact, Manager.Vouched, ComputedTable.Hits, BddNode, Eval, IsAnd, IsTerm, IsOrder;
    result[pos] := dd.True();
    EmptyTerm(vars, bits);
    for i := |vars| downto 0
      invariant dd.Valid() && dd.Continues()
      invariant forall k :: 0 <= k < result.Length && k != pos ==> result[k] == old(result[k])
      invariant dd.HasBdd(result[pos]) && IsTerm(Fn(result[pos]), vars, bits, i)
    {
      dd.Projection(vars[i]);
      var value := matrix[j, i];
      assert value == bits[i];
      var n := BddAndRecur(dd, result[pos], PNotCond(dd.VarPtr(vars[i]), value == 0));
      if n.Null? {
        return false;
      }
      TermStep(Fn(n.ptr), Fn(result[pos]), vars, bits, i);
      result[pos] := n.ptr;
    }
    ok := true;
  }

  lemma RowIsBits(vals: seq<int>, i: nat)
    ensures IsBits(Row(vals, i))
  {
  }

  /** Writes the terms of one cube from position pos on. */
  method ExpandCube(dd: Manager, cube: array<int>, vars: seq<nat>, result: array<Ptr>, pos0: nat)
    returns (ok: bool, pos: nat)
    requires dd.Valid() && InRange(vars, |dd.perm|) && cube.Length == |dd.perm|
    requires forall q :: 0 <= q < |vars| ==> cube[vars[q]] in {0, 1, 2}
    requires pos0 + |Rows(Values(cube[..], vars))| <= result.Length
    modifies dd, dd.table, dd.table.slots, result
    ensures dd.Valid() && dd.Continues()
    ensures !ok ==> dd.Full()
    ensures ok ==> pos == pos0 + |Rows(Values(cube[..], vars))|
    ensures ok ==> result[..pos0] == old(result[..pos0])
    ensures ok ==> AreTerms(dd.perm, dd.nodes, result[pos0..pos], vars, Rows(Values(cube[..], vars)))
  {
    hide Manager.Valid, Manager.ClipsExact, Manager.Vouched, ComputedTable.Hits, BddNode, Eval, IsTerm, IsOrder, Row,
      Free, IsBits, Pow2, AreTerms;
    var matrix, num;
    ok, matrix, num := FillMatrix(cube, vars);
    ghost var vals := Values(cube[..], vars);
    pos := pos0;
    NoTerms(dd.perm, dd.nodes, vars);
    assert result[pos0..pos] == [] && Rows(vals)[..0] == [];
    for j := 0 to num
      invariant ok && dd.Valid() && dd.Continues() && pos == pos0 + j
      invariant forall i, p :: 0 <= i < num && 0 <= p < |vars| ==> matrix[i, p] == Row(vals, i)[p]
      invariant result[..pos0] == old(result[..pos0])
      invariant AreTerms(dd.perm, dd.nodes, result[pos0..pos], vars, Rows(vals)[..j])
    {
      RowIsBits(vals, j);
      ghost var nodes, before := dd.nodes, result[pos0..pos];
      ok := BuildTerm(dd, matrix, j, vars, result, pos, Row(vals, j));
      if !ok {
        return;
      }
      OneTerm(dd.perm, dd.nodes, result[pos], vars, Row(vals, j));
      MoreTerms(dd.perm, nodes, dd.nodes, before, [result[pos]], vars, Rows(vals)[..j], [Row(vals, j)]);
      pos := pos + 1;
      assert result[pos0..pos] == before + [result[pos - 1]];
      assert Rows(vals)[..j + 1] == Rows(vals)[..j] + [Row(vals, j)];
    }
    assert Rows(vals)[..num] == Rows(vals);
  }

  lemma OneTerm(perm: seq<nat>, nodes: set<DdNode>, term: Ptr, vars: seq<nat>, bits: seq<int>)
    requires |bits| == |vars| && term.node in nodes && Bdd(perm, Fn(term)) && IsTerm(Fn(term), vars, bits, 0)
    ensures AreTerms(perm, nodes, [term], vars, [bits])
  {
  }

  /** The rows of a cube come after those of the cubes before it, and within those of all. */
  lemma NextCube(done: seq<Cube>, c: Cube, rest: seq<Cube>, vars: seq<nat>)
    requires AllFit(done + ([c] + rest), vars)
    ensures AllFit(done + [c], vars) && AllFit(done, vars) && InRange(vars, |c|)
    ensures AllRows(done + [c], vars) == AllRows(done, vars) + Rows(Values(c, vars))
    ensures |AllRows(done + [c], vars)| <= |AllRows(done + ([c] + rest), vars)|
  {
    var all := done + ([c] + rest);
    assert all == (done + [c]) + rest;
    assert forall x :: x in done + [c] || x in rest ==> x in all;
    assert c in done + [c];
    assert (done + [c])[..|done|] == done;
    AllRowsConcat(done + [c], rest, vars);
  }

  lemma CubeValues(perm: seq<nat>, f: Edge, vars: seq<nat>)
    requires Bdd(perm, f) && InRange(vars, |perm|)
    ensures Fits(f.node, Blank(|perm|)) && AllFit(Cubes(f, Blank(|perm|)), vars)
    ensures forall c :: c in Cubes(f, Blank(|perm|)) ==>
              |c| == |perm| && forall q :: 0 <= q < |vars| ==> c[vars[q]] in {0, 1, 2}
  {
    CubesInRange(perm, f, vars);
    var cubes := Cubes(f, Blank(|perm|));
    forall c | c in cubes
      ensures |c| == |perm| && forall q :: 0 <= q < |vars| ==> c[vars[q]] in {0, 1, 2}
    {
      var k :| 0 <= k < |cubes| && cubes[k] == c;
      CubesFixSupport(f, Blank(|perm|), k);
    }
  }

  /** The rows of the function's cubes, in the generator's order. */
  ghost function Expansion(perm: seq<nat>, f: Edge, vars: seq<nat>): seq<seq<int>>
    requires Bdd(perm, f) && InRange(vars, |perm|)
  {
    CubesInRange(perm, f, vars);
    AllRows(Cubes(f, Blank(|perm|)), vars)
  }

  /** The terms of the cubes done so far stand at the start of the result. */
  ghost predicate Listed(
    perm: seq<nat>, nodes: set<DdNode>, result: seq<Ptr>, vars: seq<nat>, done: seq<Cube>, pos: nat)
  {
    && AllFit(done, vars) && pos == |AllRows(done, vars)| <= |result|
    && AreTerms(perm, nodes, result[..pos], vars, AllRows(done, vars))
  }

  lemma ListedNext(
    perm: seq<nat>, nodes: set<DdNode>, more: set<DdNode>, before: seq<Ptr>, result: seq<Ptr>,
    vars: seq<nat>, done: seq<Cube>, c: Cube, pos: nat, next: nat)
    requires Listed(perm, nodes, before, vars, done, pos) && nodes <= more && InRange(vars, |c|)
    requires pos <= |result| && before[..pos] == result[..pos]
    requires next == pos + |Rows(Values(c, vars))| <= |result|
    requires AreTerms(perm, more, result[pos..next], vars, Rows(Values(c, vars)))
    requires AllFit(done + [c], vars)
    requires AllRows(done + [c], vars) == AllRows(done, vars) + Rows(Values(c, vars))
    ensures Listed(perm, more, result, vars, done + [c], next)
  {
    hide AreTerms, Rows, Values, AllRows, InRange, AllFit;
    MoreTerms(perm, nodes, more, before[..pos], result[pos..next], vars,
              AllRows(done, vars), Rows(Values(c, vars)));
    assert result[..next] == before[..pos] + result[pos..next];
  }

  /** Every term of the function, by expanding its cubes one after the other. */
  method PickAllTerms(dd: Manager, minterm: Ptr, vars: seq<nat>, result: array?<Ptr>) returns (status: nat)
    requires dd.Valid() && dd.HasBdd(minterm) && InRange(vars, |dd.perm|)
    requires result != null ==> |Expansion(dd.perm, Fn(minterm), vars)| <= result.Length
    modifies dd, dd.table, dd.table.slots, result
    ensures dd.Valid() && dd.Continues()
    ensures status == 0 || status == 1
    ensures status == 1 ==> result == null || dd.Full()
    ensures status == 0 ==> result != null
    ensures status == 0 ==>
              var rows := Expansion(dd.perm, Fn(minterm), vars);
              |rows| <= result.Length && AreTerms(dd.perm, dd.nodes, result[..|rows|], vars, rows)
  {
    hide Manager.Valid, Manager.ClipsExact, Manager.Vouched, ComputedTable.Hits, BddNode, Eval, IsTerm, IsOrder,
      AreTerms, Rows, Values, AllRows;
    hide InRange, AllFit, Cubes;
    hide CubeGenerator.Valid, CubeGenerator.Rest, Fits, Blank, Bdd;
    if result == null {
      return 1;
    }
    CubeValues(dd.perm, Fn(minterm), vars);
    var gen := new CubeGenerator.First(dd, minterm);
    ghost var all := gen.Rest();
    ghost var done: seq<Cube> := [];
    var pos := 0;
    NothingListed(dd.perm, dd.nodes, result[..], vars);
    hide Listed;
    while !gen.empty
      invariant dd.Valid() && dd.Continues()
      invariant !gen.empty ==> gen.Valid()
      invariant fresh(gen) && fresh(gen.cube) && gen.cube.Length == |dd.perm|
      invariant done + gen.Rest() == all
      invariant Listed(dd.perm, dd.nodes, result[..], vars, done, pos)
      decreases |gen.Rest()|
    {
      ghost var c := gen.cube[..];
      var ok;
      ok, pos := ExpandNext(dd, gen, vars, result, pos, done, all);
      if !ok {
        return 1;
      }
      done := done + [c];
    }
    AllListed(dd.perm, dd.nodes, result[..], vars, done, pos);
    assert done + [] == done;
    status := 0;
  }

  lemma NothingListed(perm: seq<nat>, nodes: set<DdNode>, result: seq<Ptr>, vars: seq<nat>)
    ensures Listed(perm, nodes, result, vars, [], 0)
  {
  }

  lemma AllListed(
    perm: seq<nat>, nodes: set<DdNode>, result: seq<Ptr>, vars: seq<nat>, done: seq<Cube>, pos: nat)
    requires Listed(perm, nodes, result, vars, done, pos)
    ensures AllFit(done, vars) && pos == |AllRows(done, vars)| <= |result|
    ensures AreTerms(perm, nodes, result[..pos], vars, AllRows(done, vars))
  {
  }

  /** Expands the generator's cube and moves it on. */
  method ExpandNext(
    dd: Manager, gen: CubeGenerator, vars: seq<nat>, result: array<Ptr>, pos0: nat,
    ghost done: seq<Cube>, ghost all: seq<Cube>) returns (ok: bool, pos: nat)
    requires dd.Valid() && InRange(vars, |dd.perm|) && gen.Valid() && !gen.empty && gen.cube.Length == |dd.perm|
    requires done + gen.Rest() == all && AllFit(all, vars) && |AllRows(all, vars)| <= result.Length
    requires forall c :: c in all ==>
               |c| == |dd.perm| && forall q :: 0 <= q < |vars| ==> c[vars[q]] in {0, 1, 2}
    requires Listed(dd.perm, dd.nodes, result[..], vars, done, pos0)
    modifies dd, dd.table, dd.table.slots, result, gen, gen.cube
    ensures dd.Valid() && dd.Continues()
    ensures !ok ==> dd.Full()
    ensures gen.cube == old(gen.cube) && (!gen.empty ==> gen.Valid())
    ensures ok ==> old(gen.Rest()) == [old(gen.cube[..])] + gen.Rest()
    ensures ok ==> Listed(dd.perm, dd.nodes, result[..], vars, done + [old(gen.cube[..])], pos)
  {
    hide Manager.Valid, Manager.ClipsExact, Manager.Vouched, ComputedTable.Hits, BddNode, Eval, IsTerm, IsOrder,
      AreTerms, Rows, Values, AllRows;
    hide InRange, AllFit;
    hide CubeGenerator.Valid, CubeGenerator.Rest;
    ghost var c, nodes, before := gen.cube[..], dd.nodes, result[..];
    ghost var rest := gen.Rest()[1..];
    assert gen.Rest() == [c] + rest;
    assert c in all;
    NextCube(done, c, rest, vars);
    ok, pos := ExpandCube(dd, gen.cube, vars, result, pos0);
    if ok {
      ListedNext(dd.perm, nodes, dd.nodes, before, result[..], vars, done, c, pos0, pos);
      gen.Next();
    }
  }

  /* ---------- what the terms are ---------- */

  lemma CountTwo<T>(s: seq<T>, x: T, j: nat, k: nat)
    requires j < k < |s| && s[j] == x && s[k] == x
    ensures multiset(s)[x] >= 2
  {
    assert s == s[..k] + s[k..];
    assert s[..k][j] == x && s[k..][0] == x;
    assert multiset(s) == multiset(s[..k]) + multiset(s[k..]);
    assert x in s[..k] && x in s[k..];
  }

  lemma CountIndex<T>(s: seq<T>, x: T, k: nat)
    requires k < |s| && s[k] == x && multiset(s)[x] <= 1
    ensures forall j :: 0 <= j < |s| && s[j] == x ==> j == k
  {
    forall j | 0 <= j < |s| && s[j] == x ensures j == k {
      if j < k {
        CountTwo(s, x, j, k);
      } else if k < j {
        CountTwo(s, x, k, j);
      }
    }
  }

  lemma {:induction false} AllRowsBits(cubes: seq<Cube>, vars: seq<nat>, k: nat)
    requires AllFit(cubes, vars) && k < |AllRows(cubes, vars)|
    ensures |AllRows(cubes, vars)[k]| == |vars| && IsBits(AllRows(cubes, vars)[k])
  {
    var n := |cubes| - 1;
    var before := |AllRows(cubes[..n], vars)|;
    if k < before {
      AllRowsBits(cubes[..n], vars, k);
    } else {
      RowIsBits(Values(cubes[n], vars), k - before);
    }
  }

  /** A term is 1 exactly where the variables have the values of its row. */
  lemma TermEval(term: Edge, vars: seq<nat>, bits: seq<int>, a: Assignment)
    requires |bits| == |vars| && IsBits(bits) && IsTerm(term, vars, bits, 0)
    ensures Eval(term, a) <==> bits == Restrict(vars, a)
  {
    if Eval(term, a) {
      forall q | 0 <= q < |vars| ensures bits[q] == Restrict(vars, a)[q] {
        assert Agrees(vars, bits, a, q);
      }
    }
    if bits == Restrict(vars, a) {
      forall q | 0 <= q < |vars| ensures Agrees(vars, bits, a, q) {}
    }
  }

  /** Exactly one of the terms is 1 under the assignment. */
  ghost predicate OneHolds(terms: seq<Ptr>, a: Assignment) {
    exists k :: 0 <= k < |terms| && OnlyHolds(terms, a, k)
  }

  ghost predicate OnlyHolds(terms: seq<Ptr>, a: Assignment, k: int)
    requires 0 <= k < |terms|
  {
    forall j :: 0 <= j < |terms| ==> (Eval(Fn(terms[j]), a) <==> j == k)
  }

  ghost predicate NoneHolds(terms: seq<Ptr>, a: Assignment) {
    forall j :: 0 <= j < |terms| ==> !Eval(Fn(terms[j]), a)
  }

  /** The terms split f: a satisfying assignment satisfies exactly one, any other none. */
  lemma TermsPartition(
    perm: seq<nat>, nodes: set<DdNode>, f: Edge, vars: seq<nat>, terms: seq<Ptr>, a: Assignment)
    requires IsOrder(perm) && Bdd(perm, f) && InRange(vars, |perm|)
    requires forall i :: i in Support(f.node) ==> i in vars
    requires AreTerms(perm, nodes, terms, vars, Expansion(perm, f, vars))
    ensures if Eval(f, a) then OneHolds(terms, a) else NoneHolds(terms, a)
  {
    var rows := Expansion(perm, f, vars);
    var bits := Restrict(vars, a);
    EveryAssignmentOnce(perm, f, vars, a);
    forall k | 0 <= k < |rows| ensures Eval(Fn(terms[k]), a) <==> rows[k] == bits {
      AllRowsBits(Cubes(f, Blank(|perm|)), vars, k);
      TermEval(Fn(terms[k]), vars, rows[k], a);
    }
    if Eval(f, a) {
      var k :| 0 <= k < |rows| && rows[k] == bits;
      CountIndex(rows, bits, k);
      assert OnlyHolds(terms, a, k);
    }
  }

  ghost predicate Distinct(vars: seq<nat>) {
    forall i, j :: 0 <= i < j < |vars| ==> vars[i] != vars[j]
  }

  ghost function FromBits(vars: seq<nat>, bits: seq<int>): Assignment
    requires |bits| == |vars|
  {
    iset q | 0 <= q < |vars| && bits[q] == 1 :: vars[q]
  }

  lemma BitsOfAssignment(vars: seq<nat>, bits: seq<int>)
    requires |bits| == |vars| && Distinct(vars) && IsBits(bits)
    ensures Restrict(vars, FromBits(vars, bits)) == bits
  {
  }

  /** Over distinct variables every term fixes all of them, is satisfiable, implies f, and occurs once. */
  lemma TermsAreMinterms(
    perm: seq<nat>, nodes: set<DdNode>, f: Edge, vars: seq<nat>, terms: seq<Ptr>, k: nat)
    requires IsOrder(perm) && Bdd(perm, f) && InRange(vars, |perm|) && Distinct(vars)
    requires forall i :: i in Support(f.node) ==> i in vars
    requires AreTerms(perm, nodes, terms, vars, Expansion(perm, f, vars)) && k < |terms|
    ensures Fn(terms[k]) != ZERO && LessEq(Fn(terms[k]), f)
    ensures forall j :: 0 <= j < |terms| && j != k ==> terms[j] != terms[k]
  {
    var bits := Expansion(perm, f, vars)[k];
    var a := FromBits(vars, bits);
    CubesInRange(perm, f, vars);
    AllRowsBits(Cubes(f, Blank(|perm|)), vars, k);
    BitsOfAssignment(vars, bits);
    TermEval(Fn(terms[k]), vars, bits, a);
    forall b: Assignment | Eval(Fn(terms[k]), b) ensures Eval(f, b) {
      TermsPartition(perm, nodes, f, vars, terms, b);
    }
    TermsPartition(perm, nodes, f, vars, terms, a);
  }
}
