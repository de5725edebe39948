/** Variable reordering by simulated annealing: a state machine over variable orders, driven by
    swaps of adjacent levels that are recorded so that they can be undone. */
module Anneal {
  import opened Orders

  /** Looks for the best size among the moves. */
  method BestSize(size: nat, moves: seq<Move>) returns (bestSize: nat)
    ensures bestSize == Best(size, moves)
  {
    bestSize := size;
    for i := 0 to |moves|
      invariant Best(bestSize, moves[i..]) == Best(size, moves)
    {
      BestStep(bestSize, moves[i..]);
      assert moves[i..][1..] == moves[i + 1..];
      if moves[i].size < bestSize {
        bestSize := moves[i].size;
      }
    }
  }

  class OrderTable {
    const perm: array<nat>
    const invperm: array<nat>
    /** The number of nodes that are not isolated projection functions, for each order. */
    const sizeOf: seq<nat> -> nat
    /** The current number: keys - isolated. */
    var size: nat
    const maxGrowth: real
    /** Some swap has run out of memory. */
    ghost var starved: bool

    ghost predicate Valid()
      reads this, perm, invperm
    {
      && perm != invperm
      && Inverse(perm[..], invperm[..])
      && size == sizeOf(invperm[..])
      && forall o: seq<nat> :: sizeOf(o) > 0
    }

    constructor (perm: array<nat>, invperm: array<nat>, sizeOf: seq<nat> -> nat, maxGrowth: real)
      requires perm != invperm && Inverse(perm[..], invperm[..])
      requires forall o: seq<nat> :: sizeOf(o) > 0
      ensures Valid() && this.perm == perm && this.invperm == invperm && this.sizeOf == sizeOf
    {
      this.perm := perm;
      this.invperm := invperm;
      this.sizeOf := sizeOf;
      this.size := sizeOf(invperm[..]);
      this.maxGrowth := maxGrowth;
      this.starved := false;
    }

    /** Swaps two adjacent levels. Returns the new size, or 0 when memory runs out. */
    method SwapInPlace(x: nat, y: nat) returns (s: nat)
      requires Valid() && y == x + 1 < invperm.Length
      modifies this, perm, invperm
      ensures s != 0 ==> Valid() && s == size && invperm[..] == SwapAt(old(invperm[..]), x)
      ensures starved == (old(starved) || s == 0)
    {
      var failed: bool := *;
      if failed {
        starved := true;
        return 0;
      }
      var xindex, yindex := invperm[x], invperm[y];
      perm[xindex] := y;
      perm[yindex] := x;
      invperm[x] := yindex;
      invperm[y] := xindex;
      assert invperm[..] == SwapAt(old(invperm[..]), x);
      size := sizeOf(invperm[..]);
      s := size;
    }

    /** Swaps levels x and x + 1 and records the move. */
    method SwapAndRecord(
      x: nat, moves0: seq<Move>, ghost start: seq<nat>, ghost lower: nat, ghost upper: nat)
      returns (ok: bool, moves: seq<Move>)
      requires Valid() && lower <= x && x + 1 <= upper && x + 1 < invperm.Length
      requires Trail(sizeOf, start, invperm[..], moves0, lower, upper)
      modifies this, perm, invperm
      ensures ok ==> Valid() && invperm[..] == SwapAt(old(invperm[..]), x)
      ensures !ok ==> starved
      ensures ok ==> Trail(sizeOf, start, invperm[..], moves, lower, upper)
      ensures ok ==> moves == [Move(x, x + 1, size)] + moves0 && Swapped(moves) == [x] + Swapped(moves0)
      ensures ok ==> forall c: nat :: Best(c, moves) == if size < Best(c, moves0) then size else Best(c, moves0)
    {
      TrailPush(sizeOf, start, invperm[..], moves0, lower, upper, x);
      var s := SwapInPlace(x, x + 1);
      ok := s != 0;
      moves := [Move(x, x + 1, s)] + moves0;
      assert moves[1..] == moves0;
      SwappedPush(moves0, moves[0]);
    }

    /* ---------- undoing ---------- */

    /** Keeps the order reached, or undoes the newest moves until the best size is met. Without an
        improvement the coin decides; having decided not to accept, the size goes back as well. */
    method SiftBackwardProb(
      moves: seq<Move>, initial: nat, accept: bool, ghost start: seq<nat>, ghost lower: nat,
      ghost upper: nat) returns (ok: bool)
      requires Valid() && Trail(sizeOf, start, invperm[..], moves, lower, upper)
      requires initial == sizeOf(start)
      modifies this, perm, invperm
      ensures ok ==> Valid() && SameOutside(invperm[..], start, lower, upper)
      ensures ok ==> Settled(sizeOf, start, old(invperm[..]), invperm[..], moves, accept, lower, upper)
      ensures !ok ==> starved
    {
      hide Inverse, SwapAt, Trail, SameOutside, Best, Undo;
      var bestSize := BestSize(initial, moves);
      ghost var now := invperm[..];
      TrailOutside(sizeOf, start, now, moves, lower, upper);
      UndoNothing(now, moves);
      if bestSize == initial && accept {
        return true;
      }
      var res := size;
      for i := 0 to |moves|
        invariant Valid() && res == size
        invariant Trail(sizeOf, start, invperm[..], moves[i..], lower, upper)
        invariant invperm[..] == Undo(now, moves[..i])
        invariant Best(initial, moves[i..]) == bestSize
        invariant forall k :: 0 <= k < i ==> sizeOf(Undo(now, moves[..k])) != bestSize
      {
        TrailOutside(sizeOf, start, invperm[..], moves[i..], lower, upper);
        if res == bestSize {
          return true;
        }
        assert moves[i..][1..] == moves[i + 1..];
        TrailPop(sizeOf, start, invperm[..], moves[i..], lower, upper, initial);
        UndoOneMore(sizeOf, start, now, moves, lower, upper, i);
        res := SwapInPlace(moves[i].x, moves[i].y);
        if res == 0 {
          return false;
        }
      }
      TrailOutside(sizeOf, start, invperm[..], moves[|moves|..], lower, upper);
      TrailNone(sizeOf, start, invperm[..], moves[|moves|..], lower, upper, initial);
      return true;
    }

    /* ---------- exchanging two variables ---------- */

    /** Bubbles the variables at levels a and b towards each other and apart again. The net effect is to
        exchange them, unless the growth limit fires on the way. */
    method Bubble(a: nat, b: nat) returns (ok: bool, moves: seq<Move>)
      requires Valid() && a < b < invperm.Length
      modifies this, perm, invperm
      ensures ok ==> Valid() && Trail(sizeOf, old(invperm[..]), invperm[..], moves, a, b)
      ensures ok ==> IsBubbling(sizeOf, old(invperm[..]), invperm[..], moves, a, b)
      ensures !ok ==> starved
    {
      hide Trail, SwapAt, StepOrder, Exchanged, Inverse, Best, Outgrows, Half, Steps, LevelsAt, StepSwaps;
      hide Swapped, IsBubbling;
      ghost var start := invperm[..];
      var x: int, y: int := a, b;
      var xNext: int, yNext: int := a + 1, b - 1;
      moves, ok := [], true;
      var limitSize := size;
      ghost var j := 0;
      StepEnds(start, a, b);
      TrailNothing(sizeOf, start, a, b);
      LimitStart(sizeOf, start, a, b);
      while true
        invariant Valid() && ok && xNext == x + 1 && yNext == y - 1
        invariant 0 <= j < Steps(a, b) && (x, y) == LevelsAt(a, b, j)
        invariant Trail(sizeOf, start, invperm[..], moves, a, b)
        invariant invperm[..] == StepOrder(start, a, b, j) && Swapped(moves) == AllSwaps(a, b, j)
        invariant IsLimit(sizeOf, start, a, b, j, limitSize)
        decreases Steps(a, b) - j
      {
        ok, moves, x, y := BubbleStep(x, y, moves, start, a, b, j);
        if !ok {
          return;
        }
        j := j + 1;
        xNext, yNext := x + 1, y - 1;
        AtEnd(a, b, j);
        if xNext > b {
          BubblingEnds(sizeOf, start, invperm[..], moves, a, b, limitSize);
          break;
        }
        LimitFires(sizeOf, start, a, b, j, limitSize);
        if size as real > 1.2 * limitSize as real {
          assert FiresAt(sizeOf, start, a, b, j);
          break;
        }
        if size < limitSize {
          limitSize := size;
        }
      }
      if yNext >= a {
        ok, moves := SwapAndRecord(yNext, moves, start, a, b);
        if ok {
          BubblingCut(sizeOf, start, invperm[..], moves, a, b, j);
        }
      }
    }

    /** One step: the two variables at levels x and y cross, or move one level each. */
    method BubbleStep(
      x0: nat, y0: nat, moves0: seq<Move>, ghost start: seq<nat>, ghost a: nat, ghost b: nat, ghost j: nat)
      returns (ok: bool, moves: seq<Move>, x: nat, y: nat)
      requires Valid() && a < b < |start| && |start| == invperm.Length
      requires j < Steps(a, b) && (x0, y0) == LevelsAt(a, b, j)
      requires Trail(sizeOf, start, invperm[..], moves0, a, b)
      requires invperm[..] == StepOrder(start, a, b, j) && Swapped(moves0) == AllSwaps(a, b, j)
      modifies this, perm, invperm
      ensures ok ==> Valid() && Trail(sizeOf, start, invperm[..], moves, a, b)
      ensures ok ==> invperm[..] == StepOrder(start, a, b, j + 1) && Swapped(moves) == AllSwaps(a, b, j + 1)
      ensures ok ==> (x, y) == LevelsAt(a, b, j + 1)
      ensures !ok ==> starved
    {
      hide Trail, SwapAt, StepOrder, Inverse, Best, Half, Steps, LevelsAt, StepSwaps, Swapped;
      StepTaken(start, a, b, j);
      AllSwapsNext(a, b, j + 1);
      var xNext, yNext := x0 + 1, y0 - 1;
      x, y := y0, x0;
      if xNext == yNext {
        ok, moves := SwapAndRecord(x0, moves0, start, a, b);
        if !ok { return; }
        ok, moves := SwapAndRecord(yNext, moves, start, a, b);
        if !ok { return; }
        ok, moves := SwapAndRecord(x0, moves, start, a, b);
      } else if x0 == yNext {
        ok, moves := SwapAndRecord(x0, moves0, start, a, b);
      } else {
        ok, moves := SwapAndRecord(x0, moves0, start, a, b);
        if !ok { return; }
        ok, moves := SwapAndRecord(yNext, moves, start, a, b);
        x, y := xNext, yNext;
      }
    }

    /** Exchanges the variables at levels x and y, then keeps the result or goes back. */
    method Exchange(x: nat, y: nat, accept: bool) returns (ok: bool)
      requires Valid() && x < y < invperm.Length
      modifies this, perm, invperm
      ensures ok ==> Valid() && SameOutside(invperm[..], old(invperm[..]), x, y)
      ensures ok ==> IsExchangeMove(sizeOf, old(invperm[..]), invperm[..], x, y, accept)
      ensures !ok ==> starved
    {
      hide Settled, IsBubbling, Trail, SameOutside;
      ghost var start := invperm[..];
      var initialSize := size;
      var moves;
      ok, moves := Bubble(x, y);
      if ok {
        ok := SiftBackwardProb(moves, initialSize, accept, start, x, y);
      }
    }

    /* ---------- jumping ---------- */

    /** Moves the variable at level x0 up towards xLow. An empty list means failure, or no room. */
    method JumpingUp(x0: nat, xLow: nat, initialSize: nat) returns (moves: seq<Move>)
      requires Valid() && x0 < invperm.Length && initialSize == size
      modifies this, perm, invperm
      ensures moves != [] ==>
                && Valid() && |moves| <= x0 - xLow
                && Trail(sizeOf, old(invperm[..]), invperm[..], moves, xLow, x0)
                && IsJumpUp(sizeOf, old(invperm[..]), invperm[..], moves, xLow, x0, maxGrowth)
      ensures moves == [] && xLow < x0 ==> starved
    {
      hide SwapAt, MovedUp, MovedDown, Inverse, Best, GrownAt, GrownAtNewestOnly, Swapped;
      ghost var start := invperm[..];
      var x, limitSize := x0, initialSize;
      moves := [];
      BestOfNone(initialSize);
      GrownNone(initialSize, maxGrowth);
      var y := x - 1;
      JumpStep(start, x0, 0);
      while y >= xLow
        invariant Valid() && y == x - 1 && x == x0 - |moves| && (moves != [] ==> xLow <= x)
        invariant Trail(sizeOf, start, invperm[..], moves, xLow, x0)
        invariant invperm[..] == MovedUp(start, x0, |moves|)
        invariant forall i :: 0 <= i < |moves| ==> Swapped(moves)[i] == x0 - |moves| + i
        invariant limitSize == Best(initialSize, moves)
        invariant GrownAtNewestOnly(initialSize, moves, maxGrowth)
        invariant moves != [] ==> !GrownAt(initialSize, moves, maxGrowth, 0)
      {
        JumpStep(start, x0, |moves|);
        ghost var rest := moves;
        var ok;
        ok, moves := SwapAndRecord(y, moves, start, xLow, x0);
        if !ok {
          return [];
        }
        GrownPush(initialSize, rest, maxGrowth, moves[0]);
        if size as real > maxGrowth * limitSize as real {
          break;
        }
        if size < limitSize {
          limitSize := size;
        }
        x := y;
        y := x - 1;
      }
    }

    /** Moves the variable at level x0 down towards xHigh. */
    method JumpingDown(x0: nat, xHigh: nat, initialSize: nat) returns (moves: seq<Move>)
      requires Valid() && xHigh < invperm.Length && initialSize == size
      modifies this, perm, invperm
      ensures moves != [] ==>
                && Valid() && x0 + |moves| <= xHigh
                && Trail(sizeOf, old(invperm[..]), invperm[..], moves, x0, xHigh)
                && IsJumpDown(sizeOf, old(invperm[..]), invperm[..], moves, x0, xHigh, maxGrowth)
      ensures moves == [] && x0 < xHigh ==> starved
    {
      hide SwapAt, MovedUp, MovedDown, Inverse, Best, GrownAt, GrownAtNewestOnly, Swapped;
      ghost var start := invperm[..];
      var x, limitSize := x0, initialSize;
      moves := [];
      BestOfNone(initialSize);
      GrownNone(initialSize, maxGrowth);
      var y := x + 1;
      JumpStep(start, x0, 0);
      while y <= xHigh
        invariant Valid() && y == x + 1 && x == x0 + |moves| && (moves != [] ==> x <= xHigh)
        invariant Trail(sizeOf, start, invperm[..], moves, x0, xHigh)
        invariant x < |start| ==> invperm[..] == MovedDown(start, x0, |moves|)
        invariant forall i :: 0 <= i < |moves| ==> Swapped(moves)[i] == x0 + |moves| - 1 - i
        invariant limitSize == Best(initialSize, moves)
        invariant GrownAtNewestOnly(initialSize, moves, maxGrowth)
        invariant moves != [] ==> !GrownAt(initialSize, moves, maxGrowth, 0)
      {
        JumpStep(start, x0, |moves|);
        ghost var rest := moves;
        var ok;
        ok, moves := SwapAndRecord(x, moves, start, x0, xHigh);
        if !ok {
          return [];
        }
        GrownPush(initialSize, rest, maxGrowth, moves[0]);
        if size as real > maxGrowth * limitSize as real {
          break;
        }
        if size < limitSize {
          limitSize := size;
        }
        x := y;
        y := x + 1;
      }
    }

    /** Jumps from one end of the interval towards the other, then keeps the result or goes back. */
    method JumpingAux(x: nat, xLow: nat, xHigh: nat, accept: bool) returns (ok: bool)
      requires Valid() && xLow <= x <= xHigh < invperm.Length
      modifies this, perm, invperm
      ensures ok ==> Valid() && SameOutside(invperm[..], old(invperm[..]), xLow, xHigh)
      ensures ok ==> x == xLow || x == xHigh
      ensures ok ==>
                if xLow == xHigh then invperm[..] == old(invperm[..])
                else IsJumpMove(sizeOf, old(invperm[..]), invperm[..], xLow, xHigh, x == xHigh, accept, maxGrowth)
      ensures !ok ==> starved || xLow < x < xHigh
    {
      hide Settled, IsJumpUp, IsJumpDown, Trail;
      ghost var start := invperm[..];
      var initialSize := size;
      var moves;
      if x - 1 < xLow {
        if x + 1 > xHigh {
          return true;
        }
        moves := JumpingDown(x, xHigh, initialSize);
      } else if x + 1 > xHigh {
        moves := JumpingUp(x, xLow, initialSize);
      } else {
        return false;
      }
      if moves == [] {
        return false;
      }
      ok := SiftBackwardProb(moves, initialSize, accept, start, xLow, xHigh);
    }

    /* ---------- saving and restoring ---------- */

    method CopyOrder(levels: array<nat>, lower: nat, upper: nat)
      requires Valid() && lower <= upper < invperm.Length && levels.Length == upper - lower + 1
      requires levels != perm && levels != invperm
      modifies levels
      ensures levels[..] == invperm[lower..upper + 1]
    {
      var nvars := upper - lower + 1;
      for i := 0 to nvars
        invariant forall j :: 0 <= j < i ==> levels[j] == invperm[j + lower]
        invariant invperm[..] == old(invperm[..])
      {
        levels[i] := invperm[i + lower];
      }
    }

    /** Restores a saved order by a series of sifts up. */
    method RestoreOrder(levels: array<nat>, lower: nat, upper: nat, ghost p: seq<nat>, ghost saved: seq<nat>)
      returns (ok: bool)
      requires Valid() && lower <= upper < invperm.Length && levels != perm && levels != invperm
      requires Inverse(p, saved) && SameOutside(invperm[..], saved, lower, upper)
      requires levels[..] == saved[lower..upper + 1]
      modifies this, perm, invperm
      ensures ok ==> Valid() && invperm[..] == saved
      ensures !ok ==> starved
    {
      var nvars := upper - lower + 1;
      for i := 0 to nvars
        invariant Valid() && levels[..] == saved[lower..upper + 1]
        invariant SameOutside(invperm[..], saved, lower, upper)
        invariant forall l :: lower <= l < lower + i ==> invperm[l] == saved[l]
      {
        assert levels[i] == saved[lower + i];
        SameInside(perm[..], invperm[..], p, saved, lower, upper, lower + i);
        ok := SiftUpTo(levels[i], lower + i, upper, saved, lower);
        if !ok {
          return;
        }
      }
      ok := true;
    }

    /** Moves one variable up to the given level; the levels above stay as they are. */
    method SiftUpTo(v: nat, level: nat, upper: nat, ghost saved: seq<nat>, ghost lower: nat) returns (ok: bool)
      requires Valid() && v < perm.Length && upper < invperm.Length && lower <= level
      requires lower <= perm[v] <= upper && saved[..] == saved && |saved| == invperm.Length
      requires SameOutside(invperm[..], saved, lower, upper) && level < |saved| && v == saved[level]
      requires forall l :: lower <= l < level ==> invperm[l] == saved[l]
      requires forall l :: lower <= l < level ==> saved[l] != v
      modifies this, perm, invperm
      ensures ok ==> Valid() && SameOutside(invperm[..], saved, lower, upper)
      ensures ok ==> forall l :: lower <= l <= level ==> invperm[l] == saved[l]
      ensures !ok ==> starved
    {
      var x: int := perm[v];
      assert invperm[x] == v;
      assert x >= level;
      var y := x - 1;
      while y >= level
        invariant Valid() && level <= x <= upper && y == x - 1 && invperm[x] == v
        invariant SameOutside(invperm[..], saved, lower, upper)
        invariant forall l :: lower <= l < level ==> invperm[l] == saved[l]
      {
        ghost var before := invperm[..];
        var s := SwapInPlace(y, x);
        if s == 0 {
          return false;
        }
        assert forall l :: 0 <= l < invperm.Length ==> invperm[l] == SwapAt(before, y)[l];
        x := y;
        y := x - 1;
      }
      ok := true;
    }

    /* ---------- annealing ---------- */

    /** Stands for the initial sifting: any rearrangement inside [lower, upper], as the adjacent swaps
        it comes down to. */
    method Sifting(lower: nat, upper: nat, plan: seq<nat>) returns (ok: bool)
      requires Valid() && lower <= upper < invperm.Length
      modifies this, perm, invperm
      ensures ok ==> Valid() && SameOutside(invperm[..], old(invperm[..]), lower, upper)
      ensures !ok ==> starved
    {
      for i := 0 to |plan|
        invariant Valid() && SameOutside(invperm[..], old(invperm[..]), lower, upper)
      {
        var x := plan[i];
        if lower <= x < upper {
          var s := SwapInPlace(x, x + 1);
          if s == 0 {
            return false;
          }
        }
      }
      ok := true;
    }

    /** One move between the two drawn positions. */
    method OneMove(draw: Draw, lower: nat, upper: nat) returns (ok: bool)
      requires Valid() && lower <= upper < invperm.Length
      requires draw.x != draw.y && lower + draw.x <= upper && lower + draw.y <= upper
      modifies this, perm, invperm
      ensures ok ==> Valid() && SameOutside(invperm[..], old(invperm[..]), lower, upper)
      ensures ok ==> IsMove(sizeOf, maxGrowth, lower, draw, old(invperm[..]), invperm[..])
      ensures !ok ==> starved
    {
      hide IsExchangeMove, IsJumpMove;
      var x, y := lower + draw.x, lower + draw.y;
      if x > y {
        x, y := y, x;
      }
      match draw.choice
      case ExchangeTwo => ok := Exchange(x, y, draw.accept);
      case JumpUp => ok := JumpingAux(y, x, y, draw.accept);
      case JumpDown => ok := JumpingAux(x, x, y, draw.accept);
    }

    /** Anneals the levels lower to upper. On success the order is the first of the least size among
        the checkpoints, which are the order after the initial sifting and the order after every move;
        and no level outside the interval has changed. */
    method Annealing(lower: nat, upper: nat, plan: seq<nat>, rounds: seq<Round>)
      returns (ok: bool, ghost n: nat, ghost orders: seq<seq<nat>>)
      requires Valid() && lower <= upper < invperm.Length
      requires forall i :: 0 <= i < |rounds| ==> ProperDraws(rounds[i].draws, upper - lower + 1)
      modifies this, perm, invperm
      ensures ok ==> Valid() && SameOutside(invperm[..], old(invperm[..]), lower, upper)
      ensures ok ==> RanRounds(sizeOf, maxGrowth, lower, rounds, n, orders)
      ensures ok ==> n < |rounds| ==> StopsBefore(sizeOf, rounds, orders, n)
      ensures ok ==> SameOutside(orders[0], old(invperm[..]), lower, upper)
      ensures ok ==> exists b: nat :: FirstLeast(sizeOf, orders, b) && invperm[..] == orders[b]
      ensures !ok ==> starved
    {
      hide IsMove, IsWindow, IsWalk, Inverse, RanRounds, StopsBefore, StoppingCriterion, FirstLeast;
      hide ProperDraws;
      ghost var start := invperm[..];
      n, orders := 0, [];
      ok := Sifting(lower, upper, plan);
      if !ok {
        return;
      }
      orders := [invperm[..]];
      var size := size;
      var bestCost := size;
      var bestOrder := new nat[upper - lower + 1];
      CopyOrder(bestOrder, lower, upper);
      ghost var p, b: nat := perm[..], 0;
      var c1: int, c2: int, c3: int, c4: int := size + 10, size + 20, size, size + 30;
      var i := 0;
      StartRun(sizeOf, maxGrowth, lower, rounds, orders);
      while i < |rounds| && !StoppingCriterion(c1, c2, c3, c4, rounds[i].cold)
        invariant i == n <= |rounds| && |orders| == |AllDraws(rounds[..n])| + 1
        invariant RanRounds(sizeOf, maxGrowth, lower, rounds, n, orders)
        invariant IsWindow(sizeOf, rounds, orders, n, c1, c2, c3, c4)
        invariant Valid() && SameOutside(invperm[..], start, lower, upper)
        invariant orders[|orders| - 1] == invperm[..] && SameOutside(orders[0], start, lower, upper)
        invariant Saved(bestOrder[..], bestCost, p, b, orders, start, lower, upper)
      {
        ghost var before := orders;
        RunIsWalk(sizeOf, maxGrowth, lower, rounds, n, orders);
        CriterionIsStop(sizeOf, rounds, orders, n, c1, c2, c3, c4);
        ok, bestCost, p, b, orders := OneRound(
          bestOrder, bestCost, lower, upper, rounds[i].draws, start, p, b, orders, AllDraws(rounds[..n]));
        if !ok {
          return;
        }
        RanOneMore(sizeOf, maxGrowth, lower, rounds, n, before, orders);
        NextWindow(sizeOf, rounds, before, orders, n, c1, c2, c3, c4);
        c1, c2, c3, c4 := c2, c3, c4, this.size;
        i := i + 1;
        n := n + 1;
      }
      if i < |rounds| {
        RunIsWalk(sizeOf, maxGrowth, lower, rounds, n, orders);
        CriterionIsStop(sizeOf, rounds, orders, n, c1, c2, c3, c4);
      }
      ok := RestoreOrder(bestOrder, lower, upper, p, orders[b]);
    }

    /** The moves made at one temperature. A new best order is saved. */
    method OneRound(
      bestOrder: array<nat>, bestCost0: nat, lower: nat, upper: nat, draws: seq<Draw>,
      ghost start: seq<nat>, ghost p0: seq<nat>, ghost b0: nat, ghost orders0: seq<seq<nat>>,
      ghost done: seq<Draw>)
      returns (ok: bool, bestCost: nat, ghost p: seq<nat>, ghost b: nat, ghost orders: seq<seq<nat>>)
      requires Valid() && lower <= upper < invperm.Length && bestOrder != perm && bestOrder != invperm
      requires ProperDraws(draws, upper - lower + 1) && SameOutside(invperm[..], start, lower, upper)
      requires IsWalk(sizeOf, maxGrowth, lower, done, orders0) && orders0[|done|] == invperm[..]
      requires Saved(bestOrder[..], bestCost0, p0, b0, orders0, start, lower, upper)
      modifies this, perm, invperm, bestOrder
      ensures ok ==> Valid() && SameOutside(invperm[..], start, lower, upper)
      ensures ok ==> |orders0| <= |orders| == |done| + |draws| + 1 && orders[..|orders0|] == orders0
      ensures ok ==> IsWalk(sizeOf, maxGrowth, lower, done + draws, orders) && orders[|done + draws|] == invperm[..]
      ensures ok ==> Saved(bestOrder[..], bestCost, p, b, orders, start, lower, upper)
      ensures !ok ==> starved
    {
      hide IsMove, FirstLeast, Inverse;
      bestCost, p, b, orders := bestCost0, p0, b0, orders0;
      assert done + draws[..0] == done;
      for k := 0 to |draws|
        invariant Valid() && SameOutside(invperm[..], start, lower, upper)
        invariant |orders0| <= |orders| && orders[..|orders0|] == orders0
        invariant IsWalk(sizeOf, maxGrowth, lower, done + draws[..k], orders)
        invariant orders[|done| + k] == invperm[..]
        invariant Saved(bestOrder[..], bestCost, p, b, orders, start, lower, upper)
      {
        ok := OneMove(draws[k], lower, upper);
        if !ok {
          return;
        }
        WalkOne(sizeOf, maxGrowth, lower, done + draws[..k], orders, draws[k], invperm[..]);
        assert (done + draws[..k]) + [draws[k]] == done + draws[..k + 1];
        LeastPush(sizeOf, orders, b, invperm[..]);
        orders := orders + [invperm[..]];
        if size < bestCost {
          bestCost := size;
          CopyOrder(bestOrder, lower, upper);
          p, b := perm[..], |orders| - 1;
        }
      }
      assert draws[..|draws|] == draws;
      ok := true;
    }

    /** The array holds the levels lower to upper of the best checkpoint so far, number b. */
    ghost predicate Saved(
      levels: seq<nat>, cost: nat, p: seq<nat>, b: nat, orders: seq<seq<nat>>, start: seq<nat>, lower: nat,
      upper: nat)
    {
      && FirstLeast(sizeOf, orders, b) && b < |orders|
      && Inverse(p, orders[b]) && SameOutside(orders[b], start, lower, upper)
      && lower <= upper < |orders[b]| && levels == orders[b][lower..upper + 1]
      && cost == sizeOf(orders[b])
    }
  }
}
