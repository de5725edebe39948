/** Variable orders, the moves that lead from one to another, and what a run of annealing is: no
    algorithm is mentioned here. */
module Orders {

  /* ---------- orders ---------- */

  /** p and q are inverse permutations: variable to level and level to variable. */
  ghost predicate Inverse(p: seq<nat>, q: seq<nat>) {
    && |p| == |q|
    && (forall i :: 0 <= i < |p| ==> p[i] < |q| && q[p[i]] == i)
    && (forall l :: 0 <= l < |q| ==> q[l] < |p| && p[q[l]] == l)
  }

  /** The order with levels x and x + 1 swapped. */
  function SwapAt(o: seq<nat>, x: nat): seq<nat>
    requires x + 1 < |o|
  {
    o[x := o[x + 1]][x + 1 := o[x]]
  }

  lemma SwapAtTwice(o: seq<nat>, x: nat)
    requires x + 1 < |o|
    ensures SwapAt(SwapAt(o, x), x) == o
  {
  }

  /** Two orders that agree on every level outside [lower, upper]. */
  ghost predicate SameOutside(o: seq<nat>, s: seq<nat>, lower: nat, upper: nat) {
    |o| == |s| && forall l :: 0 <= l < |o| && !(lower <= l <= upper) ==> o[l] == s[l]
  }

  /** The order with the variables at levels x and y exchanged. */
  function Exchanged(o: seq<nat>, x: nat, y: nat): seq<nat>
    requires x < |o| && y < |o|
  {
    o[x := o[y]][y := o[x]]
  }

  /** The order with the variable at level x moved up by k levels, and those it passes down by one. */
  function MovedUp(o: seq<nat>, x: nat, k: nat): seq<nat>
    requires k <= x < |o|
  {
    seq(|o|, l requires 0 <= l < |o| =>
      if l == x - k then o[x] else if x - k < l <= x then o[l - 1] else o[l])
  }

  /** The order with the variable at level x moved down by k levels, and those it passes up by one. */
  function MovedDown(o: seq<nat>, x: nat, k: nat): seq<nat>
    requires x + k < |o|
  {
    seq(|o|, l requires 0 <= l < |o| =>
      if l == x + k then o[x] else if x <= l < x + k then o[l + 1] else o[l])
  }

  /* ---------- recorded moves ---------- */

  /** A swap of levels x and y = x + 1, and the size after it. */
  datatype Move = Move(x: nat, y: nat, size: nat)

  /** The moves, newest first, lead from the order start to the order now, staying in [lower, upper];
      each recorded size is the size of the order the move produced. */
  ghost predicate Trail(
    sizeOf: seq<nat> -> nat, start: seq<nat>, now: seq<nat>, moves: seq<Move>, lower: nat, upper: nat)
    decreases |moves|
  {
    if moves == [] then now == start
    else
      && lower <= moves[0].x && moves[0].y == moves[0].x + 1 <= upper && moves[0].y < |now|
      && moves[0].size == sizeOf(now)
      && Trail(sizeOf, start, SwapAt(now, moves[0].x), moves[1..], lower, upper)
  }

  /** The order after undoing all the given moves, newest first. */
  function Undo(o: seq<nat>, moves: seq<Move>): seq<nat>
    decreases |moves|
  {
    if moves == [] || moves[0].x + 1 >= |o| then o else Undo(SwapAt(o, moves[0].x), moves[1..])
  }

  lemma TrailNothing(sizeOf: seq<nat> -> nat, o: seq<nat>, lower: nat, upper: nat)
    ensures Trail(sizeOf, o, o, [], lower, upper)
  {
  }

  /** Replaying the whole move list restores the starting order. */
  lemma {:induction false} UndoRestores(
    sizeOf: seq<nat> -> nat, start: seq<nat>, now: seq<nat>, moves: seq<Move>, lower: nat, upper: nat)
    requires Trail(sizeOf, start, now, moves, lower, upper)
    ensures Undo(now, moves) == start
    decreases |moves|
  {
    if moves != [] {
      UndoRestores(sizeOf, start, SwapAt(now, moves[0].x), moves[1..], lower, upper);
    }
  }

  lemma {:induction false} TrailOutside(
    sizeOf: seq<nat> -> nat, start: seq<nat>, now: seq<nat>, moves: seq<Move>, lower: nat, upper: nat)
    requires Trail(sizeOf, start, now, moves, lower, upper)
    ensures SameOutside(now, start, lower, upper)
    decreases |moves|
  {
    if moves != [] {
      TrailOutside(sizeOf, start, SwapAt(now, moves[0].x), moves[1..], lower, upper);
    }
  }

  lemma TrailPush(
    sizeOf: seq<nat> -> nat, start: seq<nat>, now: seq<nat>, moves: seq<Move>, lower: nat, upper: nat,
    x: nat)
    requires Trail(sizeOf, start, now, moves, lower, upper)
    requires lower <= x && x + 1 <= upper && x + 1 < |now|
    ensures var next := SwapAt(now, x);
            Trail(sizeOf, start, next, [Move(x, x + 1, sizeOf(next))] + moves, lower, upper)
  {
    SwapAtTwice(now, x);
    assert ([Move(x, x + 1, sizeOf(SwapAt(now, x)))] + moves)[1..] == moves;
  }

  /** The least of a size and the recorded sizes. */
  function Best(size: nat, moves: seq<Move>): nat {
    if moves == [] then size
    else
      var rest := Best(size, moves[1..]);
      if moves[0].size < rest then moves[0].size else rest
  }

  /** Move i, counted from the newest, led to a size beyond the growth factor times the least size
      before it. */
  ghost predicate GrownAt(initial: nat, moves: seq<Move>, growth: real, i: nat)
    requires i < |moves|
  {
    moves[i].size as real > growth * Best(initial, moves[i + 1..]) as real
  }

  /** The limit fired at the newest move if at any. */
  ghost predicate GrownAtNewestOnly(initial: nat, moves: seq<Move>, growth: real) {
    forall i :: 0 < i < |moves| ==> !GrownAt(initial, moves, growth, i)
  }

  lemma BestOfNone(initial: nat)
    ensures Best(initial, []) == initial
  {
  }

  lemma GrownNone(initial: nat, growth: real)
    ensures GrownAtNewestOnly(initial, [], growth)
  {
  }

  lemma GrownAtPush(initial: nat, moves: seq<Move>, growth: real, m: Move, i: nat)
    requires i < |moves|
    ensures GrownAt(initial, [m] + moves, growth, i + 1) <==> GrownAt(initial, moves, growth, i)
  {
    hide Best;
    var longer := [m] + moves;
    assert longer[i + 1] == moves[i];
    assert longer[i + 1 + 1..] == moves[i + 1..];
  }

  lemma GrownAtFirst(initial: nat, moves: seq<Move>, growth: real, m: Move)
    ensures GrownAt(initial, [m] + moves, growth, 0) <==> m.size as real > growth * Best(initial, moves) as real
  {
    assert ([m] + moves)[0 + 1..] == moves;
  }

  lemma GrownPush(initial: nat, moves: seq<Move>, growth: real, m: Move)
    requires GrownAtNewestOnly(initial, moves, growth) && (moves != [] ==> !GrownAt(initial, moves, growth, 0))
    ensures GrownAtNewestOnly(initial, [m] + moves, growth)
    ensures GrownAt(initial, [m] + moves, growth, 0) <==> m.size as real > growth * Best(initial, moves) as real
  {
    GrownAtFirst(initial, moves, growth, m);
    hide GrownAt, Best;
    forall i | 0 < i < |moves| + 1 ensures !GrownAt(initial, [m] + moves, growth, i) {
      GrownAtPush(initial, moves, growth, m, i - 1);
    }
  }

  /** How a series of moves ends. Without an improvement the coin may keep the order reached; otherwise
      as few of the newest moves as possible are undone to have the best size met. */
  ghost predicate Settled(
    sizeOf: seq<nat> -> nat, start: seq<nat>, reached: seq<nat>, now: seq<nat>, moves: seq<Move>,
    accept: bool, lower: nat, upper: nat)
  {
    && Trail(sizeOf, start, reached, moves, lower, upper)
    && var best := Best(sizeOf(start), moves);
       if best == sizeOf(start) && accept then now == reached
       else IsUndone(sizeOf, reached, now, moves, best)
  }

  ghost predicate IsUndone(
    sizeOf: seq<nat> -> nat, reached: seq<nat>, now: seq<nat>, moves: seq<Move>, best: nat)
  {
    exists j :: 0 <= j <= |moves| && now == Undo(reached, moves[..j]) && sizeOf(now) == best &&
                forall i :: 0 <= i < j ==> sizeOf(Undo(reached, moves[..i])) != best
  }

  /** The levels swapped, newest first. */
  function Swapped(moves: seq<Move>): (r: seq<nat>)
    ensures |r| == |moves|
  {
    seq(|moves|, i requires 0 <= i < |moves| => moves[i].x)
  }

  lemma SwappedPush(moves: seq<Move>, m: Move)
    ensures Swapped([m] + moves) == [m.x] + Swapped(moves)
  {
  }

  /** Exchanging the variables at levels x and y, as far as the growth limit lets it, and settling. */
  ghost predicate IsExchangeMove(
    sizeOf: seq<nat> -> nat, start: seq<nat>, now: seq<nat>, x: nat, y: nat, accept: bool)
  {
    && x < y < |start|
    && exists reached, moves ::
         && Settled(sizeOf, start, reached, now, moves, accept, x, y)
         && IsBubbling(sizeOf, start, reached, moves, x, y)
  }

  /** Moving a variable from one end of [x, y] towards the other, as far as the growth limit lets it,
      and settling. */
  ghost predicate IsJumpMove(
    sizeOf: seq<nat> -> nat, start: seq<nat>, now: seq<nat>, x: nat, y: nat, up: bool, accept: bool,
    growth: real)
  {
    && x < y < |start|
    && exists reached, moves ::
         && Settled(sizeOf, start, reached, now, moves, accept, x, y)
         && (if up then IsJumpUp(sizeOf, start, reached, moves, x, y, growth)
             else IsJumpDown(sizeOf, start, reached, moves, x, y, growth))
  }

  /** The variable at y moves up one level at a time. The limit fires at the newest move, or the
      variable has arrived at x; it did not fire earlier. */
  ghost predicate IsJumpUp(
    sizeOf: seq<nat> -> nat, start: seq<nat>, reached: seq<nat>, moves: seq<Move>, x: nat, y: nat, growth: real)
    requires x < y < |start|
  {
    && 0 < |moves| <= y - x
    && reached == MovedUp(start, y, |moves|)
    && (forall i :: 0 <= i < |moves| ==> Swapped(moves)[i] == y - |moves| + i)
    && GrownAtNewestOnly(sizeOf(start), moves, growth)
    && (|moves| == y - x || GrownAt(sizeOf(start), moves, growth, 0))
  }

  ghost predicate IsJumpDown(
    sizeOf: seq<nat> -> nat, start: seq<nat>, reached: seq<nat>, moves: seq<Move>, x: nat, y: nat, growth: real)
    requires x < y < |start|
  {
    && 0 < |moves| <= y - x
    && reached == MovedDown(start, x, |moves|)
    && (forall i :: 0 <= i < |moves| ==> Swapped(moves)[i] == x + |moves| - 1 - i)
    && GrownAtNewestOnly(sizeOf(start), moves, growth)
    && (|moves| == y - x || GrownAt(sizeOf(start), moves, growth, 0))
  }

  /** Taking the minimum from the front gives the same result. */
  lemma {:induction false} BestStep(size: nat, moves: seq<Move>)
    requires moves != []
    ensures Best(size, moves) == Best(if moves[0].size < size then moves[0].size else size, moves[1..])
  {
    BestMin(size, moves[1..], moves[0].size);
  }

  lemma {:induction false} BestMin(size: nat, moves: seq<Move>, other: nat)
    ensures Best(if other < size then other else size, moves) ==
            if other < Best(size, moves) then other else Best(size, moves)
  {
    if moves != [] {
      BestMin(size, moves[1..], other);
    }
  }

  lemma {:induction false} UndoOneMore(
    sizeOf: seq<nat> -> nat, start: seq<nat>, now: seq<nat>, moves: seq<Move>, lower: nat, upper: nat,
    i: nat)
    requires i < |moves| && Trail(sizeOf, start, now, moves, lower, upper)
    ensures var o := Undo(now, moves[..i]);
            moves[i].x + 1 < |o| && Undo(now, moves[..i + 1]) == SwapAt(o, moves[i].x)
    decreases i
  {
    var m := moves[..i + 1];
    if i > 0 {
      var next := SwapAt(now, moves[0].x);
      UndoOneMore(sizeOf, start, next, moves[1..], lower, upper, i - 1);
      assert m[1..] == moves[1..][..i];
      assert moves[..i][1..] == moves[1..][..i - 1];
    } else {
      assert m[1..] == [] && moves[..0] == [];
    }
  }

  lemma UndoNothing(o: seq<nat>, moves: seq<Move>)
    ensures Undo(o, moves[..0]) == o && moves[0..] == moves
  {
  }

  /** The newest move and the trail without it. If its size is not the best, the best is among the rest. */
  lemma TrailPop(
    sizeOf: seq<nat> -> nat, start: seq<nat>, now: seq<nat>, moves: seq<Move>, lower: nat, upper: nat,
    initial: nat)
    requires Trail(sizeOf, start, now, moves, lower, upper) && moves != []
    ensures lower <= moves[0].x && moves[0].y == moves[0].x + 1 <= upper && moves[0].y < |now|
    ensures Trail(sizeOf, start, SwapAt(now, moves[0].x), moves[1..], lower, upper)
    ensures sizeOf(now) != Best(initial, moves) ==> Best(initial, moves[1..]) == Best(initial, moves)
  {
  }

  lemma TrailNone(
    sizeOf: seq<nat> -> nat, start: seq<nat>, now: seq<nat>, moves: seq<Move>, lower: nat, upper: nat,
    initial: nat)
    requires Trail(sizeOf, start, now, moves, lower, upper) && moves == []
    ensures now == start && Best(initial, moves) == initial
  {
  }

  /* ---------- the two-ended bubbling ---------- */

  /** After k steps from both ends: the variables at a and b have moved k levels towards each other
      or, once they have crossed, are k levels short of their goals. */
  function Bubbled(s: seq<nat>, a: nat, b: nat, k: nat, crossed: bool): (r: seq<nat>)
    requires a + k < b < |s|
    ensures |r| == |s|
  {
    seq(|s|, l requires 0 <= l < |s| =>
      if l == a + k then (if crossed then s[b] else s[a])
      else if l == b - k then (if crossed then s[a] else s[b])
      else if a <= l < a + k then s[l + 1]
      else if b - k < l <= b then s[l - 1]
      else s[l])
  }

  lemma BubbleStart(s: seq<nat>, a: nat, b: nat)
    requires a < b < |s|
    ensures Bubbled(s, a, b, 0, false) == s
    ensures Bubbled(s, a, b, 0, true) == Exchanged(s, a, b)
  {
  }

  /** Both variables take one step towards each other. */
  lemma BubbleCloser(s: seq<nat>, a: nat, b: nat, k: nat)
    requires a + k + 3 <= b - k && b < |s|
    ensures SwapAt(SwapAt(Bubbled(s, a, b, k, false), a + k), b - k - 1) == Bubbled(s, a, b, k + 1, false)
  {
  }

  /** One variable lies between: three swaps cross. */
  lemma BubbleCrossOver(s: seq<nat>, a: nat, b: nat, k: nat)
    requires a + k + 2 == b - k && b < |s|
    ensures SwapAt(SwapAt(SwapAt(Bubbled(s, a, b, k, false), a + k), b - k - 1), a + k)
            == Bubbled(s, a, b, k, true)
  {
  }

  /** They are adjacent: one swap crosses. */
  lemma BubbleCross(s: seq<nat>, a: nat, b: nat, k: nat)
    requires a + k + 1 == b - k && b < |s|
    ensures SwapAt(Bubbled(s, a, b, k, false), a + k) == Bubbled(s, a, b, k, true)
  {
  }

  /** Having crossed, both variables take one step towards their goals. */
  lemma BubbleApart(s: seq<nat>, a: nat, b: nat, k: nat)
    requires 0 < k && a + k < b - k && b < |s|
    ensures SwapAt(SwapAt(Bubbled(s, a, b, k, true), b - k), a + k - 1) == Bubbled(s, a, b, k - 1, true)
  {
  }

  /** The steps until the variables at a and b are about to cross. */
  function Half(a: nat, b: nat): nat
    requires a < b
  {
    (b - a - 1) / 2
  }

  /** The steps until they have changed places. */
  function Steps(a: nat, b: nat): nat
    requires a < b
  {
    2 * Half(a, b) + 1
  }

  /** The order after j steps of the bubbling. */
  function StepOrder(s: seq<nat>, a: nat, b: nat, j: nat): seq<nat>
    requires a < b < |s| && j <= Steps(a, b)
  {
    if j <= Half(a, b) then Bubbled(s, a, b, j, false) else Bubbled(s, a, b, Steps(a, b) - j, true)
  }

  /** The levels that step j + 1 swaps, newest first. */
  function StepSwaps(a: nat, b: nat, j: nat): seq<nat>
    requires a < b && j < Steps(a, b)
  {
    var k := Steps(a, b) - j;
    if j < Half(a, b) then [b - j - 1, a + j]
    else if j > Half(a, b) then [a + k - 1, b - k]
    else if (b - a) % 2 == 0 then [a + j, a + j + 1, a + j]
    else [a + j]
  }

  function AllSwaps(a: nat, b: nat, j: nat): seq<nat>
    requires a < b && j <= Steps(a, b)
  {
    if j == 0 then [] else StepSwaps(a, b, j - 1) + AllSwaps(a, b, j - 1)
  }

  /** The levels of the two moving variables after j steps. */
  function LevelsAt(a: nat, b: nat, j: nat): (nat, nat)
    requires a < b && j <= Steps(a, b)
  {
    var k := Steps(a, b) - j;
    if j <= Half(a, b) then (a + j, b - j) else (b - k, a + k)
  }

  /** One step, as the swaps it consists of. */
  lemma StepTaken(s: seq<nat>, a: nat, b: nat, j: nat)
    requires a < b < |s| && j < Steps(a, b)
    ensures var (x, y) := LevelsAt(a, b, j);
            var o := StepOrder(s, a, b, j);
            var next := StepOrder(s, a, b, j + 1);
            && x + 1 < |s| && 0 < y < |s| && |o| == |s|
            && (x + 1 == y - 1 <==> j == Half(a, b) && (b - a) % 2 == 0)
            && (x == y - 1 <==> j == Half(a, b) && (b - a) % 2 == 1)
            && (if x + 1 == y - 1 then next == SwapAt(SwapAt(SwapAt(o, x), y - 1), x)
                else if x == y - 1 then next == SwapAt(o, x)
                else next == SwapAt(SwapAt(o, x), y - 1))
            && (if x + 1 == y - 1 then StepSwaps(a, b, j) == [x, y - 1, x]
                else if x == y - 1 then StepSwaps(a, b, j) == [x]
                else StepSwaps(a, b, j) == [y - 1, x])
            && LevelsAt(a, b, j + 1) == (if x + 1 == y - 1 || x == y - 1 then (y, x) else (x + 1, y - 1))
            && a <= x < b && a < y <= b
  {
    hide Bubbled;
    var k := Steps(a, b) - j;
    if j < Half(a, b) {
      BubbleCloser(s, a, b, j);
    } else if j > Half(a, b) {
      BubbleApart(s, a, b, k);
    } else if (b - a) % 2 == 0 {
      BubbleCrossOver(s, a, b, j);
    } else {
      BubbleCross(s, a, b, j);
    }
  }

  /** The bubbling starts at the given order and ends with the two variables exchanged. */
  lemma StepEnds(s: seq<nat>, a: nat, b: nat)
    requires a < b < |s|
    ensures StepOrder(s, a, b, 0) == s && StepOrder(s, a, b, Steps(a, b)) == Exchanged(s, a, b)
    ensures LevelsAt(a, b, Steps(a, b)) == (b, a) && LevelsAt(a, b, 0) == (a, b)
    ensures forall j :: 0 <= j < Steps(a, b) ==> LevelsAt(a, b, j).0 < b
  {
    BubbleStart(s, a, b);
  }

  /** The size after step j exceeds 1.2 times a size met before, and so 1.2 times the least of them. */
  ghost predicate Outgrows(sizeOf: seq<nat> -> nat, s: seq<nat>, a: nat, b: nat, j: nat)
    requires a < b < |s| && j <= Steps(a, b)
  {
    exists i :: 0 <= i < j && OutgrowsSize(sizeOf, s, a, b, j, i)
  }

  ghost predicate OutgrowsSize(sizeOf: seq<nat> -> nat, s: seq<nat>, a: nat, b: nat, j: nat, i: nat)
    requires a < b < |s| && i <= Steps(a, b) && j <= Steps(a, b)
  {
    sizeOf(StepOrder(s, a, b, j)) as real > 1.2 * sizeOf(StepOrder(s, a, b, i)) as real
  }

  /** Step j is the first whose size outgrows an earlier one. The last step is never asked. */
  ghost predicate FiresAt(sizeOf: seq<nat> -> nat, s: seq<nat>, a: nat, b: nat, j: nat)
    requires a < b < |s|
  {
    && 0 < j < Steps(a, b) && Outgrows(sizeOf, s, a, b, j)
    && forall i :: 0 < i < j ==> !Outgrows(sizeOf, s, a, b, i)
  }

  /** The bubbling runs to the exchange if the limit never fires. Otherwise it ends after the step at
      which it fires and one trailing swap of the second variable. */
  ghost predicate IsBubbling(
    sizeOf: seq<nat> -> nat, s: seq<nat>, reached: seq<nat>, moves: seq<Move>, a: nat, b: nat)
    requires a < b < |s|
  {
    if exists j :: FiresAt(sizeOf, s, a, b, j) then
      exists j :: FiresAt(sizeOf, s, a, b, j) && IsCutShort(s, reached, moves, a, b, j)
    else reached == Exchanged(s, a, b) && Swapped(moves) == AllSwaps(a, b, Steps(a, b))
  }

  ghost predicate IsCutShort(s: seq<nat>, reached: seq<nat>, moves: seq<Move>, a: nat, b: nat, j: nat)
    requires a < b < |s| && j < Steps(a, b)
  {
    var y := LevelsAt(a, b, j).1;
    0 < y < |s| && reached == SwapAt(StepOrder(s, a, b, j), y - 1) && Swapped(moves) == [y - 1] + AllSwaps(a, b, j)
  }

  /** The limit size after j steps is the least size met, and no step but the last has outgrown it. */
  ghost predicate IsLimit(sizeOf: seq<nat> -> nat, s: seq<nat>, a: nat, b: nat, j: nat, limit: nat)
    requires a < b < |s| && j <= Steps(a, b)
  {
    && (forall i :: 0 <= i <= j ==> limit <= sizeOf(StepOrder(s, a, b, i)))
    && (exists i :: 0 <= i <= j && limit == sizeOf(StepOrder(s, a, b, i)))
    && (forall i :: 0 < i <= j ==> !Outgrows(sizeOf, s, a, b, i))
  }

  lemma LimitStart(sizeOf: seq<nat> -> nat, s: seq<nat>, a: nat, b: nat)
    requires a < b < |s|
    ensures IsLimit(sizeOf, s, a, b, 0, sizeOf(s))
  {
    StepEnds(s, a, b);
  }

  /** Comparing with the limit tells whether the step outgrows an earlier size. */
  lemma LimitFires(sizeOf: seq<nat> -> nat, s: seq<nat>, a: nat, b: nat, j: nat, limit: nat)
    requires a < b < |s| && 0 < j < Steps(a, b) && IsLimit(sizeOf, s, a, b, j - 1, limit)
    ensures var size := sizeOf(StepOrder(s, a, b, j));
            && (size as real > 1.2 * limit as real <==> FiresAt(sizeOf, s, a, b, j))
            && (size as real <= 1.2 * limit as real ==>
                  IsLimit(sizeOf, s, a, b, j, if size < limit then size else limit))
  {
    hide StepOrder;
    var size := sizeOf(StepOrder(s, a, b, j));
    var k :| 0 <= k <= j - 1 && limit == sizeOf(StepOrder(s, a, b, k));
    assert OutgrowsSize(sizeOf, s, a, b, j, k) <==> size as real > 1.2 * limit as real;
    if i :| 0 <= i < j && OutgrowsSize(sizeOf, s, a, b, j, i) {
      assert limit <= sizeOf(StepOrder(s, a, b, i));
    }
    assert Outgrows(sizeOf, s, a, b, j) <==> size as real > 1.2 * limit as real;
  }

  lemma AllSwapsNext(a: nat, b: nat, j: nat)
    requires a < b && 0 < j <= Steps(a, b)
    ensures AllSwaps(a, b, j) == StepSwaps(a, b, j - 1) + AllSwaps(a, b, j - 1)
  {
  }

  /** The variable that started at a arrives at b with the last step and not before. */
  lemma AtEnd(a: nat, b: nat, j: nat)
    requires a < b && j <= Steps(a, b)
    ensures LevelsAt(a, b, j).0 >= b <==> j == Steps(a, b)
    ensures LevelsAt(a, b, j).1 > a <==> j < Steps(a, b)
    ensures a <= LevelsAt(a, b, j).1 <= b
    ensures j == Steps(a, b) ==> LevelsAt(a, b, j) == (b, a)
  {
  }

  /** Having run to the end, with no step but the last fired, is a complete bubbling. */
  lemma BubblingEnds(
    sizeOf: seq<nat> -> nat, s: seq<nat>, reached: seq<nat>, moves: seq<Move>, a: nat, b: nat, limit: nat)
    requires a < b < |s| && IsLimit(sizeOf, s, a, b, Steps(a, b) - 1, limit)
    requires reached == StepOrder(s, a, b, Steps(a, b)) && Swapped(moves) == AllSwaps(a, b, Steps(a, b))
    ensures IsBubbling(sizeOf, s, reached, moves, a, b)
  {
    hide StepOrder, Outgrows, AllSwaps, Swapped;
    StepEnds(s, a, b);
  }

  lemma BubblingCut(
    sizeOf: seq<nat> -> nat, s: seq<nat>, reached: seq<nat>, moves: seq<Move>, a: nat, b: nat, j: nat)
    requires a < b < |s| && FiresAt(sizeOf, s, a, b, j) && IsCutShort(s, reached, moves, a, b, j)
    ensures IsBubbling(sizeOf, s, reached, moves, a, b)
  {
  }

  /** There is only one first step. */
  lemma FiresOnce(sizeOf: seq<nat> -> nat, s: seq<nat>, a: nat, b: nat, i: nat, j: nat)
    requires a < b < |s| && FiresAt(sizeOf, s, a, b, i) && FiresAt(sizeOf, s, a, b, j)
    ensures i == j
  {
  }

  lemma JumpStep(s: seq<nat>, x: nat, k: nat)
    ensures k < x < |s| ==> SwapAt(MovedUp(s, x, k), x - k - 1) == MovedUp(s, x, k + 1)
    ensures x + k + 1 < |s| ==> SwapAt(MovedDown(s, x, k), x + k) == MovedDown(s, x, k + 1)
    ensures x < |s| ==> s == MovedUp(s, x, 0) && s == MovedDown(s, x, 0)
  {
  }

  /* ---------- saved orders ---------- */

  /** Two orders that agree outside [lower, upper] have the same variables inside. */
  lemma SameInside(p: seq<nat>, o: seq<nat>, q: seq<nat>, s: seq<nat>, lower: nat, upper: nat, l: nat)
    requires Inverse(p, o) && Inverse(q, s) && SameOutside(o, s, lower, upper)
    requires lower <= l <= upper < |o|
    ensures s[l] < |p| && lower <= p[s[l]] <= upper
  {
  }

  /* ---------- the decisions of a run ---------- */

  datatype Choice = ExchangeTwo | JumpUp | JumpDown

  /** The random draws of one move: two different positions in the interval, the kind of move, and
      the outcome of the coin that accepts a move without improvement. */
  datatype Draw = Draw(x: nat, y: nat, choice: Choice, accept: bool)

  /** The moves made at one temperature; cold says whether the temperature no longer exceeds the
      stopping temperature when the round is about to start. */
  datatype Round = Round(draws: seq<Draw>, cold: bool)

  ghost predicate ProperDraws(draws: seq<Draw>, nvars: nat) {
    forall i :: 0 <= i < |draws| ==> draws[i].x != draws[i].y && draws[i].x < nvars && draws[i].y < nvars
  }

  /** Cold, and the last four sizes were equal. */
  predicate StoppingCriterion(c1: int, c2: int, c3: int, c4: int, cold: bool) {
    cold && c1 == c2 && c1 == c3 && c1 == c4
  }

  /** All the moves of the rounds, one round after the other. */
  function AllDraws(rounds: seq<Round>): seq<Draw> {
    if rounds == [] then [] else AllDraws(rounds[..|rounds| - 1]) + rounds[|rounds| - 1].draws
  }

  /** What one drawn move makes of an order. */
  ghost predicate IsMove(
    sizeOf: seq<nat> -> nat, growth: real, lower: nat, draw: Draw, o: seq<nat>, next: seq<nat>)
  {
    var x, y := lower + Smaller(draw), lower + Larger(draw);
    match draw.choice
    case ExchangeTwo => IsExchangeMove(sizeOf, o, next, x, y, draw.accept)
    case JumpUp => IsJumpMove(sizeOf, o, next, x, y, true, draw.accept, growth)
    case JumpDown => IsJumpMove(sizeOf, o, next, x, y, false, draw.accept, growth)
  }

  function Smaller(draw: Draw): nat {
    if draw.x < draw.y then draw.x else draw.y
  }

  function Larger(draw: Draw): nat {
    if draw.x < draw.y then draw.y else draw.x
  }

  /** The checkpoints of a run: each follows from the one before by the next draw. */
  ghost predicate IsWalk(
    sizeOf: seq<nat> -> nat, growth: real, lower: nat, draws: seq<Draw>, orders: seq<seq<nat>>)
  {
    |orders| == |draws| + 1 &&
    forall k :: 0 <= k < |draws| ==> IsMove(sizeOf, growth, lower, draws[k], orders[k], orders[k + 1])
  }

  /** Checkpoint b has the least size, and is the first to have it. */
  ghost predicate FirstLeast(sizeOf: seq<nat> -> nat, orders: seq<seq<nat>>, b: nat)
  {
    && b < |orders|
    && (forall k :: 0 <= k < |orders| ==> sizeOf(orders[b]) <= sizeOf(orders[k]))
    && (forall k :: 0 <= k < b ==> sizeOf(orders[b]) < sizeOf(orders[k]))
  }

  /** The size of checkpoint k. */
  ghost function SizeAt(sizeOf: seq<nat> -> nat, orders: seq<seq<nat>>, k: nat): nat
    requires k < |orders|
  {
    sizeOf(orders[k])
  }

  /** The size at the end of round i, that is, before round i + 1; before round 0 it is that of the first
      checkpoint. */
  ghost function SizeAfter(
    sizeOf: seq<nat> -> nat, rounds: seq<Round>, orders: seq<seq<nat>>, i: nat): nat
    requires i <= |rounds| && |AllDraws(rounds[..i])| < |orders|
  {
    SizeAt(sizeOf, orders, |AllDraws(rounds[..i])|)
  }

  /** The run stops before round n: the round would be cold, and the sizes at the last four round ends
      are equal. After three rounds one of the four values the engine starts with, 30 more than the
      first size, takes the place of the fourth; before that it never stops. */
  ghost predicate StopsBefore(
    sizeOf: seq<nat> -> nat, rounds: seq<Round>, orders: seq<seq<nat>>, n: nat)
    requires n < |rounds| && |AllDraws(rounds[..n])| < |orders|
  {
    && rounds[n].cold && n >= 3
    && var last := SizeAfter(sizeOf, rounds, orders, n);
       && EndedWith(sizeOf, rounds, orders, n - 1, last)
       && EndedWith(sizeOf, rounds, orders, n - 2, last)
       && if n == 3 then last == SizeAt(sizeOf, orders, 0) + 30
          else EndedWith(sizeOf, rounds, orders, n - 3, last)
  }

  ghost predicate EndedWith(
    sizeOf: seq<nat> -> nat, rounds: seq<Round>, orders: seq<seq<nat>>, i: nat, size: nat)
    requires i <= |rounds|
  {
    |AllDraws(rounds[..i])| < |orders| && SizeAfter(sizeOf, rounds, orders, i) == size
  }

  lemma DrawsNext(rounds: seq<Round>, i: nat)
    requires i < |rounds|
    ensures |AllDraws(rounds[..i + 1])| == |AllDraws(rounds[..i])| + |rounds[i].draws|
  {
    assert rounds[..i + 1][..i] == rounds[..i];
  }

  lemma {:induction false} DrawsGrow(rounds: seq<Round>, i: nat, n: nat)
    requires i <= n <= |rounds|
    ensures |AllDraws(rounds[..i])| <= |AllDraws(rounds[..n])|
  {
    if i < n {
      assert rounds[..n][..n - 1] == rounds[..n - 1];
      DrawsGrow(rounds, i, n - 1);
    }
  }

  /** What the engine compares before round n: the sizes after the last four rounds or, where there were
      fewer, the last of the values 10, 20, 0 and 30 more than the first size. */
  ghost predicate IsWindow(
    sizeOf: seq<nat> -> nat, rounds: seq<Round>, orders: seq<seq<nat>>, n: nat, c1: int, c2: int, c3: int, c4: int)
    requires n <= |rounds| && |AllDraws(rounds[..n])| < |orders|
  {
    && IsInWindow(sizeOf, rounds, orders, n - 3, c1) && IsInWindow(sizeOf, rounds, orders, n - 2, c2)
    && IsInWindow(sizeOf, rounds, orders, n - 1, c3) && IsInWindow(sizeOf, rounds, orders, n, c4)
  }

  ghost predicate IsInWindow(
    sizeOf: seq<nat> -> nat, rounds: seq<Round>, orders: seq<seq<nat>>, i: int, c: int)
    requires i <= |rounds| && |orders| > 0
  {
    if i > 0 then |AllDraws(rounds[..i])| < |orders| && c == SizeAfter(sizeOf, rounds, orders, i)
    else c == SizeAt(sizeOf, orders, 0) + if i == 0 then 30 else if i == -1 then 0 else if i == -2 then 20 else 10
  }

  /** The criterion, asked about that window, decides exactly that. */
  lemma CriterionIsStop(
    sizeOf: seq<nat> -> nat, rounds: seq<Round>, orders: seq<seq<nat>>, n: nat, c1: int, c2: int, c3: int, c4: int)
    requires n < |rounds| && |AllDraws(rounds[..n])| < |orders|
    requires IsWindow(sizeOf, rounds, orders, n, c1, c2, c3, c4)
    ensures StoppingCriterion(c1, c2, c3, c4, rounds[n].cold) <==> StopsBefore(sizeOf, rounds, orders, n)
  {
    hide SizeAfter, AllDraws;
  }

  /** Later checkpoints do not change what was decided before. */
  lemma StopsPrefix(
    sizeOf: seq<nat> -> nat, rounds: seq<Round>, orders: seq<seq<nat>>, more: seq<seq<nat>>, n: nat)
    requires n < |rounds| && |AllDraws(rounds[..n])| < |orders| <= |more| && more[..|orders|] == orders
    ensures StopsBefore(sizeOf, rounds, more, n) <==> StopsBefore(sizeOf, rounds, orders, n)
  {
    forall k | 0 <= k < |orders| ensures SizeAt(sizeOf, more, k) == SizeAt(sizeOf, orders, k) {
      assert more[..|orders|][k] == more[k];
    }
    if n >= 3 {
      DrawsGrow(rounds, n - 1, n);
      DrawsGrow(rounds, n - 2, n);
      DrawsGrow(rounds, n - 3, n);
    }
    hide SizeAt;
  }

  /** With the first size 100 and three cold rounds that all end at 130, the run stops although only
      three sizes are equal. */
  lemma StopsAfterThree(sizeOf: seq<nat> -> nat, rounds: seq<Round>, orders: seq<seq<nat>>)
    requires |rounds| == 4 && forall i :: 0 <= i < 4 ==> |rounds[i].draws| == 1 && rounds[i].cold
    requires |orders| == 4 && sizeOf(orders[0]) == 100
    requires forall k :: 0 < k < 4 ==> sizeOf(orders[k]) == 130
    ensures |AllDraws(rounds[..3])| == 3 && StopsBefore(sizeOf, rounds, orders, 3)
  {
    DrawsNext(rounds, 0);
    DrawsNext(rounds, 1);
    DrawsNext(rounds, 2);
  }

  /** The checkpoints are those of the first n rounds; the criterion was met before none of them. */
  ghost predicate RanRounds(
    sizeOf: seq<nat> -> nat, growth: real, lower: nat, rounds: seq<Round>, n: nat, orders: seq<seq<nat>>)
  {
    && n <= |rounds|
    && IsWalk(sizeOf, growth, lower, AllDraws(rounds[..n]), orders)
    && forall i :: 0 <= i < n ==>
         |AllDraws(rounds[..i])| < |orders| && !StopsBefore(sizeOf, rounds, orders, i)
  }

  lemma WalkOne(
    sizeOf: seq<nat> -> nat, growth: real, lower: nat, draws: seq<Draw>, orders: seq<seq<nat>>,
    draw: Draw, next: seq<nat>)
    requires IsWalk(sizeOf, growth, lower, draws, orders)
    requires IsMove(sizeOf, growth, lower, draw, orders[|draws|], next)
    ensures IsWalk(sizeOf, growth, lower, draws + [draw], orders + [next])
  {
  }

  /** One more round, whose moves lead on from the checkpoints so far. */
  lemma RanOneMore(
    sizeOf: seq<nat> -> nat, growth: real, lower: nat, rounds: seq<Round>, n: nat,
    orders: seq<seq<nat>>, more: seq<seq<nat>>)
    requires RanRounds(sizeOf, growth, lower, rounds, n, orders) && n < |rounds|
    requires !StopsBefore(sizeOf, rounds, orders, n)
    requires IsWalk(sizeOf, growth, lower, AllDraws(rounds[..n]) + rounds[n].draws, more)
    requires |orders| <= |more| && more[..|orders|] == orders
    ensures RanRounds(sizeOf, growth, lower, rounds, n + 1, more)
  {
    assert rounds[..n + 1][..n] == rounds[..n];
    forall i | 0 <= i < n + 1
      ensures |AllDraws(rounds[..i])| < |more| && !StopsBefore(sizeOf, rounds, more, i)
    {
      StopsPrefix(sizeOf, rounds, orders, more, i);
    }
  }

  lemma StartRun(
    sizeOf: seq<nat> -> nat, growth: real, lower: nat, rounds: seq<Round>, orders: seq<seq<nat>>)
    requires |orders| == 1
    ensures RanRounds(sizeOf, growth, lower, rounds, 0, orders) && AllDraws(rounds[..0]) == []
    ensures FirstLeast(sizeOf, orders, 0)
    ensures var s := sizeOf(orders[0]);
            IsWindow(sizeOf, rounds, orders, 0, s + 10, s + 20, s, s + 30)
  {
  }

  lemma RunIsWalk(
    sizeOf: seq<nat> -> nat, growth: real, lower: nat, rounds: seq<Round>, n: nat, orders: seq<seq<nat>>)
    requires RanRounds(sizeOf, growth, lower, rounds, n, orders)
    ensures n <= |rounds| && IsWalk(sizeOf, growth, lower, AllDraws(rounds[..n]), orders)
    ensures |AllDraws(rounds[..n])| < |orders|
  {
  }

  lemma NextWindow(
    sizeOf: seq<nat> -> nat, rounds: seq<Round>, orders: seq<seq<nat>>, more: seq<seq<nat>>, n: nat,
    c1: int, c2: int, c3: int, c4: int)
    requires n < |rounds| && |orders| == |AllDraws(rounds[..n])| + 1
    requires |orders| <= |more| && more[..|orders|] == orders
    requires |more| == |AllDraws(rounds[..n])| + |rounds[n].draws| + 1
    requires IsWindow(sizeOf, rounds, orders, n, c1, c2, c3, c4)
    ensures |more| == |AllDraws(rounds[..n + 1])| + 1
    ensures IsWindow(sizeOf, rounds, more, n + 1, c2, c3, c4, sizeOf(more[|more| - 1]))
  {
    assert rounds[..n + 1][..n] == rounds[..n];
    forall k | 0 <= k < |orders| ensures SizeAt(sizeOf, more, k) == SizeAt(sizeOf, orders, k) {
      assert more[..|orders|][k] == more[k];
    }
  }

  lemma LeastPush(sizeOf: seq<nat> -> nat, orders: seq<seq<nat>>, b: nat, next: seq<nat>)
    requires FirstLeast(sizeOf, orders, b)
    ensures FirstLeast(sizeOf, orders + [next], if sizeOf(next) < sizeOf(orders[b]) then |orders| else b)
  {
  }
}
