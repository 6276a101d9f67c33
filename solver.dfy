// The iterative backtracking search (struct Frame and solve of
// sudok_solver.hpp). The stack of at most 81 frames is an array; a frame holds
// its board by value, as Frame in sudok_solver.hpp does.

module Solver {
  import opened Bits
  import opened Cells
  import opened Grids
  import opened Deduction
  import opened Boards

  /** One level of the search: a propagated board, the candidate bits of the
      target cell not tried yet, and the target cell. */
  datatype Frame = Frame(board: Grid, remaining: bv16, target: nat)

  /** A frame at the given depth of a search that started from the propagated
      board base: its target is an open cell, the untried bits are candidates of
      that cell, its board narrows base and holds at least depth confirmed cells
      (each level confirms one more cell than the level below). */
  ghost predicate FrameOk(f: Frame, base: Grid, depth: nat)
  {
    f.target < 81 && !f.board[f.target].IsConfirmed() &&
    SubMask(f.remaining, f.board[f.target].PossibleMask()) &&
    GridNarrows(base, f.board) && depth <= ConfirmedCount(f.board)
  }

  /** The frames of a stack, bottom first, each at its depth, with their
      untried-candidate counts. */
  ghost predicate StackOk(frames: seq<Frame>, counts: seq<nat>, base: Grid)
    decreases |frames|
  {
    |frames| == |counts| &&
    (|frames| > 0 ==>
      var t := |frames| - 1;
      StackOk(frames[..t], counts[..t], base) &&
      FrameOk(frames[t], base, t) && counts[t] == Popcount(frames[t].remaining))
  }

  /** Popping the top frame leaves a well-formed stack. */
  lemma StackPop(frames: seq<Frame>, counts: seq<nat>, base: Grid, t: nat)
    requires StackOk(frames, counts, base) && t == |frames| - 1
    ensures StackOk(frames[..t], counts[..t], base)
  {}

  /** Taking the lowest untried bit of the top frame lowers its count by one and
      keeps the stack well formed. */
  lemma StackLower(frames: seq<Frame>, counts: seq<nat>, base: Grid, t: nat, pick: bv16, rest: Frame)
    requires StackOk(frames, counts, base) && t == |frames| - 1
    requires frames[t].remaining != 0 && pick == LowestSetBit(frames[t].remaining)
    requires rest == frames[t].(remaining := frames[t].remaining ^ pick)
    ensures FrameOk(frames[t], base, t)
    ensures pick != 0 && AtMostOneBit(pick) && SubMask(pick, frames[t].remaining)
    ensures counts[t] >= 1
    ensures StackOk(frames[t := rest], counts[t := counts[t] - 1], base)
  {
    var f := frames[t];
    var m := f.remaining;
    LowestSetBitSpec(m);
    LowestSetBitRemove(m);
    PopcountOne(pick);
    SubMaskTrans(m ^ pick, m, f.board[f.target].PossibleMask());
    var fs := frames[t := rest];
    var cs := counts[t := counts[t] - 1];
    assert fs[..t] == frames[..t] && cs[..t] == counts[..t];
  }

  /** Pushing the frame of a propagated board whose fewest-choices cell is r
      keeps the stack well formed; the new frame's count c is at most nine. */
  lemma StackPush(frames: seq<Frame>, counts: seq<nat>, base: Grid, s: Grid, r: nat) returns (c: nat)
    requires StackOk(frames, counts, base)
    requires FewestChoices(s, r) && GridNarrows(base, s) && |frames| <= ConfirmedCount(s)
    ensures c <= 9 && |frames| < 81
    ensures StackOk(frames + [Frame(s, s[r].PossibleMask(), r)], counts + [c], base)
  {
    var f := Frame(s, s[r].PossibleMask(), r);
    PushedFrame(s, r, base, |frames|);
    FrameDepth(f, base, |frames|);
    MaskInCandidates(s[r]);
    PopcountAtMostNine(f.remaining);
    c := Popcount(f.remaining);
    var fs := frames + [f];
    var cs := counts + [c];
    assert fs[..|frames|] == frames && cs[..|frames|] == counts;
  }

  /** The board after guessing candidate bit pick for the frame's target. */
  function Guessed(f: Frame, pick: bv16): Grid
    requires f.target < 81
  {
    f.board[f.target := SudokuCell(WithFlag(pick))]
  }

  /** A frame's depth is below 81: its board has an open cell. */
  lemma FrameDepth(f: Frame, base: Grid, depth: nat)
    requires FrameOk(f, base, depth)
    ensures depth < 81
  {
    ConfirmedCountAll(f.board);
  }

  /** Guessing one untried candidate and propagating gives a board that still
      narrows base and has one more confirmed cell than the frame's board. */
  lemma ChildNarrows(f: Frame, base: Grid, depth: nat, pick: bv16)
    requires FrameOk(f, base, depth)
    requires pick != 0 && AtMostOneBit(pick) && SubMask(pick, f.remaining)
    ensures GridNarrows(base, DeducedFull(Guessed(f, pick)).grid)
    ensures depth + 1 <= ConfirmedCount(DeducedFull(Guessed(f, pick)).grid)
  {
    var c := f.board[f.target];
    var g := Guessed(f, pick);
    SubMaskTrans(pick, f.remaining, c.PossibleMask());
    Guess(c, pick);
    assert WithFlag(pick) == pick | 1;
    GridNarrowsUpdate(f.board, f.target, SudokuCell(WithFlag(pick)));
    ConfirmedCountUpdate(f.board, f.target, SudokuCell(WithFlag(pick)));
    FullNarrows(g);
    GridNarrowsTrans(base, f.board, g);
    GridNarrowsTrans(base, g, DeducedFull(g).grid);
    ConfirmedCountNarrows(g, DeducedFull(g).grid);
  }

  /** The frame pushed for a propagated board whose fewest-choices cell is r. */
  lemma PushedFrame(s: Grid, r: nat, base: Grid, depth: nat)
    requires FewestChoices(s, r) && GridNarrows(base, s) && depth <= ConfirmedCount(s)
    ensures FrameOk(Frame(s, s[r].PossibleMask(), r), base, depth)
  {
    SubMaskRefl(s[r].PossibleMask());
  }

  // ---------------------------------------------------------------------------
  // Termination: the untried candidates of the stack, read as digits of a
  // number whose most significant digit is the bottom frame, fall at every
  // step that does not pop an empty frame.

  function Pow10(e: nat): (p: nat)
    ensures p >= 1
  {
    if e == 0 then 1 else 10 * Pow10(e - 1)
  }

  /** Digits ds read as a number with the first digit at position 80. */
  function StackWeight(ds: seq<nat>): nat
    requires |ds| <= 81
  {
    if |ds| == 0 then 0 else StackWeight(ds[..|ds| - 1]) + ds[|ds| - 1] * Pow10(81 - |ds|)
  }

  lemma StackWeightPush(ds: seq<nat>, d: nat)
    requires |ds| < 81
    ensures StackWeight(ds + [d]) == StackWeight(ds) + d * Pow10(80 - |ds|)
  {
    var t := ds + [d];
    assert t[..|t| - 1] == ds && t[|t| - 1] == d;
  }

  lemma MulSucc(a: nat, b: nat, p: nat)
    requires b == a + 1
    ensures b * p == a * p + p && a * p >= 0
  {}

  lemma MulAtMostNine(e: nat, p: nat)
    requires e <= 9
    ensures e * p <= 9 * p
  {}

  lemma Pow10Succ(n: nat, m: nat)
    requires m == n + 1
    ensures Pow10(m) == 10 * Pow10(n)
  {}

  /** Nine units of a place are less than one unit of the next place up. */
  lemma PlaceBelow(lower: int, upper: int, w: int, big: int, p: int)
    requires upper == w + big && lower <= w + 9 * p && big == 10 * p && p >= 1
    ensures lower < upper
  {}

  /** Raising the top digit by one adds its place value. */
  lemma StackWeightBump(ds: seq<nat>, d': nat, d: nat)
    requires |ds| < 81 && d == d' + 1
    ensures StackWeight(ds + [d]) == StackWeight(ds + [d']) + Pow10(80 - |ds|)
  {
    StackWeightPush(ds, d);
    StackWeightPush(ds, d');
    MulSucc(d', d, Pow10(80 - |ds|));
  }

  /** A top digit of at most nine adds at most nine times its place value. */
  lemma StackWeightTopBound(ds: seq<nat>, e: nat)
    requires |ds| < 81 && e <= 9
    ensures StackWeight(ds + [e]) <= StackWeight(ds) + 9 * Pow10(80 - |ds|)
  {
    StackWeightPush(ds, e);
    MulAtMostNine(e, Pow10(80 - |ds|));
  }

  /** Lowering the top digit by one takes away its place value. */
  lemma StackWeightLowered(ds: seq<nat>, t: nat)
    requires |ds| <= 81 && t == |ds| - 1 && ds[t] >= 1
    ensures StackWeight(ds) == StackWeight(ds[t := ds[t] - 1]) + Pow10(81 - |ds|)
  {
    assert ds == ds[..t] + [ds[t]];
    assert ds[t := ds[t] - 1] == ds[..t] + [ds[t] - 1];
    StackWeightBump(ds[..t], ds[t] - 1, ds[t]);
  }

  /** Dropping the top digit does not raise the weight. */
  lemma StackWeightPop(ds: seq<nat>, t: nat)
    requires |ds| <= 81 && t == |ds| - 1
    ensures StackWeight(ds[..t]) <= StackWeight(ds)
  {}

  /** Lowering the top digit lowers the weight. */
  lemma StackWeightLower(ds: seq<nat>, t: nat)
    requires |ds| <= 81 && t == |ds| - 1 && ds[t] >= 1
    ensures StackWeight(ds[t := ds[t] - 1]) < StackWeight(ds)
  {
    StackWeightLowered(ds, t);
  }

  /** Lowering the top digit and pushing a digit of at most nine lowers the
      weight. */
  lemma StackWeightLowerPush(ds: seq<nat>, t: nat, e: nat)
    requires |ds| < 81 && t == |ds| - 1 && ds[t] >= 1 && e <= 9
    ensures StackWeight(ds[t := ds[t] - 1] + [e]) < StackWeight(ds)
  {
    var low := ds[t := ds[t] - 1];
    StackWeightLowered(ds, t);
    StackWeightTopBound(low, e);
    Pow10Succ(80 - |low|, 81 - |ds|);
    PlaceBelow(StackWeight(low + [e]), StackWeight(ds), StackWeight(low), Pow10(81 - |ds|), Pow10(80 - |low|));
  }

  /** One guess of solve's loop: `Board next = frame.board`, the target set to
      `pick | 1`, then inner_solve on next. */
  method Expand(frame: Frame, pick: bv16, ghost base: Grid, ghost depth: nat) returns (next: Board, res: int)
    requires FrameOk(frame, base, depth)
    requires pick != 0 && AtMostOneBit(pick) && SubMask(pick, frame.remaining)
    ensures fresh(next) && fresh(next.cells) && next.Valid()
    ensures GridNarrows(base, next.cells[..]) && depth + 1 <= ConfirmedCount(next.cells[..])
    ensures next.cells[..] == DeducedFull(Guessed(frame, pick)).grid
    ensures res == -2 <==> !DeducedFull(Guessed(frame, pick)).flag
    ensures res == -1 <==> DeducedFull(Guessed(frame, pick)).flag && AllConfirmed(next.cells[..])
    ensures res == -1 ==> AllConfirmed(next.cells[..]) && AllValid(next.cells[..])
    ensures res >= -2 && (res >= 0 ==> FewestChoices(next.cells[..], res))
  {
    next := new Board.Copy(frame.board);
    next.cells[frame.target] := SudokuCell(WithFlag(pick));
    assert next.cells[..] == Guessed(frame, pick);
    ChildNarrows(frame, base, depth, pick);
    FullFlag(Guessed(frame, pick));
    res := next.InnerSolve();
  }

  /** solve: propagate the root; if that neither solves nor refutes it, search
      depth first, guessing the candidates of the fewest-choices cell from the
      lowest bit up. The root receives the first board that propagation
      completes; otherwise it keeps the propagated root. */
  method Solve(root: Board) returns (solved: bool, ghost run: seq<Stack>)
    requires root.Valid()
    modifies root.cells
    ensures solved ==>
      AllConfirmed(root.cells[..]) && AllValid(root.cells[..]) && GridNarrows(old(root.cells[..]), root.cells[..])
    ensures !solved ==> root.cells[..] == DeducedFull(old(root.cells[..])).grid
    ensures solved ==> DeducedFull(old(root.cells[..])).flag
    ensures DeducedFull(old(root.cells[..])).flag && AllConfirmed(DeducedFull(old(root.cells[..])).grid) ==>
      solved && root.cells[..] == DeducedFull(old(root.cells[..])).grid
    ensures DeducedFull(old(root.cells[..])).flag && !AllConfirmed(DeducedFull(old(root.cells[..])).grid) ==>
      Started(run, DeducedFull(old(root.cells[..])).grid) && Run(run) && Ended(run, solved, root.cells[..])
    ensures SolveOutcome(old(root.cells[..]), solved, root.cells[..], run)
  {
    ghost var s0: Grid := root.cells[..];
    FullNarrows(s0);
    FullFlag(s0);
    var result := root.InnerSolve();
    if result == -1 {
      return true, [];
    }
    if result == -2 {
      return false, [];
    }
    solved, run := Search(root, result);
    if solved {
      GridNarrowsTrans(s0, DeducedFull(s0).grid, root.cells[..]);
    }
  }

  /** What solve does after a guess that did not complete the board, whose
      propagated board is s and whose propagation reported propagated: a board
      that breaks a unit pops the whole frame; a refuted guess leaves the stack
      as it is, to try the next candidate; otherwise the frame of s's
      fewest-choices cell is pushed. */
  ghost predicate Settled(frames: seq<Frame>, top: nat, s: Grid, propagated: bool, top': int, frames': seq<Frame>)
  {
    top < |frames| &&
    if !UnitsOk(s) then top' == top - 1 && frames' == frames[..top]
    else if !propagated then top' == top && frames' == frames
    else
      top' == top + 1 && |frames'| == |frames| + 1 && frames'[..|frames|] == frames &&
      var t := frames'[|frames|].target;
      FewestChoices(s, t) && frames'[|frames|] == Frame(s, s[t].PossibleMask(), t)
  }

  /** One guess of solve's loop on the top frame: the candidate bit pick leaves
      the frame's untried bits, the target is set to pick and the board is
      propagated. The search stops with that board in the root exactly when
      propagation succeeds and confirms every cell; otherwise the stack moves
      as Settled says. */
  ghost predicate GuessOutcome(frames: seq<Frame>, top: nat, pick: bv16, solved: bool, root: Grid,
                               top': int, frames': seq<Frame>)
  {
    top < |frames| && frames[top].target < 81 &&
    var f := frames[top];
    Outcome(frames[top := f.(remaining := f.remaining ^ pick)], top, DeducedFull(Guessed(f, pick)),
            solved, root, top', frames')
  }

  /** What becomes of the search once propagation of a guess has given `r`,
      with `frames` already holding the frame minus the tried candidate. */
  ghost predicate Outcome(frames: seq<Frame>, top: nat, r: Deduced, solved: bool, root: Grid,
                          top': int, frames': seq<Frame>)
  {
    (solved <==> r.flag && AllConfirmed(r.grid)) &&
    (solved ==> root == r.grid) &&
    (!solved ==> Settled(frames, top, r.grid, r.flag, top', frames'))
  }

  /** Settled leaves no choice: the new stack is determined by the old one and
      the propagated board. */
  lemma SettledUnique(frames: seq<Frame>, top: nat, s: Grid, propagated: bool,
                      top1: int, frames1: seq<Frame>, top2: int, frames2: seq<Frame>)
    requires Settled(frames, top, s, propagated, top1, frames1)
    requires Settled(frames, top, s, propagated, top2, frames2)
    ensures top1 == top2 && frames1 == frames2
  {
    if UnitsOk(s) && propagated {
      var n := |frames|;
      FewestChoicesUnique(s, frames1[n].target, frames2[n].target);
      assert frames1 == frames1[..n] + [frames1[n]];
      assert frames2 == frames2[..n] + [frames2[n]];
    }
  }

  /** The stack as the loop of solve sees it at the head of an iteration: the
      top index and the frames up to it, bottom first. */
  datatype Stack = Stack(top: int, frames: seq<Frame>)

  /** One iteration of solve's loop that does not solve: an empty untried set
      pops the frame; otherwise the lowest untried candidate is guessed, its
      propagation does not complete the board, and the stack moves as Settled
      says. */
  ghost predicate Moves(s: Stack, s': Stack)
  {
    0 <= s.top < |s.frames| &&
    var f := s.frames[s.top];
    if f.remaining == 0 then s' == Stack(s.top - 1, s.frames[..s.top])
    else
      f.target < 81 &&
      var pick := LowestSetBit(f.remaining);
      var r := DeducedFull(Guessed(f, pick));
      !(r.flag && AllConfirmed(r.grid)) &&
      Settled(s.frames[s.top := f.(remaining := f.remaining ^ pick)], s.top, r.grid, r.flag, s'.top, s'.frames)
  }

  /** The iteration on s ends the search: guessing the lowest untried
      candidate propagates to the complete board g. */
  ghost predicate Solves(s: Stack, g: Grid)
  {
    0 <= s.top < |s.frames| &&
    var f := s.frames[s.top];
    f.remaining != 0 && f.target < 81 &&
    var r := DeducedFull(Guessed(f, LowestSetBit(f.remaining)));
    r.flag && AllConfirmed(r.grid) && g == r.grid
  }

  /** Successive stacks of the loop, each reached from the one before by a
      non-solving iteration. */
  ghost predicate Run(run: seq<Stack>)
  {
    Chain(run, Moves)
  }

  /** Each element of run is related by step to the next. */
  ghost predicate Chain<T>(run: seq<T>, step: (T, T) -> bool)
  {
    forall i :: 0 <= i < |run| - 1 ==> step(run[i], run[i + 1])
  }

  /** The run begins with the single frame solve builds from the propagated
      root g: its fewest-choices cell with all of that cell's candidates. */
  ghost predicate Started(run: seq<Stack>, g: Grid)
  {
    |run| >= 1 && run[0].top == 0 && |run[0].frames| == 1 &&
    var f := run[0].frames[0];
    f.board == g && FewestChoices(g, f.target) && f.remaining == g[f.target].PossibleMask()
  }

  /** The run ends either with the stack exhausted (top below the first frame)
      and no solution, or with an iteration that completes the board g. */
  ghost predicate Ended(run: seq<Stack>, solved: bool, g: Grid)
  {
    |run| >= 1 &&
    var last := run[|run| - 1];
    (solved ==> Solves(last, g)) && (!solved ==> last.top == -1)
  }

  /** What solve does from the board s0: it fails when propagation refutes s0,
      succeeds with the propagated board when propagation completes it, and
      otherwise ends as the run of its loop from the propagated board ends,
      final being the root it leaves. */
  ghost predicate SolveOutcome(s0: Grid, solved: bool, final: Grid, run: seq<Stack>)
  {
    var g := DeducedFull(s0);
    (!g.flag ==> !solved) &&
    (g.flag && AllConfirmed(g.grid) ==> solved && final == g.grid) &&
    (g.flag && !AllConfirmed(g.grid) ==> Started(run, g.grid) && Run(run) && Ended(run, solved, final))
  }

  /** The move of an iteration is determined by the stack. */
  lemma MovesUnique(s: Stack, s1: Stack, s2: Stack)
    requires Moves(s, s1) && Moves(s, s2)
    ensures s1 == s2
  {
    var f := s.frames[s.top];
    if f.remaining != 0 {
      var pick := LowestSetBit(f.remaining);
      var r := DeducedFull(Guessed(f, pick));
      SettledUnique(s.frames[s.top := f.(remaining := f.remaining ^ pick)], s.top, r.grid, r.flag,
                    s1.top, s1.frames, s2.top, s2.frames);
    }
  }

  /** An iteration either solves or moves on, never both. */
  lemma MovesNotSolves(s: Stack, s': Stack, g: Grid)
    requires Moves(s, s')
    ensures !Solves(s, g)
  {}

  /** Two runs from the same stack agree for as long as both last: the loop is
      deterministic. */
  lemma RunUnique(run1: seq<Stack>, run2: seq<Stack>)
    requires Run(run1) && Run(run2) && |run1| >= 1 && |run1| <= |run2| && run1[0] == run2[0]
    ensures run1 == run2[..|run1|]
  {
    forall s, s1, s2 | Moves(s, s1) && Moves(s, s2)
      ensures s1 == s2
    {
      MovesUnique(s, s1, s2);
    }
    ChainUnique(run1, run2, Moves);
  }

  /** Chains of a deterministic relation from the same start agree on their
      common length. */
  lemma {:induction false} ChainUnique<T>(run1: seq<T>, run2: seq<T>, step: (T, T) -> bool)
    requires Chain(run1, step) && Chain(run2, step) && |run1| >= 1 && |run1| <= |run2| && run1[0] == run2[0]
    requires forall a, b, c :: step(a, b) && step(a, c) ==> b == c
    ensures run1 == run2[..|run1|]
    decreases |run1|
  {
    var n := |run1| - 1;
    if n > 0 {
      assert Chain(run1[..n], step) by {
        forall i | 0 <= i < n - 1
          ensures step(run1[..n][i], run1[..n][i + 1])
        {
          assert step(run1[i], run1[i + 1]);
        }
      }
      ChainUnique(run1[..n], run2, step);
      assert step(run1[n - 1], run1[n]) && step(run2[n - 1], run2[n]);
      assert run1 == run1[..n] + [run1[n]];
      assert run2[..|run1|] == run2[..n] + [run2[n]];
    }
  }

  /** A chain grows by one more step. */
  lemma ChainExtend<T>(run: seq<T>, x: T, step: (T, T) -> bool)
    requires |run| >= 1 && Chain(run, step) && step(run[|run| - 1], x)
    ensures Chain(run + [x], step)
  {
    var run' := run + [x];
    forall i | 0 <= i < |run'| - 1
      ensures step(run'[i], run'[i + 1])
    {
      if i < |run| - 1 {
        assert step(run[i], run[i + 1]);
      }
    }
  }

  /** The array holds the frames up to index top. */
  ghost predicate Mirrors(stack: array<Frame>, top: int, frames: seq<Frame>)
    reads stack
  {
    -1 <= top < stack.Length && |frames| == top + 1 &&
    forall k :: 0 <= k <= top ==> stack[k] == frames[k]
  }

  /** `stack[top] = f`. The root clause restates the frame for the caller's
      proof, which holds the root's cells fixed across the write. */
  method SetTop(stack: array<Frame>, top: nat, f: Frame, ghost frames: seq<Frame>, root: Board)
    requires Mirrors(stack, top, frames)
    modifies stack
    ensures Mirrors(stack, top, frames[top := f]) && root.cells[..] == old(root.cells[..])
  {
    stack[top] := f;
  }

  /** `stack[++top] = f` */
  method PushTop(stack: array<Frame>, top: nat, f: Frame, ghost frames: seq<Frame>)
    requires Mirrors(stack, top, frames) && top + 1 < stack.Length
    modifies stack
    ensures Mirrors(stack, top + 1, frames + [f])
  {
    stack[top + 1] := f;
  }

  /** The loop of solve, from the propagated root and its fewest-choices cell.
      The root changes only when a guess completes the board. */
  method Search(root: Board, result: nat) returns (solved: bool, ghost run: seq<Stack>)
    requires root.Valid() && FewestChoices(root.cells[..], result)
    modifies root.cells
    ensures solved ==>
      AllConfirmed(root.cells[..]) && AllValid(root.cells[..]) && GridNarrows(old(root.cells[..]), root.cells[..])
    ensures !solved ==> root.cells[..] == old(root.cells[..])
    ensures Started(run, old(root.cells[..])) && Run(run) && Ended(run, solved, root.cells[..])
  {
    var base: Grid := root.cells[..];
    // solve in sudok_solver.hpp leaves the frames above the top uninitialised.
    var stack := new Frame[81](_ => Frame(base, 0, 0));
    var top := 0;
    GridNarrowsRefl(base);
    ghost var c0 := StackPush([], [], base, base, result);
    stack[0] := Frame(base, base[result].PossibleMask(), result);
    // The frames up to the top and their untried-candidate counts, bottom first.
    ghost var frames: seq<Frame> := [stack[0]];
    ghost var counts: seq<nat> := [c0];
    run := [Stack(top, frames)];
    while top >= 0
      invariant Mirrors(stack, top, frames) && stack.Length == 81
      invariant root.cells[..] == base
      invariant StackOk(frames, counts, base)
      invariant Started(run, base) && Run(run) && run[|run| - 1] == Stack(top, frames)
      decreases StackWeight(counts), top + 1
    {
      var top', solved', frames', counts' := Step(stack, top, root, base, frames, counts);
      if solved' {
        return true, run;
      }
      ChainExtend(run, Stack(top', frames'), Moves);
      run := run + [Stack(top', frames')];
      top, frames, counts := top', frames', counts';
    }
    return false, run;
  }

  /** Popping the top frame keeps the array, the frames and their counts in
      step, and does not raise the weight. */
  lemma Popped(stack: array<Frame>, top: nat, frames: seq<Frame>, counts: seq<nat>, base: Grid)
    requires stack.Length == 81 && Mirrors(stack, top, frames) && StackOk(frames, counts, base)
    ensures Mirrors(stack, top - 1, frames[..top]) && StackOk(frames[..top], counts[..top], base)
    ensures |counts[..top]| <= 81 && StackWeight(counts[..top]) <= StackWeight(counts)
  {
    StackPop(frames, counts, base, top);
    StackWeightPop(counts, top);
  }

  /** One pass of solve's loop over the top frame: pop it if it has nothing
      left to try, otherwise guess its lowest untried candidate. */
  method Step(stack: array<Frame>, top: nat, root: Board, ghost base: Grid,
              ghost frames: seq<Frame>, ghost counts: seq<nat>)
    returns (top': int, solved: bool, ghost frames': seq<Frame>, ghost counts': seq<nat>)
    requires stack.Length == 81 && Mirrors(stack, top, frames)
    requires root.Valid() && root.cells[..] == base && StackOk(frames, counts, base)
    modifies stack, root.cells
    ensures solved ==>
      AllConfirmed(root.cells[..]) && AllValid(root.cells[..]) && GridNarrows(base, root.cells[..])
    ensures !solved ==>
      Mirrors(stack, top', frames') && root.cells[..] == base && StackOk(frames', counts', base) &&
      |counts'| <= 81 && (StackWeight(counts') < StackWeight(counts) || (StackWeight(counts') <= StackWeight(counts) && top' < top))
    ensures frames[top].remaining == 0 ==> !solved && top' == top - 1 && frames' == frames[..top]
    ensures frames[top].remaining != 0 ==>
      GuessOutcome(frames, top, LowestSetBit(frames[top].remaining), solved, root.cells[..], top', frames')
    ensures !solved ==> Moves(Stack(top, frames), Stack(top', frames'))
    ensures solved ==> Solves(Stack(top, frames), root.cells[..])
  {
    var frame := stack[top];
    if frame.remaining == 0 {
      Popped(stack, top, frames, counts, base);
      return top - 1, false, frames[..top], counts[..top];
    }
    top', solved, frames', counts' := Lower(stack, top, root, base, frames, counts, frame);
  }

  /** `pick = mask & -mask; remaining ^= pick`, then the guess of pick. */
  method Lower(stack: array<Frame>, top: nat, root: Board, ghost base: Grid,
               ghost frames: seq<Frame>, ghost counts: seq<nat>, frame: Frame)
    returns (top': int, solved: bool, ghost frames': seq<Frame>, ghost counts': seq<nat>)
    requires stack.Length == 81 && Mirrors(stack, top, frames)
    requires root.Valid() && root.cells[..] == base && StackOk(frames, counts, base)
    requires frame == frames[top] && frame.remaining != 0
    modifies stack, root.cells
    ensures solved ==>
      AllConfirmed(root.cells[..]) && AllValid(root.cells[..]) && GridNarrows(base, root.cells[..])
    ensures !solved ==>
      Mirrors(stack, top', frames') && root.cells[..] == base && StackOk(frames', counts', base) &&
      |counts'| <= 81 && StackWeight(counts') < StackWeight(counts)
    ensures GuessOutcome(frames, top, LowestSetBit(frame.remaining), solved, root.cells[..], top', frames')
  {
    var mask := frame.remaining;
    var pick := LowestSetBit(mask);
    var rest := frame.(remaining := mask ^ pick);
    StackLower(frames, counts, base, top, pick, rest);
    StackWeightLower(counts, top);
    top', solved, frames', counts' := Advance(stack, top, root, base, frames, counts, frame, pick, rest);
  }

  /** The guess of pick for the frame's target, propagated; the root receives
      the board when that completes it. */
  method Advance(stack: array<Frame>, top: nat, root: Board, ghost base: Grid,
                 ghost frames: seq<Frame>, ghost counts: seq<nat>,
                 frame: Frame, pick: bv16, rest: Frame)
    returns (top': int, solved: bool, ghost frames': seq<Frame>, ghost counts': seq<nat>)
    requires stack.Length == 81 && Mirrors(stack, top, frames) && |counts| == |frames|
    requires root.Valid() && root.cells[..] == base
    requires frame == frames[top] && FrameOk(frame, base, top)
    requires pick != 0 && AtMostOneBit(pick) && SubMask(pick, frame.remaining)
    requires rest == frame.(remaining := frame.remaining ^ pick)
    requires counts[top] >= 1 && StackOk(frames[top := rest], counts[top := counts[top] - 1], base)
    requires StackWeight(counts[top := counts[top] - 1]) < StackWeight(counts)
    modifies stack, root.cells
    ensures solved ==>
      AllConfirmed(root.cells[..]) && AllValid(root.cells[..]) && GridNarrows(base, root.cells[..])
    ensures !solved ==>
      Mirrors(stack, top', frames') && root.cells[..] == base && StackOk(frames', counts', base) &&
      |counts'| <= 81 && StackWeight(counts') < StackWeight(counts)
    ensures GuessOutcome(frames, top, pick, solved, root.cells[..], top', frames')
  {
    SetTop(stack, top, rest, frames, root);
    var next, res := Expand(frame, pick, base, top);
    top', solved, frames', counts' :=
      Conclude(stack, top, root, base, frames, counts, rest, next, res, DeducedFull(Guessed(frame, pick)));
  }

  /** The rest of an iteration once the guess is propagated: a complete
      board becomes root and ends the search, anything else goes to Settle. */
  method Conclude(stack: array<Frame>, top: nat, root: Board, ghost base: Grid,
                  ghost frames: seq<Frame>, ghost counts: seq<nat>,
                  rest: Frame, next: Board, res: int, ghost r: Deduced)
    returns (top': int, solved: bool, ghost frames': seq<Frame>, ghost counts': seq<nat>)
    requires stack.Length == 81 && top < |frames| && Mirrors(stack, top, frames[top := rest])
    requires |counts| == |frames| && root.Valid() && root.cells[..] == base
    requires counts[top] >= 1 && StackOk(frames[top := rest], counts[top := counts[top] - 1], base)
    requires StackWeight(counts[top := counts[top] - 1]) < StackWeight(counts)
    requires next.Valid() && next.cells != root.cells
    requires GridNarrows(base, next.cells[..]) && top + 1 <= ConfirmedCount(next.cells[..])
    requires next.cells[..] == r.grid && (res == -2 <==> !r.flag)
    requires res == -1 <==> r.flag && AllConfirmed(r.grid)
    requires res == -1 ==> AllValid(r.grid)
    requires res >= -2 && (res >= 0 ==> FewestChoices(r.grid, res))
    modifies stack, root.cells
    ensures solved ==>
      AllConfirmed(root.cells[..]) && AllValid(root.cells[..]) && GridNarrows(base, root.cells[..])
    ensures !solved ==>
      Mirrors(stack, top', frames') && root.cells[..] == base && StackOk(frames', counts', base) &&
      |counts'| <= 81 && StackWeight(counts') < StackWeight(counts)
    ensures Outcome(frames[top := rest], top, r, solved, root.cells[..], top', frames')
  {
    if res == -1 {
      root.Assign(next);
      return top, true, frames, counts;
    }
    solved := false;
    top', frames', counts' := Settle(stack, top, base, frames[top := rest], counts[top := counts[top] - 1], counts, next, res);
    SettledFrom(frames[top := rest], top, next.cells[..], r.flag, res, top', frames');
  }


  /** Settle's three cases, with inner_solve's result res for the board s,
      are the moves Settled describes. */
  lemma SettledFrom(frames: seq<Frame>, top: nat, s: Grid, propagated: bool, res: int, top': int, frames': seq<Frame>)
    requires top < |frames|
    requires res >= -2 && res != -1 && (res == -2 <==> !propagated) && (res >= 0 ==> FewestChoices(s, res))
    requires !UnitsOk(s) ==> top' == top - 1 && frames' == frames[..top]
    requires UnitsOk(s) && res == -2 ==> top' == top && frames' == frames
    requires UnitsOk(s) && res >= 0 ==> top' == top + 1 && frames' == frames + [Frame(s, s[res].PossibleMask(), res)]
    ensures Settled(frames, top, s, propagated, top', frames')
  {
    if UnitsOk(s) && res >= 0 {
      assert frames'[|frames|] == Frame(s, s[res].PossibleMask(), res);
    }
  }

  /** After a guess that did not complete the board: pop the frame when the
      guess breaks a unit, go on with the frame when propagation refuted the
      guess, and otherwise push the frame of the guess's fewest-choices cell. */
  method Settle(stack: array<Frame>, top: nat, ghost base: Grid,
                ghost frames: seq<Frame>, ghost counts: seq<nat>, ghost counts0: seq<nat>,
                next: Board, res: int)
    returns (top': int, ghost frames': seq<Frame>, ghost counts': seq<nat>)
    requires stack.Length == 81 && Mirrors(stack, top, frames) && StackOk(frames, counts, base)
    requires |counts0| == |counts| && counts0[top] >= 1 && counts == counts0[top := counts0[top] - 1]
    requires StackWeight(counts) < StackWeight(counts0)
    requires next.Valid() && GridNarrows(base, next.cells[..]) && top + 1 <= ConfirmedCount(next.cells[..])
    requires res >= -2 && res != -1 && (res >= 0 ==> FewestChoices(next.cells[..], res))
    modifies stack
    ensures Mirrors(stack, top', frames') && StackOk(frames', counts', base) &&
      |counts'| <= 81 && StackWeight(counts') < StackWeight(counts0)
    ensures !UnitsOk(next.cells[..]) ==> top' == top - 1 && frames' == frames[..top]
    ensures UnitsOk(next.cells[..]) && res == -2 ==> top' == top && frames' == frames
    ensures UnitsOk(next.cells[..]) && res >= 0 ==>
      top' == top + 1 && frames' == frames + [Frame(next.cells[..], next.cells[res].PossibleMask(), res)]
  {
    var valid := next.CheckInitialValid();
    if !valid {
      // solve in sudok_solver.hpp abandons the whole frame here, untried candidates and all.
      Popped(stack, top, frames, counts, base);
      return top - 1, frames[..top], counts[..top];
    }
    if res == -2 {
      return top, frames, counts;
    }
    var child := Frame(next.cells[..], next.cells[res].PossibleMask(), res);
    ghost var c := StackPush(frames, counts, base, next.cells[..], res);
    StackWeightLowerPush(counts0, top, c);
    PushTop(stack, top, child, frames);
    top', frames', counts' := top + 1, frames + [child], counts + [c];
  }
}
