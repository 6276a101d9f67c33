// struct Board of sudok_solver.hpp: 81 cells updated in place.

module Boards {
  import opened Bits
  import opened Cells
  import opened Groups
  import opened Grids
  import opened Deduction

  class Board {
    const cells: array<SudokuCell>

    ghost predicate Valid()
    {
      cells.Length == 81
    }

    /** `Board board{}`: every state zero. */
    constructor ()
      ensures Valid() && fresh(cells)
      ensures forall i :: 0 <= i < 81 ==> cells[i].state == 0
    {
      cells := new SudokuCell[81](_ => SudokuCell(0));
    }

    /** A copy of a board value (`Board next = frame.board`). */
    constructor Copy(s: Grid)
      ensures Valid() && fresh(cells) && cells[..] == s
    {
      cells := new SudokuCell[81](i requires 0 <= i < 81 => s[i]);
    }

    /** Assignment of a whole board (`root = next`). */
    method Assign(other: Board)
      requires Valid() && other.Valid()
      modifies cells
      ensures cells[..] == old(other.cells[..])
    {
      forall i | 0 <= i < 81 {
        cells[i] := other.cells[i];
      }
    }

    /** The first loop of deduce_group: bit 0 plus the candidate bits of the
        group's confirmed cells. */
    method ConfirmedBits(g: seq<nat>) returns (confirmedMask: bv16)
      requires Valid() && IsGroup(g)
      ensures confirmedMask == WithFlag(ConfirmedUnion(cells[..], g, 9))
    {
      ghost var s: Grid := cells[..];
      confirmedMask := 1;
      for k := 0 to 9
        invariant confirmedMask == WithFlag(ConfirmedUnion(s, g, k))
      {
        var cell := cells[g[k]];
        ConfirmedUnionStep(s, g, k);
        if cell.IsConfirmed() {
          WithFlagOr(ConfirmedUnion(s, g, k), cell.PossibleMask());
          confirmedMask := confirmedMask | cell.PossibleMask();
        }
      }
    }

    /** deduce_group on the unit g. */
    method DeduceGroup(g: seq<nat>) returns (changed: bool)
      requires Valid() && IsGroup(g)
      modifies cells
      ensures cells[..] == DeducedGroup(old(cells[..]), g).grid
      ensures changed == DeducedGroup(old(cells[..]), g).flag
    {
      var confirmedMask := ConfirmedBits(g);
      changed := false;
      ghost var s0: Grid := cells[..];
      for k := 0 to 9
        invariant GroupFrom(cells[..], g, k, confirmedMask, changed) == DeducedGroup(s0, g)
      {
        ghost var before: Grid := cells[..];
        GroupFromStep(before, g, k, confirmedMask, changed);
        // Cells.Act is the body of the loop for one cell.
        var a := Act(cells[g[k]], confirmedMask);
        if a.Dead? {
          return false;
        }
        if Writes(a) {
          cells[g[k]] := Written(a);
          changed := true;
        }
        confirmedMask := NextMask(a, confirmedMask);
      }
    }

    /** deduce_once: rows, columns and boxes 0..8 in turn; every call is made. */
    method DeduceOnce() returns (changed: bool)
      requires Valid()
      modifies cells
      ensures cells[..] == DeducedOnce(old(cells[..])).grid
      ensures changed == DeducedOnce(old(cells[..])).flag
    {
      ghost var s0: Grid := cells[..];
      changed := false;
      for i := 0 to 9
        invariant OnceFrom(cells[..], i, changed) == DeducedOnce(s0)
      {
        var r := DeduceGroup(Row(i));
        var c := DeduceGroup(Col(i));
        var b := DeduceGroup(Box(i));
        changed := changed || r || c || b;
      }
    }

    /** deduce_full: deduce_once until it reports no change, then check every cell. */
    method DeduceFull() returns (ok: bool)
      requires Valid()
      modifies cells
      ensures cells[..] == DeducedFull(old(cells[..])).grid
      ensures ok == DeducedFull(old(cells[..])).flag
    {
      ghost var s0: Grid := cells[..];
      while true
        invariant DeducedFull(cells[..]) == DeducedFull(s0)
        decreases Potential(cells[..])
      {
        ghost var before: Grid := cells[..];
        DeducedFullStep(before);
        var more := DeduceOnce();
        if !more {
          break;
        }
        OncePotential(before, 0, false);
      }
      ok := AllCellsValid();
    }

    /** The final loop of deduce_full: every cell passes isValid. */
    method AllCellsValid() returns (ok: bool)
      requires Valid()
      ensures ok == AllValid(cells[..])
    {
      for i := 0 to 81
        invariant forall j :: 0 <= j < i ==> cells[j].IsValid()
      {
        if !cells[i].IsValid() {
          return false;
        }
      }
      return true;
    }

    /** is_solved. */
    method IsSolved() returns (solved: bool)
      requires Valid()
      ensures solved == AllConfirmed(cells[..])
    {
      for i := 0 to 81
        invariant forall j :: 0 <= j < i ==> cells[j].IsConfirmed()
      {
        if !cells[i].IsConfirmed() {
          return false;
        }
      }
      return true;
    }

    /** load: the first 81 characters of str, '1'..'9' as given digits. */
    method Load(str: seq<char>)
      requires Valid() && |str| >= 81
      modifies cells
      ensures forall i :: 0 <= i < 81 ==> cells[i] == FromChar(str[i])
    {
      for i := 0 to 81
        invariant forall j :: 0 <= j < i ==> cells[j] == FromChar(str[j])
      {
        var ch := str[i];
        if '1' <= ch <= '9' {
          cells[i] := SudokuCell(1 | ((1 as bv16) << (ch as int - '0' as int)));
        } else {
          cells[i] := SudokuCell(AllCandidates);
        }
      }
    }

    /** load_int8_t: the first 81 entries of arr, 1..9 as given digits. */
    method LoadInt8(arr: array<int8>)
      requires Valid() && arr.Length >= 81
      modifies cells
      ensures cells[..] == LoadedGrid(old(arr[..]))
    {
      for i := 0 to 81
        invariant forall j :: 0 <= j < i ==> cells[j] == FromInt8(arr[j])
        invariant arr[..] == old(arr[..])
      {
        var ch := arr[i];
        if 1 <= ch <= 9 {
          cells[i] := SudokuCell(1 | ((1 as bv16) << (ch as int)));
        } else {
          cells[i] := SudokuCell(AllCandidates);
        }
      }
    }

    /** inner_solve: propagate; -2 if that leaves an invalid cell, -1 if every
        cell is confirmed, otherwise the open cell with the fewest candidates
        (the first such). */
    method InnerSolve() returns (r: int)
      requires Valid()
      modifies cells
      ensures cells[..] == DeducedFull(old(cells[..])).grid
      ensures r == -2 <==> !DeducedFull(old(cells[..])).flag
      ensures r == -1 <==> DeducedFull(old(cells[..])).flag && AllConfirmed(cells[..])
      ensures r >= -2 && (r >= 0 ==> FewestChoices(cells[..], r))
    {
      ghost var t := DeducedFull(cells[..]);
      var ok := DeduceFull();
      assert cells[..] == t.grid && ok == t.flag;
      if !ok {
        return -2;
      }
      var solved := IsSolved();
      if solved {
        return -1;
      }
      r := FewestChoicesIndex();
    }

    /** The scan of inner_solve: the first open cell with the fewest candidates,
        or -2 when every cell is confirmed. */
    method FewestChoicesIndex() returns (targetIdx: int)
      requires Valid()
      ensures targetIdx == -2 <==> AllConfirmed(cells[..])
      ensures targetIdx != -2 ==> 0 <= targetIdx && FewestChoices(cells[..], targetIdx)
    {
      var minChoices: nat := 10;
      targetIdx := -2;
      for i := 0 to 81
        invariant targetIdx == -2 ==> minChoices == 10 && forall j :: 0 <= j < i ==> cells[j].IsConfirmed()
        invariant targetIdx != -2 ==>
          (0 <= targetIdx < i && !cells[targetIdx].IsConfirmed() && minChoices == cells[targetIdx].CandidateCount())
        invariant forall j :: 0 <= j < i && !cells[j].IsConfirmed() ==> minChoices <= cells[j].CandidateCount()
        invariant forall j :: 0 <= j < targetIdx && !cells[j].IsConfirmed() ==> minChoices < cells[j].CandidateCount()
      {
        if !cells[i].IsConfirmed() {
          var count := Popcount(cells[i].PossibleMask());
          MaskInCandidates(cells[i]);
          PopcountAtMostNine(cells[i].PossibleMask());
          if count < minChoices {
            minChoices := count;
            targetIdx := i;
          }
        }
      }
    }

    /** check_unit: no two confirmed cells of g share a candidate bit. */
    method CheckUnit(g: seq<nat>) returns (ok: bool)
      requires Valid() && IsGroup(g)
      ensures ok == UnitOk(cells[..], g)
    {
      ghost var s: Grid := cells[..];
      var confirmed: bv16 := 0;
      for k := 0 to 9
        invariant confirmed == ConfirmedUnion(s, g, k)
        invariant UnitOkUpTo(s, g, k)
      {
        var cell := cells[g[k]];
        UnitOkStep(s, g, k);
        ConfirmedUnionStep(s, g, k);
        if cell.IsConfirmed() {
          var mask := cell.PossibleMask();
          if !Disjoint(confirmed, mask) {
            return false;
          }
          confirmed := confirmed | mask;
        }
      }
      return true;
    }

    /** check_initial_valid: every row, column and box passes check_unit. */
    method CheckInitialValid() returns (ok: bool)
      requires Valid()
      ensures ok == UnitsOk(cells[..])
    {
      for i := 0 to 9
        invariant forall i' :: 0 <= i' < i ==>
          UnitOk(cells[..], Row(i')) && UnitOk(cells[..], Col(i')) && UnitOk(cells[..], Box(i'))
      {
        var r := CheckUnit(Row(i));
        if !r {
          return false;
        }
        var c := CheckUnit(Col(i));
        if !c {
          return false;
        }
        var b := CheckUnit(Box(i));
        if !b {
          return false;
        }
      }
      return true;
    }
  }
}
