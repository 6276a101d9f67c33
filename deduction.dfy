// Constraint propagation (deduce_group, deduce_once, deduce_full of
// sudok_solver.hpp) as functions on grids. The methods of Boards.Board run
// the same steps in place and are proved to agree with these functions.

module Deduction {
  import opened Bits
  import opened Cells
  import opened Groups
  import opened Grids

  /** A grid after a deduction step and the step's boolean result. */
  datatype Deduced = Deduced(grid: Grid, flag: bool)

  /** The grid after action a on cell i. */
  function Apply(s: Grid, i: nat, a: Action): Grid
    requires i < 81
  {
    if Writes(a) then s[i := Written(a)] else s
  }

  /** The second loop of deduce_group from position k on, with the group's
      confirmed bits cm and the change flag so far: each open cell loses the
      confirmed bits (Cells.Act); a cell with nothing left stops the group with
      false. */
  function GroupFrom(s: Grid, g: seq<nat>, k: nat, cm: bv16, changed: bool): Deduced
    requires IsGroup(g) && k <= 9
    decreases 9 - k, s
  {
    if k == 9 then Deduced(s, changed)
    else
      var a := Act(s[g[k]], cm);
      if a.Dead? then Deduced(s, false)
      else GroupFrom(Apply(s, g[k], a), g, k + 1, NextMask(a, cm), changed || Writes(a))
  }

  /** One step of the second loop of deduce_group. */
  lemma GroupFromStep(s: Grid, g: seq<nat>, k: nat, cm: bv16, changed: bool)
    requires IsGroup(g) && k < 9
    ensures Act(s[g[k]], cm).Dead? ==> GroupFrom(s, g, k, cm, changed) == Deduced(s, false)
    ensures !Act(s[g[k]], cm).Dead? ==>
      GroupFrom(s, g, k, cm, changed) ==
      GroupFrom(Apply(s, g[k], Act(s[g[k]], cm)), g, k + 1, NextMask(Act(s[g[k]], cm), cm), changed || Writes(Act(s[g[k]], cm)))
  {}

  /** deduce_group: confirmedMask starts as bit 0 plus the bits of the group's
      confirmed cells. */
  function DeducedGroup(s: Grid, g: seq<nat>): Deduced
    requires IsGroup(g)
  {
    GroupFrom(s, g, 0, WithFlag(ConfirmedUnion(s, g, 9)), false)
  }

  /** One iteration of deduce_once's loop: row i, column i and box i in that
      order; every call is made whatever the earlier ones returned, and the
      results are or-ed. */
  function Sweep(s: Grid, i: nat): Deduced
    requires i < 9
  {
    var r := DeducedGroup(s, Row(i));
    var c := DeducedGroup(r.grid, Col(i));
    var b := DeducedGroup(c.grid, Box(i));
    Deduced(b.grid, r.flag || c.flag || b.flag)
  }

  /** deduce_once from loop index i on. (The grid is part of the termination
      measure only so that the verifier does not expand a whole pass when i is
      a constant.) */
  function OnceFrom(s: Grid, i: nat, changed: bool): Deduced
    requires i <= 9
    decreases 9 - i, s
  {
    if i == 9 then Deduced(s, changed)
    else
      var t := Sweep(s, i);
      OnceFrom(t.grid, i + 1, changed || t.flag)
  }

  function DeducedOnce(s: Grid): Deduced
  {
    OnceFrom(s, 0, false)
  }

  /** deduce_full: repeat deduce_once while it reports a change, then report
      whether every cell is valid. */
  function DeducedFull(s: Grid): Deduced
    decreases Potential(s)
  {
    var o := DeducedOnce(s);
    if o.flag then
      OncePotential(s, 0, false);
      DeducedFull(o.grid)
    else
      Deduced(o.grid, AllValid(o.grid))
  }

  /** One round of deduce_full's loop. */
  lemma DeducedFullStep(s: Grid)
    ensures DeducedOnce(s).flag ==> DeducedFull(s) == DeducedFull(DeducedOnce(s).grid)
    ensures !DeducedOnce(s).flag ==> DeducedFull(s) == Deduced(DeducedOnce(s).grid, AllValid(DeducedOnce(s).grid))
  {}

  // ---------------------------------------------------------------------------
  // One group: deduction only narrows, only inside the group, and each change
  // lowers the potential

  /** Every cell of the group's result narrows the cell it replaced. */
  lemma {:induction false} GroupFromNarrows(s: Grid, g: seq<nat>, k: nat, cm: bv16, changed: bool)
    requires IsGroup(g) && k <= 9
    ensures GridNarrows(s, GroupFrom(s, g, k, cm, changed).grid)
    decreases 9 - k
  {
    if k == 9 || Act(s[g[k]], cm).Dead? {
      GridNarrowsRefl(s);
    } else {
      var a := Act(s[g[k]], cm);
      var t := Apply(s, g[k], a);
      if Writes(a) {
        ActNarrows(s[g[k]], cm);
        GridNarrowsUpdate(s, g[k], Written(a));
      } else {
        GridNarrowsRefl(s);
      }
      GroupFromNarrows(t, g, k + 1, NextMask(a, cm), changed || Writes(a));
      GridNarrowsTrans(s, t, GroupFrom(s, g, k, cm, changed).grid);
    }
  }

  /** Cells outside the group are left alone. */
  lemma {:induction false} GroupFromOutside(s: Grid, g: seq<nat>, k: nat, cm: bv16, changed: bool)
    requires IsGroup(g) && k <= 9
    ensures forall i :: 0 <= i < 81 && i !in g ==> GroupFrom(s, g, k, cm, changed).grid[i] == s[i]
    decreases 9 - k
  {
    if k < 9 && !Act(s[g[k]], cm).Dead? {
      var a := Act(s[g[k]], cm);
      GroupFromOutside(Apply(s, g[k], a), g, k + 1, NextMask(a, cm), changed || Writes(a));
    }
  }

  /** The potential never rises, and falls when the group reports a change it
      made itself. */
  lemma {:induction false} GroupFromPotential(s: Grid, g: seq<nat>, k: nat, cm: bv16, changed: bool)
    requires IsGroup(g) && k <= 9
    ensures var r := GroupFrom(s, g, k, cm, changed);
      Potential(r.grid) <= Potential(s) && (r.flag && !changed ==> Potential(r.grid) < Potential(s))
    decreases 9 - k
  {
    if k < 9 && !Act(s[g[k]], cm).Dead? {
      var a := Act(s[g[k]], cm);
      if Writes(a) {
        ActNarrows(s[g[k]], cm);
        PotentialUpdate(s, g[k], Written(a));
      }
      GroupFromPotential(Apply(s, g[k], a), g, k + 1, NextMask(a, cm), changed || Writes(a));
    }
  }

  /** deduce_group narrows the board inside the group only; when it returns
      true the potential has dropped. */
  lemma DeducedGroupSpec(s: Grid, g: seq<nat>)
    requires IsGroup(g)
    ensures GridNarrows(s, DeducedGroup(s, g).grid)
    ensures forall i :: 0 <= i < 81 && i !in g ==> DeducedGroup(s, g).grid[i] == s[i]
    ensures Potential(DeducedGroup(s, g).grid) <= Potential(s)
    ensures DeducedGroup(s, g).flag ==> Potential(DeducedGroup(s, g).grid) < Potential(s)
  {
    var cm := WithFlag(ConfirmedUnion(s, g, 9));
    GroupFromNarrows(s, g, 0, cm, false);
    GroupFromOutside(s, g, 0, cm, false);
    GroupFromPotential(s, g, 0, cm, false);
  }

  // ---------------------------------------------------------------------------
  // A group without duplicates keeps none after deduce_group

  /** The bits of every confirmed cell of the group lie inside cm. */
  predicate Covers(s: Grid, g: seq<nat>, cm: bv16)
    requires IsGroup(g)
  {
    forall j :: 0 <= j < 9 && s[g[j]].IsConfirmed() ==> SubMask(s[g[j]].PossibleMask(), cm)
  }

  lemma {:induction false} ConfirmedUnionCovers(s: Grid, g: seq<nat>, n: nat)
    requires IsGroup(g) && n <= 9
    ensures forall j :: 0 <= j < n && s[g[j]].IsConfirmed() ==> SubMask(s[g[j]].PossibleMask(), ConfirmedUnion(s, g, n))
  {
    if n > 0 {
      ConfirmedUnionCovers(s, g, n - 1);
      ConfirmedUnionStep(s, g, n - 1);
      forall j | 0 <= j < n && s[g[j]].IsConfirmed()
        ensures SubMask(s[g[j]].PossibleMask(), ConfirmedUnion(s, g, n))
      {
        var c := s[g[n - 1]];
        SubMaskOr(s[g[j]].PossibleMask(), ConfirmedUnion(s, g, n - 1), c.PossibleMask());
      }
    }
  }

  /** deduce_group's confirmedMask covers the group's confirmed cells. */
  lemma StartCovers(s: Grid, g: seq<nat>)
    requires IsGroup(g)
    ensures Covers(s, g, WithFlag(ConfirmedUnion(s, g, 9)))
  {
    var u := ConfirmedUnion(s, g, 9);
    ConfirmedUnionCovers(s, g, 9);
    SubMaskFlag(u);
    forall j | 0 <= j < 9 && s[g[j]].IsConfirmed()
      ensures SubMask(s[g[j]].PossibleMask(), WithFlag(u))
    {
      SubMaskTrans(s[g[j]].PossibleMask(), u, WithFlag(u));
    }
  }

  /** Writing an open cell into position k keeps the group clean and covered. */
  lemma OpenKeepsUnit(s: Grid, g: seq<nat>, k: nat, cm: bv16, c: SudokuCell)
    requires IsGroup(g) && k < 9 && UnitOk(s, g) && Covers(s, g, cm) && !c.IsConfirmed()
    ensures UnitOk(s[g[k] := c], g) && Covers(s[g[k] := c], g, cm)
  {
    var t := s[g[k] := c];
    forall j | 0 <= j < 9 && j != k ensures t[g[j]] == s[g[j]] {}
  }

  /** Confirming position k to bits outside cm keeps the group clean. */
  lemma ConfirmKeepsUnit(s: Grid, g: seq<nat>, k: nat, cm: bv16, c: SudokuCell)
    requires IsGroup(g) && k < 9 && UnitOk(s, g) && Covers(s, g, cm)
    requires c.IsConfirmed() && Disjoint(c.PossibleMask(), cm)
    ensures UnitOk(s[g[k] := c], g)
  {
    var t := s[g[k] := c];
    forall j, l | 0 <= j < l < 9
      ensures !Clash(t[g[j]], t[g[l]])
    {
      if j == k {
        OpenerMisses(s, g, l, cm, c);
        ClashComm(c, t[g[l]]);
      } else if l == k {
        OpenerMisses(s, g, j, cm, c);
      } else {
        assert t[g[j]] == s[g[j]] && t[g[l]] == s[g[l]];
      }
    }
  }

  /** A cell confirmed to bits outside cm meets no other confirmed cell of a
      group that cm covers. */
  lemma OpenerMisses(s: Grid, g: seq<nat>, j: nat, cm: bv16, c: SudokuCell)
    requires IsGroup(g) && j < 9 && Covers(s, g, cm) && Disjoint(c.PossibleMask(), cm)
    ensures !Clash(s[g[j]], c)
  {
    if s[g[j]].IsConfirmed() {
      DisjointSub(c.PossibleMask(), s[g[j]].PossibleMask(), cm);
    }
  }

  /** After confirming position k to bits m, cm | m covers the group. */
  lemma ConfirmCovers(s: Grid, g: seq<nat>, k: nat, cm: bv16, c: SudokuCell)
    requires IsGroup(g) && k < 9 && Covers(s, g, cm)
    ensures Covers(s[g[k] := c], g, cm | c.PossibleMask())
  {
    var t := s[g[k] := c];
    forall j | 0 <= j < 9 && t[g[j]].IsConfirmed()
      ensures SubMask(t[g[j]].PossibleMask(), cm | c.PossibleMask())
    {
      SubMaskOr(t[g[j]].PossibleMask(), cm, c.PossibleMask());
    }
  }

  lemma {:induction false} GroupFromUnitOk(s: Grid, g: seq<nat>, k: nat, cm: bv16, changed: bool)
    requires IsGroup(g) && k <= 9 && UnitOk(s, g) && Covers(s, g, cm)
    ensures UnitOk(GroupFrom(s, g, k, cm, changed).grid, g)
    decreases 9 - k
  {
    if k < 9 {
      var a := Act(s[g[k]], cm);
      if !a.Dead? {
        ActShape(s[g[k]], cm);
        if a.Confirm? {
          ActNarrows(s[g[k]], cm);
          ConfirmKeepsUnit(s, g, k, cm, Written(a));
          ConfirmCovers(s, g, k, cm, Written(a));
        } else if a.Shrink? {
          OpenKeepsUnit(s, g, k, cm, Written(a));
        }
        GroupFromUnitOk(Apply(s, g[k], a), g, k + 1, NextMask(a, cm), changed || Writes(a));
      }
    }
  }

  /** A group that passes check_unit still passes it after deduce_group: a
      promoted digit is never among the group's confirmed bits, and those bits
      grow with every promotion. */
  lemma DeducedGroupUnitOk(s: Grid, g: seq<nat>)
    requires IsGroup(g) && UnitOk(s, g)
    ensures UnitOk(DeducedGroup(s, g).grid, g)
  {
    StartCovers(s, g);
    GroupFromUnitOk(s, g, 0, WithFlag(ConfirmedUnion(s, g, 9)), false);
  }

  // ---------------------------------------------------------------------------
  // One group keeps every solution the board admits

  /** The group's bits cm miss the digit every open cell from position k on
      takes in the solution. */
  predicate Unclaimed(s: Grid, g: seq<nat>, k: nat, cm: bv16, sol: seq<nat>)
    requires IsGroup(g) && k <= 9 && IsSolution(sol)
  {
    forall j :: k <= j < 9 && !s[g[j]].IsConfirmed() ==> Bit(sol[g[j]]) & cm == 0
  }

  lemma {:induction false} GroupFromAdmits(s: Grid, g: seq<nat>, k: nat, cm: bv16, changed: bool, sol: seq<nat>)
    requires IsUnit(g) && IsGroup(g) && k <= 9 && IsSolution(sol)
    requires Admits(s, sol) && Unclaimed(s, g, k, cm, sol)
    ensures Admits(GroupFrom(s, g, k, cm, changed).grid, sol)
    decreases 9 - k
  {
    if k < 9 {
      var a := Act(s[g[k]], cm);
      ActAdmits(s[g[k]], cm, sol[g[k]]);
      if Writes(a) {
        AdmitsUpdate(s, g[k], Written(a), sol);
      }
      UnclaimedStep(s, g, k, cm, sol);
      GroupFromAdmits(Apply(s, g[k], a), g, k + 1, NextMask(a, cm), changed || Writes(a), sol);
    }
  }

  lemma AdmitsUpdate(s: Grid, i: nat, c: SudokuCell, sol: seq<nat>)
    requires i < 81 && IsSolution(sol) && Admits(s, sol) && CellAdmits(c, sol[i])
    ensures Admits(s[i := c], sol)
  {}

  /** After position k the bits still miss the later open cells' digits: a
      confirmation adds only the digit of position k. */
  lemma UnclaimedStep(s: Grid, g: seq<nat>, k: nat, cm: bv16, sol: seq<nat>)
    requires IsUnit(g) && IsGroup(g) && k < 9 && IsSolution(sol) && Unclaimed(s, g, k, cm, sol)
    requires Act(s[g[k]], cm).Confirm? ==> Act(s[g[k]], cm).m == Bit(sol[g[k]])
    ensures Unclaimed(Apply(s, g[k], Act(s[g[k]], cm)), g, k + 1, NextMask(Act(s[g[k]], cm), cm), sol)
  {
    var a := Act(s[g[k]], cm);
    var t := Apply(s, g[k], a);
    forall j | k + 1 <= j < 9 && !t[g[j]].IsConfirmed()
      ensures Bit(sol[g[j]]) & NextMask(a, cm) == 0
    {
      assert t[g[j]] == s[g[j]];
      ClaimedAfter(s, g, k, j, cm, a, sol);
    }
  }

  lemma ClaimedAfter(s: Grid, g: seq<nat>, k: nat, j: nat, cm: bv16, a: Action, sol: seq<nat>)
    requires IsUnit(g) && IsGroup(g) && k < j < 9 && IsSolution(sol)
    requires !s[g[j]].IsConfirmed() && Bit(sol[g[j]]) & cm == 0
    requires a.Confirm? ==> a.m == Bit(sol[g[k]])
    ensures Bit(sol[g[j]]) & NextMask(a, cm) == 0
  {
    if a.Confirm? {
      OtherDigit(g, k, j, sol);
      ClaimOne(cm, a.m, Bit(sol[g[j]]));
    }
  }

  lemma ClaimOne(cm: bv16, m: bv16, b: bv16)
    requires b & cm == 0 && m & b == 0
    ensures b & (cm | m) == 0
  {}

  /** Two places of one unit hold different digits of a solution, so their bits
      are disjoint. */
  lemma OtherDigit(g: seq<nat>, k: nat, j: nat, sol: seq<nat>)
    requires IsUnit(g) && k < 9 && j < 9 && k != j && IsSolution(sol)
    ensures IsGroup(g) && Bit(sol[g[k]]) & Bit(sol[g[j]]) == 0
  {
    UnitCellsShare(g, k, j);
    DigitBitsDisjoint(sol[g[k]], sol[g[j]]);
  }

  /** The starting bits of deduce_group (bit 0 and the confirmed cells' bits)
      miss the digit of every open cell of the unit. */
  lemma UnclaimedStart(s: Grid, g: seq<nat>, sol: seq<nat>)
    requires IsUnit(g) && IsSolution(sol) && Admits(s, sol)
    ensures IsGroup(g) && Unclaimed(s, g, 0, WithFlag(ConfirmedUnion(s, g, 9)), sol)
  {
    UnitCellsShare(g, 0, 0);
    forall j | 0 <= j < 9 && !s[g[j]].IsConfirmed()
      ensures Bit(sol[g[j]]) & (WithFlag(ConfirmedUnion(s, g, 9))) == 0
    {
      UnclaimedAt(s, g, j, sol);
    }
  }

  lemma UnclaimedAt(s: Grid, g: seq<nat>, j: nat, sol: seq<nat>)
    requires IsUnit(g) && IsGroup(g) && j < 9 && IsSolution(sol) && Admits(s, sol)
    requires !s[g[j]].IsConfirmed()
    ensures Bit(sol[g[j]]) & (WithFlag(ConfirmedUnion(s, g, 9))) == 0
  {
    var b := Bit(sol[g[j]]);
    var u := ConfirmedUnion(s, g, 9);
    forall j' | 0 <= j' < 9
      ensures ConfirmedMisses(s[g[j']], b)
    {
      if j' != j {
        assert CellAdmits(s[g[j']], sol[g[j']]);
        OtherDigit(g, j', j, sol);
      }
    }
    ConfirmedUnionDisjoint(s, g, 9, b);
    DigitBitFacts(sol[g[j]]);
    ClaimOne(1, u, b);
    AndComm(u, b);
  }

  /** deduce_group on a unit keeps every solution the board admits. */
  lemma DeducedGroupAdmits(s: Grid, g: seq<nat>, sol: seq<nat>)
    requires IsUnit(g) && IsSolution(sol) && Admits(s, sol)
    ensures IsGroup(g) && Admits(DeducedGroup(s, g).grid, sol)
  {
    UnclaimedStart(s, g, sol);
    GroupFromAdmits(s, g, 0, WithFlag(ConfirmedUnion(s, g, 9)), false, sol);
  }

  // ---------------------------------------------------------------------------
  // One pass and the full propagation

  /** One iteration narrows the board. */
  lemma SweepNarrows(s: Grid, i: nat)
    requires i < 9
    ensures GridNarrows(s, Sweep(s, i).grid)
  {
    var r := DeducedGroup(s, Row(i));
    var c := DeducedGroup(r.grid, Col(i));
    DeducedGroupSpec(s, Row(i));
    DeducedGroupSpec(r.grid, Col(i));
    DeducedGroupSpec(c.grid, Box(i));
    GridNarrowsTrans(s, r.grid, c.grid);
    GridNarrowsTrans(s, c.grid, Sweep(s, i).grid);
  }

  /** One iteration never raises the potential, and lowers it when it reports
      a change. */
  lemma SweepPotential(s: Grid, i: nat)
    requires i < 9
    ensures Potential(Sweep(s, i).grid) <= Potential(s)
    ensures Sweep(s, i).flag ==> Potential(Sweep(s, i).grid) < Potential(s)
  {
    var r := DeducedGroup(s, Row(i));
    var c := DeducedGroup(r.grid, Col(i));
    DeducedGroupSpec(s, Row(i));
    DeducedGroupSpec(r.grid, Col(i));
    DeducedGroupSpec(c.grid, Box(i));
  }

  lemma SweepAdmits(s: Grid, i: nat, sol: seq<nat>)
    requires i < 9 && IsSolution(sol) && Admits(s, sol)
    ensures Admits(Sweep(s, i).grid, sol)
  {
    var r := DeducedGroup(s, Row(i));
    var c := DeducedGroup(r.grid, Col(i));
    RowColBoxUnits(i);
    DeducedGroupAdmits(s, Row(i), sol);
    DeducedGroupAdmits(r.grid, Col(i), sol);
    DeducedGroupAdmits(c.grid, Box(i), sol);
  }

  lemma {:induction false} OnceNarrows(s: Grid, i: nat, changed: bool)
    requires i <= 9
    ensures GridNarrows(s, OnceFrom(s, i, changed).grid)
    decreases 9 - i
  {
    if i == 9 {
      GridNarrowsRefl(s);
    } else {
      var t := Sweep(s, i);
      OnceNarrows(t.grid, i + 1, changed || t.flag);
      OnceNarrowsStep(s, i, changed);
    }
  }

  lemma OnceNarrowsStep(s: Grid, i: nat, changed: bool)
    requires i < 9
    requires GridNarrows(Sweep(s, i).grid, OnceFrom(Sweep(s, i).grid, i + 1, changed || Sweep(s, i).flag).grid)
    ensures GridNarrows(s, OnceFrom(s, i, changed).grid)
  {
    SweepNarrows(s, i);
    GridNarrowsTrans(s, Sweep(s, i).grid, OnceFrom(s, i, changed).grid);
  }

  /** A pass never raises the potential, and lowers it when it reports a change. */
  lemma {:induction false} OncePotential(s: Grid, i: nat, changed: bool)
    requires i <= 9
    ensures Potential(OnceFrom(s, i, changed).grid) <= Potential(s)
    ensures OnceFrom(s, i, changed).flag && !changed ==> Potential(OnceFrom(s, i, changed).grid) < Potential(s)
    decreases 9 - i
  {
    if i < 9 {
      var t := Sweep(s, i);
      SweepPotential(s, i);
      OncePotential(t.grid, i + 1, changed || t.flag);
    }
  }

  lemma {:induction false} OnceAdmits(s: Grid, i: nat, changed: bool, sol: seq<nat>)
    requires i <= 9 && IsSolution(sol) && Admits(s, sol)
    ensures Admits(OnceFrom(s, i, changed).grid, sol)
    decreases 9 - i
  {
    if i < 9 {
      var t := Sweep(s, i);
      SweepAdmits(s, i, sol);
      OnceAdmits(t.grid, i + 1, changed || t.flag, sol);
    }
  }

  /** deduce_full narrows the board. */
  lemma {:induction false} FullNarrows(s: Grid)
    ensures GridNarrows(s, DeducedFull(s).grid)
    decreases Potential(s)
  {
    var o := DeducedOnce(s);
    OnceNarrows(s, 0, false);
    if o.flag {
      OncePotential(s, 0, false);
      FullNarrows(o.grid);
      GridNarrowsTrans(s, o.grid, DeducedFull(s).grid);
    }
  }

  /** deduce_full never fails on a board of valid cells: every cell it writes
      is valid, so its closing check passes. */
  lemma FullKeepsValid(s: Grid)
    requires AllValid(s)
    ensures DeducedFull(s).flag && AllValid(DeducedFull(s).grid)
  {
    FullNarrows(s);
    GridNarrowsKeeps(s, DeducedFull(s).grid);
    FullFlag(s);
  }

  /** deduce_full returns true exactly when every cell of its result is valid. */
  lemma {:induction false} FullFlag(s: Grid)
    ensures DeducedFull(s).flag <==> AllValid(DeducedFull(s).grid)
    decreases Potential(s)
  {
    var o := DeducedOnce(s);
    if o.flag {
      OncePotential(s, 0, false);
      FullFlag(o.grid);
    }
  }

  /** deduce_full keeps every solution the board admits. */
  lemma {:induction false} FullAdmits(s: Grid, sol: seq<nat>)
    requires IsSolution(sol) && Admits(s, sol)
    ensures Admits(DeducedFull(s).grid, sol)
    decreases Potential(s)
  {
    var o := DeducedOnce(s);
    OnceAdmits(s, 0, false, sol);
    if o.flag {
      OncePotential(s, 0, false);
      FullAdmits(o.grid, sol);
    }
  }

  // ---------------------------------------------------------------------------
  // A board whose every cell is confirmed: deduction has nothing to do

  /** deduce_group leaves a board of confirmed cells alone and keeps its flag. */
  lemma {:induction false} GroupFromConfirmed(s: Grid, g: seq<nat>, k: nat, cm: bv16, changed: bool)
    requires IsGroup(g) && k <= 9 && AllConfirmed(s)
    ensures GroupFrom(s, g, k, cm, changed) == Deduced(s, changed)
    decreases 9 - k
  {
    if k < 9 {
      assert Act(s[g[k]], cm) == Keep;
      GroupFromConfirmed(s, g, k + 1, NextMask(Keep, cm), changed);
    }
  }

  /** One iteration of deduce_once on such a board reports no change. */
  lemma SweepConfirmed(s: Grid, i: nat)
    requires i < 9 && AllConfirmed(s)
    ensures Sweep(s, i) == Deduced(s, false)
  {
    GroupFromConfirmed(s, Row(i), 0, WithFlag(ConfirmedUnion(s, Row(i), 9)), false);
    GroupFromConfirmed(s, Col(i), 0, WithFlag(ConfirmedUnion(s, Col(i), 9)), false);
    GroupFromConfirmed(s, Box(i), 0, WithFlag(ConfirmedUnion(s, Box(i), 9)), false);
  }

  /** So do the remaining iterations of deduce_once. */
  lemma {:induction false} OnceConfirmed(s: Grid, i: nat, changed: bool)
    requires i <= 9 && AllConfirmed(s)
    ensures OnceFrom(s, i, changed) == Deduced(s, changed)
    decreases 9 - i
  {
    if i < 9 {
      var t := Sweep(s, i);
      SweepConfirmed(s, i);
      OnceConfirmed(t.grid, i + 1, changed || t.flag);
    }
  }

  /** deduce_full on a board of confirmed cells changes nothing and reports
      whether every cell is valid. */
  lemma FullConfirmed(s: Grid)
    requires AllConfirmed(s)
    ensures DeducedFull(s) == Deduced(s, AllValid(s))
  {
    OnceConfirmed(s, 0, false);
    DeducedFullStep(s);
  }

  /** If a board admits a solution and propagation alone confirms every cell,
      the result is that solution. */
  lemma FullSolves(s: Grid, sol: seq<nat>)
    requires IsSolution(sol) && Admits(s, sol) && AllConfirmed(DeducedFull(s).grid)
    ensures forall i :: 0 <= i < 81 ==> DeducedFull(s).grid[i].ConfirmedValue() == sol[i]
  {
    FullAdmits(s, sol);
    AdmitsSolved(DeducedFull(s).grid, sol);
  }
}
