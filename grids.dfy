// The 81 cells of a board as a value, with the predicates and measures the
// deduction and the search are specified by.

module Grids {
  import opened Bits
  import opened Cells
  import opened Groups

  /** The contents of Board::cells. */
  type Grid = s: seq<SudokuCell> | |s| == 81 witness seq(81, _ => SudokuCell(AllCandidates))

  predicate AllValid(s: seq<SudokuCell>)
  {
    forall i :: 0 <= i < |s| ==> s[i].IsValid()
  }

  predicate AllClean(s: seq<SudokuCell>)
  {
    forall i :: 0 <= i < |s| ==> s[i].Clean()
  }

  /** is_solved: every cell is confirmed. */
  predicate AllConfirmed(s: seq<SudokuCell>)
  {
    forall i :: 0 <= i < |s| ==> s[i].IsConfirmed()
  }

  /** Every cell of t narrows the cell of s at the same place. */
  predicate GridNarrows(s: seq<SudokuCell>, t: seq<SudokuCell>)
  {
    |s| == |t| && forall i :: 0 <= i < |s| ==> Narrows(s[i], t[i])
  }

  lemma GridNarrowsRefl(s: seq<SudokuCell>)
    ensures GridNarrows(s, s)
  {}

  lemma GridNarrowsTrans(s: seq<SudokuCell>, t: seq<SudokuCell>, u: seq<SudokuCell>)
    requires GridNarrows(s, t) && GridNarrows(t, u)
    ensures GridNarrows(s, u)
  {
    forall i | 0 <= i < |s|
      ensures Narrows(s[i], u[i])
    {
      NarrowsTrans(s[i], t[i], u[i]);
    }
  }

  /** Changing one cell by a narrowing step narrows the grid. */
  lemma GridNarrowsUpdate(s: seq<SudokuCell>, i: nat, c: SudokuCell)
    requires i < |s| && Narrows(s[i], c)
    ensures GridNarrows(s, s[i := c])
  {}

  /** A narrowed grid keeps validity, cleanness and every confirmed cell. */
  lemma GridNarrowsKeeps(s: seq<SudokuCell>, t: seq<SudokuCell>)
    requires GridNarrows(s, t)
    ensures AllValid(s) ==> AllValid(t)
    ensures AllClean(s) ==> AllClean(t)
    ensures forall i :: 0 <= i < |s| && s[i].IsConfirmed() ==> t[i] == s[i]
  {
    forall i | 0 <= i < |s|
      ensures s[i].IsValid() ==> t[i].IsValid()
      ensures s[i].Clean() ==> t[i].Clean()
    {
      NarrowsKeeps(s[i], t[i]);
    }
  }

  // ---------------------------------------------------------------------------
  // Measures

  /** The sum of the cells' weights: it bounds how often deduction can still
      change something. */
  function Potential(s: seq<SudokuCell>): nat
  {
    if |s| == 0 then 0 else Potential(s[..|s| - 1]) + s[|s| - 1].Weight()
  }

  /** Replacing one cell changes the potential by the change of its weight. */
  lemma {:induction false} PotentialUpdate(s: seq<SudokuCell>, i: nat, c: SudokuCell)
    requires i < |s|
    ensures Potential(s[i := c]) + s[i].Weight() == Potential(s) + c.Weight()
    decreases |s|
  {
    var t := s[i := c];
    if i < |s| - 1 {
      assert t[..|t| - 1] == s[..|s| - 1][i := c];
      PotentialUpdate(s[..|s| - 1], i, c);
    } else {
      assert t[..|t| - 1] == s[..|s| - 1];
    }
  }

  /** The number of confirmed cells. */
  function ConfirmedCount(s: seq<SudokuCell>): nat
  {
    ConfirmedPrefix(s, |s|)
  }

  /** The number of confirmed cells among the first n. */
  function ConfirmedPrefix(s: seq<SudokuCell>, n: nat): nat
    requires n <= |s|
  {
    if n == 0 then 0 else ConfirmedPrefix(s, n - 1) + (if s[n - 1].IsConfirmed() then 1 else 0)
  }

  lemma {:induction false} ConfirmedPrefixUpdate(s: seq<SudokuCell>, i: nat, c: SudokuCell, n: nat)
    requires i < |s| && !s[i].IsConfirmed() && c.IsConfirmed() && n <= |s|
    ensures ConfirmedPrefix(s[i := c], n) == ConfirmedPrefix(s, n) + (if i < n then 1 else 0)
  {
    if n > 0 {
      ConfirmedPrefixUpdate(s, i, c, n - 1);
    }
  }

  /** Confirming an open cell adds one confirmed cell. */
  lemma ConfirmedCountUpdate(s: seq<SudokuCell>, i: nat, c: SudokuCell)
    requires i < |s| && !s[i].IsConfirmed() && c.IsConfirmed()
    ensures ConfirmedCount(s[i := c]) == ConfirmedCount(s) + 1
  {
    ConfirmedPrefixUpdate(s, i, c, |s|);
  }

  lemma {:induction false} ConfirmedPrefixNarrows(s: seq<SudokuCell>, t: seq<SudokuCell>, n: nat)
    requires GridNarrows(s, t) && n <= |s|
    ensures ConfirmedPrefix(s, n) <= ConfirmedPrefix(t, n)
  {
    if n > 0 {
      ConfirmedPrefixNarrows(s, t, n - 1);
      NarrowsKeeps(s[n - 1], t[n - 1]);
    }
  }

  /** Narrowing never loses a confirmed cell. */
  lemma ConfirmedCountNarrows(s: seq<SudokuCell>, t: seq<SudokuCell>)
    requires GridNarrows(s, t)
    ensures ConfirmedCount(s) <= ConfirmedCount(t)
  {
    ConfirmedPrefixNarrows(s, t, |s|);
  }

  lemma {:induction false} ConfirmedPrefixAll(s: seq<SudokuCell>, n: nat)
    requires n <= |s|
    ensures ConfirmedPrefix(s, n) <= n
    ensures ConfirmedPrefix(s, n) == n <==> forall i :: 0 <= i < n ==> s[i].IsConfirmed()
  {
    if n > 0 {
      ConfirmedPrefixAll(s, n - 1);
    }
  }

  /** The count reaches the number of cells exactly when all are confirmed. */
  lemma ConfirmedCountAll(s: seq<SudokuCell>)
    ensures ConfirmedCount(s) <= |s|
    ensures ConfirmedCount(s) == |s| <==> AllConfirmed(s)
  {
    ConfirmedPrefixAll(s, |s|);
  }

  // ---------------------------------------------------------------------------
  // Units without repeated digits (check_unit, check_initial_valid)

  predicate InGrid(s: seq<SudokuCell>, g: seq<nat>)
  {
    forall j :: 0 <= j < |g| ==> g[j] < |s|
  }

  /** The candidate bits of the confirmed cells among the first n of g, or-ed
      together from 0. */
  function ConfirmedUnion(s: seq<SudokuCell>, g: seq<nat>, n: nat): bv16
    requires n <= |g| && InGrid(s, g)
    decreases n, s
  {
    if n == 0 then 0
    else
      var c := s[g[n - 1]];
      ConfirmedUnion(s, g, n - 1) | (if c.IsConfirmed() then c.PossibleMask() else 0)
  }

  /** Adding cell k: an open cell leaves the union as it is. */
  lemma ConfirmedUnionStep(s: seq<SudokuCell>, g: seq<nat>, k: nat)
    requires k < |g| && InGrid(s, g)
    ensures ConfirmedUnion(s, g, k + 1) ==
      if s[g[k]].IsConfirmed() then ConfirmedUnion(s, g, k) | s[g[k]].PossibleMask() else ConfirmedUnion(s, g, k)
  {
    OrNone(ConfirmedUnion(s, g, k));
  }

  /** A mask misses the union exactly when it misses every confirmed cell's mask. */
  lemma {:induction false} ConfirmedUnionDisjoint(s: seq<SudokuCell>, g: seq<nat>, n: nat, m: bv16)
    requires n <= |g| && InGrid(s, g)
    ensures Disjoint(ConfirmedUnion(s, g, n), m) <==> forall j :: 0 <= j < n ==> ConfirmedMisses(s[g[j]], m)
  {
    if n > 0 {
      var k := n - 1;
      ConfirmedUnionDisjoint(s, g, k, m);
      ConfirmedUnionDisjointStep(s, g, k, m);
      var now := Disjoint(ConfirmedUnion(s, g, n), m);
      var before := Disjoint(ConfirmedUnion(s, g, k), m);
      if now {
        forall j | 0 <= j < n ensures ConfirmedMisses(s[g[j]], m) {
          if j < k {
            assert before;
          }
        }
      }
    }
  }

  /** Adding cell k to the union: m misses the new union exactly when it misses
      the old one and cell k's confirmed bits. */
  lemma ConfirmedUnionDisjointStep(s: seq<SudokuCell>, g: seq<nat>, k: nat, m: bv16)
    requires k < |g| && InGrid(s, g)
    ensures Disjoint(ConfirmedUnion(s, g, k + 1), m) <==>
      Disjoint(ConfirmedUnion(s, g, k), m) && ConfirmedMisses(s[g[k]], m)
  {
    var c := s[g[k]];
    ConfirmedUnionStep(s, g, k);
    if c.IsConfirmed() {
      OrDisjoint(ConfirmedUnion(s, g, k), c.PossibleMask(), m);
    }
  }

  /** No two confirmed cells of the unit g share a candidate bit. */
  predicate UnitOk(s: seq<SudokuCell>, g: seq<nat>)
    requires IsGroup(g) && |s| == 81
  {
    UnitOkUpTo(s, g, 9)
  }

  /** check_initial_valid's condition: every row, column and box is UnitOk. */
  predicate UnitsOk(s: Grid)
  {
    forall i :: 0 <= i < 9 ==> UnitOk(s, Row(i)) && UnitOk(s, Col(i)) && UnitOk(s, Box(i))
  }

  /** No two confirmed cells among the first n of the unit share a candidate bit. */
  predicate UnitOkUpTo(s: seq<SudokuCell>, g: seq<nat>, n: nat)
    requires IsGroup(g) && |s| == 81 && n <= 9
  {
    forall j, k :: 0 <= j < k < n ==> !Clash(s[g[j]], s[g[k]])
  }

  /** One step of check_unit: a clean prefix stays clean with cell k added
      exactly when cell k is open or misses the bits confirmed before it. */
  lemma UnitOkStep(s: Grid, g: seq<nat>, k: nat)
    requires IsGroup(g) && k < 9 && UnitOkUpTo(s, g, k)
    ensures UnitOkUpTo(s, g, k + 1) <==>
      (s[g[k]].IsConfirmed() ==> Disjoint(ConfirmedUnion(s, g, k), s[g[k]].PossibleMask()))
  {
    var m := s[g[k]].PossibleMask();
    ConfirmedUnionDisjoint(s, g, k, m);
    if s[g[k]].IsConfirmed() {
      forall j | 0 <= j < k
        ensures ConfirmedMisses(s[g[j]], m) <==> !Clash(s[g[j]], s[g[k]])
      {}
      if !Disjoint(ConfirmedUnion(s, g, k), m) {
        var j :| 0 <= j < k && !ConfirmedMisses(s[g[j]], m);
        assert Clash(s[g[j]], s[g[k]]);
      }
    }
  }

  /** Cell r is the open cell with the fewest candidates, the first one among equals. */
  predicate FewestChoices(s: Grid, r: nat)
  {
    r < 81 && !s[r].IsConfirmed() &&
    (forall i :: 0 <= i < 81 && !s[i].IsConfirmed() ==> s[r].CandidateCount() <= s[i].CandidateCount()) &&
    (forall i :: 0 <= i < r && !s[i].IsConfirmed() ==> s[r].CandidateCount() < s[i].CandidateCount())
  }

  /** At most one cell is the first one with the fewest candidates. */
  lemma FewestChoicesUnique(s: Grid, r: nat, r': nat)
    requires FewestChoices(s, r) && FewestChoices(s, r')
    ensures r == r'
  {}

  /** Reference: no two distinct cells that share a row, a column or a box
      are confirmed with a common candidate bit. */
  predicate NoClash(s: Grid)
  {
    forall a, b :: 0 <= a < 81 && 0 <= b < 81 && a != b && SameUnit(a, b) ==> !Clash(s[a], s[b])
  }

  /** Checking the 27 units finds exactly the clashes between cells sharing a unit. */
  lemma UnitsOkIff(s: Grid)
    ensures UnitsOk(s) <==> NoClash(s)
  {
    if UnitsOk(s) {
      forall a, b | 0 <= a < 81 && 0 <= b < 81 && a != b && SameUnit(a, b)
        ensures !Clash(s[a], s[b])
      {
        var u, j, k := UnitOf(a, b);
        UnitOkPair(s, u, j, k);
      }
    }
    if NoClash(s) {
      forall i | 0 <= i < 9
        ensures UnitOk(s, Row(i)) && UnitOk(s, Col(i)) && UnitOk(s, Box(i))
      {
        NoClashUnit(s, Row(i));
        NoClashUnit(s, Col(i));
        NoClashUnit(s, Box(i));
      }
    }
  }

  lemma UnitOkPair(s: Grid, u: seq<nat>, j: nat, k: nat)
    requires IsUnit(u) && IsGroup(u) && UnitsOk(s)
    requires j < 9 && k < 9 && j != k
    ensures !Clash(s[u[j]], s[u[k]])
  {
    var i :| 0 <= i < 9 && (u == Row(i) || u == Col(i) || u == Box(i));
    assert UnitOk(s, u);
    ClashComm(s[u[j]], s[u[k]]);
  }

  lemma NoClashUnit(s: Grid, u: seq<nat>)
    requires IsUnit(u) && NoClash(s)
    ensures IsGroup(u) && UnitOk(s, u)
  {
    forall j, k | 0 <= j < k < 9
      ensures SameUnit(u[j], u[k])
    {
      UnitCellsShare(u, j, k);
    }
  }

  // ---------------------------------------------------------------------------
  // Solutions

  /** A filled Sudoku: a digit per cell, no digit twice in a row, column or box. */
  predicate IsSolution(sol: seq<nat>)
  {
    |sol| == 81 &&
    (forall i :: 0 <= i < 81 ==> 1 <= sol[i] <= 9) &&
    (forall a, b :: 0 <= a < 81 && 0 <= b < 81 && a != b && SameUnit(a, b) ==> sol[a] != sol[b])
  }

  /** Every cell of s allows the solution's digit at its place. */
  predicate Admits(s: Grid, sol: seq<nat>)
    requires IsSolution(sol)
  {
    forall i :: 0 <= i < 81 ==> CellAdmits(s[i], sol[i])
  }

  /** A board that admits a solution has only valid cells. */
  lemma AdmitsAllValid(s: Grid, sol: seq<nat>)
    requires IsSolution(sol) && Admits(s, sol)
    ensures AllValid(s)
  {
    forall i | 0 <= i < 81 ensures s[i].IsValid() {
      AdmitsValid(s[i], sol[i]);
    }
  }

  /** A completed board that admits a solution is that solution. */
  lemma AdmitsSolved(s: Grid, sol: seq<nat>)
    requires IsSolution(sol) && Admits(s, sol) && AllConfirmed(s)
    ensures forall i :: 0 <= i < 81 ==> s[i].ConfirmedValue() == sol[i]
  {
    forall i | 0 <= i < 81 ensures s[i].ConfirmedValue() == sol[i] {
      AdmitsValue(s[i], sol[i]);
    }
  }

  // ---------------------------------------------------------------------------
  // Loading a caller's buffer

  /** The board load_int8_t makes of the first 81 entries of p. */
  function LoadedGrid(p: seq<int8>): (s: Grid)
    requires |p| >= 81
  {
    seq(81, i requires 0 <= i < 81 => FromInt8(p[i]))
  }

  /** A loaded board is valid and clean, and its confirmed cells are exactly the
      given digits, each reading back as itself. */
  lemma LoadedGridSpec(p: seq<int8>)
    requires |p| >= 81
    ensures AllValid(LoadedGrid(p)) && AllClean(LoadedGrid(p))
    ensures forall i :: 0 <= i < 81 ==>
      (LoadedGrid(p)[i].IsConfirmed() <==> 1 <= p[i] <= 9) &&
      (1 <= p[i] <= 9 ==> LoadedGrid(p)[i].ConfirmedValue() == p[i] as int)
  {
    forall i | 0 <= i < 81
      ensures LoadedGrid(p)[i].IsValid() && LoadedGrid(p)[i].Clean()
      ensures LoadedGrid(p)[i].IsConfirmed() <==> 1 <= p[i] <= 9
      ensures 1 <= p[i] <= 9 ==> LoadedGrid(p)[i].ConfirmedValue() == p[i] as int
    {
      if 1 <= p[i] <= 9 { GivenCell(p[i]); } else { BlankCell(p[i]); }
    }
  }

  /** Reference for "Invalid puzzle": no digit is given twice in one row,
      column or box. */
  predicate DistinctGivens(p: seq<int8>)
    requires |p| >= 81
  {
    forall a, b :: 0 <= a < 81 && 0 <= b < 81 && a != b && SameUnit(a, b) &&
      1 <= p[a] <= 9 && 1 <= p[b] <= 9
      ==> p[a] != p[b]
  }

  /** A loaded board passes the unit checks exactly when its givens are distinct
      within every row, column and box. */
  lemma LoadedUnitsOk(p: seq<int8>)
    requires |p| >= 81
    ensures UnitsOk(LoadedGrid(p)) <==> DistinctGivens(p)
  {
    var s := LoadedGrid(p);
    UnitsOkIff(s);
    LoadedGridSpec(p);
    forall a, b | 0 <= a < 81 && 0 <= b < 81
      ensures Clash(s[a], s[b]) <==> 1 <= p[a] <= 9 && 1 <= p[b] <= 9 && p[a] == p[b]
    {
      if 1 <= p[a] <= 9 && 1 <= p[b] <= 9 {
        GivenOverlap(p[a], p[b]);
      }
    }
  }
}
