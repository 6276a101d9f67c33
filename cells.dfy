// One Sudoku cell (struct SudokuCell of sudok_solver.hpp): a 16-bit state whose
// bit 0 is the "confirmed" flag and whose bits 1..9 are the candidate digits.

module Cells {
  import opened Bits

  /** The element type of the caller's puzzle buffer (int8_t). */
  newtype int8 = x: int | -128 <= x < 128

  /** The nine candidate bits 1..9, the state of a blank cell. */
  const AllCandidates: bv16 := 0x3FE

  datatype SudokuCell = SudokuCell(state: bv16)
  {
    /** isConfirmed: bit 0 is set. */
    predicate IsConfirmed()
    {
      state & 1 != 0
    }

    /** possibleMask: bits 1..9 of the state. */
    function PossibleMask(): bv16
    {
      state & AllCandidates
    }

    /** isValid: rejects state 0, state 1 and a confirmed state with several candidates. */
    predicate IsValid()
    {
      var mask := PossibleMask();
      if state == 0 then false
      else if state == 1 then false
      else if IsConfirmed() && !AtMostOneBit(mask) then false
      else true
    }

    /** getConfirmedValue: 0 for an unconfirmed or multi-candidate cell, otherwise
        the index of the candidate bit (which is -1 when there is none). */
    function ConfirmedValue(): int
    {
      if !IsConfirmed() then 0
      else
        var mask := PossibleMask();
        if !AtMostOneBit(mask) then 0 else PowerOfTwoIndex(mask)
    }

    /** The number of candidates the branching heuristic compares. */
    function CandidateCount(): nat
    {
      Popcount(PossibleMask())
    }

    /** No bit above bit 9 is set: every state the solver writes has this shape. */
    predicate Clean()
    {
      state & !0x3FF == 0
    }

    /** Candidates left plus one if still open: each deduction lowers it. */
    function Weight(): nat
    {
      CandidateCount() + (if IsConfirmed() then 0 else 1)
    }
  }

  /** The cell load_int8_t makes of one buffer entry: 1..9 is a given digit,
      anything else a blank cell with all nine candidates. */
  function FromInt8(v: int8): SudokuCell
  {
    if 1 <= v <= 9 then SudokuCell(1 | ((1 as bv16) << (v as int)))
    else SudokuCell(AllCandidates)
  }

  /** The cell load makes of one character: '1'..'9' is a given digit. */
  function FromChar(ch: char): SudokuCell
  {
    if '1' <= ch <= '9' then SudokuCell(1 | ((1 as bv16) << (ch as int - '0' as int)))
    else SudokuCell(AllCandidates)
  }

  /** A cell may move from a to b: it is unchanged, or it was open and is now a
      valid, clean state whose candidates are among a's. Deduction and guessing
      only ever take such steps. */
  predicate Narrows(a: SudokuCell, b: SudokuCell)
  {
    a == b || (!a.IsConfirmed() && b.IsValid() && b.Clean() && SubMask(b.PossibleMask(), a.PossibleMask()))
  }

  // ---------------------------------------------------------------------------
  // Bit-level facts about single states

  lemma DigitBitFacts(d: nat)
    requires 1 <= d <= 9
    ensures SubMask((1 as bv16) << d, AllCandidates)
    ensures ((1 as bv16) << d) & 1 == 0
  {}

  lemma DigitState(d: nat)
    requires 1 <= d <= 9
    ensures (1 | ((1 as bv16) << d)) & AllCandidates == (1 as bv16) << d
    ensures (1 | ((1 as bv16) << d)) & !0x3FF == 0
    ensures (1 | ((1 as bv16) << d)) & 1 != 0
  {}

  lemma DigitBitsDisjoint(d: nat, e: nat)
    requires 1 <= d <= 9 && 1 <= e <= 9
    ensures ((1 as bv16) << d) & ((1 as bv16) << e) == 0 <==> d != e
  {}

  lemma CandidateBitIndex(d: nat)
    requires d < 16 && SubMask((1 as bv16) << d, AllCandidates)
    ensures 1 <= d <= 9
  {}

  lemma ConfirmedState(m: bv16)
    requires SubMask(m, AllCandidates)
    ensures SudokuCell(m | 1).IsConfirmed()
    ensures SudokuCell(m | 1).PossibleMask() == m
    ensures SudokuCell(m | 1).Clean()
  {}

  lemma OpenState(m: bv16)
    requires SubMask(m, AllCandidates)
    ensures !SudokuCell(m).IsConfirmed()
    ensures SudokuCell(m).PossibleMask() == m
    ensures SudokuCell(m).Clean()
  {}

  lemma MaskInCandidates(c: SudokuCell)
    ensures SubMask(c.PossibleMask(), AllCandidates)
  {}

  lemma CleanConfirmedNonEmpty(c: SudokuCell)
    requires c.Clean() && c.IsConfirmed() && c.state != 1
    ensures c.PossibleMask() != 0
  {}

  lemma SubMaskTrans(x: bv16, y: bv16, z: bv16)
    requires SubMask(x, y) && SubMask(y, z)
    ensures SubMask(x, z)
  {}

  lemma NarrowedMask(mask: bv16, cm: bv16)
    ensures SubMask(mask & !cm, mask)
  {}

  // ---------------------------------------------------------------------------
  // The queries, stated with the population count

  /** isValid is false exactly for state 0, state 1 and a confirmed state with
      two or more candidate bits. */
  lemma IsValidSpec(c: SudokuCell)
    ensures c.IsValid() <==>
              !(c.state == 0 || c.state == 1 || (c.IsConfirmed() && Popcount(c.PossibleMask()) >= 2))
  {
    PopcountMany(c.PossibleMask());
  }

  /** getConfirmedValue is 0 for an open cell and for a confirmed cell with two
      or more candidates, -1 for a confirmed cell with none (state 1), and the
      digit d of the only candidate bit 1 << d otherwise. */
  lemma ConfirmedValueSpec(c: SudokuCell)
    ensures !c.IsConfirmed() ==> c.ConfirmedValue() == 0
    ensures c.IsConfirmed() && Popcount(c.PossibleMask()) >= 2 ==> c.ConfirmedValue() == 0
    ensures c.IsConfirmed() && c.PossibleMask() == 0 ==> c.ConfirmedValue() == -1
    ensures c.IsConfirmed() && Popcount(c.PossibleMask()) == 1 ==>
              1 <= c.ConfirmedValue() <= 9 &&
              c.PossibleMask() == (1 as bv16) << c.ConfirmedValue()
  {
    var mask := c.PossibleMask();
    PopcountMany(mask);
    PowerOfTwoIndexSpec(mask);
    PopcountZero(mask);
    if c.IsConfirmed() && Popcount(mask) == 1 {
      MaskInCandidates(c);
      CandidateBitIndex(PowerOfTwoIndex(mask));
    }
  }

  /** A valid, clean, confirmed cell holds a digit 1..9. */
  lemma ConfirmedDigit(c: SudokuCell)
    requires c.IsValid() && c.IsConfirmed() && c.Clean()
    ensures 1 <= c.ConfirmedValue() <= 9
  {
    CleanConfirmedNonEmpty(c);
    PopcountZero(c.PossibleMask());
    PopcountMany(c.PossibleMask());
    ConfirmedValueSpec(c);
  }

  // ---------------------------------------------------------------------------
  // Loading

  /** load_int8_t: a value v in 1..9 becomes a valid confirmed cell whose only
      candidate is bit v and whose value reads back as v. */
  lemma GivenCell(v: int8)
    requires 1 <= v <= 9
    ensures FromInt8(v).IsValid() && FromInt8(v).Clean() && FromInt8(v).IsConfirmed()
    ensures FromInt8(v).PossibleMask() == (1 as bv16) << (v as int)
    ensures FromInt8(v).ConfirmedValue() == v as int
  {
    var d := v as int;
    assert FromInt8(v).state == 1 | ((1 as bv16) << d);
    DigitState(d);
    DigitBitFacts(d);
    ShiftIsSingle(d);
    PowerOfTwoIndexOfShift(d);
  }

  /** load_int8_t: every value outside 1..9 becomes a valid open cell with all
      nine candidates. */
  lemma BlankCell(v: int8)
    requires !(1 <= v <= 9)
    ensures FromInt8(v).IsValid() && FromInt8(v).Clean() && !FromInt8(v).IsConfirmed()
    ensures FromInt8(v).PossibleMask() == AllCandidates
    ensures FromInt8(v).CandidateCount() == 9
  {
    PopcountNine();
  }

  /** load reads the characters '1'..'9' exactly as load_int8_t reads 1..9. */
  lemma FromCharSpec(ch: char)
    ensures '1' <= ch <= '9' ==> FromChar(ch) == FromInt8((ch as int - '0' as int) as int8)
    ensures !('1' <= ch <= '9') ==> FromChar(ch) == FromInt8(0)
  {}

  /** A confirmed cell's bits miss m (an open cell contributes nothing). */
  predicate ConfirmedMisses(c: SudokuCell, m: bv16)
  {
    c.IsConfirmed() ==> Disjoint(c.PossibleMask(), m)
  }

  /** Two confirmed cells share a candidate bit: check_unit's duplicate. */
  predicate Clash(a: SudokuCell, b: SudokuCell)
  {
    a.IsConfirmed() && b.IsConfirmed() && !Disjoint(a.PossibleMask(), b.PossibleMask())
  }

  lemma ClashComm(a: SudokuCell, b: SudokuCell)
    ensures Clash(a, b) <==> Clash(b, a)
  {
    AndComm(a.PossibleMask(), b.PossibleMask());
  }

  /** Two given digits have overlapping candidate bits exactly when they are equal. */
  lemma GivenOverlap(v: int8, w: int8)
    requires 1 <= v <= 9 && 1 <= w <= 9
    ensures Clash(FromInt8(v), FromInt8(w)) <==> v == w
  {
    GivenCell(v);
    GivenCell(w);
    DigitBitsDisjoint(v as int, w as int);
  }

  // ---------------------------------------------------------------------------
  // Narrowing

  /** Two narrowing steps make one. */
  lemma NarrowsTrans(a: SudokuCell, b: SudokuCell, c: SudokuCell)
    requires Narrows(a, b) && Narrows(b, c)
    ensures Narrows(a, c)
  {
    if a != b && b != c {
      SubMaskTrans(c.PossibleMask(), b.PossibleMask(), a.PossibleMask());
    }
  }

  /** Narrowing keeps a valid cell valid and a clean cell clean, never reopens a
      confirmed cell and never adds a candidate. */
  lemma NarrowsKeeps(a: SudokuCell, b: SudokuCell)
    requires Narrows(a, b)
    ensures a.IsValid() ==> b.IsValid()
    ensures a.Clean() ==> b.Clean()
    ensures a.IsConfirmed() ==> b == a
    ensures SubMask(b.PossibleMask(), a.PossibleMask())
  {
    if a == b {
      SubMaskRefl(a.PossibleMask());
    }
  }

  lemma SubMaskRefl(x: bv16)
    ensures SubMask(x, x)
  {}

  /** Narrowing never raises the weight of a cell. */
  lemma NarrowsWeight(a: SudokuCell, b: SudokuCell)
    requires Narrows(a, b)
    ensures b.Weight() <= a.Weight()
  {
    if a != b {
      PopcountSubMask(b.PossibleMask(), a.PossibleMask());
    }
  }

  /** What the second loop of deduce_group does with one cell, given the
      group's confirmed bits cm. */
  datatype Action =
    | Keep                 // confirmed, or no candidate removed
    | Dead                 // no candidate left: the group stops with false
    | Confirm(m: bv16)     // one candidate m left: the cell becomes m | 1
    | Shrink(m: bv16)      // several left, fewer than before: the cell becomes m

  function Act(c: SudokuCell, cm: bv16): Action
  {
    if c.IsConfirmed() then Keep
    else
      var mask := Without(c.PossibleMask(), cm);
      if mask == 0 then Dead
      else if AtMostOneBit(mask) then Confirm(mask)
      else if mask != c.PossibleMask() then Shrink(mask)
      else Keep
  }

  /** The action writes a new state into the cell. */
  predicate Writes(a: Action)
  {
    a.Confirm? || a.Shrink?
  }

  /** The state a Confirm or Shrink action writes. */
  function Written(a: Action): SudokuCell
    requires Writes(a)
  {
    if a.Confirm? then SudokuCell(a.m | 1) else SudokuCell(a.m)
  }

  /** The group's confirmed bits after the action: a confirmation adds its bit. */
  function NextMask(a: Action, cm: bv16): bv16
  {
    if a.Confirm? then cm | a.m else cm
  }

  /** A written state is a narrowing step of the old cell that lowers its
      weight; a confirmation confirms to a candidate of the old cell. */
  lemma ActNarrows(c: SudokuCell, cm: bv16)
    requires Writes(Act(c, cm))
    ensures Narrows(c, Written(Act(c, cm))) && Written(Act(c, cm)).Weight() < c.Weight()
    ensures Act(c, cm).Confirm? ==>
      Written(Act(c, cm)).IsConfirmed() && Written(Act(c, cm)).PossibleMask() == Act(c, cm).m
  {
    if Act(c, cm).Confirm? {
      ActConfirmNarrows(c, cm);
    } else {
      ActShrinkNarrows(c, cm);
    }
  }

  lemma ActConfirmNarrows(c: SudokuCell, cm: bv16)
    requires Act(c, cm).Confirm?
    ensures var d := SudokuCell(Act(c, cm).m | 1);
      Narrows(c, d) && d.IsConfirmed() && d.PossibleMask() == Act(c, cm).m && d.Weight() < c.Weight()
  {
    NarrowedMask(c.PossibleMask(), cm);
    ConfirmNarrows(c, Act(c, cm).m);
  }

  lemma ActShrinkNarrows(c: SudokuCell, cm: bv16)
    requires Act(c, cm).Shrink?
    ensures Narrows(c, SudokuCell(Act(c, cm).m)) && SudokuCell(Act(c, cm).m).Weight() < c.Weight()
  {
    NarrowedMask(c.PossibleMask(), cm);
    ShrinkNarrows(c, Act(c, cm).m);
  }

  /** Promoting an open cell to one of its candidates lowers its weight. */
  lemma ConfirmNarrows(c: SudokuCell, m: bv16)
    requires !c.IsConfirmed() && m != 0 && AtMostOneBit(m) && SubMask(m, c.PossibleMask())
    ensures var d := SudokuCell(m | 1);
      Narrows(c, d) && d.IsConfirmed() && d.PossibleMask() == m && d.Weight() < c.Weight()
  {
    Guess(c, m);
    PopcountOne(m);
    PopcountSubMask(m, c.PossibleMask());
  }

  /** Shrinking an open cell to a proper sub-mask of two or more candidates
      keeps it open and lowers its weight. */
  lemma ShrinkNarrows(c: SudokuCell, m: bv16)
    requires !c.IsConfirmed() && !AtMostOneBit(m) && SubMask(m, c.PossibleMask()) && m != c.PossibleMask()
    ensures Narrows(c, SudokuCell(m)) && SudokuCell(m).Weight() < c.Weight()
  {
    MaskInCandidates(c);
    SubMaskTrans(m, c.PossibleMask(), AllCandidates);
    OpenState(m);
    PopcountSubMask(m, c.PossibleMask());
  }

  /** A shrunk cell stays open; a confirmed one takes a bit outside cm. */
  lemma ActShape(c: SudokuCell, cm: bv16)
    ensures Act(c, cm).Shrink? ==> !Written(Act(c, cm)).IsConfirmed()
    ensures Act(c, cm).Confirm? ==> Disjoint(Act(c, cm).m, cm)
  {
    WithoutDisjoint(c.PossibleMask(), cm);
  }

  /** The guess in solve: an open cell set to `pick | 1` for a single candidate
      bit pick of its mask is a narrowing step that confirms it. */
  lemma Guess(c: SudokuCell, pick: bv16)
    requires !c.IsConfirmed()
    requires pick != 0 && AtMostOneBit(pick) && SubMask(pick, c.PossibleMask())
    ensures var d := SudokuCell(pick | 1);
      Narrows(c, d) && d.IsConfirmed() && d.PossibleMask() == pick
  {
    MaskInCandidates(c);
    SubMaskTrans(pick, c.PossibleMask(), AllCandidates);
    ConfirmedState(pick);
  }

  // ---------------------------------------------------------------------------
  // Agreement with a solution digit

  /** The candidate bit of digit d. */
  function Bit(d: nat): bv16
    requires 1 <= d <= 9
  {
    (1 as bv16) << d
  }

  /** Cell c allows digit d: d is among its candidates, and if it is confirmed
      it is confirmed to d. */
  predicate CellAdmits(c: SudokuCell, d: nat)
    requires 1 <= d <= 9
  {
    SubMask(Bit(d), c.PossibleMask()) && (c.IsConfirmed() ==> c.PossibleMask() == Bit(d))
  }

  lemma KeepsBit(m: bv16, cm: bv16, b: bv16)
    requires SubMask(b, m) && b & cm == 0
    ensures SubMask(b, m & !cm)
  {}

  lemma NonEmptyOfBit(x: bv16, b: bv16)
    requires b != 0 && SubMask(b, x)
    ensures x != 0
  {}

  lemma SingleOfBit(x: bv16, b: bv16)
    requires AtMostOneBit(x) && b != 0 && SubMask(b, x)
    ensures x == b
  {}

  /** A cell that allows a digit is valid. */
  lemma AdmitsValid(c: SudokuCell, d: nat)
    requires 1 <= d <= 9 && CellAdmits(c, d)
    ensures c.IsValid()
  {
    ShiftIsSingle(d);
    NonEmptyOfBit(c.PossibleMask(), Bit(d));
  }

  /** A confirmed cell that allows d holds the digit d. */
  lemma AdmitsValue(c: SudokuCell, d: nat)
    requires 1 <= d <= 9 && CellAdmits(c, d) && c.IsConfirmed()
    ensures c.ConfirmedValue() == d
  {
    ShiftIsSingle(d);
    PowerOfTwoIndexOfShift(d);
  }

  /** Deduction in a group never drops a digit the cell allows when that digit
      is not among the group's confirmed bits cm: the cell is not Dead, a
      confirmation is to that digit, and the written state still allows it. */
  lemma ActAdmits(c: SudokuCell, cm: bv16, d: nat)
    requires 1 <= d <= 9 && CellAdmits(c, d) && (!c.IsConfirmed() ==> Bit(d) & cm == 0)
    ensures !Act(c, cm).Dead?
    ensures Act(c, cm).Confirm? ==> Act(c, cm).m == Bit(d)
    ensures Writes(Act(c, cm)) ==> CellAdmits(Written(Act(c, cm)), d)
  {
    if !c.IsConfirmed() {
      NarrowAdmits(c, cm, d);
    }
  }

  lemma NarrowAdmits(c: SudokuCell, cm: bv16, d: nat)
    requires 1 <= d <= 9 && !c.IsConfirmed() && CellAdmits(c, d) && Bit(d) & cm == 0
    ensures var m := c.PossibleMask() & !cm;
      m != 0 &&
      (AtMostOneBit(m) ==> m == Bit(d) && CellAdmits(SudokuCell(m | 1), d)) &&
      (!AtMostOneBit(m) ==> CellAdmits(SudokuCell(m), d))
  {
    var m := c.PossibleMask() & !cm;
    ShiftIsSingle(d);
    KeepsBit(c.PossibleMask(), cm, Bit(d));
    NonEmptyOfBit(m, Bit(d));
    MaskInCandidates(c);
    NarrowedMask(c.PossibleMask(), cm);
    SubMaskTrans(m, c.PossibleMask(), AllCandidates);
    if AtMostOneBit(m) {
      SingleOfBit(m, Bit(d));
      ConfirmedState(m);
    } else {
      OpenState(m);
    }
  }

  /** A guess `pick | 1` on an open cell allows d exactly when pick is d's bit. */
  lemma GuessAdmits(c: SudokuCell, pick: bv16, d: nat)
    requires 1 <= d <= 9 && !c.IsConfirmed()
    requires pick != 0 && AtMostOneBit(pick) && SubMask(pick, c.PossibleMask())
    ensures CellAdmits(SudokuCell(pick | 1), d) <==> pick == Bit(d)
  {
    Guess(c, pick);
    ShiftIsSingle(d);
    if SubMask(Bit(d), pick) {
      SingleOfBit(pick, Bit(d));
    }
  }
}
