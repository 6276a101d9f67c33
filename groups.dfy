// The 27 units of the board (get_row, get_col, get_box of sudok_solver.hpp).
// A unit is the list of the nine cell indices that get_row, get_col and
// get_box refer to, in the same order.

module Groups {

  /** Board::at: row r, column c is cell r * 9 + c. */
  function At(r: nat, c: nat): nat
    requires r < 9 && c < 9
  {
    r * 9 + c
  }

  /** Nine distinct cell indices of the board. */
  predicate IsGroup(g: seq<nat>)
  {
    |g| == 9 &&
    (forall j :: 0 <= j < 9 ==> g[j] < 81) &&
    (forall j, k :: 0 <= j < k < 9 ==> g[j] != g[k])
  }

  /** The box that holds cell i: boxes are numbered row-major, three per band. */
  function BoxOf(i: nat): nat
    requires i < 81
  {
    (i / 27) * 3 + (i % 9) / 3
  }

  /** get_row: the cells of row r, left to right. */
  function Row(r: nat): (g: seq<nat>)
    requires r < 9
    ensures IsGroup(g)
  {
    [At(r, 0), At(r, 1), At(r, 2), At(r, 3), At(r, 4), At(r, 5), At(r, 6), At(r, 7), At(r, 8)]
  }

  /** The j-th cell of row r is in row r and column j. */
  lemma RowSpec(r: nat)
    requires r < 9
    ensures forall j :: 0 <= j < 9 ==> Row(r)[j] / 9 == r && Row(r)[j] % 9 == j
  {}

  /** get_col: the cells of column c, top to bottom. */
  function Col(c: nat): (g: seq<nat>)
    requires c < 9
    ensures IsGroup(g)
  {
    [At(0, c), At(1, c), At(2, c), At(3, c), At(4, c), At(5, c), At(6, c), At(7, c), At(8, c)]
  }

  /** The j-th cell of column c is in row j and column c. */
  lemma ColSpec(c: nat)
    requires c < 9
    ensures forall j :: 0 <= j < 9 ==> Col(c)[j] % 9 == c && Col(c)[j] / 9 == j
  {}

  /** get_box: the cells of box b, row by row, starting at row b / 3 * 3 and
      column b % 3 * 3. */
  function Box(b: nat): (g: seq<nat>)
    requires b < 9
    ensures IsGroup(g)
  {
    var g := seq(9, j requires 0 <= j < 9 => BoxCell(b, j));
    forall j, k | 0 <= j < k < 9
      ensures g[j] != g[k]
    {
      BoxCellSpec(b, j);
      BoxCellSpec(b, k);
    }
    forall j | 0 <= j < 9
      ensures g[j] < 81
    {
      BoxCellSpec(b, j);
    }
    g
  }

  /** The j-th cell of box b lies in box b, at row j / 3 and column j % 3 of it. */
  lemma BoxSpec(b: nat)
    requires b < 9
    ensures forall j :: 0 <= j < 9 ==>
      BoxOf(Box(b)[j]) == b && Box(b)[j] / 9 % 3 == j / 3 && Box(b)[j] % 3 == j % 3
  {
    forall j | 0 <= j < 9
      ensures BoxOf(Box(b)[j]) == b && Box(b)[j] / 9 % 3 == j / 3 && Box(b)[j] % 3 == j % 3
    {
      BoxCellSpec(b, j);
    }
  }

  /** The j-th cell of box b. */
  function BoxCell(b: nat, j: nat): nat
    requires b < 9 && j < 9
  {
    At(b / 3 * 3 + j / 3, b % 3 * 3 + j % 3)
  }

  lemma BoxCellSpec(b: nat, j: nat)
    requires b < 9 && j < 9
    ensures BoxCell(b, j) < 81 && BoxOf(BoxCell(b, j)) == b
    ensures BoxCell(b, j) / 9 % 3 == j / 3 && BoxCell(b, j) % 3 == j % 3
  {
    BoxOffset(b / 3, b % 3, j / 3, j % 3);
  }

  lemma BoxOffset(q: nat, p: nat, dr: nat, dc: nat)
    requires q < 3 && p < 3 && dr < 3 && dc < 3
    ensures var i := (3 * q + dr) * 9 + 3 * p + dc;
      i < 81 && (i / 27) * 3 + (i % 9) / 3 == 3 * q + p && i / 9 % 3 == dr && i % 3 == dc
  {
    var i := (3 * q + dr) * 9 + 3 * p + dc;
    assert i == 27 * q + 9 * dr + 3 * p + dc;
    assert i / 27 == q;
    assert i % 9 == 3 * p + dc;
    assert i / 9 == 3 * q + dr;
  }

  /** Two cells share a row, a column or a box. */
  predicate SameUnit(a: nat, b: nat)
    requires a < 81 && b < 81
  {
    a / 9 == b / 9 || a % 9 == b % 9 || BoxOf(a) == BoxOf(b)
  }

  /** Every cell is 27 * band + 9 * (row in band) + 3 * stack + (column in stack). */
  lemma Decompose(x: nat)
    ensures x == 27 * (x / 27) + 9 * (x / 9 % 3) + 3 * ((x % 9) / 3) + x % 3
  {
    var r, c := x / 9, x % 9;
    var rb, rr, cb, cc := r / 3, r % 3, c / 3, c % 3;
    DivMod(x, 9, r, c);
    DivMod(r, 3, rb, rr);
    DivMod(c, 3, cb, cc);
    DivMod(x, 27, rb, 9 * rr + 3 * cb + cc);
    DivMod(x, 3, 9 * rb + 3 * rr + cb, cc);
  }

  /** Division by a positive constant is unique: x == d * q + m with 0 <= m < d
      fixes q and m, and every x has such a q and m. */
  lemma DivMod(x: int, d: int, q: int, m: int)
    requires d == 3 || d == 9 || d == 27
    ensures x == d * (x / d) + x % d && 0 <= x % d < d
    ensures x == d * q + m && 0 <= m < d ==> x / d == q && x % d == m
  {}

  /** A cell is fixed by its box, its row within the band and its column within
      the stack. */
  lemma CellOfBox(x: nat, y: nat)
    requires x < 81 && y < 81 && BoxOf(x) == BoxOf(y) && x / 9 % 3 == y / 9 % 3 && x % 3 == y % 3
    ensures x == y
  {
    assert x / 27 == BoxOf(x) / 3 && (x % 9) / 3 == BoxOf(x) % 3;
    assert y / 27 == BoxOf(y) / 3 && (y % 9) / 3 == BoxOf(y) % 3;
    Decompose(x);
    Decompose(y);
  }

  /** The 27 units of the board. */
  predicate IsUnit(u: seq<nat>)
  {
    exists i :: 0 <= i < 9 && (u == Row(i) || u == Col(i) || u == Box(i))
  }

  lemma RowColBoxUnits(i: nat)
    requires i < 9
    ensures IsUnit(Row(i)) && IsUnit(Col(i)) && IsUnit(Box(i))
  {
    assert 0 <= i < 9 && Row(i) == Row(i) && Col(i) == Col(i) && Box(i) == Box(i);
  }

  /** Two distinct cells sharing a row, column or box lie together in one unit;
      returns it and their places in it. */
  lemma UnitOf(a: nat, b: nat) returns (u: seq<nat>, j: nat, k: nat)
    requires a < 81 && b < 81 && a != b && SameUnit(a, b)
    ensures IsUnit(u) && IsGroup(u)
    ensures j < 9 && k < 9 && j != k && u[j] == a && u[k] == b
  {
    if a / 9 == b / 9 {
      u, j, k := Row(a / 9), a % 9, b % 9;
      RowPlace(a);
      RowPlace(b);
      assert 0 <= a / 9 < 9 && u == Row(a / 9);
    } else if a % 9 == b % 9 {
      u, j, k := Col(a % 9), a / 9, b / 9;
      ColPlace(a);
      ColPlace(b);
      assert 0 <= a % 9 < 9 && u == Col(a % 9);
    } else {
      u := Box(BoxOf(a));
      j := BoxPlace(a);
      k := BoxPlace(b);
      assert 0 <= BoxOf(a) < 9 && u == Box(BoxOf(a));
    }
  }

  lemma RowPlace(a: nat)
    requires a < 81
    ensures Row(a / 9)[a % 9] == a
  {
    RowSpec(a / 9);
    var x := Row(a / 9)[a % 9];
    assert x / 9 == a / 9 && x % 9 == a % 9;
    assert x == 9 * (x / 9) + x % 9;
  }

  lemma ColPlace(a: nat)
    requires a < 81
    ensures Col(a % 9)[a / 9] == a
  {
    ColSpec(a % 9);
    var x := Col(a % 9)[a / 9];
    assert x / 9 == a / 9 && x % 9 == a % 9;
    assert x == 9 * (x / 9) + x % 9;
  }

  lemma BoxPlace(a: nat) returns (j: nat)
    requires a < 81
    ensures j < 9 && Box(BoxOf(a))[j] == a
  {
    var p, q := a / 9 % 3, a % 3;
    j := 3 * p + q;
    assert j / 3 == p && j % 3 == q;
    BoxSpec(BoxOf(a));
    CellOfBox(Box(BoxOf(a))[j], a);
  }

  /** Any two cells of a unit share it. */
  lemma UnitCellsShare(u: seq<nat>, j: nat, k: nat)
    requires IsUnit(u) && j < 9 && k < 9
    ensures IsGroup(u) && SameUnit(u[j], u[k])
  {
    var i :| 0 <= i < 9 && (u == Row(i) || u == Col(i) || u == Box(i));
    if u == Row(i) {
      RowSpec(i);
    } else if u == Col(i) {
      ColSpec(i);
    } else {
      BoxSpec(i);
    }
  }
}
