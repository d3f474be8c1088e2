/** Flat index arithmetic: a three-level index into one buffer, and rounding up. */
module Arithmetic {

  // Position of (a, b, c) when b ranges below rows and c below cols.
  function Flat(a: nat, b: nat, c: nat, rows: nat, cols: nat): nat {
    (a * rows + b) * cols + c
  }

  function Div(a: nat, n: nat): nat
    requires n > 0
  {
    a / n
  }

  lemma MulMonotone(x: nat, y: nat, z: nat)
    requires x <= y
    ensures x * z <= y * z
  {
  }

  lemma PairInjective(x: nat, c: nat, x': nat, c': nat, n: nat)
    requires c < n && c' < n && x * n + c == x' * n + c'
    ensures x == x' && c == c'
  {
    if x < x' {
      MulMonotone(x + 1, x', n);
      assert false;
    }
    if x' < x {
      MulMonotone(x' + 1, x, n);
      assert false;
    }
  }

  lemma DivModUnique(p: nat, q: nat, r: nat, n: nat)
    requires r < n && p == q * n + r
    ensures p / n == q && p % n == r
  {
    PairInjective(p / n, p % n, q, r, n);
  }

  lemma FlatInjective(a: nat, b: nat, c: nat, a': nat, b': nat, c': nat, rows: nat, cols: nat)
    requires b < rows && c < cols && b' < rows && c' < cols
    requires Flat(a, b, c, rows, cols) == Flat(a', b', c', rows, cols)
    ensures a == a' && b == b' && c == c'
  {
    PairInjective(a * rows + b, c, a' * rows + b', c', cols);
    PairInjective(a, b, a', b', rows);
  }

  lemma FlatBound(a: nat, b: nat, c: nat, count: nat, rows: nat, cols: nat)
    requires a < count && b < rows && c < cols
    ensures Flat(a, b, c, rows, cols) < count * rows * cols
  {
    MulMonotone(a + 1, count, rows);
    assert a * rows + b + 1 <= count * rows;
    MulMonotone(a * rows + b + 1, count * rows, cols);
  }

  // The number of blocks of size b that cover a.
  function CeilDiv(a: nat, b: nat): nat
    requires b > 0
  {
    (a + b - 1) / b
  }

  lemma CeilDivBounds(a: nat, b: nat)
    requires b > 0
    ensures a <= CeilDiv(a, b) * b < a + b
  {
  }

  lemma CeilDivUnique(a: nat, b: nat, q: nat)
    requires b > 0 && a <= q * b < a + b
    ensures q == CeilDiv(a, b)
  {
    CeilDivBounds(a, b);
    var c := CeilDiv(a, b);
    if q < c {
      MulMonotone(q + 1, c, b);
      assert false;
    }
    if c < q {
      MulMonotone(c + 1, q, b);
      assert false;
    }
  }

  lemma CeilDivRange(a: nat, b: nat)
    requires a > 0 && b > 0
    ensures 1 <= CeilDiv(a, b) <= a
  {
    CeilDivBounds(a, b);
    var c := CeilDiv(a, b);
    if c > a {
      MulMonotone(a + 1, c, b);
      assert (a + 1) * b == a * b + b;
      MulMonotone(1, b, a);
      assert false;
    }
  }

  // Two counts that fit side by side still fit after scaling.
  lemma ScaledSum(x: nat, y: nat, total: nat, b: nat, w: nat)
    requires x + y <= total
    ensures x * b * w + y * b * w <= total * b * w
  {
    MulMonotone(x + y, total, b);
    assert (x + y) * b == x * b + y * b;
    MulMonotone(x * b + y * b, total * b, w);
    assert (x * b + y * b) * w == x * b * w + y * b * w;
  }

  lemma TimesEight(x: nat, b: nat, n: nat, w: nat)
    requires n == 8 * w
    ensures x * b * n == 8 * (x * b * w)
  {
    var y := x * b;
    assert y * (8 * w) == 8 * (y * w);
  }

  lemma DivMod(x: nat, n: nat)
    requires n > 0
    ensures x == Div(x, n) * n + x % n && 0 <= x % n < n && Div(x, n) == x / n
  {
  }

  lemma CeilDivCases(a: nat, b: nat)
    requires b > 0
    ensures CeilDiv(a, b) == if a % b == 0 then Div(a, b) else Div(a, b) + 1
  {
    DivMod(a, b);
    var q := Div(a, b);
    assert (q + 1) * b == q * b + b;
    CeilDivUnique(a, b, if a % b == 0 then q else q + 1);
  }

  // Dividing by a and then by b is dividing by a * b.
  lemma Regroup(q: nat, r1: nat, r0: nat, a: nat, b: nat)
    requires r1 < b && r0 < a
    ensures (q * b + r1) * a + r0 == q * (a * b) + (r1 * a + r0)
    ensures r1 * a + r0 < a * b
  {
    assert (q * b + r1) * a == q * (a * b) + r1 * a;
    MulMonotone(r1 + 1, b, a);
  }

  lemma SplitMod(x: nat, a: nat, b: nat)
    requires a > 0 && b > 0
    ensures a * b > 0 && x % (a * b) == Div(x, a) % b * a + x % a
  {
    DivMod(x, a);
    var q := Div(x, a);
    DivMod(q, b);
    Regroup(Div(q, b), q % b, x % a, a, b);
    DivModUnique(x, Div(q, b), (q % b) * a + x % a, a * b);
  }

  // Dividing in two steps.
  lemma DivDiv(x: nat, a: nat, b: nat)
    requires a > 0 && b > 0
    ensures a * b > 0 && x / (a * b) == x / a / b
  {
    DivMod(x, a);
    var q := Div(x, a);
    DivMod(q, b);
    Regroup(Div(q, b), q % b, x % a, a, b);
    DivModUnique(x, Div(q, b), (q % b) * a + x % a, a * b);
  }

  // A remainder is congruent to its number, and unique among the numbers below the modulus.
  lemma RemainderCongruent(p: nat, n: nat)
    requires n > 0
    ensures p % n < n && (p - p % n) % n == 0
  {
    DivMod(p, n);
    var q := Div(p, n);
    assert p - p % n == q * n + 0;
    DivModUnique(q * n, q, 0, n);
  }

  // Position of (row, col) in a matrix with cols columns.
  function Cell(row: nat, col: nat, cols: nat): nat {
    row * cols + col
  }

  lemma CellInjective(row: nat, col: nat, row': nat, col': nat, cols: nat)
    requires col < cols && col' < cols && Cell(row, col, cols) == Cell(row', col', cols)
    ensures row == row' && col == col'
  {
    PairInjective(row, col, row', col', cols);
  }

  lemma CellBound(row: nat, col: nat, rows: nat, cols: nat)
    requires row < rows && col < cols
    ensures Cell(row, col, cols) < rows * cols
  {
    MulMonotone(row + 1, rows, cols);
    assert (row + 1) * cols == row * cols + cols;
  }

  // Walking a matrix row by row.
  lemma CellNext(row: nat, col: nat, cols: nat)
    ensures Cell(row, col + 1, cols) == Cell(row, col, cols) + 1
    ensures Cell(row, cols, cols) == Cell(row + 1, 0, cols)
    ensures Cell(0, 0, cols) == 0
  {
  }

  lemma FlatIsCell(a: nat, b: nat, c: nat, rows: nat, cols: nat)
    ensures Flat(a, b, c, rows, cols) == Cell(a, Cell(b, c, cols), rows * cols)
  {
    assert (a * rows + b) * cols == a * (rows * cols) + b * cols;
  }
}
