/** The line rasteriser `drawLine` (util.js).

    The source picks two octants with `atan2`, steps a counter `i` along the dominant axis and
    places the other coordinate at `floor(start + 0.5 + i * slope)`, with the slope obtained from
    `tan`. This model reads `atan2` and `tan` in exact arithmetic: the octant test
    `|theta| <= 45deg || |theta| >= 135deg` holds exactly when `|dr| <= |dc|`, `tan(theta)` is
    `dr / dc` and `tan(theta + 90deg)` is `-dc / dr`. The cell formula is kept over `real` as
    the source writes it, and `StepCellClosedForm` proves it equal to the integer formula
    `start + (n + 2*k*d) / (2*n)` that all other lemmas use. */
module Lines {
  import opened Colors
  import opened Tiles

  function Abs(x: int): nat {
    if x < 0 then -x else x
  }

  function Sign(x: int): int {
    if x > 0 then 1 else if x < 0 then -1 else 0
  }

  /** The two cells handed to `drawLine`: `(prevRow, prevCol)` and `(mouseRow, mouseCol)`. */
  datatype Segment = Segment(prevRow: int, prevCol: int, mouseRow: int, mouseCol: int) {
    function DRow(): int { mouseRow - prevRow }
    function DCol(): int { mouseCol - prevCol }
    predicate IsPoint() { prevRow == mouseRow && prevCol == mouseCol }
    predicate IsHorizontal() { Abs(DRow()) <= Abs(DCol()) }
    /** The number of steps along the dominant axis from one end to the other. */
    function Major(): nat { if IsHorizontal() then Abs(DCol()) else Abs(DRow()) }
  }

  // ---------------------------------------------------------------------------------------
  // The loop body as the source writes it, over exact reals

  /** `increment`: horizontally 1 when `|theta| <= 45deg` (the end is not to the left),
      vertically 1 when `theta > 0` (the end is below). Either way the counter moves toward
      the end along the dominant axis. */
  function Increment(s: Segment): (r: int)
    ensures r == 1 || r == -1
    ensures s.IsHorizontal() ==> r * s.DCol() == Abs(s.DCol())
    ensures !s.IsHorizontal() ==> r * s.DRow() == Abs(s.DRow())
  {
    if s.IsHorizontal() then (if s.DCol() >= 0 then 1 else -1)
    else (if s.DRow() > 0 then 1 else -1)
  }

  /** `slope`: `tan(theta)` horizontally, `tan(theta + 90deg)` vertically. When the horizontal
      branch has `dc == 0` the two cells coincide, `theta` is 0 and so is its tangent. In both
      octant pairs the slope lies in [-1, 1]. */
  function Slope(s: Segment): (r: real)
    ensures s.IsHorizontal() && s.DCol() != 0 ==> r * s.DCol() as real == s.DRow() as real
    ensures s.IsHorizontal() && s.DCol() == 0 ==> r == 0.0
    ensures !s.IsHorizontal() ==> r * s.DRow() as real == -(s.DCol() as real)
    ensures -1.0 <= r <= 1.0
  {
    if s.IsHorizontal() then
      (if s.DCol() == 0 then 0.0 else RatioBound(s.DRow(), s.DCol()); s.DRow() as real / s.DCol() as real)
    else
      RatioBound(s.DCol(), s.DRow());
      -(s.DCol() as real / s.DRow() as real)
  }

  /** A ratio whose numerator is no larger in magnitude than its denominator lies in [-1, 1]. */
  lemma RatioBound(a: int, b: int)
    requires b != 0 && Abs(a) <= Abs(b)
    ensures -1.0 <= a as real / b as real <= 1.0
  {
    if b > 0 {
      assert -(b as real) <= a as real <= b as real;
    } else {
      assert b as real <= a as real <= -(b as real);
    }
  }

  /** `Math.floor(prevRow + 0.5 + i * slope)`. */
  function RoundedRow(prevRow: int, i: int, slope: real): int {
    (prevRow as real + 0.5 + i as real * slope).Floor
  }

  /** `Math.floor(prevCol + 0.5 - i * slope)`. */
  function RoundedCol(prevCol: int, i: int, slope: real): int {
    (prevCol as real + 0.5 - i as real * slope).Floor
  }

  /** The cell the loop body computes for counter value `i`: the dominant coordinate moves by
      `i`, and the other is the cell nearest to the exact line through the two ends, a
      half-way point going to the higher cell. */
  function CellAt(s: Segment, i: int): (r: (int, int))
    ensures s.IsHorizontal() ==> r.1 == s.prevCol + i
    ensures s.IsHorizontal() && s.DCol() != 0 ==>
              var y := s.prevRow as real + i as real * (s.DRow() as real / s.DCol() as real);
              r.0 as real - 0.5 <= y < r.0 as real + 0.5
    ensures !s.IsHorizontal() ==> r.0 == s.prevRow + i
    ensures !s.IsHorizontal() ==>
              var x := s.prevCol as real + i as real * (s.DCol() as real / s.DRow() as real);
              r.1 as real - 0.5 <= x < r.1 as real + 0.5
  {
    if s.IsHorizontal() then
      (RoundedRow(s.prevRow, i, Slope(s)), s.prevCol + i)
    else
      (s.prevRow + i, RoundedCol(s.prevCol, i, Slope(s)))
  }

  /** The cell of the `k`-th pass: the counter has then been advanced `k` times. */
  function StepCell(s: Segment, k: nat): (int, int) {
    CellAt(s, k * Increment(s))
  }

  // ---------------------------------------------------------------------------------------
  // The same cells in integer arithmetic

  /** The minor-axis offset after `k` steps: `round-half-up(k * d / n)`. */
  function Offset(n: int, d: int, k: int): int
    requires n > 0
  {
    (n + 2 * k * d) / (2 * n)
  }

  /** The closed form of the `k`-th cell (for two distinct cells). */
  function ClosedFormCell(s: Segment, k: nat): (int, int)
    requires !s.IsPoint()
  {
    if s.IsHorizontal() then
      (s.prevRow + Offset(Abs(s.DCol()), s.DRow(), k), s.prevCol + k * Sign(s.DCol()))
    else
      (s.prevRow + k * Sign(s.DRow()), s.prevCol + Offset(Abs(s.DRow()), s.DCol(), k))
  }

  lemma FloorOfQuotient(n: int, p: int, q: int)
    requires q > 0
    ensures (n as real + p as real / q as real).Floor == n + p / q
  {
    var f := p / q;
    var m := p % q;
    assert p == f * q + m && 0 <= m < q;
    assert p as real == f as real * q as real + m as real;
    assert p as real / q as real == f as real + m as real / q as real;
    assert 0.0 <= m as real / q as real < 1.0;
  }

  lemma HalfPlus(a: int, t: int)
    requires a > 0
    ensures 0.5 + t as real / (2 * a) as real == (a + t) as real / (2 * a) as real
  {
    var A, T := a as real, t as real;
    assert (2 * a) as real == 2.0 * A;
    assert (a + t) as real == A + T;
    assert (A + T) / (2.0 * A) == A / (2.0 * A) + T / (2.0 * A);
    assert A / (2.0 * A) == 0.5;
  }

  /** `i * slope` after `k` passes: the counter runs with the sign of the dominant difference,
      so the product is `k * d / |den|`, written over the denominator `2 * |den|`. */
  lemma ScaledSlope(k: int, d: int, den: int)
    requires den != 0
    ensures (k * Sign(den)) as real * (d as real / den as real) == (2 * k * d) as real / (2 * Abs(den)) as real
  {
    var K, D, N := k as real, d as real, den as real;
    assert (2 * k * d) as real == 2.0 * K * D;
    if den > 0 {
      assert (k * Sign(den)) as real == K;
      assert (2 * Abs(den)) as real == 2.0 * N;
      assert K * (D / N) == (2.0 * K * D) / (2.0 * N);
    } else {
      assert (k * Sign(den)) as real == -K;
      assert (2 * Abs(den)) as real == -2.0 * N;
      assert -K * (D / N) == (2.0 * K * D) / (-2.0 * N);
    }
  }

  /** The source's real-valued cell formula equals the integer closed form. */
  lemma StepCellClosedForm(s: Segment, k: nat)
    requires !s.IsPoint()
    ensures StepCell(s, k) == ClosedFormCell(s, k)
  {
    if s.IsHorizontal() {
      HorizontalClosedForm(s, k);
    } else {
      VerticalClosedForm(s, k);
    }
  }

  /** `floor(start + 0.5 + i * d / den)` after `k` passes, in integer arithmetic. */
  lemma MinorFormula(start: int, d: int, den: int, k: int)
    requires den != 0
    ensures RoundedRow(start, k * Sign(den), d as real / den as real) == start + Offset(Abs(den), d, k)
  {
    var a := Abs(den);
    ScaledSlope(k, d, den);
    HalfPlus(a, 2 * k * d);
    FloorOfQuotient(start, a + 2 * k * d, 2 * a);
  }

  lemma RoundedColIsRoundedRow(start: int, i: int, slope: real)
    ensures RoundedCol(start, i, slope) == RoundedRow(start, i, -slope)
  {
  }

  lemma HorizontalClosedForm(s: Segment, k: nat)
    requires !s.IsPoint() && s.IsHorizontal()
    ensures StepCell(s, k) == ClosedFormCell(s, k)
  {
    var dr, dc := s.DRow(), s.DCol();
    var i := k * Sign(dc);
    assert Increment(s) == Sign(dc);
    assert k * Increment(s) == i;
    assert Slope(s) == dr as real / dc as real;
    assert StepCell(s, k) == (RoundedRow(s.prevRow, i, dr as real / dc as real), s.prevCol + i);
    MinorFormula(s.prevRow, dr, dc, k);
  }

  lemma VerticalClosedForm(s: Segment, k: nat)
    requires !s.IsPoint() && !s.IsHorizontal()
    ensures StepCell(s, k) == ClosedFormCell(s, k)
  {
    var dr, dc := s.DRow(), s.DCol();
    var i := k * Sign(dr);
    assert Increment(s) == Sign(dr);
    assert k * Increment(s) == i;
    assert -Slope(s) == dc as real / dr as real;
    RoundedColIsRoundedRow(s.prevCol, i, Slope(s));
    assert StepCell(s, k) == (s.prevRow + i, RoundedRow(s.prevCol, i, dc as real / dr as real));
    MinorFormula(s.prevCol, dc, dr, k);
  }

  // ---------------------------------------------------------------------------------------
  // Integer division facts behind the offsets

  lemma DivUnique(x: int, m: int, q: int, r: int)
    requires m > 0 && 0 <= r < m && x == q * m + r
    ensures x / m == q
  {
    var q' := x / m;
    var r' := x % m;
    assert x == q' * m + r';
    if q > q' {
      MulMonotone(q' + 1, q, m);
    } else if q < q' {
      MulMonotone(q + 1, q', m);
    }
  }

  lemma MulMonotone(a: int, b: int, m: int)
    requires a <= b && m >= 0
    ensures a * m <= b * m
  {
  }

  lemma DivMonotone(x: int, y: int, m: int)
    requires m > 0 && x <= y
    ensures x / m <= y / m
  {
    var qx, qy := x / m, y / m;
    assert x == qx * m + x % m && y == qy * m + y % m;
    if qx > qy {
      MulMonotone(qy + 1, qx, m);
    }
  }

  /** Numerators at most one divisor apart have quotients at most one apart. */
  lemma DivCloseNumerators(x: int, y: int, m: int)
    requires m > 0 && x <= y <= x + m
    ensures x / m <= y / m <= x / m + 1
  {
    DivMonotone(x, y, m);
    DivMonotone(y, x + m, m);
    DivUnique(x + m, m, x / m + 1, x % m);
  }

  lemma OffsetStart(n: int, d: int)
    requires n > 0
    ensures Offset(n, d, 0) == 0
  {
    DivUnique(n, 2 * n, 0, n);
  }

  lemma OffsetEnd(n: int, d: int)
    requires n > 0
    ensures Offset(n, d, n) == d
  {
    DivUnique(n + 2 * n * d, 2 * n, d, n);
  }

  /** One step moves the offset by at most one, in the direction of `d`. */
  lemma OffsetStep(n: int, d: int, k: int)
    requires n > 0 && Abs(d) <= n
    ensures d >= 0 ==> Offset(n, d, k) <= Offset(n, d, k + 1) <= Offset(n, d, k) + 1
    ensures d <= 0 ==> Offset(n, d, k + 1) <= Offset(n, d, k) <= Offset(n, d, k + 1) + 1
  {
    var x, y := n + 2 * k * d, n + 2 * (k + 1) * d;
    assert 2 * (k + 1) * d == 2 * k * d + 2 * d;
    assert y == x + 2 * d;
    if d >= 0 {
      assert x <= y <= x + 2 * n;
      DivCloseNumerators(x, y, 2 * n);
    } else {
      assert y <= x <= y + 2 * n;
      DivCloseNumerators(y, x, 2 * n);
    }
  }

  /** Between the two ends the offset stays between 0 and `d`. */
  lemma OffsetBetween(n: int, d: int, k: int)
    requires n > 0 && Abs(d) <= n && 0 <= k <= n
    ensures d >= 0 ==> 0 <= Offset(n, d, k) <= d
    ensures d <= 0 ==> d <= Offset(n, d, k) <= 0
  {
    OffsetStart(n, d);
    OffsetEnd(n, d);
    NumeratorBetween(n, d, k);
    var lo, mid, hi := n + 2 * 0 * d, n + 2 * k * d, n + 2 * n * d;
    if d >= 0 {
      DivMonotone(lo, mid, 2 * n);
      DivMonotone(mid, hi, 2 * n);
    } else {
      DivMonotone(hi, mid, 2 * n);
      DivMonotone(mid, lo, 2 * n);
    }
  }

  /** The numerator of the offset moves monotonically from its value at 0 to its value at n. */
  lemma NumeratorBetween(n: int, d: int, k: int)
    requires 0 <= k <= n
    ensures d >= 0 ==> n + 2 * 0 * d <= n + 2 * k * d <= n + 2 * n * d
    ensures d <= 0 ==> n + 2 * n * d <= n + 2 * k * d <= n + 2 * 0 * d
  {
    assert 2 * k * d == 2 * (k * d) && 2 * n * d == 2 * (n * d);
    if d >= 0 {
      MulMonotone(0, k, d);
      MulMonotone(k, n, d);
    } else {
      MulMonotone(0, k, -d);
      MulMonotone(k, n, -d);
      assert k * (-d) == -(k * d) && n * (-d) == -(n * d);
    }
  }

  // ---------------------------------------------------------------------------------------
  // Properties of the closed-form cells

  function CellOf(p: Pixel): (int, int) {
    (p.row, p.col)
  }

  predicate InBounds(cell: (int, int), width: int, height: int) {
    CheckTileBounds(cell.0, cell.1, width, height)
  }

  /** The first pass computes the start cell again. */
  lemma ClosedFormStart(s: Segment)
    requires !s.IsPoint()
    ensures ClosedFormCell(s, 0) == (s.prevRow, s.prevCol)
  {
    if s.IsHorizontal() { OffsetStart(Abs(s.DCol()), s.DRow()); } else { OffsetStart(Abs(s.DRow()), s.DCol()); }
  }

  /** After `Major` passes the cell is the end cell. */
  lemma ClosedFormEnd(s: Segment)
    requires !s.IsPoint()
    ensures ClosedFormCell(s, s.Major()) == (s.mouseRow, s.mouseCol)
  {
    var k := s.Major();
    if s.IsHorizontal() {
      OffsetEnd(Abs(s.DCol()), s.DRow());
      assert k * Sign(s.DCol()) == s.DCol();
    } else {
      OffsetEnd(Abs(s.DRow()), s.DCol());
      assert k * Sign(s.DRow()) == s.DRow();
    }
  }

  /** Before `Major` passes the dominant coordinate has not reached the end. */
  lemma ClosedFormNotEndEarly(s: Segment, k: nat)
    requires !s.IsPoint()
    ensures k < s.Major() ==> ClosedFormCell(s, k) != (s.mouseRow, s.mouseCol)
  {
    if k >= s.Major() {
    } else if s.IsHorizontal() {
      assert Abs(k * Sign(s.DCol())) == k;
    } else {
      assert Abs(k * Sign(s.DRow())) == k;
    }
  }

  /** Consecutive cells: the dominant coordinate moves one cell toward the end, the other by
      at most one. */
  predicate UnitStep(s: Segment, a: (int, int), b: (int, int)) {
    if s.IsHorizontal() then b.1 - a.1 == Sign(s.DCol()) && Abs(b.0 - a.0) <= 1
    else b.0 - a.0 == Sign(s.DRow()) && Abs(b.1 - a.1) <= 1
  }

  lemma ClosedFormStep(s: Segment, k: nat)
    requires !s.IsPoint()
    ensures UnitStep(s, ClosedFormCell(s, k), ClosedFormCell(s, k + 1))
    ensures Abs(Sign(if s.IsHorizontal() then s.DCol() else s.DRow())) == 1
  {
    if s.IsHorizontal() {
      OffsetStep(Abs(s.DCol()), s.DRow(), k);
      assert (k + 1) * Sign(s.DCol()) == k * Sign(s.DCol()) + Sign(s.DCol());
    } else {
      OffsetStep(Abs(s.DRow()), s.DCol(), k);
      assert (k + 1) * Sign(s.DRow()) == k * Sign(s.DRow()) + Sign(s.DRow());
    }
  }

  /** Between the ends every cell lies in the rectangle spanned by the two cells, so on the
      grid when both ends are on it. */
  lemma ClosedFormInBounds(s: Segment, k: nat, width: int, height: int)
    requires !s.IsPoint() && k <= s.Major()
    ensures CheckTileBounds(s.prevRow, s.prevCol, width, height) &&
            CheckTileBounds(s.mouseRow, s.mouseCol, width, height) ==>
              InBounds(ClosedFormCell(s, k), width, height)
  {
    if !(CheckTileBounds(s.prevRow, s.prevCol, width, height) &&
         CheckTileBounds(s.mouseRow, s.mouseCol, width, height)) {
    } else if s.IsHorizontal() {
      OffsetBetween(Abs(s.DCol()), s.DRow(), k);
      assert Abs(k * Sign(s.DCol())) <= Abs(s.DCol());
      assert s.DCol() >= 0 ==> 0 <= k * Sign(s.DCol());
      assert s.DCol() < 0 ==> k * Sign(s.DCol()) <= 0;
    } else {
      OffsetBetween(Abs(s.DRow()), s.DCol(), k);
      assert Abs(k * Sign(s.DRow())) <= Abs(s.DRow());
      assert s.DRow() >= 0 ==> 0 <= k * Sign(s.DRow());
      assert s.DRow() < 0 ==> k * Sign(s.DRow()) <= 0;
    }
  }

  // ---------------------------------------------------------------------------------------
  // The loop

  /** The entries the loop pushes from its `k`-th pass on: it stops before an off-grid cell,
      and after pushing the end cell. */
  function Steps(width: int, height: int, s: Segment, color: Color, k: nat): (r: seq<Pixel>)
    requires !s.IsPoint() && k <= s.Major()
    decreases s.Major() - k
    ensures |r| <= s.Major() - k + 1
    ensures forall j :: 0 <= j < |r| ==> r[j].color == color
    ensures forall j :: 0 <= j < |r| ==> CellOf(r[j]) == ClosedFormCell(s, k + j)
    ensures forall j :: 0 <= j < |r| ==> CheckTileBounds(r[j].row, r[j].col, width, height)
    ensures forall j :: 0 <= j < |r| - 1 ==> UnitStep(s, CellOf(r[j]), CellOf(r[j + 1]))
    ensures |r| == s.Major() - k + 1 || !InBounds(ClosedFormCell(s, k + |r|), width, height)
    ensures |r| == s.Major() - k + 1 ==> CellOf(r[|r| - 1]) == (s.mouseRow, s.mouseCol)
    ensures (CheckTileBounds(s.prevRow, s.prevCol, width, height) &&
             CheckTileBounds(s.mouseRow, s.mouseCol, width, height)) ==> |r| == s.Major() - k + 1
  {
    StepCellClosedForm(s, k);
    ClosedFormEnd(s);
    var (row, col) := StepCell(s, k);
    ClosedFormInBounds(s, k, width, height);
    ClosedFormNotEndEarly(s, k);
    if !CheckTileBounds(row, col, width, height) then
      []
    else if row == s.mouseRow && col == s.mouseCol then
      [Pixel(row, col, color)]
    else
      var rest := Steps(width, height, s, color, k + 1);
      ClosedFormStep(s, k);
      var r := [Pixel(row, col, color)] + rest;
      assert forall j :: 1 <= j < |r| ==> r[j] == rest[j - 1];
      r
  }

  /** `drawLine(imageWidth, imageHeight, prevRow, prevCol, mouseRow, mouseCol, color)`. */
  function DrawLine(imageWidth: int, imageHeight: int, prevRow: int, prevCol: int,
                    mouseRow: int, mouseCol: int, color: Color): (r: seq<Pixel>)
    // the start entry is pushed unconditionally, even off the grid
    ensures |r| >= 1 && r[0] == Pixel(prevRow, prevCol, color)
    ensures forall j :: 0 <= j < |r| ==> r[j].color == color
    ensures prevRow == mouseRow && prevCol == mouseCol ==> |r| == 1
    // every later entry is on the grid; the loop runs at most Major + 1 passes
    ensures forall j :: 1 <= j < |r| ==> CheckTileBounds(r[j].row, r[j].col, imageWidth, imageHeight)
    ensures |r| <= Segment(prevRow, prevCol, mouseRow, mouseCol).Major() + 2
    // the first pass pushes the start cell a second time
    ensures (prevRow != mouseRow || prevCol != mouseCol) && CheckTileBounds(prevRow, prevCol, imageWidth, imageHeight) ==>
              |r| >= 2 && r[1] == r[0]
    ensures !CheckTileBounds(prevRow, prevCol, imageWidth, imageHeight) ==> |r| == 1
    // the entries after the first follow the closed form and move one cell per entry
    ensures var s := Segment(prevRow, prevCol, mouseRow, mouseCol);
            !s.IsPoint() ==>
              (forall j :: 1 <= j < |r| ==> CellOf(r[j]) == ClosedFormCell(s, j - 1)) &&
              (forall j :: 1 <= j < |r| - 1 ==> UnitStep(s, CellOf(r[j]), CellOf(r[j + 1])))
    // it ends at the end cell, or just before the first closed-form cell off the grid
    ensures var s := Segment(prevRow, prevCol, mouseRow, mouseCol);
            !s.IsPoint() ==>
              (|r| == s.Major() + 2 && CellOf(r[|r| - 1]) == (mouseRow, mouseCol)) ||
              !InBounds(ClosedFormCell(s, |r| - 1), imageWidth, imageHeight)
    ensures CheckTileBounds(prevRow, prevCol, imageWidth, imageHeight) &&
            CheckTileBounds(mouseRow, mouseCol, imageWidth, imageHeight) ==>
              r[|r| - 1] == Pixel(mouseRow, mouseCol, color)
  {
    var s := Segment(prevRow, prevCol, mouseRow, mouseCol);
    var first := Pixel(prevRow, prevCol, color);
    if s.IsPoint() then
      [first]
    else
      var rest := Steps(imageWidth, imageHeight, s, color, 0);
      ClosedFormStart(s);
      var r := [first] + rest;
      assert forall j :: 1 <= j < |r| ==> r[j] == rest[j - 1];
      r
  }

  /** A horizontal segment toward increasing columns stays on its row. */
  lemma RowCells(s: Segment, k: nat)
    requires s.DRow() == 0 && s.DCol() > 0
    ensures ClosedFormCell(s, k) == (s.prevRow, s.prevCol + k)
  {
    assert Offset(s.DCol(), 0, k) == 0;
  }

  /** A horizontal line on the grid pushes the start twice and then every cell of the row
      up to the end, in order. */
  lemma HorizontalLine(width: int, height: int, row: int, from: int, to: int, color: Color)
    requires 0 <= row < height && 0 <= from < to < width
    ensures var r := DrawLine(width, height, row, from, row, to, color);
            |r| == to - from + 2 && r[0] == Pixel(row, from, color) &&
            forall j :: 1 <= j < |r| ==> r[j] == Pixel(row, from + j - 1, color)
  {
    var s := Segment(row, from, row, to);
    var r := DrawLine(width, height, row, from, row, to, color);
    assert !s.IsPoint() && s.Major() == to - from;
    forall j | 1 <= j < |r|
      ensures r[j] == Pixel(row, from + j - 1, color)
    {
      RowCells(s, j - 1);
      assert CellOf(r[j]) == (row, from + j - 1);
    }
  }

  /** On a 45-degree diagonal toward increasing rows and columns both coordinates advance
      by one cell per pass. */
  lemma DiagonalCells(s: Segment, k: nat)
    requires s.DRow() == s.DCol() > 0
    ensures ClosedFormCell(s, k) == (s.prevRow + k, s.prevCol + k)
  {
    var n := s.DCol();
    assert n + 2 * k * n == k * (2 * n) + n;
    DivUnique(n + 2 * k * n, 2 * n, k, n);
  }

  /** A diagonal from the corner toward an end beyond the grid is clipped at the grid's edge:
      after the repeated start it covers the diagonal cells 0..15 of a 16 x 16 grid and
      nothing else. */
  lemma DiagonalIsClipped(n: int, color: Color)
    requires n >= 16
    ensures var r := DrawLine(16, 16, 0, 0, n, n, color);
            |r| == 17 && forall j :: 1 <= j < 17 ==> r[j] == Pixel(j - 1, j - 1, color)
  {
    var s := Segment(0, 0, n, n);
    var r := DrawLine(16, 16, 0, 0, n, n, color);
    assert !s.IsPoint() && s.Major() == n;
    assert |r| >= 2;
    DiagonalCells(s, |r| - 2);
    assert CellOf(r[|r| - 1]) == (|r| - 2, |r| - 2);
    assert CheckTileBounds(r[|r| - 1].row, r[|r| - 1].col, 16, 16);
    assert |r| <= 17;
    DiagonalCells(s, |r| - 1);
    assert !InBounds(ClosedFormCell(s, |r| - 1), 16, 16);
    assert |r| == 17;
    forall j | 1 <= j < 17
      ensures r[j] == Pixel(j - 1, j - 1, color)
    {
      DiagonalCells(s, j - 1);
      assert CellOf(r[j]) == (j - 1, j - 1);
    }
  }
}
