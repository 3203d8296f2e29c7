/** The integer part of the grid layout: the column and row counts set by
    `updateGridColAndRows` and the container height set by `updateGridHeight`
    (js/script.js). A result of `None` stands for the cases where the source
    computes 0, NaN or Infinity and so writes a CSS value the browser
    rejects, leaving the element's style as it was. */
module Layout {
  import opened Wrappers

  /** `Math.ceil(n / d)` for a count `n` and a positive divisor `d`. */
  function CeilDiv(n: nat, d: nat): (q: nat)
    requires d > 0
    ensures q * d >= n
    ensures q == 0 || (q - 1) * d < n
  {
    DivLowerBound(n + d - 1, d);
    (n + d - 1) / d
  }

  lemma DivLowerBound(m: nat, d: nat)
    requires d > 0
    ensures (m / d) * d <= m < (m / d) * d + d
  {
  }

  /** `Math.ceil(Math.sqrt(n))`: the least `c` with `c * c >= n`. */
  function CeilSqrt(n: nat): (c: nat)
    ensures c * c >= n
    ensures c == 0 || (c - 1) * (c - 1) < n
  {
    CeilSqrtFrom(n, 0)
  }

  /** The least `c' >= c` with `c' * c' >= n`, given that no smaller one exists. */
  function CeilSqrtFrom(n: nat, c: nat): (c': nat)
    requires c == 0 || (c - 1) * (c - 1) < n
    decreases n - c
    ensures c' * c' >= n
    ensures c' == 0 || (c' - 1) * (c' - 1) < n
  {
    if c * c >= n then c
    else
      assert c <= c * c;
      CeilSqrtFrom(n, c + 1)
  }

  predicate IsDigit(ch: char)
  {
    '0' <= ch <= '9'
  }

  /** The number of columns (and of rows on one screen) for `n` stacks and the
      size selector's value: `ceil(sqrt(n))` for "fitall", otherwise the
      value's leading digit. `None` when the leading character is not a digit
      (or the value is empty): the division by it gives NaN. */
  function ColumnsOnScreen(n: nat, sizeValue: string): (c: Option<nat>)
    ensures sizeValue == "fitall" ==> c == Some(CeilSqrt(n))
    ensures sizeValue != "fitall" && |sizeValue| > 0 && IsDigit(sizeValue[0]) ==>
              c == Some(sizeValue[0] as int - '0' as int)
    ensures c.Some? <==> (sizeValue == "fitall" || (|sizeValue| > 0 && IsDigit(sizeValue[0])))
  {
    if sizeValue == "fitall" then Some(CeilSqrt(n))
    else if |sizeValue| > 0 && IsDigit(sizeValue[0]) then Some(sizeValue[0] as int - '0' as int)
    else None
  }

  datatype GridShape = GridShape(cols: nat, rows: nat)

  /** `updateGridColAndRows`: `cols` columns and `max(ceil(n / cols), cols)`
      rows; `None` when there is no positive column count (`fitall` with no
      stacks, a leading '0', or no leading digit). */
  function Shape(n: nat, sizeValue: string): (g: Option<GridShape>)
    ensures g.None? <==> ColumnsOnScreen(n, sizeValue).None? || ColumnsOnScreen(n, sizeValue).value == 0
    ensures g.Some? ==> g.value.cols == ColumnsOnScreen(n, sizeValue).value
  {
    match ColumnsOnScreen(n, sizeValue)
    case Some(c) =>
      if c == 0 then None else Some(GridShape(c, Max(CeilDiv(n, c), c)))
    case None => None
  }

  /** Assigning a computed value to a style property: a NaN or otherwise
      invalid value is ignored by the browser and the property keeps what it had. */
  function StyleAfter<T>(current: Option<T>, computed: Option<T>): (r: Option<T>)
    ensures computed.Some? ==> r == computed
    ensures computed.None? ==> r == current
  {
    if computed.Some? then computed else current
  }

  function Max(a: nat, b: nat): (m: nat)
  {
    if a >= b then a else b
  }

  /** The integer part of `updateGridHeight`: a row is
      `floor(screenHeight / c)` pixels high and the container holds
      `max(ceil(n / c), c)` rows. */
  function ContainerHeight(n: nat, sizeValue: string, screenHeight: nat): (h: Option<nat>)
    ensures h.Some? <==> Shape(n, sizeValue).Some?
    ensures h.Some? ==> h.value == (screenHeight / Shape(n, sizeValue).value.cols) * Shape(n, sizeValue).value.rows
  {
    match ColumnsOnScreen(n, sizeValue)
    case Some(c) =>
      if c == 0 then None
      else
        var rowHeight: nat := screenHeight / c;
        var rows: nat := Max(CeilDiv(n, c), c);
        Some(rowHeight * rows)
    case None => None
  }

  lemma MulMonotone(a: nat, b: nat, c: nat)
    requires a <= b
    ensures a * c <= b * c
  {
  }

  /** The grid always has a positive number of columns, at least as many rows
      as columns, and room for every stack. */
  lemma ShapeHoldsAll(n: nat, sizeValue: string)
    requires Shape(n, sizeValue).Some?
    ensures var g := Shape(n, sizeValue).value;
            && g.cols >= 1
            && g.rows >= g.cols
            && g.rows * g.cols >= n
            && (g.rows == g.cols || (g.rows - 1) * g.cols < n)
  {
    var g := Shape(n, sizeValue).value;
    MulMonotone(CeilDiv(n, g.cols), g.rows, g.cols);
  }

  /** In a fixed mode the column count is the value's leading digit whatever
      the number of stacks. */
  lemma FixedModeColumns(n: nat, sizeValue: string)
    requires sizeValue != "fitall" && |sizeValue| > 0 && '1' <= sizeValue[0] <= '9'
    ensures Shape(n, sizeValue).Some?
    ensures Shape(n, sizeValue).value.cols == sizeValue[0] as int - '0' as int
  {
  }

  /** In "fitall" mode with no stacks there is no valid layout: the column
      count is 0 and `ceil(0 / 0)` is NaN. */
  lemma FitAllEmpty(screenHeight: nat)
    ensures Shape(0, "fitall") == None
    ensures ContainerHeight(0, "fitall", screenHeight) == None
  {
    assert CeilSqrt(0) == 0;
  }

  /** In "fitall" mode with at least one stack the grid is square, with the
      least side that holds every stack. */
  lemma FitAllSquare(n: nat)
    requires n >= 1
    ensures Shape(n, "fitall").Some?
    ensures var g := Shape(n, "fitall").value;
            && g.cols == g.rows
            && (g.cols - 1) * (g.cols - 1) < n <= g.cols * g.cols
  {
    var c := CeilSqrt(n);
    assert c >= 1;
    var q := CeilDiv(n, c);
    if q > c {
      MulMonotone(c, q - 1, c);
      assert false;
    }
  }

  /** The container holds exactly the rows of the grid template, each
      `floor(screenHeight / c)` high: a multiple of the row height, at least
      one screen of `c` rows (never more than the screen when the stacks fit
      on it) and tall enough for every row of stacks. */
  lemma ContainerHeightFits(n: nat, sizeValue: string, screenHeight: nat)
    requires ContainerHeight(n, sizeValue, screenHeight).Some?
    ensures Shape(n, sizeValue).Some?
    ensures var g := Shape(n, sizeValue).value;
            var rowHeight := screenHeight / g.cols;
            var h := ContainerHeight(n, sizeValue, screenHeight).value;
            && h == rowHeight * g.rows
            && h >= g.cols * rowHeight
            && h >= CeilDiv(n, g.cols) * rowHeight
            && g.cols * rowHeight <= screenHeight
            && (n <= g.cols * g.cols ==> h <= screenHeight)
  {
    var g := Shape(n, sizeValue).value;
    var c := g.cols;
    var rowHeight := screenHeight / c;
    DivLowerBound(screenHeight, c);
    MulMonotone(c, g.rows, rowHeight);
    MulMonotone(CeilDiv(n, c), g.rows, rowHeight);
    if n <= c * c {
      var q := CeilDiv(n, c);
      if q > c {
        MulMonotone(c, q - 1, c);
      }
      assert g.rows == c;
    }
  }
}
