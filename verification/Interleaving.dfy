/** Interleaving a stack of blocks whose last block may be shorter: symbols are taken column by
column and laid down row by row, in place, through an auxiliary stack. */
module Interleaving {

  /** Rows of equal width. Of the last row only the first `partial` cells are used. */
  type Stack<T> = seq<seq<T>>

  predicate Shaped<T>(s: Stack<T>, rows: nat, width: nat)
  {
    |s| == rows && forall r :: 0 <= r < rows ==> |s[r]| == width
  }

  ghost function Cells<T>(a: array2<T>): (s: Stack<T>)
    ensures Shaped(s, a.Length0, a.Length1)
    ensures forall r, k :: 0 <= r < a.Length0 && 0 <= k < a.Length1 ==> s[r][k] == a[r, k]
    reads a
  {
    seq(a.Length0, r requires 0 <= r < a.Length0 reads a =>
      seq(a.Length1, k requires 0 <= k < a.Length1 reads a => a[r, k]))
  }

  function Put<T>(s: Stack<T>, r: nat, k: nat, v: T): Stack<T>
    requires r < |s| && k < |s[r]|
  {
    s[r := s[r][k := v]]
  }

  /** How many cells of a column are used. */
  function Height(rows: nat, partial: nat, j: nat): (h: nat)
    requires rows > 0
    ensures h <= rows
  {
    if j < partial then rows else rows - 1
  }

  // ---------------------------------------------------------------------------------------
  // The two orders
  // ---------------------------------------------------------------------------------------

  /** The cells before `(r, k)` row by row. */
  function ByRows<T>(s: Stack<T>, rows: nat, width: nat, r: nat, k: nat): seq<T>
    requires Shaped(s, rows, width) && r <= rows && k <= width && (k > 0 ==> r < rows)
    decreases r, k
  {
    if k > 0 then ByRows(s, rows, width, r, k - 1) + [s[r][k - 1]]
    else if r > 0 then ByRows(s, rows, width, r - 1, width)
    else []
  }

  /** The used cells before `(r, j)` column by column. */
  function ByColumns<T>(s: Stack<T>, rows: nat, width: nat, partial: nat, j: nat, r: nat): seq<T>
    requires Shaped(s, rows, width) && rows > 0 && j <= width && r <= rows && (r > 0 ==> j < width)
    decreases j, r
  {
    if r > 0 then ByColumns(s, rows, width, partial, j, r - 1) + [s[r - 1][j]]
    else if j > 0 then ByColumns(s, rows, width, partial, j - 1, Height(rows, partial, j - 1))
    else []
  }

  /** Changing a cell does not concern the cells before it. */
  lemma {:induction false} ByRowsPut<T>(s: Stack<T>, rows: nat, width: nat, r: nat, k: nat, r': nat, k': nat, v: T)
    requires Shaped(s, rows, width) && r <= r' < rows && k <= width && k' < width
    requires r == r' ==> k <= k'
    ensures Shaped(Put(s, r', k', v), rows, width)
    ensures ByRows(Put(s, r', k', v), rows, width, r, k) == ByRows(s, rows, width, r, k)
    decreases r, k
  {
    if k > 0 {
      ByRowsPut(s, rows, width, r, k - 1, r', k', v);
    } else if r > 0 {
      ByRowsPut(s, rows, width, r - 1, width, r', k', v);
    }
  }

  lemma {:induction false} ByColumnsPut<T>(s: Stack<T>, rows: nat, width: nat, partial: nat, j: nat, r: nat,
                                           j': nat, r': nat, v: T)
    requires Shaped(s, rows, width) && rows > 0 && j <= j' < width && r <= rows && r' < rows
    requires j == j' ==> r <= r'
    ensures Shaped(Put(s, r', j', v), rows, width)
    ensures ByColumns(Put(s, r', j', v), rows, width, partial, j, r) == ByColumns(s, rows, width, partial, j, r)
    decreases j, r
  {
    if r > 0 {
      ByColumnsPut(s, rows, width, partial, j, r - 1, j', r', v);
    } else if j > 0 {
      ByColumnsPut(s, rows, width, partial, j - 1, Height(rows, partial, j - 1), j', r', v);
    }
  }

  // ---------------------------------------------------------------------------------------
  // Positions
  // ---------------------------------------------------------------------------------------

  /** How many used cells the first `j` columns have. */
  function Before(rows: nat, partial: nat, j: nat): nat
    requires rows > 0
  {
    if j == 0 then 0 else Before(rows, partial, j - 1) + Height(rows, partial, j - 1)
  }

  lemma {:induction false} ByRowsLength<T>(s: Stack<T>, rows: nat, width: nat, r: nat, k: nat)
    requires Shaped(s, rows, width) && r <= rows && k <= width && (k > 0 ==> r < rows)
    ensures |ByRows(s, rows, width, r, k)| == r * width + k
    decreases r, k
  {
    if k > 0 {
      ByRowsLength(s, rows, width, r, k - 1);
    } else if r > 0 {
      ByRowsLength(s, rows, width, r - 1, width);
      Product(r - 1, width);
    }
  }

  lemma {:induction false} ByColumnsLength<T>(s: Stack<T>, rows: nat, width: nat, partial: nat, j: nat, r: nat)
    requires Shaped(s, rows, width) && rows > 0 && j <= width && r <= rows && (r > 0 ==> j < width)
    ensures |ByColumns(s, rows, width, partial, j, r)| == Before(rows, partial, j) + r
    decreases j, r
  {
    if r > 0 {
      ByColumnsLength(s, rows, width, partial, j, r - 1);
    } else if j > 0 {
      ByColumnsLength(s, rows, width, partial, j - 1, Height(rows, partial, j - 1));
    }
  }

  lemma {:induction false} Product(k: nat, n: nat)
    ensures (k + 1) * n == k * n + n
  {
  }

  /** The columns hold the full rows and the partial one. */
  lemma {:induction false} BeforeIs(rows: nat, partial: nat, j: nat)
    requires rows > 0
    ensures Before(rows, partial, j) == j * (rows - 1) + if j < partial then j else partial
    decreases j
  {
    if j > 0 {
      BeforeIs(rows, partial, j - 1);
      Product(j - 1, rows - 1);
    }
  }

  /** Two symbols of one row end up at least `rows - 1` apart, and `rows` apart in full columns. */
  lemma {:induction false} Spread(rows: nat, partial: nat, j: nat, j': nat)
    requires rows > 0 && j < j'
    ensures Before(rows, partial, j') - Before(rows, partial, j) >= rows - 1
    ensures j' <= partial ==> Before(rows, partial, j') - Before(rows, partial, j) >= rows
    decreases j'
  {
    if j < j' - 1 {
      Spread(rows, partial, j, j' - 1);
    }
  }

  /** Any `rows - 1` consecutive symbols come from different rows, and any `rows` consecutive ones
  that come from full columns. */
  lemma {:induction false} BurstHitsEachRowOnce(rows: nat, partial: nat, j: nat, r: nat, j': nat, r': nat)
    requires rows > 0 && r < Height(rows, partial, j) && r' < Height(rows, partial, j')
    requires var at, at' := Before(rows, partial, j) + r, Before(rows, partial, j') + r';
             at < at' && at' - at < if j' <= partial then rows else rows - 1
    ensures r != r'
  {
    if r == r' && j < j' {
      Spread(rows, partial, j, j');
    } else if r == r' && j' < j {
      Spread(rows, partial, j', j);
    }
  }

  /** Where a symbol goes. */
  lemma {:induction false} ColumnOrderAt<T>(s: Stack<T>, rows: nat, width: nat, partial: nat, j: nat, r: nat, j': nat, r': nat)
    requires Shaped(s, rows, width) && rows > 0 && j <= width && r <= rows && (r > 0 ==> j < width)
    requires r' < Height(rows, partial, j') && (j' < j || (j' == j && r' < r)) && (r > 0 ==> r <= Height(rows, partial, j))
    ensures var at := Before(rows, partial, j') + r';
            at < |ByColumns(s, rows, width, partial, j, r)| && ByColumns(s, rows, width, partial, j, r)[at] == s[r'][j']
    decreases j, r
  {
    ByColumnsLength(s, rows, width, partial, j, r);
    if r > 0 {
      ByColumnsLength(s, rows, width, partial, j, r - 1);
      if j' < j || r' < r - 1 {
        ColumnOrderAt(s, rows, width, partial, j, r - 1, j', r');
      }
    } else {
      ColumnOrderAt(s, rows, width, partial, j - 1, Height(rows, partial, j - 1), j', r');
    }
  }

  /** The cell at `(r, k)` comes after the full rows before it and the `k` cells of its own. */
  lemma {:induction false} RowOrderAt<T>(s: Stack<T>, rows: nat, width: nat, r: nat, k: nat, r': nat, k': nat)
    requires Shaped(s, rows, width) && r <= rows && k <= width && (k > 0 ==> r < rows)
    requires k' < width && (r' < r || (r' == r && k' < k))
    ensures var at := r' * width + k';
            at < |ByRows(s, rows, width, r, k)| && ByRows(s, rows, width, r, k)[at] == s[r'][k']
    decreases r, k
  {
    ByRowsLength(s, rows, width, r, k);
    if k > 0 {
      ByRowsLength(s, rows, width, r, k - 1);
      if r' < r || k' < k - 1 {
        RowOrderAt(s, rows, width, r, k - 1, r', k');
      }
    } else {
      RowOrderAt(s, rows, width, r - 1, width, r', k');
    }
  }

  // ---------------------------------------------------------------------------------------
  // The round trip
  // ---------------------------------------------------------------------------------------

  /** All used cells, row by row. */
  function AllByRows<T>(s: Stack<T>, rows: nat, width: nat, partial: nat): seq<T>
    requires Shaped(s, rows, width) && rows > 0 && partial <= width
  {
    ByRows(s, rows, width, rows - 1, partial)
  }

  function AllByColumns<T>(s: Stack<T>, rows: nat, width: nat, partial: nat): seq<T>
    requires Shaped(s, rows, width) && rows > 0 && partial <= width
  {
    ByColumns(s, rows, width, partial, width, 0)
  }

  predicate SameUsed<T(==)>(s: Stack<T>, t: Stack<T>, rows: nat, width: nat, partial: nat)
    requires Shaped(s, rows, width) && Shaped(t, rows, width) && rows > 0
  {
    forall r, j :: 0 <= r < rows && 0 <= j < width && r < Height(rows, partial, j) ==> s[r][j] == t[r][j]
  }

  /** An interleaved stack, cell by cell: the symbol of row `r` and column `j` goes to the place that
  counts the symbols of the columns before it and those above it. */
  lemma {:induction false} InterleavedAt<T>(s: Stack<T>, s1: Stack<T>, rows: nat, width: nat, partial: nat, r: nat, j: nat,
                                            r': nat, k': nat)
    requires rows > 0 && partial <= width && Shaped(s, rows, width) && Shaped(s1, rows, width)
    requires AllByRows(s1, rows, width, partial) == AllByColumns(s, rows, width, partial)
    requires r < rows && j < width && (r == rows - 1 ==> j < partial)
    requires r' < rows && k' < width && (r' == rows - 1 ==> k' < partial)
    requires r' * width + k' == j * (rows - 1) + (if j < partial then j else partial) + r
    ensures s1[r'][k'] == s[r][j]
  {
    hide ByRows, ByColumns, Before, Shaped;
    BeforeIs(rows, partial, j);
    ColumnOrderAt(s, rows, width, partial, width, 0, j, r);
    RowOrderAt(s1, rows, width, rows - 1, partial, r', k');
  }

  /** Interleaving followed by deinterleaving restores every used cell. */
  lemma {:induction false} RoundTrip<T>(s: Stack<T>, s1: Stack<T>, s2: Stack<T>, rows: nat, width: nat, partial: nat)
    requires rows > 0 && partial <= width
    requires Shaped(s, rows, width) && Shaped(s1, rows, width) && Shaped(s2, rows, width)
    requires AllByRows(s1, rows, width, partial) == AllByColumns(s, rows, width, partial)
    requires AllByColumns(s2, rows, width, partial) == AllByRows(s1, rows, width, partial)
    ensures SameUsed(s, s2, rows, width, partial)
  {
    forall r, j | 0 <= r < rows && 0 <= j < width && r < Height(rows, partial, j)
      ensures s[r][j] == s2[r][j]
    {
      ColumnOrderAt(s, rows, width, partial, width, 0, j, r);
      ColumnOrderAt(s2, rows, width, partial, width, 0, j, r);
    }
  }

  // ---------------------------------------------------------------------------------------
  // In place
  // ---------------------------------------------------------------------------------------

  method Set<T>(a: array2<T>, r: nat, k: nat, v: T)
    requires r < a.Length0 && k < a.Length1
    modifies a
    ensures Cells(a) == Put(old(Cells(a)), r, k, v)
  {
    ghost var before := Cells(a);
    a[r, k] := v;
    assert Cells(a)[r] == before[r][k := v];
    assert forall i :: 0 <= i < a.Length0 && i != r ==> Cells(a)[i] == before[i];
  }

  /** A place in row order, with the end of a row written as the start of the next. */
  predicate Cursor(rows: nat, width: nat, r: nat, k: nat)
  {
    r <= rows && k < width && (k > 0 ==> r < rows)
  }

  /** The row cursor stays in the stack while the column cursor does. */
  lemma {:induction false} InRange(rows: nat, width: nat, partial: nat, j: nat, r: nat, r': nat, k': nat)
    requires rows > 0 && partial <= width && j < width && r < Height(rows, partial, j)
    requires r' * width + k' == Before(rows, partial, j) + r
    ensures r' < rows
  {
    hide Before;
    BeforeStep(rows, partial, j);
    BeforeGrows(rows, partial, j + 1, width);
    BeforeIs(rows, partial, width);
    assert Before(rows, partial, j) + r < width * (rows - 1) + width;
    Product(rows - 1, width);
    Commutes(rows - 1, width);
    if r' >= rows {
      ProductGrows(rows, r', width);
    }
  }

  lemma {:induction false} BeforeStep(rows: nat, partial: nat, j: nat)
    requires rows > 0
    ensures Before(rows, partial, j + 1) == Before(rows, partial, j) + Height(rows, partial, j)
  {
  }

  lemma {:induction false} BeforeGrows(rows: nat, partial: nat, j: nat, k: nat)
    requires rows > 0 && j <= k
    ensures Before(rows, partial, j) <= Before(rows, partial, k)
    decreases k
  {
    if j < k {
      BeforeGrows(rows, partial, j, k - 1);
    }
  }

  lemma {:induction false} Commutes(a: nat, b: nat)
    ensures a * b == b * a
  {
  }

  lemma {:induction false} ProductGrows(a: nat, b: nat, n: nat)
    requires a <= b
    ensures a * n <= b * n
  {
  }

  lemma {:induction false} CursorsMeet<T>(s: Stack<T>, t: Stack<T>, rows: nat, width: nat, partial: nat,
                                          j: nat, r: nat, r': nat, k': nat)
    requires Shaped(s, rows, width) && Shaped(t, rows, width) && rows > 0 && partial <= width
    requires j < width && r < Height(rows, partial, j) && Cursor(rows, width, r', k')
    requires ByRows(s, rows, width, r', k') == ByColumns(t, rows, width, partial, j, r)
    ensures r' < rows
  {
    hide ByRows, ByColumns, Before;
    ByRowsLength(s, rows, width, r', k');
    ByColumnsLength(t, rows, width, partial, j, r);
    InRange(rows, width, partial, j, r, r', k');
  }

  /** The cell at the row cursor takes the value at the column cursor. */
  lemma {:induction false} RowStep<T>(s: Stack<T>, s': Stack<T>, rows: nat, width: nat, r: nat, k: nat, v: T)
    requires Shaped(s, rows, width) && r < rows && k < width && s' == Put(s, r, k, v)
    ensures Shaped(s', rows, width)
    ensures ByRows(s', rows, width, r, k + 1) == ByRows(s, rows, width, r, k) + [v]
    ensures k + 1 == width ==> ByRows(s', rows, width, r + 1, 0) == ByRows(s, rows, width, r, k) + [v]
  {
    ByRowsPut(s, rows, width, r, k, r, k, v);
  }

  lemma {:induction false} ColumnStep<T>(s: Stack<T>, s': Stack<T>, rows: nat, width: nat, partial: nat, j: nat, r: nat, v: T)
    requires Shaped(s, rows, width) && rows > 0 && r < rows && j < width && s' == Put(s, r, j, v)
    ensures Shaped(s', rows, width)
    ensures ByColumns(s', rows, width, partial, j, r + 1) == ByColumns(s, rows, width, partial, j, r) + [v]
    ensures r + 1 == Height(rows, partial, j) ==>
              ByColumns(s', rows, width, partial, j + 1, 0) == ByColumns(s, rows, width, partial, j, r) + [v]
  {
    ByColumnsPut(s, rows, width, partial, j, r, j, r, v);
  }

  /** Lays down one column from the row cursor on. */
  method TakeColumn<T>(stack: array2<T>, aux: array2<T>, partial: nat, index: nat, r0: nat, k0: nat)
    returns (auxRow: nat, auxIndex: nat)
    requires stack != aux && stack.Length0 == aux.Length0 > 0 && stack.Length1 == aux.Length1
    requires index < stack.Length1 && partial <= stack.Length1 && Cursor(aux.Length0, aux.Length1, r0, k0)
    requires ByRows(Cells(aux), aux.Length0, aux.Length1, r0, k0) ==
             ByColumns(Cells(stack), aux.Length0, aux.Length1, partial, index, 0)
    modifies aux
    ensures Cursor(aux.Length0, aux.Length1, auxRow, auxIndex)
    ensures ByRows(Cells(aux), aux.Length0, aux.Length1, auxRow, auxIndex) ==
            ByColumns(Cells(stack), aux.Length0, aux.Length1, partial, index + 1, 0)
  {
    hide ByRows, ByColumns, Put, Shaped;
    var rows, width := stack.Length0, stack.Length1;
    auxRow, auxIndex := r0, k0;
    var row := 0;
    while row < Height(rows, partial, index)
      invariant 0 <= row <= Height(rows, partial, index)
      invariant Cursor(rows, width, auxRow, auxIndex)
      invariant ByRows(Cells(aux), rows, width, auxRow, auxIndex) == ByColumns(Cells(stack), rows, width, partial, index, row)
    {
      CursorsMeet(Cells(aux), Cells(stack), rows, width, partial, index, row, auxRow, auxIndex);
      ghost var before := Cells(aux);
      var v := stack[row, index];
      Set(aux, auxRow, auxIndex, v);
      RowStep(before, Cells(aux), rows, width, auxRow, auxIndex, v);
      ColumnNext(Cells(stack), rows, width, partial, index, row);
      auxIndex := auxIndex + 1;
      if auxIndex == width {
        auxIndex := 0;
        auxRow := auxRow + 1;
      }
      row := row + 1;
    }
    ColumnDone(Cells(stack), rows, width, partial, index);
  }

  lemma {:induction false} ColumnNext<T>(s: Stack<T>, rows: nat, width: nat, partial: nat, j: nat, r: nat)
    requires Shaped(s, rows, width) && rows > 0 && j < width && r < rows
    ensures ByColumns(s, rows, width, partial, j, r + 1) == ByColumns(s, rows, width, partial, j, r) + [s[r][j]]
  {
  }

  lemma {:induction false} ColumnDone<T>(s: Stack<T>, rows: nat, width: nat, partial: nat, j: nat)
    requires Shaped(s, rows, width) && rows > 0 && j < width
    ensures ByColumns(s, rows, width, partial, j + 1, 0) ==
            ByColumns(s, rows, width, partial, j, Height(rows, partial, j))
  {
  }

  lemma {:induction false} RowNext<T>(s: Stack<T>, rows: nat, width: nat, r: nat, k: nat)
    requires Shaped(s, rows, width) && k < width && r < rows
    ensures ByRows(s, rows, width, r, k + 1) == ByRows(s, rows, width, r, k) + [s[r][k]]
    ensures k + 1 == width ==> ByRows(s, rows, width, r + 1, 0) == ByRows(s, rows, width, r, k) + [s[r][k]]
  {
  }

  /** Copies the used cells back. */
  method CopyBack<T>(aux: array2<T>, stack: array2<T>, partial: nat)
    requires stack != aux && stack.Length0 == aux.Length0 > 0 && stack.Length1 == aux.Length1
    requires partial <= stack.Length1
    modifies stack
    ensures forall r, k :: 0 <= r < stack.Length0 && 0 <= k < stack.Length1 ==>
              stack[r, k] == if r < Height(stack.Length0, partial, k) then aux[r, k] else old(stack[r, k])
  {
    var rows, width := stack.Length0, stack.Length1;
    var row := 0;
    while row < rows - 1
      invariant 0 <= row <= rows - 1
      invariant forall r, k :: 0 <= r < rows && 0 <= k < width ==>
                  stack[r, k] == if r < row then aux[r, k] else old(stack[r, k])
    {
      var index := 0;
      while index < width
        invariant 0 <= index <= width
        invariant forall r, k :: 0 <= r < rows && 0 <= k < width ==>
                    stack[r, k] == if r < row || (r == row && k < index) then aux[r, k] else old(stack[r, k])
      {
        stack[row, index] := aux[row, index];
        index := index + 1;
      }
      row := row + 1;
    }
    var index := 0;
    while index < partial
      invariant 0 <= index <= partial
      invariant forall r, k :: 0 <= r < rows && 0 <= k < width ==>
                  stack[r, k] == if r < rows - 1 || k < index then aux[r, k] else old(stack[r, k])
    {
      stack[rows - 1, index] := aux[rows - 1, index];
      index := index + 1;
    }
  }

  /** The orders depend on the used cells only. */
  lemma {:induction false} ByRowsSame<T>(s: Stack<T>, t: Stack<T>, rows: nat, width: nat, partial: nat, r: nat, k: nat)
    requires Shaped(s, rows, width) && Shaped(t, rows, width) && rows > 0 && partial <= width
    requires r < rows && k <= width && (r == rows - 1 ==> k <= partial) && SameUsed(s, t, rows, width, partial)
    ensures ByRows(s, rows, width, r, k) == ByRows(t, rows, width, r, k)
    decreases r, k
  {
    if k > 0 {
      ByRowsSame(s, t, rows, width, partial, r, k - 1);
      assert r < Height(rows, partial, k - 1);
      assert s[r][k - 1] == t[r][k - 1];
    } else if r > 0 {
      ByRowsSame(s, t, rows, width, partial, r - 1, width);
    }
  }

  lemma {:induction false} ByColumnsSame<T>(s: Stack<T>, t: Stack<T>, rows: nat, width: nat, partial: nat, j: nat, r: nat)
    requires Shaped(s, rows, width) && Shaped(t, rows, width) && rows > 0 && j <= width
    requires r <= Height(rows, partial, j) && (r > 0 ==> j < width) && SameUsed(s, t, rows, width, partial)
    ensures ByColumns(s, rows, width, partial, j, r) == ByColumns(t, rows, width, partial, j, r)
    decreases j, r
  {
    if r > 0 {
      ByColumnsSame(s, t, rows, width, partial, j, r - 1);
      assert s[r - 1][j] == t[r - 1][j];
    } else if j > 0 {
      ByColumnsSame(s, t, rows, width, partial, j - 1, Height(rows, partial, j - 1));
    }
  }

  /** The cells that are not used stay as they are. */
  predicate SameUnused<T(==)>(s: Stack<T>, t: Stack<T>, rows: nat, width: nat, partial: nat)
    requires Shaped(s, rows, width) && Shaped(t, rows, width) && rows > 0
  {
    forall r, j :: 0 <= r < rows && 0 <= j < width && r >= Height(rows, partial, j) ==> s[r][j] == t[r][j]
  }

  /** Interleaves the used cells: read row by row they are now what they were column by column. */
  method Interleave<T(0)>(stack: array2<T>, partial: nat)
    requires stack.Length0 > 0 && partial <= stack.Length1
    modifies stack
    ensures AllByRows(Cells(stack), stack.Length0, stack.Length1, partial) ==
            old(AllByColumns(Cells(stack), stack.Length0, stack.Length1, partial))
    ensures SameUnused(old(Cells(stack)), Cells(stack), stack.Length0, stack.Length1, partial)
  {
    hide ByRows, ByColumns, Put, Shaped;
    var rows, width := stack.Length0, stack.Length1;
    var aux := new T[rows, width];
    var auxRow, auxIndex := 0, 0;
    Starts(Cells(aux), Cells(stack), rows, width, partial);
    var index := 0;
    while index < partial
      invariant 0 <= index <= partial
      invariant width > 0 ==> Cursor(rows, width, auxRow, auxIndex)
      invariant width > 0 ==>
                  ByRows(Cells(aux), rows, width, auxRow, auxIndex) == ByColumns(Cells(stack), rows, width, partial, index, 0)
      modifies aux
    {
      auxRow, auxIndex := TakeColumn(stack, aux, partial, index, auxRow, auxIndex);
      index := index + 1;
    }
    while index < width
      invariant partial <= index <= width
      invariant width > 0 ==> Cursor(rows, width, auxRow, auxIndex)
      invariant width > 0 ==>
                  ByRows(Cells(aux), rows, width, auxRow, auxIndex) == ByColumns(Cells(stack), rows, width, partial, index, 0)
      modifies aux
    {
      auxRow, auxIndex := TakeColumn(stack, aux, partial, index, auxRow, auxIndex);
      index := index + 1;
    }
    ghost var before := Cells(stack);
    Ends(Cells(aux), before, rows, width, partial, auxRow, auxIndex);
    CopyBack(aux, stack, partial);
    ByRowsSame(Cells(aux), Cells(stack), rows, width, partial, rows - 1, partial);
  }

  lemma {:induction false} Starts<T>(s: Stack<T>, t: Stack<T>, rows: nat, width: nat, partial: nat)
    requires Shaped(s, rows, width) && Shaped(t, rows, width) && rows > 0
    ensures ByRows(s, rows, width, 0, 0) == ByColumns(t, rows, width, partial, 0, 0)
  {
  }

  /** When all columns are laid down, the row cursor is at the end of the used cells. */
  lemma {:induction false} Ends<T>(s: Stack<T>, t: Stack<T>, rows: nat, width: nat, partial: nat, r: nat, k: nat)
    requires Shaped(s, rows, width) && Shaped(t, rows, width) && rows > 0 && partial <= width
    requires width > 0 ==> Cursor(rows, width, r, k)
    requires width > 0 ==> ByRows(s, rows, width, r, k) == ByColumns(t, rows, width, partial, width, 0)
    ensures AllByRows(s, rows, width, partial) == AllByColumns(t, rows, width, partial)
  {
    if width == 0 {
      NoWidth(s, t, rows, partial, rows - 1);
    } else {
      hide ByRows, ByColumns, Before;
      ByRowsLength(s, rows, width, r, k);
      ByColumnsLength(t, rows, width, partial, width, 0);
      BeforeIs(rows, partial, width);
      Commutes(rows - 1, width);
      EndCursor(rows, width, partial, r, k);
      if partial == width {
        RowDone(s, rows, width, rows - 1);
      }
    }
  }

  lemma {:induction false} RowDone<T>(s: Stack<T>, rows: nat, width: nat, r: nat)
    requires Shaped(s, rows, width) && r < rows
    ensures ByRows(s, rows, width, r + 1, 0) == ByRows(s, rows, width, r, width)
  {
  }

  lemma {:induction false} NoWidth<T>(s: Stack<T>, t: Stack<T>, rows: nat, partial: nat, r: nat)
    requires Shaped(s, rows, 0) && Shaped(t, rows, 0) && rows > 0 && r <= rows
    ensures ByRows(s, rows, 0, r, 0) == [] == ByColumns(t, rows, 0, partial, 0, 0)
    decreases r
  {
    if r > 0 {
      NoWidth(s, t, rows, partial, r - 1);
    }
  }

  lemma {:induction false} EndCursor(rows: nat, width: nat, partial: nat, r: nat, k: nat)
    requires rows > 0 && partial <= width && Cursor(rows, width, r, k)
    requires r * width + k == (rows - 1) * width + partial
    ensures if partial < width then r == rows - 1 && k == partial else r == rows && k == 0
  {
    Product(rows - 1, width);
    if r < rows - 1 {
      ProductGrows(r + 1, rows - 1, width);
      Product(r, width);
    }
  }

  /** A single row is in both orders the same. */
  lemma {:induction false} SingleRow<T>(s: Stack<T>, width: nat, partial: nat, j: nat)
    requires Shaped(s, 1, width) && partial <= width && j <= width
    ensures ByColumns(s, 1, width, partial, j, 0) == ByRows(s, 1, width, 0, if j < partial then j else partial)
    decreases j
  {
    if j > 0 {
      SingleRow(s, width, partial, j - 1);
      if j <= partial {
        ColumnNext(s, 1, width, partial, j - 1, 0);
      }
    }
  }

  /** One symbol moves from the row cursor to the column cursor. */
  method MoveSymbol<T>(stack: array2<T>, aux: array2<T>, partial: nat, j: nat, r: nat, r': nat, k': nat)
    requires stack != aux && stack.Length0 == aux.Length0 > 0 && stack.Length1 == aux.Length1
    requires partial <= stack.Length1 && j < stack.Length1 && r < Height(stack.Length0, partial, j)
    requires Cursor(stack.Length0, stack.Length1, r', k')
    requires ByColumns(Cells(aux), aux.Length0, aux.Length1, partial, j, r) ==
             ByRows(Cells(stack), aux.Length0, aux.Length1, r', k')
    modifies aux
    ensures r' < stack.Length0
    ensures ByColumns(Cells(aux), aux.Length0, aux.Length1, partial, j, r + 1) ==
            ByRows(Cells(stack), aux.Length0, aux.Length1, r', k' + 1)
    ensures r + 1 == Height(stack.Length0, partial, j) ==>
              ByColumns(Cells(aux), aux.Length0, aux.Length1, partial, j + 1, 0) ==
              ByRows(Cells(stack), aux.Length0, aux.Length1, r', k' + 1)
    ensures k' + 1 == stack.Length1 ==>
              ByRows(Cells(stack), aux.Length0, aux.Length1, r' + 1, 0) ==
              ByRows(Cells(stack), aux.Length0, aux.Length1, r', k' + 1)
  {
    hide ByRows, ByColumns, Put, Shaped;
    var rows, width := stack.Length0, stack.Length1;
    CursorsMeet(Cells(stack), Cells(aux), rows, width, partial, j, r, r', k');
    ghost var before := Cells(aux);
    var v := stack[r', k'];
    Set(aux, r, j, v);
    ColumnStep(before, Cells(aux), rows, width, partial, j, r, v);
    RowNext(Cells(stack), rows, width, r', k');
  }

  /** The count of moved symbols tells how many full columns are done. */
  lemma {:induction false} FullColumns(rows: nat, partial: nat, j: nat, r: nat, i: nat)
    requires rows > 0 && r < rows && i == j * rows + r && j <= partial && (r > 0 ==> j < partial)
    ensures i < partial * rows <==> j < partial
    ensures i <= partial * rows
    ensures i == partial * rows ==> j == partial && r == 0
  {
    if j < partial {
      ProductGrows(j + 1, partial, rows);
      Product(j, rows);
    }
  }

  /** Undoes the interleaving: read column by column the used cells are now what they were row by
  row. A single row is left alone. */
  method Deinterleave<T(0)>(stack: array2<T>, partial: nat)
    requires stack.Length0 > 0 && partial <= stack.Length1
    modifies stack
    ensures AllByColumns(Cells(stack), stack.Length0, stack.Length1, partial) ==
            old(AllByRows(Cells(stack), stack.Length0, stack.Length1, partial))
    ensures SameUnused(old(Cells(stack)), Cells(stack), stack.Length0, stack.Length1, partial)
  {
    hide ByRows, ByColumns, Put, Shaped;
    var rows, width := stack.Length0, stack.Length1;
    if rows == 1 {
      SingleRow(Cells(stack), width, partial, width);
      return;
    }
    var aux := new T[rows, width];
    var auxRow1, auxIndex1, auxRow2, auxIndex2 := 0, 0, 0, 0;
    Starts(Cells(stack), Cells(aux), rows, width, partial);
    var i := 0;
    while i < partial * rows
      invariant 0 <= i && 0 <= auxRow1 < rows && 0 <= auxIndex1 <= partial && i == auxIndex1 * rows + auxRow1
      invariant width > 0 ==> Cursor(rows, width, auxRow2, auxIndex2)
      invariant auxRow1 > 0 ==> auxIndex1 < partial
      invariant width > 0 ==>
                  ByColumns(Cells(aux), rows, width, partial, auxIndex1, auxRow1) ==
                  ByRows(Cells(stack), rows, width, auxRow2, auxIndex2)
      decreases partial * rows - i
      modifies aux
    {
      FullColumns(rows, partial, auxIndex1, auxRow1, i);
      MoveSymbol(stack, aux, partial, auxIndex1, auxRow1, auxRow2, auxIndex2);
      Product(auxIndex1, rows);
      auxRow1 := auxRow1 + 1;
      if auxRow1 == rows {
        auxRow1 := 0;
        auxIndex1 := auxIndex1 + 1;
      }
      auxIndex2 := auxIndex2 + 1;
      if auxIndex2 == width {
        auxIndex2 := 0;
        auxRow2 := auxRow2 + 1;
      }
      i := i + 1;
    }
    FullColumns(rows, partial, auxIndex1, auxRow1, i);
    while auxIndex1 < width
      invariant 0 <= auxRow1 < rows - 1 && partial <= auxIndex1 <= width && (auxIndex1 == width ==> auxRow1 == 0)
      invariant width > 0 ==> Cursor(rows, width, auxRow2, auxIndex2)
      invariant width > 0 ==>
                  ByColumns(Cells(aux), rows, width, partial, auxIndex1, auxRow1) ==
                  ByRows(Cells(stack), rows, width, auxRow2, auxIndex2)
      decreases width - auxIndex1, rows - auxRow1
      modifies aux
    {
      MoveSymbol(stack, aux, partial, auxIndex1, auxRow1, auxRow2, auxIndex2);
      auxRow1 := auxRow1 + 1;
      if auxRow1 == rows - 1 {
        auxRow1 := 0;
        auxIndex1 := auxIndex1 + 1;
      }
      auxIndex2 := auxIndex2 + 1;
      if auxIndex2 == width {
        auxIndex2 := 0;
        auxRow2 := auxRow2 + 1;
      }
    }
    ghost var before := Cells(stack);
    Ends(before, Cells(aux), rows, width, partial, auxRow2, auxIndex2);
    CopyBack(aux, stack, partial);
    ByColumnsSame(Cells(aux), Cells(stack), rows, width, partial, width, 0);
  }

  // ---------------------------------------------------------------------------------------
  // Full stacks
  // ---------------------------------------------------------------------------------------

  /** Interleaves a stack whose rows are all full. */
  method InterleaveFull<T(0)>(stack: array2<T>)
    requires stack.Length0 > 0
    modifies stack
    ensures AllByRows(Cells(stack), stack.Length0, stack.Length1, stack.Length1) ==
            old(AllByColumns(Cells(stack), stack.Length0, stack.Length1, stack.Length1))
  {
    hide ByRows, ByColumns, Put, Shaped;
    var rows, width := stack.Length0, stack.Length1;
    var aux := new T[rows, width];
    var auxRow, auxIndex := 0, 0;
    Starts(Cells(aux), Cells(stack), rows, width, width);
    var index := 0;
    while index < width
      invariant 0 <= index <= width
      invariant width > 0 ==> Cursor(rows, width, auxRow, auxIndex)
      invariant width > 0 ==>
                  ByRows(Cells(aux), rows, width, auxRow, auxIndex) == ByColumns(Cells(stack), rows, width, width, index, 0)
      modifies aux
    {
      auxRow, auxIndex := TakeColumn(stack, aux, width, index, auxRow, auxIndex);
      index := index + 1;
    }
    Ends(Cells(aux), Cells(stack), rows, width, width, auxRow, auxIndex);
    CopyBack(aux, stack, width);
    ByRowsSame(Cells(aux), Cells(stack), rows, width, width, rows - 1, width);
  }

  /** The column cursor stays in a full stack while the row cursor does. */
  lemma {:induction false} ColumnInRange<T>(s: Stack<T>, t: Stack<T>, rows: nat, width: nat, j: nat, r: nat, r': nat, k': nat)
    requires Shaped(s, rows, width) && Shaped(t, rows, width) && rows > 0 && j <= width && r < rows && (r > 0 ==> j < width)
    requires r' < rows && k' < width
    requires ByColumns(s, rows, width, width, j, r) == ByRows(t, rows, width, r', k')
    ensures j < width
  {
    hide ByRows, ByColumns, Before;
    ByColumnsLength(s, rows, width, width, j, r);
    ByRowsLength(t, rows, width, r', k');
    BeforeIs(rows, width, width);
    Commutes(rows - 1, width);
    ProductGrows(r', rows - 1, width);
  }

  /** Undoes the interleaving of a full stack. */
  method DeinterleaveFull<T(0)>(stack: array2<T>)
    requires stack.Length0 > 0
    modifies stack
    ensures AllByColumns(Cells(stack), stack.Length0, stack.Length1, stack.Length1) ==
            old(AllByRows(Cells(stack), stack.Length0, stack.Length1, stack.Length1))
  {
    hide ByRows, ByColumns, Put, Shaped;
    var rows, width := stack.Length0, stack.Length1;
    var aux := new T[rows, width];
    var auxRow, auxIndex := 0, 0;
    Starts(Cells(stack), Cells(aux), rows, width, width);
    var row := 0;
    while row < rows
      invariant 0 <= row <= rows && 0 <= auxRow < rows && 0 <= auxIndex <= width && (auxRow > 0 ==> auxIndex < width)
      invariant ByColumns(Cells(aux), rows, width, width, auxIndex, auxRow) == ByRows(Cells(stack), rows, width, row, 0)
      modifies aux
    {
      var index := 0;
      while index < width
        invariant 0 <= index <= width && 0 <= auxRow < rows && 0 <= auxIndex <= width && (auxRow > 0 ==> auxIndex < width)
        invariant ByColumns(Cells(aux), rows, width, width, auxIndex, auxRow) == ByRows(Cells(stack), rows, width, row, index)
        modifies aux
      {
        ColumnInRange(Cells(aux), Cells(stack), rows, width, auxIndex, auxRow, row, index);
        MoveSymbol(stack, aux, width, auxIndex, auxRow, row, index);
        auxRow := auxRow + 1;
        if auxRow == rows {
          auxRow := 0;
          auxIndex := auxIndex + 1;
        }
        index := index + 1;
      }
      RowDone(Cells(stack), rows, width, row);
      row := row + 1;
    }
    FullEnd(Cells(aux), Cells(stack), rows, width, auxIndex, auxRow);
    CopyBack(aux, stack, width);
    ByColumnsSame(Cells(aux), Cells(stack), rows, width, width, width, 0);
  }

  /** When all rows are read, all columns are written. */
  lemma {:induction false} FullEnd<T>(s: Stack<T>, t: Stack<T>, rows: nat, width: nat, j: nat, r: nat)
    requires Shaped(s, rows, width) && Shaped(t, rows, width) && rows > 0 && j <= width && r < rows && (r > 0 ==> j < width)
    requires ByColumns(s, rows, width, width, j, r) == ByRows(t, rows, width, rows, 0)
    ensures AllByColumns(s, rows, width, width) == AllByRows(t, rows, width, width)
  {
    hide ByRows, ByColumns, Before;
    ByColumnsLength(s, rows, width, width, j, r);
    ByRowsLength(t, rows, width, rows, 0);
    RowDone(t, rows, width, rows - 1);
    BeforeIs(rows, width, j);
    Product(j, rows);
    Commutes(j, rows - 1);
    Commutes(rows, width);
    Product(rows - 1, j);
    Commutes(rows, j);
    if j < width {
      ProductGrows(j + 1, width, rows);
    }
  }
}
