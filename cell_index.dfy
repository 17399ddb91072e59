/** Cell addressing of the simulator's N×N×N grid (src/FDM.ts).
    A cell (i, j, k) lives at the flat row-major address (i*N + j)*N + k;
    the RG state texture stores two floats per cell and the exported RGBA
    volume four bytes per cell, so a cell's slots are Width*index + channel. */
module CellIndex {

  /** Grid coordinates of one cell. */
  datatype Cell = Cell(i: int, j: int, k: int)

  /** Number of cells of an n×n×n grid. */
  function Cells(n: nat): nat { n * n * n }

  predicate InGrid(n: int, c: Cell) {
    0 <= c.i < n && 0 <= c.j < n && 0 <= c.k < n
  }

  /** The flat address `index(i, j, k)` of the source. */
  function Index(n: int, c: Cell): int {
    (c.i * n + c.j) * n + c.k
  }

  /** The inverse used when the forcing table is built: a flat address
      split into (floor(idx / N²), floor(idx / N) mod N, idx mod N).
      Every address of the grid decomposes into an in-grid cell that
      addresses back to it. */
  function Decompose(n: nat, idx: int): (c: Cell)
    requires 0 <= idx < Cells(n)
    ensures InGrid(n, c) && Index(n, c) == idx
  {
    var c := Cell(idx / (n * n), (idx / n) % n, idx % n);
    DecomposeIsInverse(n, idx);
    c
  }

  /** Slot `channel` of the cell at flat address idx, in a buffer holding
      `width` values per cell. */
  function Slot(width: nat, idx: int, channel: int): int {
    width * idx + channel
  }

  // ---------------------------------------------------------------------
  // Arithmetic helpers (nonlinear facts the solver does not find alone)

  lemma MulLeMono(a: int, b: int, c: int)
    requires a <= b && 0 <= c
    ensures a * c <= b * c
  {
  }

  /** Quotient and remainder are unique (Euclidean division). */
  lemma DivModUnique(a: int, d: int, q: int, r: int)
    requires 0 < d && 0 <= r < d && a == q * d + r
    ensures a / d == q && a % d == r
  {
    var q', r' := a / d, a % d;
    assert a == q' * d + r' && 0 <= r' < d;
    if q' < q {
      MulLeMono(q' + 1, q, d);
      assert false;
    } else if q < q' {
      MulLeMono(q + 1, q', d);
      assert false;
    }
  }

  /** j*n + k addresses the cell (j, k) of an n×n layer, below n². */
  lemma InnerBound(n: int, j: int, k: int)
    requires 0 <= j < n && 0 <= k < n
    ensures 0 <= j * n + k < n * n
  {
    MulLeMono(j, n - 1, n);
  }

  /** The address (i*n + j)*n + k regrouped around the layer size n². */
  lemma Regroup(n: int, i: int, j: int, k: int)
    ensures (i * n + j) * n + k == i * (n * n) + (j * n + k)
  {
  }

  lemma DecomposeIsInverse(n: nat, idx: int)
    requires 0 <= idx < Cells(n)
    ensures var c := Cell(idx / (n * n), (idx / n) % n, idx % n);
            InGrid(n, c) && Index(n, c) == idx
  {
    assert n > 0 by {
      if n == 0 { assert false; }
    }
    var q, k := idx / n, idx % n;
    var i, j := q / n, q % n;
    SplitAddress(n, idx, q, k, i, j);
    assert idx / (n * n) == i;
  }

  /** With idx = q*n + k and q = i*n + j (remainders below n), idx splits
      around n² into i and j*n + k, and i is in range. */
  lemma SplitAddress(n: nat, idx: int, q: int, k: int, i: int, j: int)
    requires 0 <= idx < Cells(n)
    requires idx == q * n + k && 0 <= k < n
    requires q == i * n + j && 0 <= j < n
    ensures idx / (n * n) == i && 0 <= i < n
  {
    Regroup(n, i, j, k);
    InnerBound(n, j, k);
    DivModUnique(idx, n * n, i, j * n + k);
    OuterBound(n, i, j * n + k, idx);
  }

  /** The quotient of an address below n³ by n² is below n. */
  lemma OuterBound(n: nat, i: int, rest: int, idx: int)
    requires 0 <= rest < n * n && idx == i * (n * n) + rest && 0 <= idx < Cells(n)
    ensures 0 <= i < n
  {
    if i < 0 {
      MulLeMono(i, -1, n * n);
      assert false;
    }
    if i >= n {
      MulLeMono(n, i, n * n);
      assert false;
    }
  }

  // ---------------------------------------------------------------------
  // Properties of the addressing

  /** Visiting i, j, k in nested ascending loops visits the addresses in
      ascending order: k = N carries into the next j, j = N into the next
      i, and i = N is one past the last address. */
  lemma IndexCarry(n: nat, i: int, j: int)
    ensures Index(n, Cell(0, 0, 0)) == 0
    ensures Index(n, Cell(i, j, n)) == Index(n, Cell(i, j + 1, 0))
    ensures Index(n, Cell(i, n, 0)) == Index(n, Cell(i + 1, 0, 0))
    ensures Index(n, Cell(n, 0, 0)) == Cells(n)
  {
    assert (i * n + j) * n + n == (i * n + j + 1) * n;
    assert i * n + n == (i + 1) * n;
  }

  /** Every in-grid cell has an address in [0, N³). */
  lemma IndexBounds(n: nat, c: Cell)
    requires InGrid(n, c)
    ensures 0 <= Index(n, c) < Cells(n)
  {
    var row := c.i * n + c.j;
    InnerBound(n, c.i, c.j);
    MulLeMono(0, row, n);
    MulLeMono(row, n * n - 1, n);
    assert (n * n - 1) * n == Cells(n) - n;
  }

  /** Decomposing the address of an in-grid cell gives back the cell. */
  lemma DecomposeIndex(n: nat, c: Cell)
    requires InGrid(n, c)
    ensures 0 <= Index(n, c) < Cells(n) && Decompose(n, Index(n, c)) == c
  {
    IndexBounds(n, c);
    var idx := Index(n, c);
    var row := c.i * n + c.j;
    assert idx == row * n + c.k;
    assert idx == c.i * (n * n) + (c.j * n + c.k);
    InnerBound(n, c.j, c.k);
    DivModUnique(idx, n * n, c.i, c.j * n + c.k);
    DivModUnique(idx, n, row, c.k);
    DivModUnique(row, n, c.i, c.j);
    assert idx / (n * n) == c.i && (idx / n) % n == c.j && idx % n == c.k;
    assert Decompose(n, idx) == Cell(idx / (n * n), (idx / n) % n, idx % n);
  }

  /** Distinct in-grid cells have distinct addresses. */
  lemma IndexInjective(n: nat, a: Cell, b: Cell)
    requires InGrid(n, a) && InGrid(n, b)
    ensures Index(n, a) == Index(n, b) <==> a == b
  {
    if Index(n, a) == Index(n, b) {
      DecomposeIndex(n, a);
      DecomposeIndex(n, b);
    }
  }

  /** In a buffer with `width` values per cell, the slots of the in-grid
      cells lie inside the buffer and no two (cell, channel) pairs share
      a slot. With width 2 this is the RG state texture, with width 4 the
      RGBA export volume. */
  lemma SlotsDisjoint(n: nat, width: nat, a: Cell, ca: int, b: Cell, cb: int)
    requires InGrid(n, a) && InGrid(n, b)
    requires 0 <= ca < width && 0 <= cb < width
    ensures 0 <= Slot(width, Index(n, a), ca) < width * Cells(n)
    ensures Slot(width, Index(n, a), ca) == Slot(width, Index(n, b), cb)
            <==> a == b && ca == cb
  {
    IndexBounds(n, a);
    SlotBound(width, Index(n, a), ca, Cells(n));
    if Slot(width, Index(n, a), ca) == Slot(width, Index(n, b), cb) {
      SlotSplit(width, Index(n, a), ca, Index(n, b), cb);
      IndexInjective(n, a, b);
    }
  }

  lemma SlotBound(width: nat, x: int, ch: int, cells: int)
    requires 0 <= x < cells && 0 <= ch < width
    ensures 0 <= Slot(width, x, ch) < width * cells
  {
    MulLeMono(0, x, width);
    MulLeMono(x + 1, cells, width);
    assert (x + 1) * width == x * width + width;
  }

  lemma SlotSplit(width: nat, x: int, cx: int, y: int, cy: int)
    requires 0 <= cx < width && 0 <= cy < width
    requires Slot(width, x, cx) == Slot(width, y, cy)
    ensures x == y && cx == cy
  {
    var s := Slot(width, x, cx);
    assert s == x * width + cx;
    assert s == y * width + cy;
    DivModUnique(s, width, x, cx);
    DivModUnique(s, width, y, cy);
  }
}
