/** The zig-zag order of `calculating_zigzag_order_traversal` (Jpeg.cpp:422-445):
    for an n×n matrix the cells are listed anti-diagonal by anti-diagonal
    (row + column = 0, 1, …, 2n-2), odd diagonals with the row rising and even
    ones with the row falling, which is the order of Figure A.6 of
    ISO/IEC 10918-1 read with `first` as the column. */
module Zigzag {
  /** `std::pair<int, int>`: (`first`, `second`). */
  type Cell = (int, int)

  /** The number of anti-diagonals the generator visits, `2 * n - 1`, or none
      for an empty matrix. */
  function DiagonalCount(n: nat): nat
  {
    if n == 0 then 0 else 2 * n - 1
  }

  /** The smallest and largest `first` on anti-diagonal `d`. */
  function Lo(n: nat, d: nat): int
  {
    if d < n then 0 else d - n + 1
  }

  function Hi(n: nat, d: nat): int
  {
    if d < n then d else n - 1
  }

  /** The cells pushed for anti-diagonal `d`: on odd ones `first` counts up
      from `Lo`, on even ones down from `Hi`, `second` making up the sum. */
  function Diagonal(n: nat, d: nat): (r: seq<Cell>)
    requires d < DiagonalCount(n)
    ensures |r| == Hi(n, d) - Lo(n, d) + 1
  {
    var lo, hi := Lo(n, d), Hi(n, d);
    if d % 2 == 1 then seq(hi - lo + 1, k requires 0 <= k < hi - lo + 1 => (lo + k, d - lo - k))
    else seq(hi - lo + 1, k requires 0 <= k < hi - lo + 1 => (hi - k, d - hi + k))
  }

  /** The cells of the first `d` anti-diagonals, in order. */
  function Diagonals(n: nat, d: nat): seq<Cell>
    requires d <= DiagonalCount(n)
  {
    if d == 0 then [] else Diagonals(n, d - 1) + Diagonal(n, d - 1)
  }

  /** One more anti-diagonal extends the list by that diagonal's cells. */
  lemma DiagonalsStep(n: nat, d: nat)
    requires d < DiagonalCount(n)
    ensures Diagonals(n, d + 1) == Diagonals(n, d) + Diagonal(n, d)
  {
  }

  /** What one call of the generator appends. */
  function ZigzagOrder(n: nat): seq<Cell>
  {
    Diagonals(n, DiagonalCount(n))
  }

  /** After the last anti-diagonal the list is the whole order. */
  lemma AllDiagonals(n: nat, d: nat)
    requires d == DiagonalCount(n)
    ensures Diagonals(n, d) == ZigzagOrder(n)
  {
  }

  //--------------------------------------------------------------------------
  // Where each cell is
  //--------------------------------------------------------------------------

  /** The place of cell `c` in the order: the cells of the earlier
      anti-diagonals, then its place on its own. */
  ghost function Rank(n: nat, c: Cell): int
    requires InGrid(n, c)
  {
    |Diagonals(n, c.0 + c.1)| + Offset(n, c.0 + c.1, c.0)
  }

  /** The place of the cell with `first == x` on anti-diagonal `d`. */
  function Offset(n: nat, d: nat, x: int): int
  {
    if d % 2 == 1 then x - Lo(n, d) else Hi(n, d) - x
  }

  ghost predicate InGrid(n: nat, c: Cell)
  {
    0 <= c.0 < n && 0 <= c.1 < n
  }

  /** The cells of anti-diagonal `d` are its grid cells, and the `k`-th one is
      the one `Rank` puts at `k`. */
  lemma DiagonalCells(n: nat, d: nat, k: nat)
    requires d < DiagonalCount(n) && k < |Diagonal(n, d)|
    ensures var c := Diagonal(n, d)[k];
      InGrid(n, c) && c.0 + c.1 == d && Rank(n, c) == |Diagonals(n, d)| + k
  {
    var c := Diagonal(n, d)[k];
    assert c.0 + c.1 == d && Offset(n, d, c.0) == k;
    assert InGrid(n, c);
    RankOn(n, c, d);
  }

  /** `Rank` of a cell of anti-diagonal `d`. */
  lemma RankOn(n: nat, c: Cell, d: nat)
    requires InGrid(n, c) && c.0 + c.1 == d
    ensures Rank(n, c) == |Diagonals(n, d)| + Offset(n, d, c.0)
  {
    var e := c.0 + c.1;
    assert Diagonals(n, e) == Diagonals(n, d);
  }

  /** Earlier anti-diagonals are a prefix of later ones. */
  lemma {:induction false} DiagonalsPrefix(n: nat, d: nat, e: nat)
    requires d <= e <= DiagonalCount(n)
    ensures |Diagonals(n, d)| <= |Diagonals(n, e)|
    ensures Diagonals(n, e)[..|Diagonals(n, d)|] == Diagonals(n, d)
    decreases e
  {
    if d < e {
      var e' := e - 1;
      DiagonalsPrefix(n, d, e');
      DiagonalsStep(n, e');
      PrefixOfConcat(Diagonals(n, e'), Diagonal(n, e'), Diagonals(n, d));
    }
  }

  /** A prefix of `q` is a prefix of `q + r`. */
  lemma PrefixOfConcat<T>(q: seq<T>, r: seq<T>, p: seq<T>)
    requires |p| <= |q| && q[..|p|] == p
    ensures |p| <= |q + r| && (q + r)[..|p|] == p
  {
    assert (q + r)[..|p|] == q[..|p|];
  }

  /** Element `k` of `q` sits at `|p| + k` of a sequence that starts with
      `p + q`. */
  lemma AtConcat<T>(z: seq<T>, p: seq<T>, q: seq<T>, k: nat, j: int)
    requires |p| + |q| <= |z| && z[..|p| + |q|] == p + q && k < |q| && j == |p| + k
    ensures 0 <= j < |z| && z[j] == q[k]
  {
    assert z[j] == z[..|p| + |q|][j];
  }

  /** Position `j` of the first `e` anti-diagonals lies on anti-diagonal `d`. */
  lemma {:induction false} Locate(n: nat, e: nat, j: nat) returns (d: nat)
    requires e <= DiagonalCount(n) && j < |Diagonals(n, e)|
    ensures d < e && |Diagonals(n, d)| <= j < |Diagonals(n, d + 1)|
    ensures Diagonals(n, e)[j] == Diagonal(n, d)[j - |Diagonals(n, d)|]
    decreases e
  {
    var p := Diagonals(n, e - 1);
    if j < |p| {
      d := Locate(n, e - 1, j);
      assert Diagonals(n, e)[j] == p[j];
    } else {
      d := e - 1;
    }
    DiagonalsPrefix(n, d + 1, e);
  }

  /** Twice the number of cells on the first `d` anti-diagonals. */
  lemma {:induction false} DiagonalsLength(n: nat, d: nat)
    requires d <= DiagonalCount(n)
    ensures 2 * |Diagonals(n, d)| == if d <= n then d * (d + 1) else n * (n + 1) + (d - n) * (3 * n - 1 - d)
    decreases d
  {
    if d > 0 {
      DiagonalsLength(n, d - 1);
      var prev := |Diagonals(n, d - 1)|;
      assert |Diagonals(n, d)| == prev + |Diagonal(n, d - 1)|;
      if d <= n {
        assert |Diagonal(n, d - 1)| == d;
        LowerStep(d, 2 * prev);
      } else if d == n + 1 {
        assert |Diagonal(n, d - 1)| == n - 1;
      } else {
        assert |Diagonal(n, d - 1)| == 2 * n - d;
        UpperStep(n, d, 2 * prev);
      }
    }
  }

  /** The arithmetic of DiagonalsLength's step below the main anti-diagonal. */
  lemma LowerStep(d: int, twice: int)
    requires twice == (d - 1) * d
    ensures twice + 2 * d == d * (d + 1)
  {
  }

  /** The arithmetic of DiagonalsLength's step past the main anti-diagonal. */
  lemma UpperStep(n: int, d: int, twice: int)
    requires twice == n * (n + 1) + (d - 1 - n) * (3 * n - d)
    ensures twice + 2 * (2 * n - d) == n * (n + 1) + (d - n) * (3 * n - 1 - d)
  {
    var a, b := d - 1 - n, 3 * n - d;
    assert (a + 1) * (b - 1) == a * b - a + b - 1;
  }

  //--------------------------------------------------------------------------
  // What the order is
  //--------------------------------------------------------------------------

  /** The generator appends n² cells. */
  lemma ZigzagLength(n: nat)
    ensures |ZigzagOrder(n)| == n * n
  {
    DiagonalsLength(n, DiagonalCount(n));
  }

  /** Every cell listed is in the grid and sits at its rank, so none is listed
      twice. */
  lemma ZigzagRanks(n: nat, j: nat)
    requires j < |ZigzagOrder(n)|
    ensures InGrid(n, ZigzagOrder(n)[j]) && Rank(n, ZigzagOrder(n)[j]) == j
  {
    var d := Locate(n, DiagonalCount(n), j);
    DiagonalCells(n, d, j - |Diagonals(n, d)|);
  }

  lemma ZigzagDistinct(n: nat, i: nat, j: nat)
    requires i < j < |ZigzagOrder(n)|
    ensures ZigzagOrder(n)[i] != ZigzagOrder(n)[j]
  {
    ZigzagRanks(n, i);
    ZigzagRanks(n, j);
  }

  /** Every cell of the grid is listed, at its rank. */
  lemma ZigzagCovers(n: nat, c: Cell)
    requires InGrid(n, c)
    ensures 0 <= Rank(n, c) < |ZigzagOrder(n)| && ZigzagOrder(n)[Rank(n, c)] == c
  {
    var d := c.0 + c.1;
    RankOn(n, c, d);
    CellOn(n, c, d);
    OnZigzag(n, d, Offset(n, d, c.0), Rank(n, c));
  }

  /** Cell `k` of anti-diagonal `d` is at `|Diagonals(n, d)| + k` of the
      order. */
  lemma OnZigzag(n: nat, d: nat, k: nat, j: int)
    requires d < DiagonalCount(n) && k < |Diagonal(n, d)| && j == |Diagonals(n, d)| + k
    ensures 0 <= j < |ZigzagOrder(n)| && ZigzagOrder(n)[j] == Diagonal(n, d)[k]
  {
    DiagonalsStep(n, d);
    DiagonalsPrefix(n, d + 1, DiagonalCount(n));
    AtConcat(ZigzagOrder(n), Diagonals(n, d), Diagonal(n, d), k, j);
  }

  /** A grid cell on anti-diagonal `d` is on `Diagonal(n, d)` at its offset. */
  lemma CellOn(n: nat, c: Cell, d: nat)
    requires InGrid(n, c) && c.0 + c.1 == d
    ensures d < DiagonalCount(n) && 0 <= Offset(n, d, c.0) < |Diagonal(n, d)|
    ensures Diagonal(n, d)[Offset(n, d, c.0)] == c
  {
    var k := Offset(n, d, c.0);
    if d % 2 == 1 {
      assert Diagonal(n, d)[k] == (Lo(n, d) + k, d - Lo(n, d) - k);
    } else {
      assert Diagonal(n, d)[k] == (Hi(n, d) - k, d - Hi(n, d) + k);
    }
  }

  /** Row plus column never decreases along the order. */
  lemma ZigzagAntiDiagonals(n: nat, i: nat, j: nat)
    requires i <= j < |ZigzagOrder(n)|
    ensures ZigzagOrder(n)[i].0 + ZigzagOrder(n)[i].1 <= ZigzagOrder(n)[j].0 + ZigzagOrder(n)[j].1
  {
    var di := OnDiagonal(n, i);
    var dj := OnDiagonal(n, j);
    LongerIff(n, di, dj + 1);
  }

  /** Every anti-diagonal has a cell, so more anti-diagonals list more
      cells. */
  lemma LongerIff(n: nat, a: nat, b: nat)
    requires a <= DiagonalCount(n) && b <= DiagonalCount(n)
    ensures a < b <==> |Diagonals(n, a)| < |Diagonals(n, b)|
  {
    if a < b {
      DiagonalsStep(n, a);
      DiagonalsPrefix(n, a + 1, b);
    } else {
      DiagonalsPrefix(n, b, a);
    }
  }

  /** The anti-diagonal position `j` of the order is on. */
  lemma OnDiagonal(n: nat, j: nat) returns (d: nat)
    requires j < |ZigzagOrder(n)|
    ensures d < DiagonalCount(n) && |Diagonals(n, d)| <= j < |Diagonals(n, d + 1)|
    ensures ZigzagOrder(n)[j].0 + ZigzagOrder(n)[j].1 == d
  {
    d := Locate(n, DiagonalCount(n), j);
    DiagonalCells(n, d, j - |Diagonals(n, d)|);
  }

  /** The first cells are (0,0), (0,1), (1,0), (2,0) and the last is
      (n-1,n-1), as in Figure A.6. */
  lemma ZigzagEnds(n: nat)
    ensures n >= 1 ==> ZigzagOrder(n)[0] == (0, 0)
    ensures n >= 1 ==> |ZigzagOrder(n)| == n * n && ZigzagOrder(n)[n * n - 1] == (n - 1, n - 1)
    ensures n >= 3 ==> ZigzagOrder(n)[1] == (0, 1) && ZigzagOrder(n)[2] == (1, 0) && ZigzagOrder(n)[3] == (2, 0)
  {
    if n >= 1 {
      ZigzagFirst(n);
      ZigzagLast(n);
    }
    if n >= 3 {
      ZigzagSecondToFourth(n);
    }
  }

  lemma ZigzagFirst(n: nat)
    requires n >= 1
    ensures ZigzagOrder(n)[0] == (0, 0)
  {
    ZigzagCovers(n, (0, 0));
  }

  lemma ZigzagLast(n: nat)
    requires n >= 1
    ensures |ZigzagOrder(n)| == n * n && ZigzagOrder(n)[n * n - 1] == (n - 1, n - 1)
  {
    ZigzagLength(n);
    ZigzagCovers(n, (n - 1, n - 1));
    DiagonalsLength(n, 2 * n - 2);
    assert 2 * n - 2 - n < n;
  }

  lemma ZigzagSecondToFourth(n: nat)
    requires n >= 3
    ensures |ZigzagOrder(n)| > 3 && ZigzagOrder(n)[1] == (0, 1) && ZigzagOrder(n)[2] == (1, 0) && ZigzagOrder(n)[3] == (2, 0)
  {
    ZigzagLength(n);
    assert n * n >= 3 * n;
    ZigzagCovers(n, (0, 1));
    ZigzagCovers(n, (1, 0));
    ZigzagCovers(n, (2, 0));
    assert Diagonals(n, 1) == Diagonal(n, 0);
    assert Diagonals(n, 2) == Diagonals(n, 1) + Diagonal(n, 1);
  }
}
