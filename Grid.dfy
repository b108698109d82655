/**
 * Index arithmetic of the structured grid: nodes (k, j, i) of a
 * kMax x jMax x iMax block stored in one flat array at
 * (k * jMax + j) * iMax + i, the index boxes that the sweeps walk, and the
 * integer Min/Max helpers used to clip a search box.
 */
module Grid {

  /** Integer minimum, as the static helper of the solver. */
  function Min(x: int, y: int): (r: int)
    ensures r <= x && r <= y
    ensures r == x || r == y
  {
    if x < y then x else y
  }

  /** Integer maximum, as the static helper of the solver. */
  function Max(x: int, y: int): (r: int)
    ensures r >= x && r >= y
    ensures r == x || r == y
  {
    if x > y then x else y
  }

  /** Grid coordinates of one node. */
  datatype Node = Node(k: int, j: int, i: int)

  /**
   * A half-open index box [kSub, kSup) x [jSub, jSup) x [iSub, iSup), such as
   * the interior region of a partition or the search box of one body.
   */
  datatype Box = Box(kSub: int, kSup: int, jSub: int, jSup: int, iSub: int, iSup: int)
  {
    predicate Contains(c: Node)
    {
      kSub <= c.k < kSup && jSub <= c.j < jSup && iSub <= c.i < iSup
    }

    /**
     * The nodes of the box that a k-outer, j-middle, i-inner sweep has
     * already visited when it is about to visit (k, j, i).
     */
    predicate SweptBefore(c: Node, k: int, j: int, i: int)
    {
      Contains(c) && (c.k < k || (c.k == k && (c.j < j || (c.j == j && c.i < i))))
    }
  }

  /** Extents of the allocated node array (halo included). */
  datatype Grid = Grid(kMax: nat, jMax: nat, iMax: nat)
  {
    predicate Valid()
    {
      jMax > 0 && iMax > 0
    }

    function Size(): nat
    {
      kMax * jMax * iMax
    }

    predicate Contains(c: Node)
    {
      0 <= c.k < kMax && 0 <= c.j < jMax && 0 <= c.i < iMax
    }

    /** The box lies in the array. */
    predicate Holds(b: Box)
    {
      0 <= b.kSub && b.kSup <= kMax && 0 <= b.jSub && b.jSup <= jMax && 0 <= b.iSub && b.iSup <= iMax
    }

    /** The box keeps at least one layer of halo on every side. */
    predicate HoldsWithHalo(b: Box)
    {
      1 <= b.kSub && b.kSup <= kMax - 1 && 1 <= b.jSub && b.jSup <= jMax - 1 && 1 <= b.iSub && b.iSup <= iMax - 1
    }

    /** The linear index formula, for any integer coordinates. */
    function Index(k: int, j: int, i: int): int
    {
      (k * jMax + j) * iMax + i
    }

    /** Linear index of a node of the grid: it addresses the array. */
    function IndexOf(c: Node): (x: nat)
      requires Contains(c)
      ensures x < Size()
    {
      IndexBound(c);
      Index(c.k, c.j, c.i)
    }

    /** The node stored at linear index x: the inverse of IndexOf. */
    function NodeAt(x: int): (c: Node)
      requires Valid() && 0 <= x < Size()
      ensures Contains(c) && IndexOf(c) == x
    {
      var t := x / iMax;
      var c := Node(t / jMax, t % jMax, x % iMax);
      DivBelow(x, kMax * jMax, iMax);
      DivBelow(t, kMax, jMax);
      c
    }

    lemma IndexBound(c: Node)
      requires Contains(c)
      ensures 0 <= Index(c.k, c.j, c.i) < Size()
    {
      var row := c.k * jMax + c.j;
      MulMono(c.k, kMax - 1, jMax);
      assert 0 <= row <= kMax * jMax - 1;
      MulMono(row, kMax * jMax - 1, iMax);
      assert (kMax * jMax - 1) * iMax == kMax * jMax * iMax - iMax;
    }

    /** Decoding an encoded node gives it back. */
    lemma NodeAtIndexOf(c: Node)
      requires Valid() && Contains(c)
      ensures NodeAt(IndexOf(c)) == c
    {
      var x := IndexOf(c);
      var row := c.k * jMax + c.j;
      DivModUnique(x, iMax, row, c.i);
      DivModUnique(row, jMax, c.k, c.j);
    }

    /** Two nodes of the grid share an index only when they are equal. */
    lemma IndexOfInjective(c: Node, d: Node)
      requires Valid() && Contains(c) && Contains(d)
      ensures IndexOf(c) == IndexOf(d) <==> c == d
    {
      if IndexOf(c) == IndexOf(d) {
        NodeAtIndexOf(c);
        NodeAtIndexOf(d);
      }
    }
  }

  lemma MulMono(a: int, b: int, c: nat)
    requires a <= b
    ensures a * c <= b * c
  {
  }

  lemma DivBelow(x: nat, m: nat, d: nat)
    requires d > 0 && x < m * d
    ensures x / d < m
  {
    if x / d >= m {
      MulMono(m, x / d, d);
    }
  }

  lemma DivModUnique(x: int, d: int, q: int, r: int)
    requires d > 0 && 0 <= r < d && x == q * d + r
    ensures x / d == q && x % d == r
  {
    var q', r' := x / d, x % d;
    assert (q - q') * d == r' - r;
    if q > q' {
      MulMono(1, q - q', d);
    } else if q < q' {
      MulMono(1, q' - q, d);
    }
  }

  /**
   * The array part-way through a k-outer, j-middle, i-inner sweep of box b
   * that rewrites s into t: nodes already visited hold their value in t,
   * all others still hold their value in s.
   */
  ghost function Swept(grid: Grid, b: Box, s: seq<int>, t: seq<int>, k: int, j: int, i: int): (r: seq<int>)
    requires grid.Valid() && |s| == grid.Size() && |t| == grid.Size()
    ensures |r| == |s|
  {
    seq(|s|, x requires 0 <= x < |s| => if b.SweptBefore(grid.NodeAt(x), k, j, i) then t[x] else s[x])
  }

  lemma SweepStart(grid: Grid, b: Box, s: seq<int>, t: seq<int>)
    requires grid.Valid() && |s| == grid.Size() && |t| == grid.Size()
    ensures Swept(grid, b, s, t, b.kSub, b.jSub, b.iSub) == s
  {
  }

  /** Visiting (k, j, i) writes t's value at that node's index and nowhere else. */
  lemma SweepVisit(grid: Grid, b: Box, s: seq<int>, t: seq<int>, k: int, j: int, i: int)
    requires grid.Valid() && |s| == grid.Size() && |t| == grid.Size()
    requires grid.Holds(b) && b.Contains(Node(k, j, i))
    ensures var x := grid.IndexOf(Node(k, j, i));
            Swept(grid, b, s, t, k, j, i + 1) == Swept(grid, b, s, t, k, j, i)[x := t[x]]
  {
    grid.NodeAtIndexOf(Node(k, j, i));
  }

  lemma SweepNextRow(grid: Grid, b: Box, s: seq<int>, t: seq<int>, k: int, j: int, i: int)
    requires grid.Valid() && |s| == grid.Size() && |t| == grid.Size()
    requires i >= b.iSup
    ensures Swept(grid, b, s, t, k, j, i) == Swept(grid, b, s, t, k, j + 1, b.iSub)
  {
  }

  lemma SweepNextPlane(grid: Grid, b: Box, s: seq<int>, t: seq<int>, k: int, j: int)
    requires grid.Valid() && |s| == grid.Size() && |t| == grid.Size()
    requires j >= b.jSup
    ensures Swept(grid, b, s, t, k, j, b.iSub) == Swept(grid, b, s, t, k + 1, b.jSub, b.iSub)
  {
  }

  /** A finished sweep leaves t, when t agrees with s outside the box. */
  lemma SweepDone(grid: Grid, b: Box, s: seq<int>, t: seq<int>, k: int)
    requires grid.Valid() && |s| == grid.Size() && |t| == grid.Size()
    requires k >= b.kSup
    requires forall x :: 0 <= x < |s| && !b.Contains(grid.NodeAt(x)) ==> t[x] == s[x]
    ensures Swept(grid, b, s, t, k, b.jSub, b.iSub) == t
  {
  }
}
