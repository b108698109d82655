/**
 * The node classifier of the ghost-cell immersed boundary method: four
 * passes that rewrite the flat node-tag array of a Space in place.
 *
 * Each pass is specified by a function of the array it starts from
 * (InitTags, LocateTags, GhostTags, ShiftTags). The ghost and
 * solid-with-ghost specifications read every neighbour in that starting
 * array, so the method contracts also show that sweeping in place gives the
 * same tags as reading a snapshot taken before the pass.
 */
module Classifier {
  import opened Grid
  import opened Tags

  /**
   * One body as the solid-location pass uses it: the grid index of its
   * centre and its search half-widths, both already truncated from the
   * floating-point centre, radius and spacing.
   */
  datatype Body = Body(iCenter: int, jCenter: int, kCenter: int, iRange: int, jRange: int, kRange: int)

  /**
   * The floating-point test "squared distance minus squared radius is
   * negative", as an abstract predicate of (body index, i, j, k).
   */
  type InsideTest = (int, int, int, int) -> bool

  /** The search box of a body, clipped to the interior box. */
  function SearchBox(b: Body, part: Box): Box
  {
    Box(Max(b.kCenter - b.kRange, part.kSub), Min(b.kCenter + b.kRange + 1, part.kSup),
        Max(b.jCenter - b.jRange, part.jSub), Min(b.jCenter + b.jRange + 1, part.jSup),
        Max(b.iCenter - b.iRange, part.iSub), Min(b.iCenter + b.iRange + 1, part.iSup))
  }

  /**
   * A node is in the clipped search box exactly when it is in the interior
   * box and within the body's half-width of its centre along every axis.
   */
  lemma SearchBoxIsClippedWindow(b: Body, part: Box, c: Node)
    ensures SearchBox(b, part).Contains(c) <==>
      part.Contains(c) &&
      b.kCenter - b.kRange <= c.k <= b.kCenter + b.kRange &&
      b.jCenter - b.jRange <= c.j <= b.jCenter + b.jRange &&
      b.iCenter - b.iRange <= c.i <= b.iCenter + b.iRange
  {
  }

  /** Body g writes its solid tag at node c. */
  predicate Claims(bodies: seq<Body>, part: Box, inside: InsideTest, g: int, c: Node)
    requires 0 <= g < |bodies|
  {
    SearchBox(bodies[g], part).Contains(c) && inside(g, c.i, c.j, c.k)
  }

  /**
   * The last of the first m bodies that writes at c, or -1 when none does:
   * bodies are processed in order, so a later body overwrites an earlier one.
   */
  function LastClaim(bodies: seq<Body>, part: Box, inside: InsideTest, c: Node, m: nat): (o: int)
    requires m <= |bodies|
    ensures -1 <= o < m
    ensures o >= 0 ==> Claims(bodies, part, inside, o, c)
    ensures forall g :: o < g < m ==> !Claims(bodies, part, inside, g, c)
  {
    if m == 0 then -1
    else if Claims(bodies, part, inside, m - 1, c) then m - 1
    else LastClaim(bodies, part, inside, c, m - 1)
  }

  /** The six face neighbours' tags, in the order W, E, S, N, F, B. */
  datatype Faces = Faces(w: int, e: int, s: int, n: int, f: int, b: int)
  {
    /** Some neighbour is fluid (tag 0). */
    predicate SomeFluid()
    {
      SomeZero(w, e, s, n, f, b)
    }

    /** Every neighbour is in the solid range (tag <= -offset). */
    predicate AllSolid(offset: int)
    {
      w <= -offset && e <= -offset && s <= -offset && n <= -offset && f <= -offset && b <= -offset
    }
  }

  /** An interior node whose six neighbours lie in the array. */
  predicate InteriorOf(grid: Grid, part: Box, c: Node)
  {
    grid.HoldsWithHalo(part) && part.Contains(c)
  }

  function FaceTags(s: seq<int>, grid: Grid, part: Box, c: Node): Faces
    requires |s| == grid.Size() && InteriorOf(grid, part, c)
  {
    Faces(s[grid.IndexOf(Node(c.k, c.j, c.i - 1))], s[grid.IndexOf(Node(c.k, c.j, c.i + 1))],
          s[grid.IndexOf(Node(c.k, c.j - 1, c.i))], s[grid.IndexOf(Node(c.k, c.j + 1, c.i))],
          s[grid.IndexOf(Node(c.k - 1, c.j, c.i))], s[grid.IndexOf(Node(c.k + 1, c.j, c.i))])
  }

  // ---------------------------------------------------------------------------
  // Pass 1: every node boundary, interior nodes fluid.

  function InitAt(grid: Grid, part: Box, x: int): int
    requires grid.Valid() && 0 <= x < grid.Size()
  {
    if part.Contains(grid.NodeAt(x)) then FluidTag else BoundaryTag
  }

  function InitTags(grid: Grid, part: Box): (s: seq<int>)
    requires grid.Valid()
    ensures |s| == grid.Size()
  {
    seq(grid.Size(), x requires 0 <= x < grid.Size() => InitAt(grid, part, x))
  }

  // ---------------------------------------------------------------------------
  // Pass 2: nodes inside a body get that body's solid tag.

  function LocateAt(s: seq<int>, grid: Grid, part: Box, bodies: seq<Body>, inside: InsideTest,
                    offset: int, m: nat, x: int): int
    requires grid.Valid() && |s| == grid.Size() && 0 <= x < |s| && m <= |bodies|
  {
    var o := LastClaim(bodies, part, inside, grid.NodeAt(x), m);
    if o >= 0 then SolidTag(o, offset) else s[x]
  }

  /** The tags after the first m bodies have been located. */
  function LocateTags(s: seq<int>, grid: Grid, part: Box, bodies: seq<Body>, inside: InsideTest,
                      offset: int, m: nat): (r: seq<int>)
    requires grid.Valid() && |s| == grid.Size() && m <= |bodies|
    ensures |r| == |s|
  {
    seq(|s|, x requires 0 <= x < |s| => LocateAt(s, grid, part, bodies, inside, offset, m, x))
  }

  // ---------------------------------------------------------------------------
  // Pass 3: a solid node with a fluid neighbour is negated into a ghost.

  function GhostAt(s: seq<int>, grid: Grid, part: Box, offset: int, x: int): (t: int)
    requires grid.Valid() && |s| == grid.Size() && grid.HoldsWithHalo(part) && 0 <= x < |s|
    ensures t == 0 <==> s[x] == 0
    ensures t == s[x] || (s[x] <= -offset && t == -s[x])
  {
    var c := grid.NodeAt(x);
    if part.Contains(c) && s[x] <= -offset && FaceTags(s, grid, part, c).SomeFluid() then -s[x] else s[x]
  }

  function GhostTags(s: seq<int>, grid: Grid, part: Box, offset: int): (r: seq<int>)
    requires grid.Valid() && |s| == grid.Size() && grid.HoldsWithHalo(part)
    ensures |r| == |s|
  {
    seq(|s|, x requires 0 <= x < |s| => GhostAt(s, grid, part, offset, x))
  }

  // ---------------------------------------------------------------------------
  // Pass 4: a solid node with a non-solid neighbour is shifted down by totalN.

  function ShiftAt(s: seq<int>, grid: Grid, part: Box, offset: int, totalN: nat, x: int): (t: int)
    requires grid.Valid() && |s| == grid.Size() && grid.HoldsWithHalo(part) && 0 <= x < |s|
    ensures (t <= -offset) == (s[x] <= -offset)
    ensures t == s[x] || (s[x] <= -offset && t == s[x] - totalN)
  {
    var c := grid.NodeAt(x);
    if part.Contains(c) && s[x] <= -offset && !FaceTags(s, grid, part, c).AllSolid(offset) then s[x] - totalN else s[x]
  }

  function ShiftTags(s: seq<int>, grid: Grid, part: Box, offset: int, totalN: nat): (r: seq<int>)
    requires grid.Valid() && |s| == grid.Size() && grid.HoldsWithHalo(part)
    ensures |r| == |s|
  {
    seq(|s|, x requires 0 <= x < |s| => ShiftAt(s, grid, part, offset, totalN, x))
  }

  /**
   * Visiting interior node (k, j, i) during the in-place ghost sweep: the
   * decision taken on the partly rewritten array equals the one GhostAt takes
   * on the array the pass started from, because negating a solid tag never
   * creates or removes a zero.
   */
  lemma GhostVisit(grid: Grid, part: Box, s0: seq<int>, offset: int, k: int, j: int, i: int)
    requires grid.Valid() && |s0| == grid.Size() && grid.HoldsWithHalo(part) && part.Contains(Node(k, j, i))
    ensures var t := GhostTags(s0, grid, part, offset);
            var cur := Swept(grid, part, s0, t, k, j, i);
            var x := grid.IndexOf(Node(k, j, i));
            t[x] == if cur[x] <= -offset && FaceTags(cur, grid, part, Node(k, j, i)).SomeFluid() then -cur[x] else cur[x]
  {
    var t := GhostTags(s0, grid, part, offset);
    var cur := Swept(grid, part, s0, t, k, j, i);
    var c := Node(k, j, i);
    grid.NodeAtIndexOf(c);
    var x := grid.IndexOf(c);
    assert cur[x] == s0[x];
    forall y | 0 <= y < |s0|
      ensures (cur[y] == 0) == (s0[y] == 0)
    {
      assert cur[y] == t[y] || cur[y] == s0[y];
      assert t[y] == GhostAt(s0, grid, part, offset, y);
    }
    var fc := FaceTags(cur, grid, part, c);
    var f0 := FaceTags(s0, grid, part, c);
    assert fc.SomeFluid() == f0.SomeFluid();
  }

  /**
   * Visiting interior node (k, j, i) during the in-place solid-with-ghost
   * sweep: shifting a solid tag keeps it in the solid range, so the decision
   * taken on the partly rewritten array equals the one ShiftAt takes on the
   * array the pass started from.
   */
  lemma ShiftVisit(grid: Grid, part: Box, s0: seq<int>, offset: int, totalN: nat, k: int, j: int, i: int)
    requires grid.Valid() && |s0| == grid.Size() && grid.HoldsWithHalo(part) && part.Contains(Node(k, j, i))
    ensures var t := ShiftTags(s0, grid, part, offset, totalN);
            var cur := Swept(grid, part, s0, t, k, j, i);
            var x := grid.IndexOf(Node(k, j, i));
            t[x] == if cur[x] <= -offset && !FaceTags(cur, grid, part, Node(k, j, i)).AllSolid(offset) then cur[x] - totalN else cur[x]
  {
    var t := ShiftTags(s0, grid, part, offset, totalN);
    var cur := Swept(grid, part, s0, t, k, j, i);
    var c := Node(k, j, i);
    grid.NodeAtIndexOf(c);
    var x := grid.IndexOf(c);
    assert cur[x] == s0[x];
    forall y | 0 <= y < |s0|
      ensures (cur[y] <= -offset) == (s0[y] <= -offset)
    {
      assert cur[y] == t[y] || cur[y] == s0[y];
      assert t[y] == ShiftAt(s0, grid, part, offset, totalN, y);
    }
    var fc := FaceTags(cur, grid, part, c);
    var f0 := FaceTags(s0, grid, part, c);
    assert fc.AllSolid(offset) == f0.AllSolid(offset);
  }

  /**
   * Visiting (k, j, i) of body g's search box: the tag after g is the solid
   * tag of g when the inside test accepts the node, the earlier tag otherwise.
   */
  lemma LocateVisit(grid: Grid, part: Box, s0: seq<int>, bodies: seq<Body>, inside: InsideTest,
                    offset: int, g: nat, k: int, j: int, i: int)
    requires grid.Valid() && |s0| == grid.Size() && grid.Holds(part) && g < |bodies|
    requires SearchBox(bodies[g], part).Contains(Node(k, j, i))
    ensures var x := grid.IndexOf(Node(k, j, i));
            LocateTags(s0, grid, part, bodies, inside, offset, g + 1)[x] ==
              if inside(g, i, j, k) then SolidTag(g, offset) else LocateTags(s0, grid, part, bodies, inside, offset, g)[x]
  {
    grid.NodeAtIndexOf(Node(k, j, i));
  }

  /** Body g changes tags only inside its search box. */
  lemma LocateOutside(grid: Grid, part: Box, s0: seq<int>, bodies: seq<Body>, inside: InsideTest,
                      offset: int, g: nat)
    requires grid.Valid() && |s0| == grid.Size() && g < |bodies|
    ensures var sb := SearchBox(bodies[g], part);
            forall x :: 0 <= x < |s0| && !sb.Contains(grid.NodeAt(x)) ==>
              LocateTags(s0, grid, part, bodies, inside, offset, g + 1)[x] == LocateTags(s0, grid, part, bodies, inside, offset, g)[x]
  {
  }

  /** The tags after initialisation and solid location, the input of the ghost pass. */
  function LocatedTags(grid: Grid, part: Box, bodies: seq<Body>, inside: InsideTest): (r: seq<int>)
    requires grid.Valid()
    ensures |r| == grid.Size()
  {
    LocateTags(InitTags(grid, part), grid, part, bodies, inside, Offset, |bodies|)
  }

  /** The tags the whole classification produces. */
  function ClassifiedTags(grid: Grid, part: Box, bodies: seq<Body>, inside: InsideTest): (r: seq<int>)
    requires grid.Valid() && grid.HoldsWithHalo(part)
    ensures |r| == grid.Size()
  {
    var located := LocatedTags(grid, part, bodies, inside);
    ShiftTags(GhostTags(located, grid, part, Offset), grid, part, Offset, |bodies|)
  }

  // ---------------------------------------------------------------------------

  /** The computational domain: grid extents and the node tag array. */
  class Space {
    const grid: Grid
    const nMax: nat
    const nodeFlag: array<int>
    var nodeFlagOffset: int

    ghost predicate Valid()
    {
      grid.Valid() && nMax == grid.Size() && nodeFlag.Length == nMax
    }

    constructor (grid: Grid)
      requires grid.Valid()
      ensures Valid() && this.grid == grid && fresh(nodeFlag)
    {
      this.grid := grid;
      nMax := grid.Size();
      nodeFlag := new int[grid.Size()];
    }

    /** Sets the offset, tags every node boundary, then the interior box fluid. */
    method InitializeDomainGeometry(part: Box)
      requires Valid() && grid.Holds(part)
      modifies this, nodeFlag
      ensures nodeFlagOffset == Offset
      ensures nodeFlag[..] == InitTags(grid, part)
    {
      nodeFlagOffset := Offset;
      var idx := 0;
      while idx < nMax
        modifies nodeFlag
        invariant 0 <= idx <= nMax
        invariant forall x :: 0 <= x < idx ==> nodeFlag[x] == BoundaryTag
      {
        nodeFlag[idx] := BoundaryTag;
        idx := idx + 1;
      }
      ghost var s0 := nodeFlag[..];
      ghost var t := InitTags(grid, part);
      SweepStart(grid, part, s0, t);
      var k := part.kSub;
      while k < part.kSup
        modifies nodeFlag
        invariant part.kSub <= k
        invariant nodeFlag[..] == Swept(grid, part, s0, t, k, part.jSub, part.iSub)
      {
        var j := part.jSub;
        while j < part.jSup
          invariant part.jSub <= j
          invariant nodeFlag[..] == Swept(grid, part, s0, t, k, j, part.iSub)
        {
          var i := part.iSub;
          while i < part.iSup
            invariant part.iSub <= i
            invariant nodeFlag[..] == Swept(grid, part, s0, t, k, j, i)
          {
            idx := grid.IndexOf(Node(k, j, i));
            grid.NodeAtIndexOf(Node(k, j, i));
            SweepVisit(grid, part, s0, t, k, j, i);
            nodeFlag[idx] := FluidTag;
            i := i + 1;
          }
          SweepNextRow(grid, part, s0, t, k, j, i);
          j := j + 1;
        }
        SweepNextPlane(grid, part, s0, t, k, j);
        k := k + 1;
      }
      SweepDone(grid, part, s0, t, k);
    }

    /**
     * For each body in order, every node of its clipped search box that the
     * inside test accepts gets the body's solid tag.
     */
    method LocateSolidGeometry(bodies: seq<Body>, inside: InsideTest, part: Box)
      requires Valid() && grid.Holds(part)
      modifies nodeFlag
      ensures nodeFlag[..] == LocateTags(old(nodeFlag[..]), grid, part, bodies, inside, nodeFlagOffset, |bodies|)
    {
      ghost var s0 := nodeFlag[..];
      var offset := nodeFlagOffset;
      var geoCount := 0;
      while geoCount < |bodies|
        invariant 0 <= geoCount <= |bodies|
        invariant nodeFlag[..] == LocateTags(s0, grid, part, bodies, inside, offset, geoCount)
      {
        LocateBody(bodies, inside, part, offset, geoCount, s0);
        geoCount := geoCount + 1;
      }
    }

    /** One iteration of the body loop: sweeps body g's clipped search box. */
    method LocateBody(bodies: seq<Body>, inside: InsideTest, part: Box, offset: int, g: nat, ghost s0: seq<int>)
      requires Valid() && grid.Holds(part) && g < |bodies| && |s0| == nMax
      requires nodeFlag[..] == LocateTags(s0, grid, part, bodies, inside, offset, g)
      modifies nodeFlag
      ensures nodeFlag[..] == LocateTags(s0, grid, part, bodies, inside, offset, g + 1)
    {
      var b := bodies[g];
      var kSub := Max(b.kCenter - b.kRange, part.kSub);
      var kSup := Min(b.kCenter + b.kRange + 1, part.kSup);
      var jSub := Max(b.jCenter - b.jRange, part.jSub);
      var jSup := Min(b.jCenter + b.jRange + 1, part.jSup);
      var iSub := Max(b.iCenter - b.iRange, part.iSub);
      var iSup := Min(b.iCenter + b.iRange + 1, part.iSup);
      ghost var sb := Box(kSub, kSup, jSub, jSup, iSub, iSup);
      assert sb == SearchBox(b, part);
      ghost var before := LocateTags(s0, grid, part, bodies, inside, offset, g);
      ghost var after := LocateTags(s0, grid, part, bodies, inside, offset, g + 1);
      SweepStart(grid, sb, before, after);
      var k := kSub;
      while k < kSup
        invariant kSub <= k
        invariant nodeFlag[..] == Swept(grid, sb, before, after, k, jSub, iSub)
      {
        var j := jSub;
        while j < jSup
          invariant jSub <= j
          invariant nodeFlag[..] == Swept(grid, sb, before, after, k, j, iSub)
        {
          var i := iSub;
          while i < iSup
            invariant iSub <= i
            invariant nodeFlag[..] == Swept(grid, sb, before, after, k, j, i)
          {
            LocateNode(bodies, inside, part, offset, g, k, j, i, s0);
            i := i + 1;
          }
          SweepNextRow(grid, sb, before, after, k, j, i);
          j := j + 1;
        }
        SweepNextPlane(grid, sb, before, after, k, j);
        k := k + 1;
      }
      LocateOutside(grid, part, s0, bodies, inside, offset, g);
      SweepDone(grid, sb, before, after, k);
    }

    /** One visit of body g's sweep: the node (k, j, i) of its search box. */
    method LocateNode(bodies: seq<Body>, inside: InsideTest, part: Box, offset: int, g: nat,
                      k: int, j: int, i: int, ghost s0: seq<int>)
      requires Valid() && grid.Holds(part) && g < |bodies| && |s0| == nMax
      requires SearchBox(bodies[g], part).Contains(Node(k, j, i))
      requires nodeFlag[..] == Swept(grid, SearchBox(bodies[g], part), LocateTags(s0, grid, part, bodies, inside, offset, g),
                                     LocateTags(s0, grid, part, bodies, inside, offset, g + 1), k, j, i)
      modifies nodeFlag
      ensures nodeFlag[..] == Swept(grid, SearchBox(bodies[g], part), LocateTags(s0, grid, part, bodies, inside, offset, g),
                                    LocateTags(s0, grid, part, bodies, inside, offset, g + 1), k, j, i + 1)
    {
      ghost var before := LocateTags(s0, grid, part, bodies, inside, offset, g);
      ghost var after := LocateTags(s0, grid, part, bodies, inside, offset, g + 1);
      var idx := grid.IndexOf(Node(k, j, i));
      grid.NodeAtIndexOf(Node(k, j, i));
      SweepVisit(grid, SearchBox(bodies[g], part), before, after, k, j, i);
      LocateVisit(grid, part, s0, bodies, inside, offset, g, k, j, i);
      if inside(g, i, j, k) {
        nodeFlag[idx] := SolidTag(g, offset);
      }
    }

    /**
     * Every interior solid node with at least one fluid face neighbour is
     * negated. The product of the six neighbour tags is how gcibm.c tests
     * for "some neighbour is fluid".
     */
    method IdentifyGhostNodes(part: Box)
      requires Valid() && grid.HoldsWithHalo(part)
      modifies nodeFlag
      ensures nodeFlag[..] == GhostTags(old(nodeFlag[..]), grid, part, nodeFlagOffset)
    {
      ghost var s0 := nodeFlag[..];
      var offset := nodeFlagOffset;
      ghost var t := GhostTags(s0, grid, part, offset);
      SweepStart(grid, part, s0, t);
      var k := part.kSub;
      while k < part.kSup
        invariant part.kSub <= k
        invariant nodeFlag[..] == Swept(grid, part, s0, t, k, part.jSub, part.iSub)
      {
        var j := part.jSub;
        while j < part.jSup
          invariant part.jSub <= j
          invariant nodeFlag[..] == Swept(grid, part, s0, t, k, j, part.iSub)
        {
          var i := part.iSub;
          while i < part.iSup
            invariant part.iSub <= i
            invariant nodeFlag[..] == Swept(grid, part, s0, t, k, j, i)
          {
            GhostNode(part, offset, k, j, i, s0);
            i := i + 1;
          }
          SweepNextRow(grid, part, s0, t, k, j, i);
          j := j + 1;
        }
        SweepNextPlane(grid, part, s0, t, k, j);
        k := k + 1;
      }
      SweepDone(grid, part, s0, t, k);
    }

    /**
     * Every interior solid node that has a face neighbour outside the solid
     * range is moved below -offset - totalN.
     */
    method IdentifySolidNodeWithGhostNeighbours(totalN: nat, part: Box)
      requires Valid() && grid.HoldsWithHalo(part)
      modifies nodeFlag
      ensures nodeFlag[..] == ShiftTags(old(nodeFlag[..]), grid, part, nodeFlagOffset, totalN)
    {
      ghost var s0 := nodeFlag[..];
      var offset := nodeFlagOffset;
      ghost var t := ShiftTags(s0, grid, part, offset, totalN);
      SweepStart(grid, part, s0, t);
      var k := part.kSub;
      while k < part.kSup
        invariant part.kSub <= k
        invariant nodeFlag[..] == Swept(grid, part, s0, t, k, part.jSub, part.iSub)
      {
        var j := part.jSub;
        while j < part.jSup
          invariant part.jSub <= j
          invariant nodeFlag[..] == Swept(grid, part, s0, t, k, j, part.iSub)
        {
          var i := part.iSub;
          while i < part.iSup
            invariant part.iSub <= i
            invariant nodeFlag[..] == Swept(grid, part, s0, t, k, j, i)
          {
            ShiftNode(part, offset, totalN, k, j, i, s0);
            i := i + 1;
          }
          SweepNextRow(grid, part, s0, t, k, j, i);
          j := j + 1;
        }
        SweepNextPlane(grid, part, s0, t, k, j);
        k := k + 1;
      }
      SweepDone(grid, part, s0, t, k);
    }

    /** The tags of the six face neighbours of interior node (k, j, i). */
    method NeighbourFlags(part: Box, k: int, j: int, i: int) returns (fc: Faces)
      requires Valid() && grid.HoldsWithHalo(part) && part.Contains(Node(k, j, i))
      ensures fc == FaceTags(nodeFlag[..], grid, part, Node(k, j, i))
    {
      var idxW := grid.IndexOf(Node(k, j, i - 1));
      var idxE := grid.IndexOf(Node(k, j, i + 1));
      var idxS := grid.IndexOf(Node(k, j - 1, i));
      var idxN := grid.IndexOf(Node(k, j + 1, i));
      var idxF := grid.IndexOf(Node(k - 1, j, i));
      var idxB := grid.IndexOf(Node(k + 1, j, i));
      fc := Faces(nodeFlag[idxW], nodeFlag[idxE], nodeFlag[idxS], nodeFlag[idxN], nodeFlag[idxF], nodeFlag[idxB]);
    }

    /** One visit of the ghost sweep: the node (k, j, i) of the interior box. */
    method GhostNode(part: Box, offset: int, k: int, j: int, i: int, ghost s0: seq<int>)
      requires Valid() && grid.HoldsWithHalo(part) && part.Contains(Node(k, j, i)) && |s0| == nMax
      requires nodeFlag[..] == Swept(grid, part, s0, GhostTags(s0, grid, part, offset), k, j, i)
      modifies nodeFlag
      ensures nodeFlag[..] == Swept(grid, part, s0, GhostTags(s0, grid, part, offset), k, j, i + 1)
    {
      ghost var t := GhostTags(s0, grid, part, offset);
      ghost var cur := nodeFlag[..];
      var idx := grid.IndexOf(Node(k, j, i));
      SweepVisit(grid, part, s0, t, k, j, i);
      GhostVisit(grid, part, s0, offset, k, j, i);
      if nodeFlag[idx] <= -offset {
        var fc := NeighbourFlags(part, k, j, i);
        var flag := fc.w * fc.e * fc.s * fc.n * fc.f * fc.b;
        ProductZeroIffSomeZero(fc.w, fc.e, fc.s, fc.n, fc.f, fc.b);
        if flag == 0 {
          nodeFlag[idx] := -nodeFlag[idx];
        }
      }
      assert nodeFlag[..] == cur[idx := t[idx]];
    }

    /** One visit of the solid-with-ghost sweep: the node (k, j, i) of the interior box. */
    method ShiftNode(part: Box, offset: int, totalN: nat, k: int, j: int, i: int, ghost s0: seq<int>)
      requires Valid() && grid.HoldsWithHalo(part) && part.Contains(Node(k, j, i)) && |s0| == nMax
      requires nodeFlag[..] == Swept(grid, part, s0, ShiftTags(s0, grid, part, offset, totalN), k, j, i)
      modifies nodeFlag
      ensures nodeFlag[..] == Swept(grid, part, s0, ShiftTags(s0, grid, part, offset, totalN), k, j, i + 1)
    {
      ghost var t := ShiftTags(s0, grid, part, offset, totalN);
      ghost var cur := nodeFlag[..];
      var idx := grid.IndexOf(Node(k, j, i));
      SweepVisit(grid, part, s0, t, k, j, i);
      ShiftVisit(grid, part, s0, offset, totalN, k, j, i);
      if nodeFlag[idx] <= -offset {
        var fc := NeighbourFlags(part, k, j, i);
        if !(fc.w <= -offset && fc.e <= -offset && fc.s <= -offset &&
             fc.n <= -offset && fc.f <= -offset && fc.b <= -offset) {
          nodeFlag[idx] := nodeFlag[idx] - totalN;
        }
      }
      assert nodeFlag[..] == cur[idx := t[idx]];
    }

    /** The four passes in their fixed order. */
    method ComputeDomainGeometryGCIBM(bodies: seq<Body>, inside: InsideTest, part: Box)
      requires Valid() && grid.HoldsWithHalo(part)
      modifies this, nodeFlag
      ensures nodeFlagOffset == Offset
      ensures nodeFlag[..] == ClassifiedTags(grid, part, bodies, inside)
    {
      InitializeDomainGeometry(part);
      LocateSolidGeometry(bodies, inside, part);
      IdentifyGhostNodes(part);
      IdentifySolidNodeWithGhostNeighbours(|bodies|, part);
    }
  }
}
