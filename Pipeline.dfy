/**
 * What each classification pass does to one node, and what the whole
 * classification guarantees: halo nodes stay boundary, every interior node
 * lands in exactly one tag range whose body id is the last body claiming
 * it, and the ranges agree with the neighbourhood of the node.
 */
module Pipeline {
  import opened Grid
  import opened Tags
  import opened Classifier

  // ---------------------------------------------------------------------------
  // Pass by pass.

  /** Initialisation: nodes outside the interior box are boundary, nodes inside are fluid. */
  lemma {:induction false} InitRegions(grid: Grid, part: Box, c: Node)
    requires grid.Valid() && grid.Contains(c)
    ensures InitTags(grid, part)[grid.IndexOf(c)] == if part.Contains(c) then FluidTag else BoundaryTag
  {
    grid.NodeAtIndexOf(c);
  }

  /** A node no body claims keeps its tag; in particular every node outside the interior box. */
  lemma {:induction false} LocateKeepsUnclaimed(s: seq<int>, grid: Grid, part: Box, bodies: seq<Body>,
                                                inside: InsideTest, offset: int, c: Node)
    requires grid.Valid() && |s| == grid.Size() && grid.Contains(c)
    requires !part.Contains(c) || forall g :: 0 <= g < |bodies| ==> !Claims(bodies, part, inside, g, c)
    ensures LocateTags(s, grid, part, bodies, inside, offset, |bodies|)[grid.IndexOf(c)] == s[grid.IndexOf(c)]
  {
    grid.NodeAtIndexOf(c);
  }

  /**
   * A node claimed by body g and by no later body ends with g's solid tag:
   * the last writer wins.
   */
  lemma {:induction false} LocateLastWriterWins(s: seq<int>, grid: Grid, part: Box, bodies: seq<Body>,
                                                inside: InsideTest, offset: int, c: Node, g: int)
    requires grid.Valid() && |s| == grid.Size() && grid.Contains(c)
    requires 0 <= g < |bodies| && Claims(bodies, part, inside, g, c)
    requires forall h :: g < h < |bodies| ==> !Claims(bodies, part, inside, h, c)
    ensures LocateTags(s, grid, part, bodies, inside, offset, |bodies|)[grid.IndexOf(c)] == SolidTag(g, offset)
  {
    grid.NodeAtIndexOf(c);
    var o := LastClaim(bodies, part, inside, c, |bodies|);
    assert o == g;
  }

  /**
   * A tag the location pass changes is the solid tag of a body whose clipped
   * search box holds the node and whose inside test accepts it.
   */
  lemma {:induction false} LocateWritesSolidTags(s: seq<int>, grid: Grid, part: Box, bodies: seq<Body>,
                                                 inside: InsideTest, offset: int, c: Node)
    requires grid.Valid() && |s| == grid.Size() && grid.Contains(c)
    ensures var t := LocateTags(s, grid, part, bodies, inside, offset, |bodies|)[grid.IndexOf(c)];
            t != s[grid.IndexOf(c)] ==>
              exists g :: 0 <= g < |bodies| && SearchBox(bodies[g], part).Contains(c) && inside(g, c.i, c.j, c.k) &&
                          t == SolidTag(g, offset)
  {
    grid.NodeAtIndexOf(c);
  }

  /**
   * Ghost pass: only an interior solid node changes, by negation into the
   * ghost range with the same body id, and an interior solid node changes
   * exactly when one of its face neighbours is fluid.
   */
  lemma {:induction false} GhostPassNode(s: seq<int>, grid: Grid, part: Box, offset: int, c: Node)
    requires grid.Valid() && |s| == grid.Size() && grid.HoldsWithHalo(part) && grid.Contains(c) && offset > 0
    ensures var x := grid.IndexOf(c);
            var t := GhostTags(s, grid, part, offset)[x];
            && (t != s[x] ==> part.Contains(c) && s[x] <= -offset && t == -s[x] &&
                              GhostBodyId(t, offset) == -offset - s[x])
            && (part.Contains(c) && s[x] <= -offset ==> (t != s[x] <==> FaceTags(s, grid, part, c).SomeFluid()))
  {
    grid.NodeAtIndexOf(c);
  }

  /**
   * Solid-with-ghost pass: tags above -offset (boundary, fluid, ghost) are
   * never modified; an interior solid node is shifted down by exactly totalN
   * unless all six neighbours are solid, and then it is unchanged.
   */
  lemma {:induction false} ShiftPassNode(s: seq<int>, grid: Grid, part: Box, offset: int, totalN: nat, c: Node)
    requires grid.Valid() && |s| == grid.Size() && grid.HoldsWithHalo(part) && grid.Contains(c)
    ensures var x := grid.IndexOf(c);
            var t := ShiftTags(s, grid, part, offset, totalN)[x];
            && (s[x] > -offset || !part.Contains(c) ==> t == s[x])
            && (t != s[x] ==> t == s[x] - totalN && t <= -offset - totalN)
            && (part.Contains(c) && s[x] <= -offset && totalN > 0 ==>
                  (t == s[x] <==> FaceTags(s, grid, part, c).AllSolid(offset)))
  {
    grid.NodeAtIndexOf(c);
  }

  // ---------------------------------------------------------------------------
  // The whole classification.

  /** The tag of a node after initialisation and solid location. */
  lemma {:induction false} LocatedNode(grid: Grid, part: Box, bodies: seq<Body>, inside: InsideTest, c: Node)
    requires grid.Valid() && grid.Contains(c)
    ensures var o := LastClaim(bodies, part, inside, c, |bodies|);
            && (o >= 0 ==> part.Contains(c))
            && LocatedTags(grid, part, bodies, inside)[grid.IndexOf(c)] ==
                 if o >= 0 then SolidTag(o, Offset) else if part.Contains(c) then FluidTag else BoundaryTag
  {
    grid.NodeAtIndexOf(c);
    InitRegions(grid, part, c);
  }

  /** Every tag after solid location is boundary, fluid, or a solid tag of one of the bodies. */
  lemma {:induction false} LocatedTagRange(grid: Grid, part: Box, bodies: seq<Body>, inside: InsideTest, y: int)
    requires grid.Valid() && 0 <= y < grid.Size()
    ensures var l := LocatedTags(grid, part, bodies, inside)[y];
            l == BoundaryTag || l == FluidTag || -Offset - |bodies| < l <= -Offset
  {
    var c := grid.NodeAt(y);
    LocatedNode(grid, part, bodies, inside, c);
  }

  predicate SomeGhostOrBoundary(f: Faces, offset: int)
  {
    f.w == BoundaryTag || f.w >= offset || f.e == BoundaryTag || f.e >= offset ||
    f.s == BoundaryTag || f.s >= offset || f.n == BoundaryTag || f.n >= offset ||
    f.f == BoundaryTag || f.f >= offset || f.b == BoundaryTag || f.b >= offset
  }

  /**
   * A solid tag of body o that the ghost pass may negate and the shift pass
   * may then move down by totalN reads as solid, ghost or solid-with-ghost
   * of body o.
   */
  lemma {:induction false} SolidNodeLands(l: int, g: int, f: int, o: int, totalN: nat)
    requires 0 <= o < totalN && l == SolidTag(o, Offset)
    requires g == l || g == -l
    requires g > -Offset ==> f == g
    requires f == g || f == g - totalN
    ensures var ty := Classify(f, Offset, totalN);
            ty == Solid(o) || ty == Ghost(o) || ty == SolidWithGhost(o)
  {
    if g != l {
      NegatedSolidIsGhost(o, Offset, totalN);
    } else if f != g {
      ShiftedSolidIsSolidWithGhost(o, Offset, totalN);
    }
  }

  /**
   * After the four passes a halo node is boundary, an interior node no body
   * claims is fluid, and an interior node claimed last by body o is a solid,
   * ghost or solid-with-ghost node of body o. Every final tag is the
   * encoding of its category, so the body id is recovered by inverse
   * arithmetic.
   */
  lemma {:induction false} ClassifiedNode(grid: Grid, part: Box, bodies: seq<Body>, inside: InsideTest, c: Node)
    requires grid.Valid() && grid.HoldsWithHalo(part) && grid.Contains(c)
    ensures var tag := ClassifiedTags(grid, part, bodies, inside)[grid.IndexOf(c)];
            var o := LastClaim(bodies, part, inside, c, |bodies|);
            var ty := Classify(tag, Offset, |bodies|);
            && (!part.Contains(c) ==> ty == Boundary)
            && (part.Contains(c) && o < 0 ==> ty == Fluid)
            && (o >= 0 ==> part.Contains(c) && (ty == Solid(o) || ty == Ghost(o) || ty == SolidWithGhost(o)))
            && WellFormed(ty, |bodies|) && Encode(ty, Offset, |bodies|) == tag
  {
    var n := |bodies|;
    var located := LocatedTags(grid, part, bodies, inside);
    var ghosted := GhostTags(located, grid, part, Offset);
    var x := grid.IndexOf(c);
    var tag := ClassifiedTags(grid, part, bodies, inside)[x];
    LocatedNode(grid, part, bodies, inside, c);
    GhostPassNode(located, grid, part, Offset, c);
    ShiftPassNode(ghosted, grid, part, Offset, n, c);
    var o := LastClaim(bodies, part, inside, c, n);
    if o >= 0 {
      SolidNodeLands(located[x], ghosted[x], tag, o, n);
    }
    EncodeClassify(tag, Offset, n);
  }

  /** The zero tags are the same before and after the ghost and shift passes. */
  lemma {:induction false} FluidTagsKept(grid: Grid, part: Box, bodies: seq<Body>, inside: InsideTest, y: int)
    requires grid.Valid() && grid.HoldsWithHalo(part) && 0 <= y < grid.Size()
    ensures var located := LocatedTags(grid, part, bodies, inside);
            var ghosted := GhostTags(located, grid, part, Offset);
            var final := ClassifiedTags(grid, part, bodies, inside);
            (final[y] == FluidTag <==> located[y] == FluidTag) && (ghosted[y] == FluidTag <==> located[y] == FluidTag)
  {
    var located := LocatedTags(grid, part, bodies, inside);
    var ghosted := GhostTags(located, grid, part, Offset);
    assert ghosted[y] == GhostAt(located, grid, part, Offset, y);
    assert ClassifiedTags(grid, part, bodies, inside)[y] == ShiftAt(ghosted, grid, part, Offset, |bodies|, y);
  }

  /**
   * How the ghost and shift passes move one tag from the located array (l)
   * through the ghosted one (g) to the final one (f).
   */
  predicate TagStep(l: int, g: int, f: int)
  {
    && (f == FluidTag <==> l == FluidTag)
    && (g == FluidTag <==> l == FluidTag)
    && (g > -Offset ==> f == g)
    && (g <= -Offset ==> f <= -Offset)
    && (g > -Offset && g != FluidTag ==> g == BoundaryTag || g >= Offset)
  }

  lemma {:induction false} NeighbourTags(grid: Grid, part: Box, bodies: seq<Body>, inside: InsideTest, y: int)
    requires grid.Valid() && grid.HoldsWithHalo(part) && 0 <= y < grid.Size()
    ensures var located := LocatedTags(grid, part, bodies, inside);
            TagStep(located[y], GhostTags(located, grid, part, Offset)[y], ClassifiedTags(grid, part, bodies, inside)[y])
  {
    var located := LocatedTags(grid, part, bodies, inside);
    var ghosted := GhostTags(located, grid, part, Offset);
    FluidTagsKept(grid, part, bodies, inside, y);
    LocatedTagRange(grid, part, bodies, inside, y);
    assert ghosted[y] == GhostAt(located, grid, part, Offset, y);
    assert ClassifiedTags(grid, part, bodies, inside)[y] == ShiftAt(ghosted, grid, part, Offset, |bodies|, y);
  }

  /** TagStep on all six faces carries the neighbourhood tests from one array to the next. */
  lemma {:induction false} FacesStep(fl: Faces, fg: Faces, ff: Faces)
    requires TagStep(fl.w, fg.w, ff.w) && TagStep(fl.e, fg.e, ff.e) && TagStep(fl.s, fg.s, ff.s)
    requires TagStep(fl.n, fg.n, ff.n) && TagStep(fl.f, fg.f, ff.f) && TagStep(fl.b, fg.b, ff.b)
    ensures ff.SomeFluid() <==> fl.SomeFluid()
    ensures fg.SomeFluid() <==> fl.SomeFluid()
    ensures fg.AllSolid(Offset) ==> ff.AllSolid(Offset)
    ensures !fg.AllSolid(Offset) && !fg.SomeFluid() ==> SomeGhostOrBoundary(ff, Offset)
  {
  }

  /** TagStep at every index carries the neighbourhood tests of an interior node from one array to the next. */
  lemma {:induction false} NeighbourFaces(grid: Grid, part: Box, l: seq<int>, g: seq<int>, f: seq<int>, c: Node)
    requires |l| == grid.Size() && |g| == grid.Size() && |f| == grid.Size() && InteriorOf(grid, part, c)
    requires forall y :: 0 <= y < grid.Size() ==> TagStep(l[y], g[y], f[y])
    ensures var fl := FaceTags(l, grid, part, c);
            var fg := FaceTags(g, grid, part, c);
            var ff := FaceTags(f, grid, part, c);
            && (ff.SomeFluid() <==> fl.SomeFluid())
            && (fg.SomeFluid() <==> fl.SomeFluid())
            && (fg.AllSolid(Offset) ==> ff.AllSolid(Offset))
            && (!fg.AllSolid(Offset) && !fg.SomeFluid() ==> SomeGhostOrBoundary(ff, Offset))
  {
    FacesStep(FaceTags(l, grid, part, c), FaceTags(g, grid, part, c), FaceTags(f, grid, part, c));
  }

  /**
   * The final tags agree with each node's neighbourhood: a ghost node has a
   * fluid face neighbour; a solid node has only solid-range face neighbours;
   * a solid node with a ghost neighbour has no fluid face neighbour and some
   * face neighbour that is a ghost or a boundary node.
   */
  lemma {:induction false} ClassifiedAdjacency(grid: Grid, part: Box, bodies: seq<Body>, inside: InsideTest, c: Node)
    requires grid.Valid() && grid.HoldsWithHalo(part) && part.Contains(c)
    ensures var final := ClassifiedTags(grid, part, bodies, inside);
            var ty := Classify(final[grid.IndexOf(c)], Offset, |bodies|);
            var f := FaceTags(final, grid, part, c);
            && (ty.Ghost? ==> f.SomeFluid())
            && (ty.Solid? ==> f.AllSolid(Offset))
            && (ty.SolidWithGhost? ==> !f.SomeFluid() && SomeGhostOrBoundary(f, Offset))
  {
    var located := LocatedTags(grid, part, bodies, inside);
    var ghosted := GhostTags(located, grid, part, Offset);
    ClassifiedNode(grid, part, bodies, inside, c);
    LocatedNode(grid, part, bodies, inside, c);
    GhostPassNode(located, grid, part, Offset, c);
    ShiftPassNode(ghosted, grid, part, Offset, |bodies|, c);
    var final := ClassifiedTags(grid, part, bodies, inside);
    forall y | 0 <= y < grid.Size()
      ensures TagStep(located[y], ghosted[y], final[y])
    {
      NeighbourTags(grid, part, bodies, inside, y);
    }
    NeighbourFaces(grid, part, located, ghosted, final, c);
  }

  /**
   * With at most offset bodies, every tag the in-place ghost sweep reads lies
   * in [-19, 19], so the six-fold product it forms fits a 32-bit int and
   * agrees with the mathematical product.
   */
  lemma {:induction false} GhostSweepProductFits(grid: Grid, part: Box, bodies: seq<Body>, inside: InsideTest,
                                                 k: int, j: int, i: int)
    requires grid.Valid() && grid.HoldsWithHalo(part) && part.Contains(Node(k, j, i)) && |bodies| <= Offset
    ensures var located := LocatedTags(grid, part, bodies, inside);
            var cur := Swept(grid, part, located, GhostTags(located, grid, part, Offset), k, j, i);
            var f := FaceTags(cur, grid, part, Node(k, j, i));
            Int32Product(f.w, f.e, f.s, f.n, f.f, f.b) == f.w * f.e * f.s * f.n * f.f * f.b
  {
    var located := LocatedTags(grid, part, bodies, inside);
    var ghosted := GhostTags(located, grid, part, Offset);
    var cur := Swept(grid, part, located, ghosted, k, j, i);
    forall y | 0 <= y < grid.Size()
      ensures -19 <= cur[y] <= 19
    {
      LocatedTagRange(grid, part, bodies, inside, y);
      assert ghosted[y] == GhostAt(located, grid, part, Offset, y);
    }
    var f := FaceTags(cur, grid, part, Node(k, j, i));
    Int32ProductAgrees(f.w, f.e, f.s, f.n, f.f, f.b);
  }
}
