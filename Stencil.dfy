/**
 * The interpolation-stencil search of the linear reconstruction: starting
 * from the node an image point falls in, walk a fixed path through the 27
 * nodes of its 3 x 3 x 3 neighbourhood and take the first four fluid nodes
 * met as interpolation stencil, one row [1, i, j, k] of the position matrix
 * per stencil node.
 */
module Stencil {
  import opened Grid
  import opened Tags
  import opened Classifier

  /** One step of the search path: offsets along i, j and k. */
  datatype Probe = Probe(di: int, dj: int, dk: int)

  /** Number of stencil nodes the linear reconstruction needs. */
  const StencilN: nat := 4

  /** Number of steps of the search path: the whole 3 x 3 x 3 neighbourhood. */
  const PathLength: nat := 27

  /**
   * Step q of the search path: the image node itself, then the directions
   * made of 0 and +1 only, then the rest of the neighbourhood.
   */
  function PathStep(q: int): Probe
  {
    match q
    case 0 => Probe(0, 0, 0) case 1 => Probe(1, 1, 1) case 2 => Probe(1, 1, 0) case 3 => Probe(1, 0, 1)
    case 4 => Probe(0, 1, 1) case 5 => Probe(1, 0, 0) case 6 => Probe(0, 1, 0) case 7 => Probe(0, 0, 1)
    case 8 => Probe(-1, 0, 0) case 9 => Probe(0, -1, 0) case 10 => Probe(0, 0, -1) case 11 => Probe(-1, 1, 0)
    case 12 => Probe(-1, 0, 1) case 13 => Probe(1, -1, 0) case 14 => Probe(0, -1, 1) case 15 => Probe(1, 0, -1)
    case 16 => Probe(0, 1, -1) case 17 => Probe(-1, 1, 1) case 18 => Probe(1, -1, 1) case 19 => Probe(1, 1, -1)
    case 20 => Probe(-1, -1, 0) case 21 => Probe(-1, 0, -1) case 22 => Probe(0, -1, -1) case 23 => Probe(-1, -1, 1)
    case 24 => Probe(-1, 1, -1) case 25 => Probe(1, -1, -1) case _ => Probe(-1, -1, -1)
  }

  predicate Unit(d: int)
  {
    -1 <= d <= 1
  }

  predicate UnitProbe(p: Probe)
  {
    Unit(p.di) && Unit(p.dj) && Unit(p.dk)
  }

  /** A base-3 numbering of the neighbourhood's offsets, in [0, 27). */
  function Code(p: Probe): int
  {
    9 * (p.di + 1) + 3 * (p.dj + 1) + (p.dk + 1)
  }

  /** The step of the search path at which each offset code is met. */
  function StepOfCode(c: int): int
  {
    match c
    case 0 => 26 case 1 => 20 case 2 => 23 case 3 => 21 case 4 => 8 case 5 => 12 case 6 => 24 case 7 => 11 case 8 => 17
    case 9 => 22 case 10 => 9 case 11 => 14 case 12 => 10 case 13 => 0 case 14 => 7 case 15 => 16 case 16 => 6 case 17 => 4
    case 18 => 25 case 19 => 13 case 20 => 18 case 21 => 15 case 22 => 5 case 23 => 3 case 24 => 19 case 25 => 2 case _ => 1
  }

  /** Each step is a unit offset, upward for the first eight, and StepOfCode finds it again. */
  lemma PathStepEntry(q: int)
    requires 0 <= q < PathLength
    ensures UnitProbe(PathStep(q)) && StepOfCode(Code(PathStep(q))) == q
    ensures q < 8 ==> 0 <= PathStep(q).di && 0 <= PathStep(q).dj && 0 <= PathStep(q).dk
  {
  }

  /** Each offset code is met at the step StepOfCode names. */
  lemma CodeStepEntry(c: int)
    requires 0 <= c < 27
    ensures 0 <= StepOfCode(c) < PathLength && Code(PathStep(StepOfCode(c))) == c
  {
  }

  /** Two unit offsets with the same code are the same offset. */
  lemma CodeInjective(p: Probe, p': Probe)
    requires UnitProbe(p) && UnitProbe(p') && Code(p) == Code(p')
    ensures p == p'
  {
  }

  /**
   * The path visits the image node first, then the seven upward directions
   * (offsets 0 or +1 only), and altogether every node of the 3 x 3 x 3
   * neighbourhood exactly once.
   */
  lemma {:induction false} SearchPathCoversNeighbourhood()
    ensures PathStep(0) == Probe(0, 0, 0)
    ensures forall q :: 0 <= q < 8 ==> 0 <= PathStep(q).di && 0 <= PathStep(q).dj && 0 <= PathStep(q).dk
    ensures forall q :: 0 <= q < PathLength ==> UnitProbe(PathStep(q))
    ensures forall p, q :: 0 <= p < q < PathLength ==> PathStep(p) != PathStep(q)
    ensures forall d :: UnitProbe(d) ==> exists q :: 0 <= q < PathLength && PathStep(q) == d
  {
    forall q | 0 <= q < PathLength
      ensures UnitProbe(PathStep(q)) && (q < 8 ==> 0 <= PathStep(q).di && 0 <= PathStep(q).dj && 0 <= PathStep(q).dk)
    {
      PathStepEntry(q);
    }
    forall p, q | 0 <= p < q < PathLength
      ensures PathStep(p) != PathStep(q)
    {
      PathStepEntry(p);
      PathStepEntry(q);
    }
    forall d | UnitProbe(d)
      ensures exists q :: 0 <= q < PathLength && PathStep(q) == d
    {
      var q := StepOfCode(Code(d));
      CodeStepEntry(Code(d));
      PathStepEntry(q);
      CodeInjective(PathStep(q), d);
    }
  }

  /** The node probed at step q of the path around the image node. */
  function ProbeNode(image: Node, q: nat): Node
    requires q < PathLength
  {
    var p := PathStep(q);
    Node(image.k + p.dk, image.j + p.dj, image.i + p.di)
  }

  /** The linear index the search reads at step q. */
  function ProbeIndex(grid: Grid, image: Node, q: nat): int
    requires q < PathLength
  {
    var c := ProbeNode(image, q);
    grid.Index(c.k, c.j, c.i)
  }

  /** Step q reads a node of the array whose tag is fluid. */
  predicate IsFluidProbe(tags: seq<int>, grid: Grid, image: Node, q: nat)
    requires q < PathLength
  {
    var x := ProbeIndex(grid, image, q);
    0 <= x < |tags| && tags[x] == FluidTag
  }

  /** For every step of the path, whether it reads a fluid node. */
  function FluidSteps(tags: seq<int>, grid: Grid, image: Node): (f: seq<bool>)
    ensures |f| == PathLength
    ensures forall q :: 0 <= q < PathLength ==> f[q] == IsFluidProbe(tags, grid, image, q)
  {
    seq(PathLength, q requires 0 <= q < PathLength => IsFluidProbe(tags, grid, image, q))
  }

  /** The steps among the first m whose flag is set, in path order. */
  function Taken(f: seq<bool>, m: nat): (ps: seq<nat>)
    requires m <= |f|
    ensures |ps| <= m
    ensures forall t :: 0 <= t < |ps| ==> ps[t] < m
  {
    if m == 0 then []
    else
      var ps := Taken(f, m - 1);
      if f[m - 1] then ps + [m - 1] else ps
  }

  /**
   * The steps taken among the first m are exactly the flagged ones, in
   * increasing order, each once.
   */
  lemma {:induction false} TakenExactly(f: seq<bool>, m: nat)
    requires m <= |f|
    ensures forall t :: 0 <= t < |Taken(f, m)| ==> f[Taken(f, m)[t]]
    ensures forall t, u :: 0 <= t < u < |Taken(f, m)| ==> Taken(f, m)[t] < Taken(f, m)[u]
    ensures forall q :: 0 <= q < m && f[q] ==> q in Taken(f, m)
  {
    if m > 0 {
      TakenExactly(f, m - 1);
      var ps := Taken(f, m - 1);
      if f[m - 1] {
        assert Taken(f, m) == ps + [m - 1];
      } else {
        assert Taken(f, m) == ps;
      }
    }
  }

  /** Searching further only appends: the steps taken before m stay first. */
  lemma {:induction false} TakenPrefix(f: seq<bool>, m: nat, m': nat)
    requires m <= m' <= |f|
    ensures |Taken(f, m)| <= |Taken(f, m')| && Taken(f, m')[..|Taken(f, m)|] == Taken(f, m)
  {
    if m < m' {
      TakenPrefix(f, m, m' - 1);
      var ps := Taken(f, m);
      var mid := Taken(f, m' - 1);
      if f[m' - 1] {
        assert Taken(f, m') == mid + [m' - 1];
        assert (mid + [m' - 1])[..|ps|] == mid[..|ps|];
      } else {
        assert Taken(f, m') == mid;
      }
    }
  }

  /** The fluid steps among the first m steps of the path, in path order. */
  function FluidProbes(tags: seq<int>, grid: Grid, image: Node, m: nat): (ps: seq<nat>)
    requires m <= PathLength
    ensures |ps| <= m && forall t :: 0 <= t < |ps| ==> ps[t] < m
  {
    Taken(FluidSteps(tags, grid, image), m)
  }

  /**
   * The fluid steps among the first m are exactly the steps before m that
   * read a fluid node, in path order, each once.
   */
  lemma {:induction false} FluidProbesExactly(tags: seq<int>, grid: Grid, image: Node, m: nat)
    requires m <= PathLength
    ensures var ps := FluidProbes(tags, grid, image, m);
            && (forall t :: 0 <= t < |ps| ==> IsFluidProbe(tags, grid, image, ps[t]))
            && (forall t, u :: 0 <= t < u < |ps| ==> ps[t] < ps[u])
            && (forall q :: 0 <= q < m && IsFluidProbe(tags, grid, image, q) ==> q in ps)
  {
    TakenExactly(FluidSteps(tags, grid, image), m);
  }

  /**
   * The search reads step q only while fewer than StencilN fluid nodes have
   * been found before it: every such step must address the array.
   */
  predicate ReadsInRange(tags: seq<int>, grid: Grid, image: Node)
  {
    forall q :: 0 <= q < PathLength && |FluidProbes(tags, grid, image, q)| < StencilN ==>
      0 <= ProbeIndex(grid, image, q) < |tags|
  }

  /** The position-matrix row of the stencil node met at step q: [1, i, j, k]. */
  function StencilRow(image: Node, q: nat): (row: seq<real>)
    requires q < PathLength
    ensures |row| == 4 && row[0] == 1.0
    ensures var c := ProbeNode(image, q);
            row[1] == c.i as real && row[2] == c.j as real && row[3] == c.k as real
  {
    var c := ProbeNode(image, q);
    [1.0, c.i as real, c.j as real, c.k as real]
  }

  const ZeroRow: seq<real> := [0.0, 0.0, 0.0, 0.0]

  /** Distinct fluid steps give distinct rows: no stencil node is taken twice. */
  lemma {:induction false} StencilRowsDistinct(tags: seq<int>, grid: Grid, image: Node, m: nat, t: nat, u: nat)
    requires m <= PathLength
    requires t < u < |FluidProbes(tags, grid, image, m)|
    ensures var ps := FluidProbes(tags, grid, image, m);
            StencilRow(image, ps[t]) != StencilRow(image, ps[u])
  {
    SearchPathCoversNeighbourhood();
    FluidProbesExactly(tags, grid, image, m);
    var ps := FluidProbes(tags, grid, image, m);
    assert PathStep(ps[t]) != PathStep(ps[u]);
    assert ProbeNode(image, ps[t]) != ProbeNode(image, ps[u]);
  }

  /**
   * A search that stops after StencilN taken steps, or at the end of the
   * path, has taken the first min(StencilN, all) of them.
   */
  lemma {:induction false} SearchEnds(f: seq<bool>, loop: nat)
    requires loop <= |f| && |Taken(f, loop)| <= StencilN && (|Taken(f, loop)| == StencilN || loop == |f|)
    ensures var ps := Taken(f, |f|);
            |Taken(f, loop)| == Min(StencilN, |ps|) && ps[..|Taken(f, loop)|] == Taken(f, loop)
  {
    TakenPrefix(f, loop, |f|);
  }

  /** A step the search reaches reads the array, and its flag says whether it found fluid. */
  lemma {:induction false} ProbeRead(tags: seq<int>, grid: Grid, image: Node, q: nat)
    requires ReadsInRange(tags, grid, image) && q < PathLength && |FluidProbes(tags, grid, image, q)| < StencilN
    ensures var c := ProbeNode(image, q);
            var x := grid.Index(c.k, c.j, c.i);
            0 <= x < |tags| && FluidSteps(tags, grid, image)[q] == (tags[x] == FluidTag)
  {
  }

  /**
   * The position matrix holding the rows of the stencil steps ps, in order,
   * and zero rows after them.
   */
  function PositionMatrix(image: Node, ps: seq<nat>): (pm: seq<seq<real>>)
    requires |ps| <= StencilN && forall t :: 0 <= t < |ps| ==> ps[t] < PathLength
    ensures |pm| == StencilN
    ensures forall t :: 0 <= t < |ps| ==> pm[t] == StencilRow(image, ps[t])
    ensures forall t :: |ps| <= t < StencilN ==> pm[t] == ZeroRow
  {
    seq(StencilN, t requires 0 <= t < StencilN => if t < |ps| then StencilRow(image, ps[t]) else ZeroRow)
  }

  /** Taking one more stencil step fills the next zero row. */
  lemma {:induction false} PositionMatrixAppend(image: Node, ps: seq<nat>, q: nat)
    requires |ps| < StencilN && (forall t :: 0 <= t < |ps| ==> ps[t] < PathLength) && q < PathLength
    ensures PositionMatrix(image, ps + [q]) == PositionMatrix(image, ps)[|ps| := StencilRow(image, q)]
  {
    var a := PositionMatrix(image, ps + [q]);
    var b := PositionMatrix(image, ps)[|ps| := StencilRow(image, q)];
    assert forall t :: 0 <= t < StencilN ==> a[t] == b[t];
  }

  /**
   * One step of the search: read the node at step loop of the path and,
   * when it is fluid, put its row into the next free row of the position
   * matrix.
   */
  method ProbeStep(space: Space, image: Node, loop: nat, tally: nat, posMatrix: seq<seq<real>>, ghost f: seq<bool>)
    returns (tally': nat, posMatrix': seq<seq<real>>)
    requires space.Valid() && ReadsInRange(space.nodeFlag[..], space.grid, image)
    requires f == FluidSteps(space.nodeFlag[..], space.grid, image)
    requires loop < PathLength && tally == |Taken(f, loop)| < StencilN
    requires posMatrix == PositionMatrix(image, Taken(f, loop))
    ensures tally' == |Taken(f, loop + 1)| <= StencilN
    ensures posMatrix' == PositionMatrix(image, Taken(f, loop + 1))
  {
    var probe := PathStep(loop);
    var ih := image.i + probe.di;
    var jh := image.j + probe.dj;
    var kh := image.k + probe.dk;
    var idxh := space.grid.Index(kh, jh, ih);
    assert ProbeNode(image, loop) == Node(kh, jh, ih);
    ProbeRead(space.nodeFlag[..], space.grid, image, loop);
    if space.nodeFlag[idxh] == FluidTag {
      assert Taken(f, loop + 1) == Taken(f, loop) + [loop];
      PositionMatrixAppend(image, Taken(f, loop), loop);
      posMatrix' := posMatrix[tally := [1.0, ih as real, jh as real, kh as real]];
      tally' := tally + 1;
    } else {
      assert Taken(f, loop + 1) == Taken(f, loop);
      tally', posMatrix' := tally, posMatrix;
    }
  }

  /**
   * The stencil search around the image node: tally is the number of fluid
   * nodes found, at most StencilN, the first tally rows of the position
   * matrix are the rows of the first tally fluid steps of the path, and the
   * remaining rows keep their initial zeros.
   */
  method SearchStencil(space: Space, image: Node) returns (tally: nat, posMatrix: seq<seq<real>>)
    requires space.Valid() && ReadsInRange(space.nodeFlag[..], space.grid, image)
    ensures var ps := FluidProbes(space.nodeFlag[..], space.grid, image, PathLength);
            tally == Min(StencilN, |ps|) && posMatrix == PositionMatrix(image, ps[..tally])
  {
    ghost var f := FluidSteps(space.nodeFlag[..], space.grid, image);
    posMatrix := [ZeroRow, ZeroRow, ZeroRow, ZeroRow];
    tally := 0;
    var loop := 0;
    assert posMatrix == PositionMatrix(image, []);
    while tally < StencilN && loop < PathLength
      invariant 0 <= loop <= PathLength
      invariant tally == |Taken(f, loop)| <= StencilN
      invariant posMatrix == PositionMatrix(image, Taken(f, loop))
    {
      tally, posMatrix := ProbeStep(space, image, loop, tally, posMatrix, f);
      loop := loop + 1;
    }
    SearchEnds(f, loop);
  }
}
