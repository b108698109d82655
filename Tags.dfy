/**
 * The node tag: one signed integer that encodes both the category of a node
 * and, for the solid categories, the index of the body that owns it.
 *
 *   1                              boundary / exterior halo node
 *   0                              interior fluid node
 *   -offset - g                    interior solid node of body g
 *   offset + g                     interior ghost node of body g (a negated solid tag)
 *   -offset - g - totalN           interior solid node of body g with a ghost neighbour
 */
module Tags {

  /** The value InitializeDomainGeometry stores in nodeFlagOffset. */
  const Offset: int := 10

  const BoundaryTag: int := 1
  const FluidTag: int := 0

  /** The tag the solid-location pass writes for a node inside body g. */
  function SolidTag(g: int, offset: int): int
  {
    -offset - g
  }

  /** The categories as a tagged variant; Unclassified is any other integer. */
  datatype NodeType =
    | Boundary
    | Fluid
    | Solid(id: int)
    | Ghost(id: int)
    | SolidWithGhost(id: int)
    | Unclassified

  /**
   * Reads a tag with the same range tests the passes use: `-offset < tag`
   * means "not solid", `offset > tag` means "not a ghost".
   */
  function Classify(tag: int, offset: int, totalN: int): NodeType
  {
    if tag == BoundaryTag then Boundary
    else if tag == FluidTag then Fluid
    else if tag >= offset then Ghost(tag - offset)
    else if tag <= -offset - totalN then SolidWithGhost(-offset - totalN - tag)
    else if tag <= -offset then Solid(-offset - tag)
    else Unclassified
  }

  /** The tag a classified node carries. */
  function Encode(t: NodeType, offset: int, totalN: int): int
    requires !t.Unclassified?
  {
    match t
    case Boundary => BoundaryTag
    case Fluid => FluidTag
    case Solid(g) => SolidTag(g, offset)
    case Ghost(g) => -SolidTag(g, offset)
    case SolidWithGhost(g) => SolidTag(g, offset) - totalN
  }

  /** Body ids of solid kinds lie in [0, totalN); a ghost id is not negative. */
  predicate WellFormed(t: NodeType, totalN: int)
  {
    match t
    case Solid(g) => 0 <= g < totalN
    case Ghost(g) => 0 <= g
    case SolidWithGhost(g) => 0 <= g
    case Boundary => true
    case Fluid => true
    case Unclassified => false
  }

  /** Encoding a well-formed category and reading it back gives it again. */
  lemma ClassifyEncode(t: NodeType, offset: int, totalN: int)
    requires offset >= 2 && totalN >= 0 && WellFormed(t, totalN)
    ensures Classify(Encode(t, offset, totalN), offset, totalN) == t
  {
  }

  /** Every tag that reads as a category is that category's encoding. */
  lemma EncodeClassify(tag: int, offset: int, totalN: int)
    requires offset >= 2 && totalN >= 0
    ensures var t := Classify(tag, offset, totalN);
            !t.Unclassified? ==> WellFormed(t, totalN) && Encode(t, offset, totalN) == tag
  {
  }

  /**
   * The ghost pass negates a solid tag: the result reads as a ghost of the
   * same body.
   */
  lemma NegatedSolidIsGhost(g: int, offset: int, totalN: int)
    requires offset >= 2 && 0 <= g
    ensures Classify(-SolidTag(g, offset), offset, totalN) == Ghost(g)
  {
  }

  /**
   * The solid-with-ghost pass subtracts totalN from a solid tag: the result
   * reads as a solid node with a ghost neighbour of the same body.
   */
  lemma ShiftedSolidIsSolidWithGhost(g: int, offset: int, totalN: int)
    requires offset >= 2 && 0 <= g && 0 <= totalN
    ensures Classify(SolidTag(g, offset) - totalN, offset, totalN) == SolidWithGhost(g)
  {
  }

  /**
   * Body id extraction of BoundaryConditionGCIBM for a ghost tag
   * (a tag not below offset).
   */
  function GhostBodyId(tag: int, offset: int): (g: int)
    requires tag >= offset
    ensures g >= 0
    ensures offset >= 2 ==> forall totalN :: Classify(tag, offset, totalN) == Ghost(g)
    ensures -SolidTag(g, offset) == tag
  {
    tag - offset
  }

  /** "Some face neighbour is fluid", the intent of the product test. */
  predicate SomeZero(w: int, e: int, s: int, n: int, f: int, b: int)
  {
    w == 0 || e == 0 || s == 0 || n == 0 || f == 0 || b == 0
  }

  lemma MulZero(a: int, b: int)
    ensures a * b == 0 <==> (a == 0 || b == 0)
  {
  }

  /**
   * Over mathematical integers the product of the six neighbour tags is zero
   * exactly when one of them is zero.
   */
  lemma ProductZeroIffSomeZero(w: int, e: int, s: int, n: int, f: int, b: int)
    ensures w * e * s * n * f * b == 0 <==> SomeZero(w, e, s, n, f, b)
  {
    MulZero(w, e);
    MulZero(w * e, s);
    MulZero(w * e * s, n);
    MulZero(w * e * s * n, f);
    MulZero(w * e * s * n * f, b);
  }

  lemma MulMonoNonNeg(a: int, A: int, b: int, B: int)
    requires 0 <= a <= A && 0 <= b <= B
    ensures a * b <= A * B
  {
    assert (A - a) * b >= 0;
    assert A * (B - b) >= 0;
  }

  lemma MulBound(a: int, b: int, A: int, B: int)
    requires 0 <= A && 0 <= B && -A <= a <= A && -B <= b <= B
    ensures -(A * B) <= a * b <= A * B
  {
    var x := if a >= 0 then a else -a;
    var y := if b >= 0 then b else -b;
    MulMonoNonNeg(x, A, y, B);
    assert a * b == x * y || a * b == -(x * y);
  }

  /**
   * With totalN <= offset, the tags present when the ghost pass runs are at
   * most 2 * offset - 1 = 19 in magnitude, and then the six-fold product
   * stays inside a 32-bit signed int, so the C product cannot overflow.
   */
  lemma ProductFitsInt32(w: int, e: int, s: int, n: int, f: int, b: int)
    requires -19 <= w <= 19 && -19 <= e <= 19 && -19 <= s <= 19
    requires -19 <= n <= 19 && -19 <= f <= 19 && -19 <= b <= 19
    ensures -0x8000_0000 <= w * e * s * n * f * b < 0x8000_0000
  {
    MulBound(w, e, 19, 19);
    MulBound(w * e, s, 361, 19);
    MulBound(w * e * s, n, 6859, 19);
    MulBound(w * e * s * n, f, 130321, 19);
    MulBound(w * e * s * n * f, b, 2476099, 19);
  }

  /** Two's-complement wrap-around of an integer into the 32-bit int range. */
  function Int32Wrap(p: int): (r: int)
    ensures -0x8000_0000 <= r < 0x8000_0000
    ensures (p - r) % 0x1_0000_0000 == 0
    ensures -0x8000_0000 <= p < 0x8000_0000 ==> r == p
  {
    (p + 0x8000_0000) % 0x1_0000_0000 - 0x8000_0000
  }

  /**
   * The six-fold product as the ghost pass forms it in 32-bit int
   * arithmetic, multiplying left to right, when every overflowing
   * multiplication wraps around.
   */
  function Int32Product(w: int, e: int, s: int, n: int, f: int, b: int): int
  {
    Int32Wrap(Int32Wrap(Int32Wrap(Int32Wrap(Int32Wrap(w * e) * s) * n) * f) * b)
  }

  /** For tags within [-19, 19] the 32-bit product is the mathematical one. */
  lemma {:induction false} Int32ProductAgrees(w: int, e: int, s: int, n: int, f: int, b: int)
    requires -19 <= w <= 19 && -19 <= e <= 19 && -19 <= s <= 19
    requires -19 <= n <= 19 && -19 <= f <= 19 && -19 <= b <= 19
    ensures Int32Product(w, e, s, n, f, b) == w * e * s * n * f * b
  {
    ProductFitsInt32(w, e, s, n, f, b);
    MulBound(w, e, 19, 19);
    MulBound(w * e, s, 361, 19);
    MulBound(w * e * s, n, 6859, 19);
    MulBound(w * e * s * n, f, 130321, 19);
  }

  /**
   * With 55 or more bodies the 32-bit product misreads a deep solid node:
   * six neighbours carrying body 54's solid tag -64 are none of them fluid,
   * yet their product 2^36 wraps to 0.
   */
  lemma WrappedProductOfSolidTags()
    ensures var t := SolidTag(54, Offset);
            t == -64 && !SomeZero(t, t, t, t, t, t) && Int32Product(t, t, t, t, t, t) == 0
  {
  }
}
