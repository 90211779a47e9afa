/**
  Boundary elements of the two-dimensional mesh (pycycle/mesh.py).

  A mesh is an ordered sequence of elements: finite line segments and
  semi-infinite rays.  Each element maps the canonical parameter interval
  [-1, 1] onto the boundary (`Xi`), carries a basis weight (`Basis`) and an
  integration factor (`Factor`, basis weight times the Jacobian of `Xi`), a
  collocation point and a fault flag.

  Dafny has no square root, so every Euclidean norm the source computes is
  supplied by the caller together with the certificate `IsNorm(len, v)`.
*/
module Mesh {

  import opened Arith

  /** A point or a direction in the plane. */
  datatype Vec = Vec(x: real, y: real)

  function Add(u: Vec, v: Vec): Vec { Vec(u.x + v.x, u.y + v.y) }

  function Sub(u: Vec, v: Vec): Vec { Vec(u.x - v.x, u.y - v.y) }

  function Scale(c: real, v: Vec): Vec { Vec(c * v.x, c * v.y) }

  function Neg(v: Vec): (r: Vec)
    ensures NormSq(r) == NormSq(v)
    ensures forall u :: Dot(u, r) == -Dot(u, v) && Dot(r, u) == -Dot(v, u)
  {
    Vec(-v.x, -v.y)
  }

  function Dot(u: Vec, v: Vec): real { u.x * v.x + u.y * v.y }

  function NormSq(v: Vec): real { Dot(v, v) }

  /** The z-component of the cross product; zero exactly when u and v are parallel. */
  function Cross(u: Vec, v: Vec): real { u.x * v.y - u.y * v.x }

  function Midpoint(p: Vec, q: Vec): Vec { Vec((p.x + q.x) / 2.0, (p.y + q.y) / 2.0) }

  /** `len` is the Euclidean norm of `v`. */
  predicate IsNorm(len: real, v: Vec) { len >= 0.0 && len * len == NormSq(v) }

  lemma ScaleNormSq(c: real, v: Vec)
    ensures NormSq(Scale(c, v)) == c * c * NormSq(v)
  {
    calc {
      NormSq(Scale(c, v));
      (c * v.x) * (c * v.x) + (c * v.y) * (c * v.y);
      c * c * (v.x * v.x + v.y * v.y);
    }
  }

  /** Scaling a vector scales its norm by |c|. */
  lemma ScaleNorm(c: real, len: real, v: Vec)
    requires c >= 0.0 && IsNorm(len, v)
    ensures IsNorm(c * len, Scale(c, v))
  {
    ScaleNormSq(c, v);
    assert (c * len) * (c * len) == c * c * (len * len);
  }

  /** (1 - theta) / (theta + 3): |a| / |Xi(theta)| on a ray. */
  function RayWeight(theta: real): real
    requires theta != -3.0
  {
    (1.0 - theta) / (theta + 3.0)
  }

  /** On [-1, 1] the squared ray weight lies in [0, 1]. */
  lemma RayWeightSquareUnit(theta: real)
    requires theta != -3.0
    ensures -1.0 <= theta <= 1.0 ==> 0.0 <= RayWeight(theta) * RayWeight(theta) <= 1.0
  {
    if -1.0 <= theta <= 1.0 {
      var w := RayWeight(theta);
      assert w * (theta + 3.0) == 1.0 - theta;
      if w < 0.0 {
        MulStrict(w, 0.0, theta + 3.0);
      }
      if w > 1.0 {
        MulStrict(1.0, w, theta + 3.0);
      }
      MulMonotone(w, 1.0, w);
      NonNegMul(w, w);
    }
  }

  /** a + (theta + 1) / 2 h is the convex combination of a and a + h with weights (1 -+ theta) / 2. */
  lemma LineConvex(a: Vec, h: Vec, theta: real)
    ensures Add(Scale((theta + 1.0) / 2.0, h), a)
         == Add(Scale((1.0 - theta) / 2.0, a), Scale((theta + 1.0) / 2.0, Add(a, h)))
  {
    var c := (theta + 1.0) / 2.0;
    var d := (1.0 - theta) / 2.0;
    assert d == 1.0 - c;
    assert d * a.x + c * (a.x + h.x) == c * h.x + a.x;
    assert d * a.y + c * (a.y + h.y) == c * h.y + a.y;
  }

  /** Rearranges the ray's integration factor as basis weight times |Xi'|. */
  lemma RayJacobian(b: real, len: real, u: real)
    requires u != 0.0
    ensures b * len * 4.0 / u / u == b * (4.0 * len / u / u)
  {
    MulDiv(b * len * 4.0, b, 4.0 * len, u);
    MulDiv(b * len * 4.0 / u, b, 4.0 * len / u, u);
  }

  /**
    A boundary element.  `Line` is LineElement: start point `a`, direction
    `h = b - a` with norm `hNorm`, unit normal `n` and the fault flag.  `Ray` is
    InfiniteLineElement: it starts at `a` and runs to infinity in the direction
    of `a`; `aNorm` is |a|.
  */
  datatype Element =
    | Line(a: Vec, h: Vec, hNorm: real, n: Vec, fault: bool)
    | Ray(a: Vec, aNorm: real, n: Vec)
  {
    /** The stored norms are the norms of the stored vectors and the normal has unit length. */
    predicate WellFormed() {
      NormSq(n) == 1.0 &&
      match this
      case Line(_, h, hNorm, _, _) => IsNorm(hNorm, h)
      case Ray(a, aNorm, _) => IsNorm(aNorm, a)
    }

    /** `is_fault`; a ray is never part of the fault. */
    predicate IsFault()
      ensures Ray? ==> !IsFault()
    {
      Line? && fault
    }

    /** The parameterisation of the element; a ray sends theta = 1 to infinity. */
    function Xi(theta: real): (r: Vec)
      requires Ray? ==> theta != 1.0
      // on a segment, the convex combination of the end points with weights (1 -+ theta) / 2
      ensures Line? ==> r == Add(Scale((1.0 - theta) / 2.0, a), Scale((theta + 1.0) / 2.0, Add(a, h)))
    {
      match this
      case Line(a, h, _, _, _) =>
        LineConvex(a, h, theta);
        Add(Scale((theta + 1.0) / 2.0, h), a)
      case Ray(a, _, _) => Scale((theta + 3.0) / (1.0 - theta), a)
    }

    /**
      The basis function: constant on a segment, (|a| / |Xi(theta)|)^2 on a ray,
      that is ((1 - theta) / (theta + 3))^2.
    */
    function Basis(theta: real): (r: real)
      requires Ray? ==> theta != -3.0
      ensures Line? ==> r == 1.0
      ensures Ray? && -1.0 <= theta <= 1.0 ==> 0.0 <= r <= 1.0
    {
      if Line? then 1.0
      else
        RayWeightSquareUnit(theta);
        RayWeight(theta) * RayWeight(theta)
    }

    /** The integration factor: basis weight times |Xi'(theta)|. */
    function Factor(theta: real): (r: real)
      requires Ray? ==> theta != 1.0 && theta != -3.0
      // |Xi'| is |h| / 2 on a segment and 4 |a| / (theta - 1)^2 on a ray
      ensures Line? ==> r == Basis(theta) * (hNorm / 2.0)
      ensures Ray? ==> r == Basis(theta) * (4.0 * aNorm / (theta - 1.0) / (theta - 1.0))
    {
      match this
      case Line(_, _, hNorm, _, _) =>
        assert Basis(theta) == 1.0;
        hNorm / 2.0
      case Ray(_, aNorm, _) =>
        var b := Basis(theta);
        RayJacobian(b, aNorm, theta - 1.0);
        b * aNorm * 4.0 / (theta - 1.0) / (theta - 1.0)
    }

    /** The midpoint of a segment; the start point of a ray. */
    function CollocationPoint(): (r: Vec)
      ensures Line? ==> r == Midpoint(a, Add(a, h))
      ensures Ray? ==> r == a
    {
      if Line? then Xi(0.0) else Xi(-1.0)
    }
  }

  /** The end point b of a segment. */
  function End(e: Element): Vec
    requires e.Line?
  {
    Add(e.a, e.h)
  }

  /**
    LineElement(a, b, n, is_fault).  `hNorm` is |b - a| and `nNorm` is |n|; the
    normal is divided by its norm, so a zero normal is not admitted.
  */
  function LineElement(a: Vec, b: Vec, n: Vec, isFault: bool, hNorm: real, nNorm: real): (e: Element)
    requires IsNorm(hNorm, Sub(b, a))
    requires IsNorm(nNorm, n) && nNorm > 0.0
    ensures e.Line? && e.WellFormed()
    ensures e.a == a && End(e) == b && e.IsFault() == isFault
    ensures e.n == Scale(1.0 / nNorm, n)
  {
    ScaleNormSq(1.0 / nNorm, n);
    Line(a, Sub(b, a), hNorm, Scale(1.0 / nNorm, n), isFault)
  }

  /** InfiniteLineElement(a, n), with |a| = aNorm and |n| = nNorm supplied. */
  function InfiniteLineElement(a: Vec, n: Vec, aNorm: real, nNorm: real): (e: Element)
    requires IsNorm(aNorm, a)
    requires IsNorm(nNorm, n) && nNorm > 0.0
    ensures e.Ray? && e.WellFormed() && !e.IsFault()
    ensures e.a == a && e.n == Scale(1.0 / nNorm, n)
  {
    ScaleNormSq(1.0 / nNorm, n);
    Ray(a, aNorm, Scale(1.0 / nNorm, n))
  }

  // ---------------------------------------------------------------------------
  // Finite segments

  /** Xi runs from the start point to the end point through the midpoint, which is the collocation point. */
  lemma LineXiEndpoints(e: Element)
    requires e.Line?
    ensures e.Xi(-1.0) == e.a
    ensures e.Xi(1.0) == End(e)
    ensures e.Xi(0.0) == Midpoint(e.a, End(e))
    ensures e.CollocationPoint() == Midpoint(e.a, End(e))
  {
  }

  /** The basis weight is 1 everywhere and the factor does not depend on theta. */
  lemma LineBasisConstant(e: Element, s: real, t: real)
    requires e.Line?
    ensures e.Basis(s) == 1.0
    ensures e.Factor(s) == e.Factor(t)
  {
  }

  /**
    The factor is the Jacobian of Xi: the chord between Xi(s) and Xi(t) has
    length Factor * |t - s|.
  */
  lemma LineFactorIsJacobian(e: Element, s: real, t: real)
    requires e.Line? && e.WellFormed() && s <= t
    ensures Sub(e.Xi(t), e.Xi(s)) == Scale((t - s) / 2.0, e.h)
    ensures IsNorm(e.Factor(s) * (t - s), Sub(e.Xi(t), e.Xi(s)))
  {
    var h := e.h;
    assert (t + 1.0) / 2.0 * h.x - (s + 1.0) / 2.0 * h.x == (t - s) / 2.0 * h.x;
    assert (t + 1.0) / 2.0 * h.y - (s + 1.0) / 2.0 * h.y == (t - s) / 2.0 * h.y;
    ScaleNorm((t - s) / 2.0, e.hNorm, h);
    assert (t - s) / 2.0 * e.hNorm == e.hNorm / 2.0 * (t - s);
  }

  // ---------------------------------------------------------------------------
  // Semi-infinite rays

  /** The distance along a ray, in multiples of |a|, at parameter theta. */
  function RayScale(theta: real): real
    requires theta != 1.0
  {
    (theta + 3.0) / (1.0 - theta)
  }

  /**
    How far RayScale moves between s and t: the derivative of the ray's
    parameterisation at theta is 4 a / (1 - theta)^2, which diverges at 1.
  */
  lemma RayScaleSecant(s: real, t: real)
    requires s < 1.0 && t < 1.0
    ensures (1.0 - s) * (1.0 - t) > 0.0
    ensures RayScale(t) - RayScale(s) == 4.0 * (t - s) / ((1.0 - s) * (1.0 - t))
  {
    var rs, rt := RayScale(s), RayScale(t);
    var d := (1.0 - s) * (1.0 - t);
    MulStrict(0.0, 1.0 - s, 1.0 - t);
    assert rs * (1.0 - s) == s + 3.0;
    assert rt * (1.0 - t) == t + 3.0;
    assert rt * d == (t + 3.0) * (1.0 - s);
    assert rs * d == (s + 3.0) * (1.0 - t);
    assert (rt - rs) * d == 4.0 * (t - s);
  }

  /** The chord of a ray between parameters s and t. */
  lemma RaySecant(e: Element, s: real, t: real)
    requires e.Ray? && s < 1.0 && t < 1.0
    ensures Sub(e.Xi(t), e.Xi(s)) == Scale(4.0 * (t - s) / ((1.0 - s) * (1.0 - t)), e.a)
  {
    RayScaleSecant(s, t);
    var a := e.a;
    assert RayScale(t) * a.x - RayScale(s) * a.x == (RayScale(t) - RayScale(s)) * a.x;
    assert RayScale(t) * a.y - RayScale(s) * a.y == (RayScale(t) - RayScale(s)) * a.y;
  }

  /** On [-1, 1) Xi is a multiple >= 1 of the start point, growing with theta. */
  lemma RayXiBeyondStart(e: Element, s: real, t: real)
    requires e.Ray? && -1.0 <= s < t < 1.0
    ensures e.Xi(s) == Scale(RayScale(s), e.a)
    ensures 1.0 <= RayScale(s) < RayScale(t)
  {
    RayScaleSecant(s, t);
    QuotientPositive(4.0 * (t - s), (1.0 - s) * (1.0 - t));
    QuotientAtLeastOne(s + 3.0, 1.0 - s);
  }

  /** The values the tests check: Xi(-1) = a (the collocation point), Xi(0) = 3a, Xi(0.99) = 399a. */
  lemma RayXiSamples(e: Element)
    requires e.Ray?
    ensures e.Xi(-1.0) == e.a && e.CollocationPoint() == e.a
    ensures e.Xi(0.0) == Scale(3.0, e.a)
    ensures e.Xi(0.99) == Scale(399.0, e.a)
  {
  }

  /** Basis(-1) = 1, Basis(0) = 1/9, Basis(0.99) = 1/399^2 and Basis(1) = 0. */
  lemma RayBasisSamples(e: Element)
    requires e.Ray?
    ensures e.Basis(-1.0) == 1.0
    ensures e.Basis(0.0) == 1.0 / 9.0
    ensures e.Basis(0.99) == 1.0 / (399.0 * 399.0)
    ensures e.Basis(1.0) == 0.0
  {
  }

  /** The ray's weight (1 - theta) / (theta + 3) is the reciprocal of RayScale. */
  lemma RayWeightReciprocal(theta: real)
    requires -1.0 <= theta < 1.0
    ensures RayWeight(theta) * RayScale(theta) == 1.0
  {
    var g := RayWeight(theta);
    var r := RayScale(theta);
    assert g * (theta + 3.0) == 1.0 - theta;
    assert r * (1.0 - theta) == theta + 3.0;
    assert (g * r) * ((theta + 3.0) * (1.0 - theta)) == (1.0 - theta) * (theta + 3.0);
    PosMul(theta + 3.0, 1.0 - theta);
    MulCancel(g * r, 1.0, (theta + 3.0) * (1.0 - theta));
    MulCancel(1.0, g * r, (theta + 3.0) * (1.0 - theta));
  }

  /** On [-1, 1) the basis weight of a ray is 1 / RayScale(theta)^2. */
  lemma RayBasisSquare(e: Element, theta: real)
    requires e.Ray? && -1.0 <= theta < 1.0
    ensures e.Basis(theta) * RayScale(theta) * RayScale(theta) == 1.0
  {
    var g := RayWeight(theta);
    var r := RayScale(theta);
    RayWeightReciprocal(theta);
    assert g * g * r * r == (g * r) * (g * r);
  }

  /** The ray's weight decreases strictly from 1 at theta = -1 to 0 at theta = 1. */
  lemma RayWeightDecreasing(s: real, t: real)
    requires -1.0 <= s < t <= 1.0
    ensures RayWeight(s) > RayWeight(t) >= 0.0
  {
    var gs, gt := RayWeight(s), RayWeight(t);
    assert gs * (s + 3.0) == 1.0 - s;
    assert gt * (t + 3.0) == 1.0 - t;
    var d := (s + 3.0) * (t + 3.0);
    PosMul(s + 3.0, t + 3.0);
    assert (gs - gt) * d == 4.0 * (t - s) by {
      assert gs * d == (1.0 - s) * (t + 3.0);
      assert gt * d == (1.0 - t) * (s + 3.0);
    }
    if gs - gt <= 0.0 {
      MulMonotone(gs - gt, 0.0, d);
    }
    if gt < 0.0 {
      MulStrict(gt, 0.0, t + 3.0);
    }
  }

  /** The basis weight decreases strictly from 1 at theta = -1 to 0 at theta = 1. */
  lemma RayBasisDecreasing(e: Element, s: real, t: real)
    requires e.Ray? && -1.0 <= s < t <= 1.0
    ensures e.Basis(s) > e.Basis(t) >= 0.0
  {
    RayWeightDecreasing(s, t);
    SquareStrict(RayWeight(t), RayWeight(s));
    NonNegMul(RayWeight(t), RayWeight(t));
  }

  /** On a ray the basis weight is (|a| / |Xi(theta)|)^2. */
  lemma RayBasisInverseSquare(e: Element, theta: real)
    requires e.Ray? && -1.0 <= theta < 1.0
    ensures e.Basis(theta) * NormSq(e.Xi(theta)) == NormSq(e.a)
  {
    var r := RayScale(theta);
    RayBasisSquare(e, theta);
    ScaleNormSq(r, e.a);
    assert e.Basis(theta) * (r * r * NormSq(e.a)) == (e.Basis(theta) * r * r) * NormSq(e.a);
  }

  /**
    The cancellation behind RayFactorTimesSquare, on plain numbers: if f u^2 = x,
    x = A g^2 and g d = -u with u nonzero, then f d^2 = A.
  */
  lemma CancelSquares(f: real, x: real, u: real, d: real, g: real, A: real)
    requires f * u * u == x && x == A * (g * g) && g * d == -u && u != 0.0
    ensures f * d * d == A
  {
    var p := g * d;
    assert g != 0.0;
    assert u * u == p * p;
    assert f * u * u == f * (u * u);
    assert f * (p * p) == (f * d * d) * (g * g);
    assert (f * d * d) * (g * g) == A * (g * g);
    MulCancelNonZero(f * d * d, A, g * g);
  }

  /** The factor of a ray times (theta + 3)^2 is 4 |a|. */
  lemma RayFactorTimesSquare(e: Element, theta: real)
    requires e.Ray? && -1.0 <= theta < 1.0
    ensures e.Factor(theta) * (theta + 3.0) * (theta + 3.0) == 4.0 * e.aNorm
  {
    var g := RayWeight(theta);
    var x := e.Basis(theta) * e.aNorm * 4.0;
    DivideTwice(x, theta - 1.0);
    assert g * (theta + 3.0) == 1.0 - theta;
    CancelSquares(e.Factor(theta), x, theta - 1.0, theta + 3.0, g, 4.0 * e.aNorm);
  }

  /**
    The integration factor of a ray is 4 |a| / (theta + 3)^2: the vanishing basis
    weight cancels the diverging Jacobian, and the factor stays between |a| / 4
    and |a| on [-1, 1).
  */
  lemma RayFactorBounded(e: Element, theta: real)
    requires e.Ray? && e.WellFormed() && -1.0 <= theta < 1.0
    ensures e.Factor(theta) * (theta + 3.0) * (theta + 3.0) == 4.0 * e.aNorm
    ensures e.aNorm / 4.0 <= e.Factor(theta) <= e.aNorm
  {
    RayFactorTimesSquare(e, theta);
    FactorBetween(e.Factor(theta), theta + 3.0, e.aNorm);
  }

  lemma SquareBetween(d: real)
    requires 2.0 <= d < 4.0
    ensures 4.0 <= d * d < 16.0
  {
    MulMonotone(2.0, d, d);
    MulMonotone(2.0, d, 2.0);
    MulStrict(d, 4.0, d);
    MulStrict(d, 4.0, 4.0);
  }

  /** If f d^2 = 4 A with 2 <= d < 4 and A >= 0, then f lies between A / 4 and A. */
  lemma FactorBetween(f: real, d: real, A: real)
    requires f * d * d == 4.0 * A && 2.0 <= d < 4.0 && A >= 0.0
    ensures A / 4.0 <= f <= A
  {
    SquareBetween(d);
    var q := d * d;
    assert f * q == 4.0 * A;
    MulMonotone(4.0, q, A);
    MulCancel(f, A, q);
    MulMonotone(q, 16.0, A / 4.0);
    MulCancel(A / 4.0, f, q);
  }

  // ---------------------------------------------------------------------------
  // Tessellation

  /**
    The number of pieces tessellate_line cuts a segment of length `len` into:
    the least whole number of `resolution`-sized steps that covers it.
  */
  function PieceCount(len: real, resolution: real): (count: nat)
    requires len >= 0.0 && resolution > 0.0
    ensures len / resolution <= count as real < len / resolution + 1.0
    ensures count == 0 <==> len == 0.0
  {
    if len == 0.0 then 0
    else
      QuotientPositive(len, resolution);
      Ceil(len / resolution)
  }

  /** Each of the PieceCount pieces is no longer than the resolution. */
  lemma PieceLength(len: real, resolution: real)
    requires len >= 0.0 && resolution > 0.0
    ensures len > 0.0 ==> len / PieceCount(len, resolution) as real <= resolution
  {
    if len == 0.0 {
      return;
    }
    var n := PieceCount(len, resolution) as real;
    var x := len / resolution;
    assert x * resolution == len;
    MulMonotone(x, n, resolution);
    var q := len / n;
    assert q * n == len;
    assert q * n <= resolution * n;
    MulCancel(q, resolution, n);
  }

  /** The points at s and t along h from a are (t - s) h apart. */
  lemma SegmentDifference(a: Vec, h: Vec, s: real, t: real)
    ensures Sub(Add(a, Scale(t, h)), Add(a, Scale(s, h))) == Scale(t - s, h)
  {
    assert t * h.x - s * h.x == (t - s) * h.x;
    assert t * h.y - s * h.y == (t - s) * h.y;
  }

  /** Piece k runs over 1 / count of h, so its length is hNorm / count. */
  lemma PieceLengthNorm(a: Vec, h: Vec, hNorm: real, count: nat, k: nat)
    requires IsNorm(hNorm, h) && k < count
    ensures IsNorm(hNorm / count as real,
      Sub(Add(a, Scale((k + 1) as real / count as real, h)), Add(a, Scale(k as real / count as real, h))))
  {
    var N := count as real;
    SegmentDifference(a, h, k as real / N, (k + 1) as real / N);
    FractionStep(k as real, N);
    ScaleNorm(1.0 / N, hNorm, h);
    DivideByLength(hNorm, N);
  }

  /** The k-th of `count` equal pieces of the segment from a to a + h. */
  function Piece(a: Vec, h: Vec, hNorm: real, count: nat, k: nat, normal: Vec, isFault: bool, nNorm: real): (e: Element)
    requires IsNorm(hNorm, h) && IsNorm(nNorm, normal) && nNorm > 0.0
    requires k < count
    ensures e.Line? && e.WellFormed() && e.IsFault() == isFault
    ensures e.a == Add(a, Scale(k as real / count as real, h))
    ensures End(e) == Add(a, Scale((k + 1) as real / count as real, h))
    ensures e.hNorm == hNorm / count as real
    ensures e.n == Scale(1.0 / nNorm, normal)
  {
    var p := Add(a, Scale(k as real / count as real, h));
    var q := Add(a, Scale((k + 1) as real / count as real, h));
    PieceLengthNorm(a, h, hNorm, count, k);
    LineElement(p, q, normal, isFault, hNorm / count as real, nNorm)
  }

  /** The fractions 0/N and N/N of b - a, added to a, give a and b. */
  lemma ChainEnds(a: Vec, b: Vec, count: nat)
    requires count > 0
    ensures Add(a, Scale(count as real / count as real, Sub(b, a))) == b
    ensures Add(a, Scale(0 as real / count as real, Sub(b, a))) == a
  {
    var c := count as real;
    assert c / c == 1.0;
    assert 0.0 / c == 0.0;
  }

  /**
    tessellate_line(a, b, resolution, normal, is_fault): a chain of equal
    segments from a to b, each no longer than `resolution`, all with the same
    unit normal and fault flag.  `hNorm` is |b - a|, `nNorm` is |normal|.  A
    negative resolution gives a non-positive piece count and so no pieces.
  */
  function TessellateLine(a: Vec, b: Vec, resolution: real, normal: Vec, isFault: bool, hNorm: real, nNorm: real)
    : (mesh: seq<Element>)
    requires resolution != 0.0
    requires IsNorm(hNorm, Sub(b, a))
    requires IsNorm(nNorm, normal) && nNorm > 0.0
    ensures |mesh| == if resolution > 0.0 then PieceCount(hNorm, resolution) else 0
    ensures |mesh| == 0 <==> hNorm == 0.0 || resolution < 0.0
    ensures forall k :: 0 <= k < |mesh| ==> mesh[k] == Piece(a, Sub(b, a), hNorm, |mesh|, k, normal, isFault, nNorm)
    ensures |mesh| > 0 ==> mesh[0].Line? && mesh[0].a == a
    ensures |mesh| > 0 ==> mesh[|mesh| - 1].Line? && End(mesh[|mesh| - 1]) == b
    ensures forall k :: 0 <= k < |mesh| ==>
              && mesh[k].Line? && mesh[k].WellFormed()
              && mesh[k].IsFault() == isFault
              && mesh[k].n == Scale(1.0 / nNorm, normal)
              && mesh[k].hNorm <= resolution
    ensures forall k :: 0 <= k < |mesh| - 1 ==> End(mesh[k]) == mesh[k + 1].a
  {
    if resolution < 0.0 then []
    else
      var h := Sub(b, a);
      var count := PieceCount(hNorm, resolution);
      PieceLength(hNorm, resolution);
      if count > 0 then
        ChainEnds(a, b, count);
        seq(count, k requires 0 <= k < count => Piece(a, h, hNorm, count, k, normal, isFault, nNorm))
      else []
  }

  // ---------------------------------------------------------------------------
  // Fault counting

  /** The number of fault elements in the mesh. */
  function FaultCount(mesh: seq<Element>): (c: nat)
    ensures c <= |mesh|
  {
    if mesh == [] then 0
    else FaultCount(mesh[..|mesh| - 1]) + (if mesh[|mesh| - 1].IsFault() then 1 else 0)
  }

  /** The boundary indices of the fault elements. */
  function FaultSet(mesh: seq<Element>): set<nat>
  {
    set i: nat | i < |mesh| && mesh[i].IsFault()
  }

  /** FaultCount counts exactly the fault-flagged elements, so it lies between 0 and |mesh|. */
  lemma {:induction false} FaultCountIsCardinality(mesh: seq<Element>)
    ensures FaultCount(mesh) == |FaultSet(mesh)|
    ensures FaultCount(mesh) <= |mesh|
  {
    if mesh != [] {
      var n := |mesh| - 1;
      var prefix := mesh[..n];
      FaultCountIsCardinality(prefix);
      assert n !in FaultSet(prefix);
      if mesh[n].IsFault() {
        assert FaultSet(mesh) == FaultSet(prefix) + {n};
      } else {
        assert FaultSet(mesh) == FaultSet(prefix);
      }
    }
  }

  /** Counting the faults of a longer prefix never gives fewer. */
  lemma {:induction false} FaultCountMonotone(mesh: seq<Element>, i: nat)
    requires i <= |mesh|
    ensures FaultCount(mesh[..i]) <= FaultCount(mesh)
    decreases |mesh|
  {
    if i < |mesh| {
      var prefix := mesh[..|mesh| - 1];
      assert prefix[..i] == mesh[..i];
      FaultCountMonotone(prefix, i);
    } else {
      assert mesh[..i] == mesh;
    }
  }

  /** num_fault_elements(mesh): counts the fault elements in one pass. */
  method NumFaultElements(mesh: seq<Element>) returns (count: nat)
    ensures count == FaultCount(mesh)
  {
    count := 0;
    for i := 0 to |mesh|
      invariant count == FaultCount(mesh[..i])
    {
      assert mesh[..i + 1][..i] == mesh[..i];
      if mesh[i].IsFault() {
        count := count + 1;
      }
    }
    assert mesh[..|mesh|] == mesh;
  }

  // ---------------------------------------------------------------------------
  // Outward normal

  /** The quarter turn (x, y) |-> (-y, x) that the source performs by swapping components. */
  function QuarterTurn(v: Vec): (r: Vec)
    // r lies a positive (anticlockwise) quarter turn from v
    ensures Cross(v, r) == NormSq(v)
  {
    Vec(-v.y, v.x)
  }

  /** A quarter turn is perpendicular to the vector it turns and keeps its length. */
  lemma QuarterTurnIsometry(v: Vec)
    ensures Dot(QuarterTurn(v), v) == 0.0
    ensures NormSq(QuarterTurn(v)) == NormSq(v)
  {
  }

  /**
   * Rotating d by a quarter turn and dividing by its length len gives a unit vector
   * perpendicular to d whose inner product with c is Cross(d, c) / len.
   */
  lemma UnitQuarterTurn(d: Vec, c: Vec, len: real)
    requires IsNorm(len, d) && len > 0.0
    ensures Dot(Scale(1.0 / len, QuarterTurn(d)), d) == 0.0
    ensures NormSq(Scale(1.0 / len, QuarterTurn(d))) == 1.0
    ensures Dot(c, Scale(1.0 / len, QuarterTurn(d))) * len == Cross(d, c)
    ensures Cross(d, c) != 0.0 ==> Dot(c, Scale(1.0 / len, QuarterTurn(d))) != 0.0
  {
    var k := 1.0 / len;
    var q := QuarterTurn(d);
    QuarterTurnIsometry(d);
    assert Dot(Scale(k, q), d) == k * Dot(q, d);
    ScaleNormSq(k, q);
    InverseSquare(len);
    assert Dot(c, Scale(k, q)) == k * Cross(d, c);
    MulBoth(Dot(c, Scale(k, q)), k * Cross(d, c), len);
    assert k * len == 1.0;
    assert k * Cross(d, c) * len == Cross(d, c);
  }

  /**
   * Swaps the two components of d in a two-slot buffer, negating the new first one, and
   * divides both by len in place.
   */
  method RotateAndNormalize(d: Vec, len: real) returns (r: Vec)
    requires len > 0.0
    ensures r == Scale(1.0 / len, QuarterTurn(d))
  {
    var v := new real[2];
    v[0], v[1] := d.x, d.y;
    v[0], v[1] := -v[1], v[0];
    assert v[0] == -d.y && v[1] == d.x;
    v[0], v[1] := v[0] / len, v[1] / len;
    assert v[0] == -d.y / len && v[1] == d.x / len;
    DivideByLength(-d.y, len);
    DivideByLength(d.x, len);
    r := Vec(v[0], v[1]);
  }

  /**
   * The outward normal of the line from a to b: the unit vector perpendicular to b - a
   * (of length len) whose inner product with starCentre - a is not positive, and negative
   * when starCentre is off the line.
   */
  method LineNormal(a: Vec, b: Vec, starCentre: Vec, len: real) returns (normal: Vec)
    requires IsNorm(len, Sub(b, a)) && len > 0.0
    ensures Dot(normal, Sub(b, a)) == 0.0
    ensures NormSq(normal) == 1.0
    ensures Dot(Sub(starCentre, a), normal) <= 0.0
    ensures Cross(Sub(b, a), Sub(starCentre, a)) != 0.0 ==> Dot(Sub(starCentre, a), normal) < 0.0
  {
    var c := Sub(starCentre, a);
    var d := Sub(b, a);
    var rotated := RotateAndNormalize(d, len);
    UnitQuarterTurn(d, c, len);
    if Dot(c, rotated) < 0.0 {
      normal := rotated;
    } else {
      normal := Neg(rotated);
    }
  }
}
