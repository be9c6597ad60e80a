/** The vector side of a commit: the content-stream operators appended to a
    page (section 8.5.2 of ISO 32000-1 for path construction, section 8.5.3
    for the stroke-painting operator, section 8.4.3 for line width, cap and join, section 8.6.8 for the RGB
    stroking colour), the page transform from page-local coordinates to PDF
    user space, and the re-emission of a path's segments as operators. */
module PdfContent {
  import opened InkStrokes

  /** Line cap style 1 and line join style 1: round. */
  const RoundStyle := 1

  /** One content-stream operator. */
  datatype Op =
    | SetLineCap(cap: int)                      // J
    | SetLineJoin(join: int)                    // j
    | SetStrokingRgb(color: Rgb)                // RG
    | SetLineWidth(width: real)                 // w
    | MoveTo(p: Point)                          // m
    | LineTo(p: Point)                          // l
    | CurveTo(c1: Point, c2: Point, p: Point)   // c
    | ClosePath                                 // h
    | StrokePath                                // S

  /** The operators that construct a path. */
  predicate IsPathOp(op: Op)
  {
    op.MoveTo? || op.LineTo? || op.CurveTo? || op.ClosePath?
  }

  // ---------------------------------------------------------------------
  // Page transform

  /** Scale by (sx, -sy), then move up by the PDF page height: page-local
      coordinates (top-left origin, y down) become PDF user space
      coordinates (bottom-left origin, y up). */
  datatype Xform = Xform(sx: real, sy: real, pdfH: real)

  /** The scale factor along one axis: PDF extent over layout extent. */
  function Scale(pdfExtent: real, baseExtent: real): real
    requires baseExtent != 0.0
  {
    pdfExtent / baseExtent
  }

  /** The transform for a page whose crop box is pdfW x pdfH and whose
      layout size is baseW x baseH. */
  function PageXform(pdfW: real, pdfH: real, baseW: real, baseH: real): Xform
    requires baseW != 0.0 && baseH != 0.0
  {
    Xform(Scale(pdfW, baseW), Scale(pdfH, baseH), pdfH)
  }

  function Apply(t: Xform, p: Point): (r: Point)
  {
    Point(t.sx * p.x, t.pdfH - t.sy * p.y)
  }

  /** The inverse transform, from PDF user space back to page-local units. */
  function Unapply(t: Xform, q: Point): Point
    requires t.sx != 0.0 && t.sy != 0.0
  {
    Point(q.x / t.sx, (t.pdfH - q.y) / t.sy)
  }

  function TransformSegment(t: Xform, s: Segment): Segment
  {
    match s
    case Move(p) => Move(Apply(t, p))
    case Line(p) => Line(Apply(t, p))
    case Quadratic(q, p) => Quadratic(Apply(t, q), Apply(t, p))
    case Cubic(c1, c2, p) => Cubic(Apply(t, c1), Apply(t, c2), Apply(t, p))
    case Close => Close
  }

  function UntransformSegment(t: Xform, s: Segment): Segment
    requires t.sx != 0.0 && t.sy != 0.0
  {
    match s
    case Move(p) => Move(Unapply(t, p))
    case Line(p) => Line(Unapply(t, p))
    case Quadratic(q, p) => Quadratic(Unapply(t, q), Unapply(t, p))
    case Cubic(c1, c2, p) => Cubic(Unapply(t, c1), Unapply(t, c2), Unapply(t, p))
    case Close => Close
  }

  /** A path carried through the transform segment by segment. */
  function TransformPath(t: Xform, path: seq<Segment>): (r: seq<Segment>)
    ensures |r| == |path|
    ensures forall k :: 0 <= k < |path| ==> r[k] == TransformSegment(t, path[k])
  {
    seq(|path|, k requires 0 <= k < |path| => TransformSegment(t, path[k]))
  }

  /** The page's top-left corner lands on (0, pdfH) and its bottom-right
      corner on (pdfW, 0). Only the crop box's width and height enter the
      transform, so these are the crop box's corners only when its lower-left
      corner is the origin and the page is not rotated. */
  lemma PageCornersMap(pdfW: real, pdfH: real, baseW: real, baseH: real)
    requires baseW != 0.0 && baseH != 0.0
    ensures Apply(PageXform(pdfW, pdfH, baseW, baseH), Point(0.0, 0.0)) == Point(0.0, pdfH)
    ensures Apply(PageXform(pdfW, pdfH, baseW, baseH), Point(baseW, baseH)) == Point(pdfW, 0.0)
  {
  }

  /** The page transform is a bijection: the inverse undoes it both ways. */
  lemma TransformInverse(t: Xform, p: Point, q: Point)
    requires t.sx != 0.0 && t.sy != 0.0
    ensures Unapply(t, Apply(t, p)) == p
    ensures Apply(t, Unapply(t, q)) == q
  {
  }

  // ---------------------------------------------------------------------
  // Quadratic to cubic

  /** The point a fraction `f` of the way from `a` to `b`. */
  function Lerp(a: Point, b: Point, f: real): Point
  {
    Point(a.x + f * (b.x - a.x), a.y + f * (b.y - a.y))
  }

  /** The cubic control points of the quadratic p0, q, p2 raised by one
      degree: each lies two thirds of the way from an end point to q. */
  function Elevate(p0: Point, q: Point, p2: Point): (r: (Point, Point))
  {
    (Lerp(p0, q, 2.0 / 3.0), Lerp(p2, q, 2.0 / 3.0))
  }

  /** One coordinate of a quadratic Bezier curve at parameter t. */
  function Quad1(a: real, b: real, c: real, t: real): real
  {
    (1.0 - t) * (1.0 - t) * a + 2.0 * (1.0 - t) * t * b + t * t * c
  }

  /** One coordinate of a cubic Bezier curve at parameter t. */
  function Cubic1(a: real, b: real, c: real, d: real, t: real): real
  {
    (1.0 - t) * (1.0 - t) * (1.0 - t) * a + 3.0 * (1.0 - t) * (1.0 - t) * t * b
    + 3.0 * (1.0 - t) * t * t * c + t * t * t * d
  }

  function QuadAt(p0: Point, q: Point, p2: Point, t: real): Point
  {
    Point(Quad1(p0.x, q.x, p2.x, t), Quad1(p0.y, q.y, p2.y, t))
  }

  function CubicAt(p0: Point, c1: Point, c2: Point, p3: Point, t: real): Point
  {
    Point(Cubic1(p0.x, c1.x, c2.x, p3.x, t), Cubic1(p0.y, c1.y, c2.y, p3.y, t))
  }

  lemma ElevationExact1(a: real, b: real, c: real, t: real)
    ensures Cubic1(a, a + (2.0 / 3.0) * (b - a), c + (2.0 / 3.0) * (b - c), c, t) == Quad1(a, b, c, t)
  {
    var u := 1.0 - t;
    calc {
      Cubic1(a, a + (2.0 / 3.0) * (b - a), c + (2.0 / 3.0) * (b - c), c, t);
      u * u * u * a + u * u * t * (a + 2.0 * b) + u * t * t * (c + 2.0 * b) + t * t * t * c;
      u * u * a * (u + t) + 2.0 * u * t * b * (u + t) + t * t * c * (u + t);
      { assert u + t == 1.0; }
      u * u * a + 2.0 * u * t * b + t * t * c;
    }
  }

  /** The degree-elevated cubic traces exactly the quadratic it replaces. */
  lemma ElevationExact(p0: Point, q: Point, p2: Point, t: real)
    ensures CubicAt(p0, Elevate(p0, q, p2).0, Elevate(p0, q, p2).1, p2, t) == QuadAt(p0, q, p2, t)
  {
    ElevationExact1(p0.x, q.x, p2.x, t);
    ElevationExact1(p0.y, q.y, p2.y, t);
  }

  /** Elevating after the page transform gives the transformed elevation:
      converting in PDF space, as the flattener does, loses nothing. */
  lemma ElevationCommutesWithTransform(t: Xform, p0: Point, q: Point, p2: Point)
    ensures Elevate(Apply(t, p0), Apply(t, q), Apply(t, p2)) ==
            (Apply(t, Elevate(p0, q, p2).0), Apply(t, Elevate(p0, q, p2).1))
  {
    LerpScales(t.sx, t.sy, t.pdfH, p0.x, p0.y, q.x, q.y);
    LerpScales(t.sx, t.sy, t.pdfH, p2.x, p2.y, q.x, q.y);
    assert Lerp(Apply(t, p0), Apply(t, q), 2.0 / 3.0) == Apply(t, Lerp(p0, q, 2.0 / 3.0));
    assert Lerp(Apply(t, p2), Apply(t, q), 2.0 / 3.0) == Apply(t, Lerp(p2, q, 2.0 / 3.0));
  }

  /** Scaling and translating commute with taking two thirds of a step. */
  lemma LerpScales(sx: real, sy: real, h: real, px: real, py: real, qx: real, qy: real)
    ensures sx * px + (2.0 / 3.0) * (sx * qx - sx * px) == sx * (px + (2.0 / 3.0) * (qx - px))
    ensures (h - sy * py) + (2.0 / 3.0) * ((h - sy * qy) - (h - sy * py)) ==
            h - sy * (py + (2.0 / 3.0) * (qy - py))
  {
    assert sx * qx - sx * px == sx * (qx - px);
    assert (h - sy * qy) - (h - sy * py) == -sy * (qy - py);
  }

  // ---------------------------------------------------------------------
  // Segment re-emission

  /** What the emitter remembers between segments: the last end point and
      whether a move has been seen. */
  datatype Cursor = Cursor(last: Point, haveLast: bool)

  const Start := Cursor(Point(0.0, 0.0), false)

  /** The operator emitted for one segment. */
  function SegmentOp(s: Segment, c: Cursor): (r: Op)
  {
    match s
    case Move(p) => MoveTo(p)
    case Line(p) => LineTo(p)
    case Quadratic(q, p) =>
      if !c.haveLast then MoveTo(p)
      else
        var (c1, c2) := Elevate(c.last, q, p);
        CurveTo(c1, c2, p)
    case Cubic(c1, c2, p) => CurveTo(c1, c2, p)
    case Close => ClosePath
  }

  /** The cursor after one segment. */
  function Advance(s: Segment, c: Cursor): (r: Cursor)
  {
    match s
    case Move(p) => Cursor(p, true)
    case Line(p) => Cursor(p, c.haveLast)
    case Quadratic(_, p) => Cursor(p, c.haveLast)
    case Cubic(_, _, p) => Cursor(p, c.haveLast)
    case Close => c
  }

  function CursorAfter(segs: seq<Segment>, from: Cursor): (r: Cursor)
  {
    if segs == [] then from
    else Advance(segs[|segs| - 1], CursorAfter(segs[..|segs| - 1], from))
  }

  /** The operators emitted for a whole path, one per segment, in order. */
  function PathOps(segs: seq<Segment>, from: Cursor): (r: seq<Op>)
    ensures |r| == |segs|
  {
    if segs == [] then []
    else
      var front := segs[..|segs| - 1];
      PathOps(front, from) + [SegmentOp(segs[|segs| - 1], CursorAfter(front, from))]
  }

  /** Re-emits the segments of a transformed path as path-construction
      operators, converting quadratics to cubics. */
  method EmitPath(segs: seq<Segment>) returns (ops: seq<Op>)
    ensures ops == PathOps(segs, Start)
    ensures |ops| == |segs|
    ensures forall k :: 0 <= k < |ops| ==> IsPathOp(ops[k])
  {
    ops := [];
    var lastX, lastY := 0.0, 0.0;
    var haveLast := false;
    var k := 0;
    while k < |segs|
      invariant 0 <= k <= |segs|
      invariant ops == PathOps(segs[..k], Start)
      invariant Cursor(Point(lastX, lastY), haveLast) == CursorAfter(segs[..k], Start)
    {
      assert segs[..k + 1][..k] == segs[..k];
      match segs[k] {
        case Move(p) =>
          ops := ops + [MoveTo(p)];
          lastX, lastY, haveLast := p.x, p.y, true;
        case Line(p) =>
          ops := ops + [LineTo(p)];
          lastX, lastY := p.x, p.y;
        case Quadratic(q, p) =>
          if !haveLast {
            ops := ops + [MoveTo(p)];
            lastX, lastY := p.x, p.y;
          } else {
            var c1x := lastX + (2.0 / 3.0) * (q.x - lastX);
            var c1y := lastY + (2.0 / 3.0) * (q.y - lastY);
            var c2x := p.x + (2.0 / 3.0) * (q.x - p.x);
            var c2y := p.y + (2.0 / 3.0) * (q.y - p.y);
            ops := ops + [CurveTo(Point(c1x, c1y), Point(c2x, c2y), p)];
            lastX, lastY := p.x, p.y;
          }
        case Cubic(c1, c2, p) =>
          ops := ops + [CurveTo(c1, c2, p)];
          lastX, lastY := p.x, p.y;
        case Close =>
          ops := ops + [ClosePath];
      }
      k := k + 1;
    }
    assert segs[..|segs|] == segs;
    PathOpsShape(segs, Start);
  }

  /** One operator per segment, each a path-construction operator, the k-th
      emitted for the k-th segment from the cursor the earlier segments left. */
  lemma {:induction false} PathOpsShape(segs: seq<Segment>, from: Cursor)
    ensures |PathOps(segs, from)| == |segs|
    ensures forall k :: 0 <= k < |segs| ==> IsPathOp(PathOps(segs, from)[k])
    ensures forall k :: 0 <= k < |segs| ==>
              PathOps(segs, from)[k] == SegmentOp(segs[k], CursorAfter(segs[..k], from))
  {
    if segs != [] {
      var front := segs[..|segs| - 1];
      PathOpsShape(front, from);
      forall k | 0 <= k < |front|
        ensures segs[..k] == front[..k]
      {
      }
    }
  }

  /** The end point of the last segment that has one, or `from` when there
      is none: the current point a path leaves behind. */
  function LastEnd(segs: seq<Segment>, from: Point): (r: Point)
  {
    if segs == [] then from
    else if segs[|segs| - 1].Close? then LastEnd(segs[..|segs| - 1], from)
    else segs[|segs| - 1].to
  }

  /** The tracked current point is the end point of the last segment other
      than a close; control points never become the current point. */
  lemma {:induction false} CursorTracksEnd(segs: seq<Segment>, from: Cursor)
    ensures CursorAfter(segs, from).last == LastEnd(segs, from.last)
  {
    if segs != [] {
      CursorTracksEnd(segs[..|segs| - 1], from);
    }
  }

  /** Only a move sets the have-a-current-point flag. */
  lemma {:induction false} HaveLastOnlyFromMove(segs: seq<Segment>, from: Cursor)
    ensures CursorAfter(segs, from).haveLast <==>
            from.haveLast || exists k :: 0 <= k < |segs| && segs[k].Move?
  {
    if segs != [] {
      var front := segs[..|segs| - 1];
      HaveLastOnlyFromMove(front, from);
      assert forall k :: 0 <= k < |front| ==> segs[k] == front[k];
    }
  }

  /** Every segment other than a quadratic is emitted as the operator that
      reads back as that very segment: moves, lines and closes unchanged,
      cubic control points passed through unmodified. */
  lemma PassThrough(segs: seq<Segment>, from: Cursor, k: nat)
    requires k < |segs| && !segs[k].Quadratic?
    ensures IsPathOp(PathOps(segs, from)[k])
    ensures ReadSegment(PathOps(segs, from)[k]) == segs[k]
  {
    PathOpsShape(segs, from);
  }

  /** A quadratic that no move precedes is emitted as a move to its end
      point, not as a curve. */
  lemma QuadraticBeforeMove(segs: seq<Segment>, k: nat)
    requires k < |segs| && segs[k].Quadratic?
    requires forall j :: 0 <= j < k ==> !segs[j].Move?
    ensures PathOps(segs, Start)[k] == MoveTo(segs[k].to)
  {
    PathOpsShape(segs, Start);
    HaveLastOnlyFromMove(segs[..k], Start);
  }

  /** A quadratic after a move is emitted as the cubic whose control points
      are the elevation from the current point, ending at the same point. */
  lemma QuadraticAfterMove(segs: seq<Segment>, k: nat, m: nat)
    requires m < k < |segs| && segs[m].Move? && segs[k].Quadratic?
    ensures PathOps(segs, Start)[k] ==
            CurveTo(Elevate(LastEnd(segs[..k], Point(0.0, 0.0)), segs[k].ctrl, segs[k].to).0,
                    Elevate(LastEnd(segs[..k], Point(0.0, 0.0)), segs[k].ctrl, segs[k].to).1,
                    segs[k].to)
  {
    PathOpsShape(segs, Start);
    HaveLastOnlyFromMove(segs[..k], Start);
    assert segs[..k][m] == segs[m];
    CursorTracksEnd(segs[..k], Start);
  }

  // ---------------------------------------------------------------------
  // Reading the operators back

  /** The segment a path-construction operator describes. */
  function ReadSegment(op: Op): Segment
    requires IsPathOp(op)
  {
    match op
    case MoveTo(p) => Move(p)
    case LineTo(p) => Line(p)
    case CurveTo(c1, c2, p) => Cubic(c1, c2, p)
    case ClosePath => Close
  }

  /** A path read back from its operators and carried through the inverse
      transform. */
  function ReadBack(t: Xform, ops: seq<Op>): seq<Segment>
    requires t.sx != 0.0 && t.sy != 0.0
    requires forall k :: 0 <= k < |ops| ==> IsPathOp(ops[k])
  {
    seq(|ops|, k requires 0 <= k < |ops| => UntransformSegment(t, ReadSegment(ops[k])))
  }

  /** Round trip: a path without quadratics, transformed to PDF space and
      re-emitted, reads back through the inverse transform as the original
      path. (A quadratic comes back as the equivalent cubic; see
      ElevationExact.) */
  lemma RoundTrip(t: Xform, path: seq<Segment>)
    requires t.sx != 0.0 && t.sy != 0.0
    requires forall k :: 0 <= k < |path| ==> !path[k].Quadratic?
    ensures forall k :: 0 <= k < |path| ==> IsPathOp(PathOps(TransformPath(t, path), Start)[k])
    ensures ReadBack(t, PathOps(TransformPath(t, path), Start)) == path
  {
    var segs := TransformPath(t, path);
    PathOpsShape(segs, Start);
    var ops := PathOps(segs, Start);
    forall k | 0 <= k < |path|
      ensures UntransformSegment(t, ReadSegment(ops[k])) == path[k]
    {
      match path[k]
      case Move(p) => TransformInverse(t, p, p);
      case Line(p) => TransformInverse(t, p, p);
      case Quadratic(_, _) => assert false;
      case Cubic(c1, c2, p) =>
        TransformInverse(t, c1, c1);
        TransformInverse(t, c2, c2);
        TransformInverse(t, p, p);
      case Close =>
    }
  }
}
