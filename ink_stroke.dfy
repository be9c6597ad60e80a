/** Ink strokes: the immutable record of one finished ink mark, and the
    page queries over an ordered list of strokes that both the ledger and
    the vector flattener use. */
module InkStrokes {

  /** A point in page-local units: origin at the page's own top-left corner,
      independent of zoom and scroll. */
  datatype Point = Point(x: real, y: real)

  /** One segment of a path, holding the coordinates the flattener reads for
      it, from the first slot of the iterator's point buffer on: a move's or
      a line's end point; a quadratic's control point, then its end point; a
      cubic's two control points, then its end point. The model assumes that
      these slots hold those points; it does not model the iterator that
      fills them. */
  datatype Segment =
    | Move(to: Point)
    | Line(to: Point)
    | Quadratic(ctrl: Point, to: Point)
    | Cubic(ctrl1: Point, ctrl2: Point, to: Point)
    | Close

  /** The colour channels the flattener extracts from a paint colour. */
  datatype Rgb = Rgb(red: int, green: int, blue: int)

  /** The stroke attributes the flattener reads: colour and line width. */
  datatype Paint = Paint(color: Rgb, strokeWidth: real)

  /** One finished stroke. A datatype value cannot be updated, which is the
      `final` of all three fields. */
  datatype Stroke = Stroke(path: seq<Segment>, paint: Paint, pageIndex: int)

  /** Creating a stroke stores the path, the paint and the page index as
      given; the page index is not range-checked. */
  function NewStroke(path: seq<Segment>, paint: Paint, pageIndex: int): (s: Stroke)
    ensures s.path == path && s.paint == paint && s.pageIndex == pageIndex
  {
    Stroke(path, paint, pageIndex)
  }

  /** The strokes of `strokes` that lie on page `p`, in their original order. */
  function OnPage(strokes: seq<Stroke>, p: int): (r: seq<Stroke>)
  {
    if strokes == [] then []
    else
      var last := strokes[|strokes| - 1];
      OnPage(strokes[..|strokes| - 1], p) + (if last.pageIndex == p then [last] else [])
  }

  /** The strokes of `strokes` that lie on any page other than `p`, in their
      original order. */
  function OffPage(strokes: seq<Stroke>, p: int): (r: seq<Stroke>)
  {
    if strokes == [] then []
    else
      var last := strokes[|strokes| - 1];
      OffPage(strokes[..|strokes| - 1], p) + (if last.pageIndex != p then [last] else [])
  }

  /** Selecting a page distributes over concatenation: the selection keeps
      the relative order of the strokes it keeps. */
  lemma {:induction false} OnPageAppend(a: seq<Stroke>, b: seq<Stroke>, p: int)
    ensures OnPage(a + b, p) == OnPage(a, p) + OnPage(b, p)
  {
    if b == [] {
      assert a + b == a;
    } else {
      var b' := b[..|b| - 1];
      assert (a + b)[..|a + b| - 1] == a + b';
      assert (a + b)[|a + b| - 1] == b[|b| - 1];
      OnPageAppend(a, b', p);
    }
  }

  /** The same for the complement. */
  lemma {:induction false} OffPageAppend(a: seq<Stroke>, b: seq<Stroke>, p: int)
    ensures OffPage(a + b, p) == OffPage(a, p) + OffPage(b, p)
  {
    if b == [] {
      assert a + b == a;
    } else {
      var b' := b[..|b| - 1];
      assert (a + b)[..|a + b| - 1] == a + b';
      assert (a + b)[|a + b| - 1] == b[|b| - 1];
      OffPageAppend(a, b', p);
    }
  }

  /** A stroke is selected for page `p` exactly when it is one of the strokes
      and lies on page `p`. */
  lemma {:induction false} OnPageMembers(strokes: seq<Stroke>, p: int)
    ensures forall s :: s in OnPage(strokes, p) <==> s in strokes && s.pageIndex == p
  {
    if strokes != [] {
      var front := strokes[..|strokes| - 1];
      OnPageMembers(front, p);
      assert strokes == front + [strokes[|strokes| - 1]];
    }
  }

  /** A stroke survives the removal of page `p` exactly when it is one of the
      strokes and lies on another page. */
  lemma {:induction false} OffPageMembers(strokes: seq<Stroke>, p: int)
    ensures forall s :: s in OffPage(strokes, p) <==> s in strokes && s.pageIndex != p
  {
    if strokes != [] {
      var front := strokes[..|strokes| - 1];
      OffPageMembers(front, p);
      assert strokes == front + [strokes[|strokes| - 1]];
    }
  }

  /** Page `p`'s strokes and the other strokes together are exactly the
      original strokes: none is created and none is lost. */
  lemma {:induction false} PagePartition(strokes: seq<Stroke>, p: int)
    ensures multiset(OnPage(strokes, p)) + multiset(OffPage(strokes, p)) == multiset(strokes)
    ensures |OnPage(strokes, p)| + |OffPage(strokes, p)| == |strokes|
  {
    if strokes != [] {
      var front := strokes[..|strokes| - 1];
      var last := strokes[|strokes| - 1];
      PagePartition(front, p);
      assert strokes == front + [last];
      assert multiset(strokes) == multiset(front) + multiset{last};
      if last.pageIndex == p {
        assert OnPage(strokes, p) == OnPage(front, p) + [last];
        assert OffPage(strokes, p) == OffPage(front, p) + [];
      } else {
        assert OnPage(strokes, p) == OnPage(front, p) + [];
        assert OffPage(strokes, p) == OffPage(front, p) + [last];
      }
    }
  }

  /** Removing page `p` leaves nothing on page `p` and every other page's
      strokes exactly as they were, in the same order. */
  lemma {:induction false} OffPageSelection(strokes: seq<Stroke>, p: int, q: int)
    ensures OnPage(OffPage(strokes, p), q) == if q == p then [] else OnPage(strokes, q)
  {
    if strokes != [] {
      var front := strokes[..|strokes| - 1];
      var last := strokes[|strokes| - 1];
      OffPageSelection(front, p, q);
      OnPageAppend(OffPage(front, p), if last.pageIndex != p then [last] else [], q);
    }
  }
}
