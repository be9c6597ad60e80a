/** The vector commit: strokes are grouped by page and appended to each page
    of the document as stroked paths, leaving the existing page content in
    place. The document is a list of crop-box sizes in, and one appended
    operator list per page out. */
module VectorFlattener {
  import opened InkStrokes
  import opened PdfContent
  import opened PageLayout
  import opened InkLedger

  /** Why a commit fails: the layout has no entry for a document page. */
  datatype CommitError = MissingGeometryPage(page: nat)

  datatype Result<T> = Ok(value: T) | Err(error: CommitError)

  // ---------------------------------------------------------------------
  // Bucketing

  /** Groups the strokes by page: bucket i holds the strokes on page i in
      their original order; strokes on no page of the document are dropped. */
  method GroupByPage(strokes: seq<Stroke>, pageCount: nat) returns (byPage: array<seq<Stroke>>)
    ensures fresh(byPage) && byPage.Length == pageCount
    ensures forall i :: 0 <= i < pageCount ==> byPage[i] == OnPage(strokes, i)
  {
    byPage := new seq<Stroke>[pageCount](_ => []);
    for k := 0 to |strokes|
      invariant forall i :: 0 <= i < pageCount ==> byPage[i] == OnPage(strokes[..k], i)
    {
      var s := strokes[k];
      assert strokes[..k + 1][..k] == strokes[..k];
      if s.pageIndex >= 0 && s.pageIndex < pageCount {
        byPage[s.pageIndex] := byPage[s.pageIndex] + [s];
      }
    }
    assert strokes[..|strokes|] == strokes;
  }

  /** A stroke reaches some bucket exactly when its page index is a page of
      the document, and then only its own page's bucket. */
  lemma BucketsKeepExactlyInRange(strokes: seq<Stroke>, pageCount: nat, s: Stroke)
    requires s in strokes
    ensures (exists i :: 0 <= i < pageCount && s in OnPage(strokes, i)) <==> 0 <= s.pageIndex < pageCount
    ensures forall i :: 0 <= i < pageCount && i != s.pageIndex ==> s !in OnPage(strokes, i)
  {
    OnPageMembers(strokes, s.pageIndex);
    if 0 <= s.pageIndex < pageCount {
      assert s in OnPage(strokes, s.pageIndex);
    }
    forall i | 0 <= i < pageCount
      ensures s in OnPage(strokes, i) <==> i == s.pageIndex
    {
      OnPageMembers(strokes, i);
    }
  }

  // ---------------------------------------------------------------------
  // Operators for one stroke and one page

  /** A stroke width in PDF units: the page-local width times the
      horizontal scale. */
  function ScaledWidth(width: real, sx: real): real
  {
    width * sx
  }

  /** The operators for one stroke: its colour, its line width scaled to the
      page, its path in PDF space, then one stroke-paint operator. */
  function StrokeOps(s: Stroke, t: Xform): (r: seq<Op>)
  {
    [SetStrokingRgb(s.paint.color), SetLineWidth(ScaledWidth(s.paint.strokeWidth, t.sx))]
    + PathOps(TransformPath(t, s.path), Start)
    + [StrokePath]
  }

  /** The operators for the strokes of one page, in painter's order. */
  function StrokesOps(bucket: seq<Stroke>, t: Xform): (r: seq<Op>)
  {
    if bucket == [] then []
    else StrokesOps(bucket[..|bucket| - 1], t) + StrokeOps(bucket[|bucket| - 1], t)
  }

  /** Everything appended to one page: round cap and join once, then each
      stroke. */
  function PageOps(bucket: seq<Stroke>, t: Xform): (r: seq<Op>)
  {
    [SetLineCap(RoundStyle), SetLineJoin(RoundStyle)] + StrokesOps(bucket, t)
  }

  /** Appends the operators for one page's strokes. */
  method EmitPage(bucket: seq<Stroke>, t: Xform) returns (ops: seq<Op>)
    ensures ops == PageOps(bucket, t)
  {
    ops := [SetLineCap(RoundStyle), SetLineJoin(RoundStyle)];
    for k := 0 to |bucket|
      invariant ops == PageOps(bucket[..k], t)
    {
      var s := bucket[k];
      ops := ops + [SetStrokingRgb(s.paint.color), SetLineWidth(ScaledWidth(s.paint.strokeWidth, t.sx))];
      var pathOps := EmitPath(TransformPath(t, s.path));
      ops := ops + pathOps + [StrokePath];
      assert bucket[..k + 1][..k] == bucket[..k];
      assert PageOps(bucket[..k + 1], t) == PageOps(bucket[..k], t) + StrokeOps(s, t);
    }
    assert bucket[..|bucket|] == bucket;
  }

  /** No path-construction operator is a paint or a state operator. */
  lemma PathOpsHaveNoPaint(segs: seq<Segment>, from: Cursor)
    ensures multiset(PathOps(segs, from))[StrokePath] == 0
    ensures multiset(PathOps(segs, from))[SetLineCap(RoundStyle)] == 0
    ensures multiset(PathOps(segs, from))[SetLineJoin(RoundStyle)] == 0
  {
    PathOpsShape(segs, from);
    var ops := PathOps(segs, from);
    forall k | 0 <= k < |ops|
      ensures ops[k] != StrokePath && ops[k] != SetLineCap(RoundStyle) && ops[k] != SetLineJoin(RoundStyle)
    {
      assert IsPathOp(ops[k]);
    }
  }

  /** One stroke yields its colour, its width times the horizontal scale, one
      path operator per segment, and exactly one stroke-paint operator, last. */
  lemma StrokeOpsShape(s: Stroke, t: Xform)
    ensures |StrokeOps(s, t)| == |s.path| + 3
    ensures StrokeOps(s, t)[0] == SetStrokingRgb(s.paint.color)
    ensures StrokeOps(s, t)[1] == SetLineWidth(ScaledWidth(s.paint.strokeWidth, t.sx))
    ensures forall k :: 2 <= k < |s.path| + 2 ==> IsPathOp(StrokeOps(s, t)[k])
    ensures StrokeOps(s, t)[|s.path| + 2] == StrokePath
  {
    var segs := TransformPath(t, s.path);
    PathOpsShape(segs, Start);
  }

  /** One stroke paints exactly once and never sets the cap or join. */
  lemma StrokeOpsCounts(s: Stroke, t: Xform)
    ensures multiset(StrokeOps(s, t))[StrokePath] == 1
    ensures multiset(StrokeOps(s, t))[SetLineCap(RoundStyle)] == 0
    ensures multiset(StrokeOps(s, t))[SetLineJoin(RoundStyle)] == 0
  {
    var path := PathOps(TransformPath(t, s.path), Start);
    PathOpsHaveNoPaint(TransformPath(t, s.path), Start);
    var head := [SetStrokingRgb(s.paint.color), SetLineWidth(ScaledWidth(s.paint.strokeWidth, t.sx))];
    assert StrokeOps(s, t) == head + path + [StrokePath];
    assert multiset(StrokeOps(s, t)) == multiset(head) + multiset(path) + multiset{StrokePath};
  }

  /** Each stroke's operators follow those of the strokes before it. */
  lemma {:induction false} StrokesOpsAppend(a: seq<Stroke>, b: seq<Stroke>, t: Xform)
    ensures StrokesOps(a + b, t) == StrokesOps(a, t) + StrokesOps(b, t)
  {
    if b == [] {
      assert a + b == a;
    } else {
      var b' := b[..|b| - 1];
      assert (a + b)[..|a + b| - 1] == a + b';
      StrokesOpsAppend(a, b', t);
    }
  }

  /** A page's operators open with round cap and join. */
  lemma PageOpsHeader(bucket: seq<Stroke>, t: Xform)
    ensures |PageOps(bucket, t)| >= 2
    ensures PageOps(bucket, t)[..2] == [SetLineCap(RoundStyle), SetLineJoin(RoundStyle)]
  {
  }

  /** The strokes of a page paint exactly once each and never set the cap
      or join. */
  lemma {:induction false} StrokesOpsCounts(bucket: seq<Stroke>, t: Xform)
    ensures multiset(StrokesOps(bucket, t))[StrokePath] == |bucket|
    ensures multiset(StrokesOps(bucket, t))[SetLineCap(RoundStyle)] == 0
    ensures multiset(StrokesOps(bucket, t))[SetLineJoin(RoundStyle)] == 0
  {
    if bucket != [] {
      var front := bucket[..|bucket| - 1];
      var last := bucket[|bucket| - 1];
      StrokesOpsCounts(front, t);
      StrokeOpsCounts(last, t);
      var before, added := StrokesOps(front, t), StrokeOps(last, t);
      assert multiset(StrokesOps(bucket, t)) == multiset(before) + multiset(added);
    }
  }

  /** A page sets round cap and join exactly once and paints exactly once
      per stroke of its bucket. */
  lemma PageOpsCounts(bucket: seq<Stroke>, t: Xform)
    ensures multiset(PageOps(bucket, t))[SetLineCap(RoundStyle)] == 1
    ensures multiset(PageOps(bucket, t))[SetLineJoin(RoundStyle)] == 1
    ensures multiset(PageOps(bucket, t))[StrokePath] == |bucket|
  {
    StrokesOpsCounts(bucket, t);
    var header := [SetLineCap(RoundStyle), SetLineJoin(RoundStyle)];
    assert multiset(PageOps(bucket, t)) == multiset(header) + multiset(StrokesOps(bucket, t));
  }

  // ---------------------------------------------------------------------
  // The commit

  /** Appends every stroke to its page. The layout is indexed by document
      page, so a layout with fewer pages than the document fails the whole
      commit at its first missing page. */
  method CommitInkByVectorAppend(cropBoxes: seq<PageSize>, geom: PdfGeometry, strokes: seq<Stroke>)
    returns (r: Result<seq<seq<Op>>>)
    requires geom.Valid()
    requires forall i :: 0 <= i < geom.pageCount && i < |cropBoxes| ==>
               geom.pageWidth[i] != 0.0 && geom.pageHeight[i] != 0.0
    ensures r.Err? <==> geom.pageCount < |cropBoxes|
    ensures r.Err? ==> r.error == MissingGeometryPage(geom.pageCount)
    ensures r.Ok? ==> |r.value| == |cropBoxes|
    ensures r.Ok? ==> forall i :: 0 <= i < |cropBoxes| ==>
              r.value[i] == PageOps(OnPage(strokes, i),
                                    PageXform(cropBoxes[i].width, cropBoxes[i].height,
                                              geom.pageWidth[i], geom.pageHeight[i]))
  {
    var pageCount := |cropBoxes|;
    var byPage := GroupByPage(strokes, pageCount);
    var pages: seq<seq<Op>> := [];
    for i := 0 to pageCount
      invariant |pages| == i && i <= geom.pageCount
      invariant forall j :: 0 <= j < pageCount ==> byPage[j] == OnPage(strokes, j)
      invariant forall j :: 0 <= j < i ==>
                  pages[j] == PageOps(OnPage(strokes, j),
                                      PageXform(cropBoxes[j].width, cropBoxes[j].height,
                                                geom.pageWidth[j], geom.pageHeight[j]))
    {
      if i >= geom.pageCount {
        return Err(MissingGeometryPage(i));
      }
      var t := PageXform(cropBoxes[i].width, cropBoxes[i].height,
                         geom.pageWidth[i], geom.pageHeight[i]);
      var ops := EmitPage(byPage[i], t);
      pages := pages + [ops];
    }
    r := Ok(pages);
  }

  /** The commit as the editor starts it: the layout is computed from the
      viewer's page sizes and the strokes are a copy of the ledger taken
      first; the ledger itself is not touched. */
  method FlattenSnapshot(ink: InkManager, viewSizes: seq<PageSize>, spacingPx: real,
                         cropBoxes: seq<PageSize>)
    returns (r: Result<seq<seq<Op>>>)
    requires forall i :: 0 <= i < |viewSizes| && i < |cropBoxes| ==>
               viewSizes[i].width != 0.0 && viewSizes[i].height != 0.0
    ensures r.Err? <==> |viewSizes| < |cropBoxes|
    ensures r.Ok? ==> |r.value| == |cropBoxes|
    ensures r.Ok? ==> forall i :: 0 <= i < |cropBoxes| ==>
              r.value[i] == PageOps(OnPage(ink.done, i),
                                    PageXform(cropBoxes[i].width, cropBoxes[i].height,
                                              viewSizes[i].width, viewSizes[i].height))
  {
    var geom := new PdfGeometry(viewSizes, spacingPx);
    var snapshot := ink.GetAll();
    r := CommitInkByVectorAppend(cropBoxes, geom, snapshot);
  }
}
