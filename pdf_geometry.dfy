/** Page layout in viewer-content space at zoom 1: pages stacked top to
    bottom with a fixed spacing, each centred against the widest page.
    Float arithmetic is modelled with `real`. */
module PageLayout {

  /** A page's native size, as the page viewer reports it. */
  datatype PageSize = PageSize(width: real, height: real)

  /** The running maximum the layout keeps over the page widths, starting
      from 0: a width replaces it only when strictly larger. */
  function MaxWidth(sizes: seq<PageSize>): (r: real)
  {
    if sizes == [] then 0.0
    else
      var m := MaxWidth(sizes[..|sizes| - 1]);
      var w := sizes[|sizes| - 1].width;
      if w > m then w else m
  }

  /** The sum of the page heights. */
  function TotalHeight(sizes: seq<PageSize>): (r: real)
  {
    if sizes == [] then 0.0
    else TotalHeight(sizes[..|sizes| - 1]) + sizes[|sizes| - 1].height
  }

  /** Page `i`'s top offset: the first page is at the top and each page
      starts one page height plus one spacing below the previous one. */
  function TopOf(sizes: seq<PageSize>, i: nat, spacing: real): (r: real)
    requires i <= |sizes|
  {
    if i == 0 then 0.0 else TopOf(sizes, i - 1, spacing) + sizes[i - 1].height + spacing
  }

  /** The number of spacings below `n` pages, one per page. */
  function Spacings(n: nat, spacing: real): real
  {
    (n as real) * spacing
  }

  class PdfGeometry {
    const pageCount: nat
    const spacingPx: real
    const pageLeft: array<real>
    const pageTop: array<real>
    const pageWidth: array<real>
    const pageHeight: array<real>
    const contentWidth: real
    const contentHeight: real

    /** Every per-page array has one entry per page. */
    ghost predicate Valid()
    {
      pageLeft.Length == pageCount && pageTop.Length == pageCount &&
      pageWidth.Length == pageCount && pageHeight.Length == pageCount
    }

    /** Lays out the pages whose native sizes are `sizes`. */
    constructor (sizes: seq<PageSize>, spacingPx: real)
      ensures Valid() && pageCount == |sizes| && this.spacingPx == spacingPx
      ensures fresh(pageLeft) && fresh(pageTop) && fresh(pageWidth) && fresh(pageHeight)
      ensures forall i :: 0 <= i < pageCount ==>
                pageWidth[i] == sizes[i].width && pageHeight[i] == sizes[i].height
      ensures contentWidth == MaxWidth(sizes)
      ensures forall i :: 0 <= i < pageCount ==>
                pageLeft[i] == (contentWidth - pageWidth[i]) / 2.0
      ensures forall i :: 0 <= i < pageCount ==> pageTop[i] == TopOf(sizes, i, spacingPx)
      ensures contentHeight == TopOf(sizes, |sizes|, spacingPx) - spacingPx
    {
      var width, height, maxW := MeasurePages(sizes);
      var left, top, y := PlacePages(sizes, width, height, maxW, spacingPx);
      pageCount := |sizes|;
      this.spacingPx := spacingPx;
      pageLeft, pageTop, pageWidth, pageHeight := left, top, width, height;
      contentWidth := maxW;
      contentHeight := y - spacingPx;
    }
  }

  /** The layout's first pass: copies every page size into the width and
      height arrays and keeps the running maximum width. */
  method MeasurePages(sizes: seq<PageSize>) returns (width: array<real>, height: array<real>, maxW: real)
    ensures fresh(width) && fresh(height)
    ensures width.Length == |sizes| && height.Length == |sizes|
    ensures forall i :: 0 <= i < |sizes| ==> width[i] == sizes[i].width && height[i] == sizes[i].height
    ensures maxW == MaxWidth(sizes)
  {
    width := new real[|sizes|];
    height := new real[|sizes|];
    maxW := 0.0;
    for i := 0 to |sizes|
      invariant maxW == MaxWidth(sizes[..i])
      invariant forall j :: 0 <= j < i ==> width[j] == sizes[j].width && height[j] == sizes[j].height
    {
      var w := sizes[i].width;
      var h := sizes[i].height;
      width[i] := w;
      height[i] := h;
      assert sizes[..i + 1][..i] == sizes[..i];
      if w > maxW {
        maxW := w;
      }
    }
    assert sizes[..|sizes|] == sizes;
  }

  /** The layout's second pass: centres every page against the widest one
      and stacks the pages top to bottom; `y` ends one spacing below the
      last page. */
  method PlacePages(sizes: seq<PageSize>, width: array<real>, height: array<real>, maxW: real, spacing: real)
    returns (left: array<real>, top: array<real>, y: real)
    requires width.Length == |sizes| && height.Length == |sizes|
    requires forall i :: 0 <= i < |sizes| ==> height[i] == sizes[i].height
    ensures fresh(left) && fresh(top)
    ensures left.Length == |sizes| && top.Length == |sizes|
    ensures forall i :: 0 <= i < |sizes| ==> left[i] == (maxW - width[i]) / 2.0
    ensures forall i :: 0 <= i < |sizes| ==> top[i] == TopOf(sizes, i, spacing)
    ensures y == TopOf(sizes, |sizes|, spacing)
  {
    left := new real[|sizes|];
    top := new real[|sizes|];
    y := 0.0;
    for i := 0 to |sizes|
      invariant y == TopOf(sizes, i, spacing)
      invariant forall j :: 0 <= j < i ==> left[j] == (maxW - width[j]) / 2.0
      invariant forall j :: 0 <= j < i ==> top[j] == TopOf(sizes, j, spacing)
    {
      left[i] := (maxW - width[i]) / 2.0;
      top[i] := y;
      y := y + height[i] + spacing;
    }
  }

  /** The content width is never negative, is at least every page width,
      and is either 0 or the width of some page. */
  lemma {:induction false} MaxWidthIsMaximum(sizes: seq<PageSize>)
    ensures MaxWidth(sizes) >= 0.0
    ensures forall i :: 0 <= i < |sizes| ==> sizes[i].width <= MaxWidth(sizes)
    ensures MaxWidth(sizes) == 0.0 || exists i :: 0 <= i < |sizes| && sizes[i].width == MaxWidth(sizes)
  {
    if sizes != [] {
      var front := sizes[..|sizes| - 1];
      MaxWidthIsMaximum(front);
      assert forall i :: 0 <= i < |front| ==> sizes[i] == front[i];
    }
  }

  /** Every page's left offset is non-negative: no page sticks out to the
      left of the content canvas. */
  lemma PageLeftNonNegative(sizes: seq<PageSize>, i: nat)
    requires i < |sizes|
    ensures (MaxWidth(sizes) - sizes[i].width) / 2.0 >= 0.0
  {
    MaxWidthIsMaximum(sizes);
  }

  /** With non-negative widths, some page of a non-empty document is the
      widest and sits flush with the left edge. */
  lemma WidestPageFlush(sizes: seq<PageSize>)
    requires |sizes| > 0
    requires forall i :: 0 <= i < |sizes| ==> sizes[i].width >= 0.0
    ensures exists i :: 0 <= i < |sizes| && (MaxWidth(sizes) - sizes[i].width) / 2.0 == 0.0
  {
    MaxWidthIsMaximum(sizes);
    if MaxWidth(sizes) == 0.0 {
      assert sizes[0].width <= 0.0;
      assert (MaxWidth(sizes) - sizes[0].width) / 2.0 == 0.0;
    }
  }

  /** When every page has the same non-negative width, every left offset is 0. */
  lemma UniformWidthNoIndent(sizes: seq<PageSize>, w: real)
    requires w >= 0.0
    requires forall i :: 0 <= i < |sizes| ==> sizes[i].width == w
    ensures forall i :: 0 <= i < |sizes| ==> (MaxWidth(sizes) - sizes[i].width) / 2.0 == 0.0
  {
    MaxWidthIsMaximum(sizes);
    if |sizes| > 0 && MaxWidth(sizes) == 0.0 {
      assert sizes[0].width == w;
    }
  }

  /** Closed form of the top offsets: page `i` starts below the heights of
      the pages above it plus one spacing per page above it. */
  lemma {:induction false} TopClosedForm(sizes: seq<PageSize>, spacing: real, i: nat)
    requires i <= |sizes|
    ensures TopOf(sizes, i, spacing) == TotalHeight(sizes[..i]) + Spacings(i, spacing)
  {
    if i > 0 {
      TopClosedForm(sizes, spacing, i - 1);
      assert sizes[..i][..i - 1] == sizes[..i - 1];
      assert Spacings(i, spacing) == Spacings(i - 1, spacing) + spacing;
    }
  }

  /** Closed form of the content height: every page height plus one spacing
      between each adjacent pair; for no pages at all, minus one spacing. */
  lemma ContentHeightClosedForm(sizes: seq<PageSize>, spacing: real)
    ensures TopOf(sizes, |sizes|, spacing) - spacing ==
            TotalHeight(sizes) + Spacings(|sizes|, spacing) - spacing
    ensures |sizes| == 0 ==> TopOf(sizes, |sizes|, spacing) - spacing == -spacing
  {
    TopClosedForm(sizes, spacing, |sizes|);
    assert sizes[..|sizes|] == sizes;
  }

  /** The content height is the bottom edge of the last page. */
  lemma ContentHeightIsLastBottom(sizes: seq<PageSize>, spacing: real)
    requires |sizes| > 0
    ensures TopOf(sizes, |sizes|, spacing) - spacing ==
            TopOf(sizes, |sizes| - 1, spacing) + sizes[|sizes| - 1].height
  {
  }

  /** With non-negative heights and spacing, later pages start no higher
      than the bottom of earlier pages: pages never overlap. */
  lemma {:induction false} PagesDoNotOverlap(sizes: seq<PageSize>, spacing: real, i: nat, j: nat)
    requires i < j <= |sizes|
    requires spacing >= 0.0
    requires forall k :: 0 <= k < |sizes| ==> sizes[k].height >= 0.0
    ensures TopOf(sizes, j, spacing) >= TopOf(sizes, i, spacing) + sizes[i].height
    decreases j - i
  {
    if i < j - 1 {
      PagesDoNotOverlap(sizes, spacing, i, j - 1);
    }
  }

  /** A single 600 x 800 page: no indent, at the top, and the content is
      exactly that page, whatever the spacing. */
  method SinglePageScenario(spacingPx: real) returns (g: PdfGeometry)
    ensures g.pageCount == 1
    ensures g.pageLeft[..] == [0.0] && g.pageTop[..] == [0.0]
    ensures g.contentWidth == 600.0 && g.contentHeight == 800.0
  {
    var sizes := [PageSize(600.0, 800.0)];
    assert sizes[..0] == [];
    g := new PdfGeometry(sizes, spacingPx);
  }
}
