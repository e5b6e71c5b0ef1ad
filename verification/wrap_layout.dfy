/** The catalogue's `WrapLayout`: a flow layout whose size calculation wraps
    the cards into rows no wider than the container. Components are given
    with the size the caller asked for (preferred or minimum) already
    chosen; a container width of 0 means "not laid out yet" and is treated
    as unbounded. */
module WrapLayout {
  import opened Wrappers

  datatype Item = Item(visible: bool, width: int, height: int)
  datatype Insets = Insets(top: int, left: int, bottom: int, right: int)
  datatype Size = Size(width: int, height: int)

  /** The loop's running state: the pen position in the current row, the
      current row's height, and the widest row so far. */
  datatype Flow = Flow(x: int, y: int, rowHeight: int, maxRowWidth: int)

  function Max(a: int, b: int): int {
    if a >= b then a else b
  }

  predicate NonNegative(items: seq<Item>) {
    forall i :: 0 <= i < |items| ==> items[i].width >= 0 && items[i].height >= 0
  }

  predicate ValidFlow(f: Flow) {
    f.x >= 0 && f.rowHeight >= 0 && f.maxRowWidth >= 0
  }

  /** One pass of the loop: an invisible component is skipped; a visible one
      starts a new row when it would overrun the available width and the row
      is not empty, then is placed at the pen. */
  function Place(f: Flow, it: Item, hgap: int, vgap: int, avail: Option<int>): (r: Flow)
    requires ValidFlow(f) && it.width >= 0 && it.height >= 0 && hgap >= 0 && vgap >= 0
    ensures ValidFlow(r)
    ensures !it.visible ==> r == f
    ensures it.visible ==> it.width <= r.maxRowWidth && f.maxRowWidth <= r.maxRowWidth
    ensures it.visible ==> f.y + it.height <= r.y + r.rowHeight
    ensures f.y <= r.y && f.y + f.rowHeight <= r.y + r.rowHeight
    ensures avail.None? ==> r.y == f.y
  {
    if !it.visible then f
    else
      var wrap := avail.Some? && f.x + it.width + hgap > avail.value && f.x > 0;
      var x0 := if wrap then 0 else f.x;
      var y0 := if wrap then f.y + vgap + f.rowHeight else f.y;
      var row0 := if wrap then 0 else f.rowHeight;
      var x1 := x0 + it.width + hgap;
      Flow(x1, y0, Max(row0, it.height), Max(f.maxRowWidth, x1 - hgap))
  }

  /** The loop over the container's components, in order. */
  function FlowAll(f: Flow, items: seq<Item>, hgap: int, vgap: int, avail: Option<int>): (r: Flow)
    requires ValidFlow(f) && NonNegative(items) && hgap >= 0 && vgap >= 0
    ensures ValidFlow(r)
    ensures f.maxRowWidth <= r.maxRowWidth && f.y <= r.y && f.y + f.rowHeight <= r.y + r.rowHeight
    ensures avail.None? ==> r.y == f.y
    decreases |items|
  {
    if |items| == 0 then f
    else
      var g := Place(f, items[0], hgap, vgap, avail);
      FlowAll(g, items[1..], hgap, vgap, avail)
  }

  /** The width a component row may use: the container width less the side
      insets, or no bound while the container has no width yet. */
  function Available(insets: Insets, targetWidth: int): Option<int> {
    if targetWidth == 0 then None else Some(targetWidth - (insets.left + insets.right))
  }

  /** `layoutSize` with the pen starting at `startY`: the widest row plus the
      side insets, and the bottom of the last row plus the vertical insets. */
  function LayoutSizeFrom(items: seq<Item>, insets: Insets, hgap: int, vgap: int, targetWidth: int, startY: int): Size
    requires NonNegative(items) && hgap >= 0 && vgap >= 0
  {
    var f := FlowAll(Flow(0, startY, 0, 0), items, hgap, vgap, Available(insets, targetWidth));
    Size(f.maxRowWidth + insets.left + insets.right, f.y + f.rowHeight + insets.top + insets.bottom)
  }

  /** `layoutSize` as written: the pen starts below the top inset, and the
      top inset is added again with the vertical insets at the end. */
  function LayoutSizeAsWritten(items: seq<Item>, insets: Insets, hgap: int, vgap: int, targetWidth: int): (r: Size)
    requires NonNegative(items) && hgap >= 0 && vgap >= 0
    ensures r.width >= insets.left + insets.right
    ensures r.height >= insets.top + insets.top + insets.bottom
  {
    LayoutSizeFrom(items, insets, hgap, vgap, targetWidth, insets.top)
  }

  /** `layoutSize` with the top inset counted once. */
  function LayoutSize(items: seq<Item>, insets: Insets, hgap: int, vgap: int, targetWidth: int): (r: Size)
    requires NonNegative(items) && hgap >= 0 && vgap >= 0
    ensures r.width >= insets.left + insets.right
    ensures r.height >= insets.top + insets.bottom
  {
    LayoutSizeFrom(items, insets, hgap, vgap, targetWidth, 0)
  }

  /** Every visible component fits in the flow's final extent: no wider than
      the widest row, and no lower than the bottom of the last row. */
  lemma {:induction false} FlowFits(f: Flow, items: seq<Item>, hgap: int, vgap: int, avail: Option<int>)
    requires ValidFlow(f) && NonNegative(items) && hgap >= 0 && vgap >= 0
    ensures var g := FlowAll(f, items, hgap, vgap, avail);
      && ValidFlow(g)
      && f.maxRowWidth <= g.maxRowWidth
      && f.y <= g.y
      && f.y + f.rowHeight <= g.y + g.rowHeight
      && forall i :: 0 <= i < |items| && items[i].visible ==>
           items[i].width <= g.maxRowWidth && f.y + items[i].height <= g.y + g.rowHeight
    decreases |items|
  {
    if |items| > 0 {
      var p := Place(f, items[0], hgap, vgap, avail);
      FlowFits(p, items[1..], hgap, vgap, avail);
      var g := FlowAll(f, items, hgap, vgap, avail);
      forall i | 0 <= i < |items| && items[i].visible
        ensures items[i].width <= g.maxRowWidth && f.y + items[i].height <= g.y + g.rowHeight
      {
        if i > 0 {
          assert items[1..][i - 1] == items[i];
        }
      }
    }
  }

  /** The computed size holds every visible component, insets included. */
  lemma LayoutHoldsItems(items: seq<Item>, insets: Insets, hgap: int, vgap: int, targetWidth: int)
    requires NonNegative(items) && hgap >= 0 && vgap >= 0
    ensures var s := LayoutSize(items, insets, hgap, vgap, targetWidth);
      forall i :: 0 <= i < |items| && items[i].visible ==>
        && items[i].width + insets.left + insets.right <= s.width
        && items[i].height + insets.top + insets.bottom <= s.height
  {
    FlowFits(Flow(0, 0, 0, 0), items, hgap, vgap, Available(insets, targetWidth));
  }

  /** The visible components' total advance (width plus gap each), their
      count, and the tallest of them: a reference for the single-row case. */
  function Span(items: seq<Item>, hgap: int): int
    decreases |items|
  {
    if |items| == 0 then 0
    else (if items[0].visible then items[0].width + hgap else 0) + Span(items[1..], hgap)
  }

  function VisibleCount(items: seq<Item>): nat
    decreases |items|
  {
    if |items| == 0 then 0
    else (if items[0].visible then 1 else 0) + VisibleCount(items[1..])
  }

  function Tallest(items: seq<Item>): int
    decreases |items|
  {
    if |items| == 0 then 0
    else Max(if items[0].visible then items[0].height else 0, Tallest(items[1..]))
  }

  lemma {:induction false} SpanBounds(items: seq<Item>, hgap: int)
    requires NonNegative(items) && hgap >= 0
    ensures Span(items, hgap) >= 0
    ensures VisibleCount(items) > 0 ==> Span(items, hgap) >= hgap
    ensures VisibleCount(items) == 0 ==> Span(items, hgap) == 0
    decreases |items|
  {
    if |items| > 0 {
      SpanBounds(items[1..], hgap);
    }
  }

  /** Without a width bound nothing wraps: the pen advances over every
      visible component on the first row. */
  lemma {:induction false} FlowUnbounded(f: Flow, items: seq<Item>, hgap: int, vgap: int)
    requires ValidFlow(f) && NonNegative(items) && hgap >= 0 && vgap >= 0
    ensures FlowAll(f, items, hgap, vgap, None) ==
      Flow(f.x + Span(items, hgap), f.y, Max(f.rowHeight, Tallest(items)),
           if VisibleCount(items) == 0 then f.maxRowWidth else Max(f.maxRowWidth, f.x + Span(items, hgap) - hgap))
    decreases |items|
  {
    if |items| > 0 {
      var p := Place(f, items[0], hgap, vgap, None);
      FlowUnbounded(p, items[1..], hgap, vgap);
      SpanBounds(items[1..], hgap);
      if items[0].visible {
        assert p == Flow(f.x + items[0].width + hgap, f.y, Max(f.rowHeight, items[0].height),
                         Max(f.maxRowWidth, f.x + items[0].width));
      }
    }
  }

  /** With container width 0 the layout is one row: as wide as the visible
      components and the gaps between them, as tall as the tallest one, plus
      the insets. */
  lemma LayoutUnbounded(items: seq<Item>, insets: Insets, hgap: int, vgap: int)
    requires NonNegative(items) && hgap >= 0 && vgap >= 0
    ensures LayoutSize(items, insets, hgap, vgap, 0) ==
      Size((if VisibleCount(items) == 0 then 0 else Span(items, hgap) - hgap) + insets.left + insets.right,
           Tallest(items) + insets.top + insets.bottom)
  {
    FlowUnbounded(Flow(0, 0, 0, 0), items, hgap, vgap);
    SpanBounds(items, hgap);
  }

  /** Where the pen starts vertically shifts the result and changes nothing
      else: wrapping depends only on widths. */
  lemma {:induction false} FlowShift(f: Flow, d: int, items: seq<Item>, hgap: int, vgap: int, avail: Option<int>)
    requires ValidFlow(f) && NonNegative(items) && hgap >= 0 && vgap >= 0
    ensures FlowAll(f.(y := f.y + d), items, hgap, vgap, avail) ==
      FlowAll(f, items, hgap, vgap, avail).(y := FlowAll(f, items, hgap, vgap, avail).y + d)
    decreases |items|
  {
    if |items| > 0 {
      var p := Place(f, items[0], hgap, vgap, avail);
      assert Place(f.(y := f.y + d), items[0], hgap, vgap, avail) == p.(y := p.y + d);
      FlowShift(p, d, items[1..], hgap, vgap, avail);
    }
  }

  /** As written, the height is the intended height plus the top inset again;
      the width is the same. */
  lemma AsWrittenCountsTopTwice(items: seq<Item>, insets: Insets, hgap: int, vgap: int, targetWidth: int)
    requires NonNegative(items) && hgap >= 0 && vgap >= 0
    ensures LayoutSizeAsWritten(items, insets, hgap, vgap, targetWidth) ==
      LayoutSize(items, insets, hgap, vgap, targetWidth).(height := LayoutSize(items, insets, hgap, vgap, targetWidth).height + insets.top)
  {
    FlowShift(Flow(0, 0, 0, 0), insets.top, items, hgap, vgap, Available(insets, targetWidth));
  }

  /** One visible 10x10 card in a container with a top inset of 5 and no
      width yet: the written calculation asks for 20 pixels of height where
      the card and its insets need 15. */
  lemma AsWrittenTopInsetExample()
    ensures LayoutSizeAsWritten([Item(true, 10, 10)], Insets(5, 0, 0, 0), 0, 0, 0) == Size(10, 20)
    ensures LayoutSize([Item(true, 10, 10)], Insets(5, 0, 0, 0), 0, 0, 0) == Size(10, 15)
  {
  }
}
