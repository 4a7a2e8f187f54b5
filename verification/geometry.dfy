/**
 The scroll percentage of a document (`getScrollPercent` in src/utils.ts).

 The hook reads `scrollTop` and `scrollHeight` from the root element
 (`documentElement`), falling back to `body` where the root reports zero, and
 `clientHeight` from the root alone. The percentage is
 `scrollTop / (scrollHeight - clientHeight) * 100`. Measurements are modelled
 as reals; the division is not guarded in the source, so a zero scrollable
 height (content exactly as tall as the viewport) has no real result and the
 model returns `None` there.
 */
module Geometry {
  import opened Wrappers

  /** The layout measurements of one element, in pixels. */
  datatype Element = Element(scrollTop: real, scrollHeight: real, clientHeight: real)

  /** The two candidate scrolling roots of a document. */
  datatype Document = Document(documentElement: Element, body: Element)

  /** JavaScript `a || b` on two numbers: `a` unless it is zero (NaN is not modelled). */
  function FirstNonZero(a: real, b: real): (r: real)
    ensures a != 0.0 ==> r == a
    ensures r == a || r == b
    ensures r == 0.0 <==> a == 0.0 && b == 0.0
  {
    if a != 0.0 then a else b
  }

  /** The scroll offset the hook uses: the root's, or the body's when the root's is zero. */
  function ScrollTop(doc: Document): (r: real)
    ensures doc.documentElement.scrollTop != 0.0 ==> r == doc.documentElement.scrollTop
    ensures r == doc.documentElement.scrollTop || r == doc.body.scrollTop
    ensures r == 0.0 <==> doc.documentElement.scrollTop == 0.0 && doc.body.scrollTop == 0.0
  {
    FirstNonZero(doc.documentElement.scrollTop, doc.body.scrollTop)
  }

  /** The content height the hook uses: the root's, or the body's when the root's is zero. */
  function ScrollHeight(doc: Document): (r: real)
    ensures doc.documentElement.scrollHeight != 0.0 ==> r == doc.documentElement.scrollHeight
    ensures r == doc.documentElement.scrollHeight || r == doc.body.scrollHeight
    ensures r == 0.0 <==> doc.documentElement.scrollHeight == 0.0 && doc.body.scrollHeight == 0.0
  {
    FirstNonZero(doc.documentElement.scrollHeight, doc.body.scrollHeight)
  }

  /** The viewport height, read from the root element only. */
  function ClientHeight(doc: Document): real {
    doc.documentElement.clientHeight
  }

  /** The distance the document can scroll: the denominator of the percentage. */
  function ScrollableHeight(doc: Document): real {
    ScrollHeight(doc) - ClientHeight(doc)
  }

  /** True iff `percent` is `scrollTop` expressed as a percentage of `scrollable`. */
  predicate IsPercentOf(percent: real, scrollTop: real, scrollable: real) {
    percent * scrollable == scrollTop * 100.0
  }

  /**
   `scrollTop / scrollable * 100`, or `None` when `scrollable` is zero and the
   source's division has no real result.
   */
  function Percent(scrollTop: real, scrollable: real): (r: Option<real>)
    ensures r.None? <==> scrollable == 0.0
    ensures r.Some? ==> IsPercentOf(r.value, scrollTop, scrollable)
  {
    if scrollable == 0.0 then None else Some(scrollTop / scrollable * 100.0)
  }

  /** The scroll percentage of `doc`, as `getScrollPercent` computes it. */
  function ScrollPercent(doc: Document): (r: Option<real>)
    ensures r.None? <==> ScrollHeight(doc) == ClientHeight(doc)
    ensures r.Some? ==> IsPercentOf(r.value, ScrollTop(doc), ScrollHeight(doc) - ClientHeight(doc))
  {
    Percent(ScrollTop(doc), ScrollableHeight(doc))
  }

  /** While the root element reports a non-zero offset, the body's offset is never consulted. */
  lemma BodyScrollTopIgnoredWhenRootScrolled(doc: Document, t: real)
    requires doc.documentElement.scrollTop != 0.0
    ensures ScrollPercent(doc.(body := doc.body.(scrollTop := t))) == ScrollPercent(doc)
  {
  }

  /** When the root element reports a zero offset, the body's offset is the one used. */
  lemma BodyScrollTopUsedWhenRootAtZero(doc: Document, t: real)
    requires doc.documentElement.scrollTop == 0.0
    ensures ScrollPercent(doc.(body := doc.body.(scrollTop := t))) == Percent(t, ScrollableHeight(doc))
  {
  }

  /** While the root element reports a non-zero content height, the body's height is never consulted. */
  lemma BodyScrollHeightIgnoredWhenRootSet(doc: Document, h: real)
    requires doc.documentElement.scrollHeight != 0.0
    ensures ScrollPercent(doc.(body := doc.body.(scrollHeight := h))) == ScrollPercent(doc)
  {
  }

  /** When the root element reports a zero content height, the body's height is the one used. */
  lemma BodyScrollHeightUsedWhenRootZero(doc: Document, h: real)
    requires doc.documentElement.scrollHeight == 0.0
    ensures ScrollPercent(doc.(body := doc.body.(scrollHeight := h)))
         == Percent(ScrollTop(doc), h - doc.documentElement.clientHeight)
  {
  }

  /** The body's viewport height never affects the percentage. */
  lemma BodyClientHeightNeverUsed(doc: Document, c: real)
    ensures ScrollPercent(doc.(body := doc.body.(clientHeight := c))) == ScrollPercent(doc)
  {
  }

  /** On a scrollable document an offset is one percentage of the height and no other. */
  lemma PercentIsUnique(percent: real, scrollTop: real, scrollable: real)
    requires scrollable != 0.0 && IsPercentOf(percent, scrollTop, scrollable)
    ensures forall p :: IsPercentOf(p, scrollTop, scrollable) ==> p == percent
  {
    forall p | IsPercentOf(p, scrollTop, scrollable)
      ensures p == percent
    {
      assert (p - percent) * scrollable == 0.0;
    }
  }

  /** At the top of a scrollable document the percentage is 0; at the bottom it is 100. */
  lemma PercentEndpoints(scrollable: real)
    requires scrollable != 0.0
    ensures Percent(0.0, scrollable) == Some(0.0)
    ensures Percent(scrollable, scrollable) == Some(100.0)
  {
  }

  /** On a document that can scroll down, scrolling further never lowers the percentage. */
  lemma PercentMonotone(t1: real, t2: real, scrollable: real)
    requires 0.0 < scrollable
    requires t1 <= t2
    ensures Percent(t1, scrollable).value <= Percent(t2, scrollable).value
  {
    var p1, p2 := Percent(t1, scrollable).value, Percent(t2, scrollable).value;
    assert p1 * scrollable <= p2 * scrollable;
  }

  /**
   A document scrolled to `percent` of its scrollable height, shaped like the
   hook's test fixture: root and body report the same content height and the
   same offset `percent / 100 * (scrollHeight - clientHeight)`; only the root
   has a viewport height.
   */
  function DocumentAt(percent: real, scrollHeight: real, clientHeight: real): Document {
    var top := percent / 100.0 * (scrollHeight - clientHeight);
    Document(Element(top, scrollHeight, clientHeight), Element(top, scrollHeight, 0.0))
  }

  /**
   Placing both roots at `percent` of the scrollable height reads back as
   `percent`, including at 0 where the root's zero offset falls back to the
   body's (also zero).
   */
  lemma DocumentAtRoundTrip(percent: real, scrollHeight: real, clientHeight: real)
    requires scrollHeight != clientHeight
    ensures ScrollPercent(DocumentAt(percent, scrollHeight, clientHeight)) == Some(percent)
  {
    var doc := DocumentAt(percent, scrollHeight, clientHeight);
    var scrollable := scrollHeight - clientHeight;
    assert ScrollableHeight(doc) == scrollable;
    var r := ScrollPercent(doc).value;
    assert r * scrollable == percent * scrollable;
  }
}
