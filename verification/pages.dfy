/** The parsed page, as far as the crawler reads it, and link extraction from it. */
module Pages {
  import opened Options

  /** An `<a>` element; `href` is its `href` attribute, `None` when absent. */
  datatype Anchor = Anchor(href: Option<string>)

  /**
   * What the crawler reads from one fetched page:
   * `anchors` every `<a>` element in document order;
   * `ogType` the `content` attribute of the first `[property='og:type']` element;
   * `subtext` the text of the `.title_wrapper .subtext` elements;
   * `rating` the number JavaScript's unary `+` makes of the `[itemprop="ratingValue"]` text,
   * `None` when that is NaN;
   * `title` the text of the `title` elements.
   */
  datatype Page = Page(
    anchors: seq<Anchor>,
    ogType: Option<string>,
    subtext: string,
    rating: Option<real>,
    title: string)

  /** `!href` is false: the attribute is present and not the empty string. */
  predicate Truthy(a: Anchor) {
    a.href.Some? && a.href.value != ""
  }

  /** The indices of the anchors with a truthy href: exactly those, in increasing order. */
  function Positions(anchors: seq<Anchor>): (P: seq<nat>)
    ensures forall k :: 0 <= k < |P| ==> P[k] < |anchors| && Truthy(anchors[P[k]])
    ensures forall k, l :: 0 <= k < l < |P| ==> P[k] < P[l]
    ensures forall j :: 0 <= j < |anchors| && Truthy(anchors[j]) ==> j in P
    decreases |anchors|
  {
    if |anchors| == 0 then []
    else
      var n := |anchors| - 1;
      var front := anchors[..n];
      var P' := Positions(front);
      assert forall j :: 0 <= j < n ==> anchors[j] == front[j];
      P' + (if Truthy(anchors[n]) then [n] else [])
  }

  /** The truthy positions of `anchors` are those of all but its last anchor, then the last one if truthy. */
  lemma PositionsStep(anchors: seq<Anchor>)
    requires |anchors| > 0
    ensures var n := |anchors| - 1; var P, P' := Positions(anchors), Positions(anchors[..n]);
      && (Truthy(anchors[n]) ==> |P| == |P'| + 1 && P[|P'|] == n)
      && (!Truthy(anchors[n]) ==> P == P')
      && (forall k :: 0 <= k < |P'| ==> P[k] == P'[k] && anchors[P'[k]] == anchors[..n][P'[k]])
  {
  }

  /** The URLs a page's link loop pushes back into the crawl, and whether `url.resolve` threw on the way. */
  datatype LinkScan = LinkScan(links: seq<string>, failed: bool)

  /**
   * The `$('a').each(...)` loop with `base` as the resolution base: anchors whose href is
   * missing or empty are skipped; the k-th link is the resolution of the k-th remaining
   * anchor, in document order. If resolving an href throws, the loop stops there: the scan
   * is `failed`, and the links are those of the anchors before it.
   */
  function Links(resolve: (string, string) -> Option<string>, base: string, anchors: seq<Anchor>): (r: LinkScan)
    ensures |r.links| <= |Positions(anchors)|
    ensures forall k :: 0 <= k < |r.links| ==>
              resolve(base, anchors[Positions(anchors)[k]].href.value) == Some(r.links[k])
    ensures r.failed <==> |r.links| < |Positions(anchors)|
    ensures r.failed ==> resolve(base, anchors[Positions(anchors)[|r.links|]].href.value).None?
    decreases |anchors|
  {
    if |anchors| == 0 then LinkScan([], false)
    else
      var n := |anchors| - 1;
      var front := anchors[..n];
      var s := Links(resolve, base, front);
      PositionsStep(anchors);
      if s.failed || !Truthy(anchors[n]) then s
      else
        match resolve(base, anchors[n].href.value)
        case None => LinkScan(s.links, true)
        case Some(l) => LinkScan(s.links + [l], false)
  }
}
