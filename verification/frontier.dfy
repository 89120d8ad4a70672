/**
 * The frontier: the subject every URL is pushed into and the admission pipeline behind it
 * (scope guard, normalization, `distinct()`).
 */
module Frontier {
  import opened Options
  import opened Seqs
  import opened Strings
  import opened Pages
  import opened Sink

  /** The site being crawled; it is both the seed and the scope boundary. */
  const BaseUrl := "https://imdb.com"

  /**
   * The library calls the crawler makes, taken as given functions:
   * `normalize` is normalize-url with the `ref` and `ref_` query parameters removed (`None` when it throws),
   * `resolve` is Node's `url.resolve` (`None` when it throws), and
   * `fetch` is the HTTP request plus parsing (`None` when the request is rejected).
   */
  datatype Env = Env(
    normalize: string -> Option<string>,
    resolve: (string, string) -> Option<string>,
    fetch: string -> Option<Page>)

  /**
   * The crawl state:
   * `offered` every value pushed into the subject, in order;
   * `seen` the set `distinct()` keeps of the normalized URLs it has let through;
   * `emitted` those URLs in the order they were let through;
   * `pending` admitted URLs whose page has not been delivered yet;
   * `processed` URLs whose page was delivered to the subscribers, in order;
   * `out` the records appended to the output file, in order;
   * `halted` an error has reached the end of the pipeline, which tore every subscription down.
   */
  datatype Crawl = Crawl(
    offered: seq<string>,
    seen: set<string>,
    emitted: seq<string>,
    pending: seq<string>,
    processed: seq<string>,
    out: seq<Record>,
    halted: bool)

  /** The scope guard: a URL is crawled iff the base string occurs in it somewhere. */
  predicate InScope(raw: string)
    ensures InScope(raw) <==> exists i: nat :: OccursAt(raw, BaseUrl, i)
  {
    Includes(raw, BaseUrl)
  }

  /** Offering `raw` makes the normalizer throw. */
  predicate Throws(env: Env, raw: string) {
    InScope(raw) && env.normalize(raw).None?
  }

  /** Some URL of `raws` makes the normalizer throw. */
  predicate AnyThrows(env: Env, raws: seq<string>) {
    exists k :: 0 <= k < |raws| && Throws(env, raws[k])
  }

  /** `raw` passes the scope guard and normalizes to `u`. */
  predicate Yields(env: Env, raw: string, u: string) {
    InScope(raw) && env.normalize(raw) == Some(u)
  }

  /** Offering `raw` in state `c` lets `u` through `distinct()`. */
  predicate Admits(env: Env, c: Crawl, raw: string, u: string) {
    !c.halted && Yields(env, raw, u) && u !in c.seen
  }

  /**
   * `allUrl$.next(raw)`: the value runs through the scope guard, normalization and
   * `distinct()`; a URL that gets through is scheduled for fetching. A throwing normalizer
   * ends the crawl; once the crawl has ended, nothing is admitted any more.
   */
  function Offer(env: Env, c: Crawl, raw: string): (r: Crawl)
    ensures r.offered == c.offered + [raw]
    ensures r.processed == c.processed && r.out == c.out
    ensures r.halted <==> c.halted || Throws(env, raw)
    ensures forall u :: Admits(env, c, raw, u) ==>
              r.seen == c.seen + {u} && r.emitted == c.emitted + [u] && r.pending == c.pending + [u]
    ensures (forall u :: !Admits(env, c, raw, u)) ==>
              r.seen == c.seen && r.emitted == c.emitted && r.pending == c.pending
  {
    if c.halted || !InScope(raw) then c.(offered := c.offered + [raw])
    else
      match env.normalize(raw)
      case None => c.(offered := c.offered + [raw], halted := true)
      case Some(u) =>
        if u in c.seen then c.(offered := c.offered + [raw])
        else c.(offered := c.offered + [raw], seen := c.seen + {u},
                emitted := c.emitted + [u], pending := c.pending + [u])
  }

  /** Offers `raws` one after another, in order. */
  function OfferAll(env: Env, c: Crawl, raws: seq<string>): (r: Crawl)
    ensures r.offered == c.offered + raws
    ensures r.processed == c.processed && r.out == c.out
    ensures c.seen <= r.seen && IsPrefix(c.emitted, r.emitted)
    ensures c.halted ==> r == c.(offered := c.offered + raws)
    ensures r.halted <==> c.halted || AnyThrows(env, raws)
    decreases |raws|
  {
    if |raws| == 0 then c
    else
      assert forall k :: 1 <= k < |raws| ==> raws[k] == raws[1..][k - 1];
      assert AnyThrows(env, raws) <==> Throws(env, raws[0]) || AnyThrows(env, raws[1..]);
      OfferAll(env, Offer(env, c, raws[0]), raws[1..])
  }

  /** After a batch of offers that did not end the crawl, every in-scope URL of the batch has been let through at some point. */
  lemma {:induction false} OfferAllCovers(env: Env, c: Crawl, raws: seq<string>)
    requires !OfferAll(env, c, raws).halted
    ensures forall k :: 0 <= k < |raws| && InScope(raws[k]) ==>
              env.normalize(raws[k]).Some? && env.normalize(raws[k]).value in OfferAll(env, c, raws).seen
    decreases |raws|
  {
    if |raws| > 0 {
      var c' := Offer(env, c, raws[0]);
      OfferAllCovers(env, c', raws[1..]);
      assert forall k :: 1 <= k < |raws| ==> raws[k] == raws[1..][k - 1];
    }
  }

  /** Two offers that normalize to the same URL admit it at most once. */
  lemma DuplicateOfferIgnored(env: Env, c: Crawl, a: string, b: string, u: string)
    requires Yields(env, a, u) && Yields(env, b, u)
    ensures Offer(env, Offer(env, c, a), b).emitted == Offer(env, c, a).emitted
    ensures u !in c.seen && !c.halted ==> Offer(env, Offer(env, c, a), b).emitted == c.emitted + [u]
  {
    assert Admits(env, c, a, u) ==> !Admits(env, Offer(env, c, a), b, u);
  }

  /**
   * The admission invariant: `seen` holds exactly the emitted URLs; no URL is emitted twice;
   * each emitted URL is either pending or processed, never both, and pending has no repeats;
   * every seen URL is the normalization of an in-scope URL that was offered, and while the crawl
   * has not ended every offered in-scope URL has its normalization seen; the seed was offered
   * first and its normalization, if any, was the first URL emitted.
   */
  ghost predicate FrontierInv(env: Env, c: Crawl) {
    && (forall u :: u in c.seen <==> u in c.emitted)
    && NoDups(c.emitted)
    && NoDups(c.pending)
    && (forall u :: u in c.emitted <==> u in c.pending || u in c.processed)
    && (forall u :: u in c.pending ==> u !in c.processed)
    && (forall u :: u in c.seen ==> exists raw :: raw in c.offered && Yields(env, raw, u))
    && (!c.halted ==> forall raw :: raw in c.offered && InScope(raw) ==>
          env.normalize(raw).Some? && env.normalize(raw).value in c.seen)
    && |c.offered| > 0 && c.offered[0] == BaseUrl
    && match env.normalize(BaseUrl)
       case None => c.halted && c.emitted == []
       case Some(n) => |c.emitted| > 0 && c.emitted[0] == n
  }

  lemma OfferPreservesInv(env: Env, c: Crawl, raw: string)
    requires FrontierInv(env, c)
    ensures FrontierInv(env, Offer(env, c, raw))
  {
    var r := Offer(env, c, raw);
    if u :| Admits(env, c, raw, u) {
      assert r.emitted == c.emitted + [u];
      assert r.offered[0] == c.offered[0];
      assert raw in r.offered;
    } else {
      assert r.offered[0] == c.offered[0];
    }
  }

  lemma {:induction false} OfferAllPreservesInv(env: Env, c: Crawl, raws: seq<string>)
    requires FrontierInv(env, c)
    ensures FrontierInv(env, OfferAll(env, c, raws))
    decreases |raws|
  {
    if |raws| > 0 {
      OfferPreservesInv(env, c, raws[0]);
      OfferAllPreservesInv(env, Offer(env, c, raws[0]), raws[1..]);
    }
  }

  /** The empty state before the subject is subscribed to. */
  const Empty := Crawl([], {}, [], [], [], [], false)

  /**
   * Subscribing makes the subject emit its initial value, the base URL: it is the first
   * value offered, it is in scope, so its normalization is the first URL admitted.
   */
  function Init(env: Env): (r: Crawl)
    ensures r.offered == [BaseUrl]
    ensures env.normalize(BaseUrl).Some? ==>
              !r.halted && r.emitted == [env.normalize(BaseUrl).value] && r.pending == r.emitted
    ensures env.normalize(BaseUrl).None? ==> r.halted && r.emitted == []
    ensures FrontierInv(env, r)
  {
    IncludesItself(BaseUrl);
    var r := Offer(env, Empty, BaseUrl);
    assert BaseUrl in r.offered;
    r
  }
}
