/**
 * The crawl as a state machine: the frontier feeds fetches, each delivered page feeds its
 * links back into the frontier and, if it passes the matcher, one line into the output file.
 * Fetches complete in any order; a schedule chooses which pending URL is delivered next.
 */
module Crawler {
  import opened Options
  import opened Seqs
  import opened Pages
  import opened Matcher
  import opened Sink
  import opened Frontier

  /**
   * Delivery of the page for the pending URL at index `i`. The link subscriber runs first:
   * every truthy href is resolved against the page's URL and offered, in document order.
   * Then the matcher writes one record iff the page passes the whole chain.
   * A rejected request ends the crawl. A normalizer that throws on one of the links errors
   * the whole pipeline: the crawl ends and the matcher, unsubscribed, writes nothing.
   * A resolver that throws stops the link loop and ends the crawl, but only the link
   * subscriber is torn down, so the matcher still sees the page. After the end, deliveries
   * are ignored.
   */
  function Process(env: Env, c: Crawl, i: nat): (r: Crawl)
    requires i < |c.pending|
    ensures c.halted ==> r == c
    ensures !c.halted && env.fetch(c.pending[i]).None? ==> r == c.(halted := true)
    ensures !c.halted && env.fetch(c.pending[i]).Some? ==>
              var u, p := c.pending[i], env.fetch(c.pending[i]).value;
              var scan := Links(env.resolve, u, p.anchors);
              && r.offered == c.offered + scan.links
              && r.processed == c.processed + [u]
              && (r.halted <==> scan.failed || AnyThrows(env, scan.links))
              && (if Matches(p) && !AnyThrows(env, scan.links)
                  then r.out == c.out + [Record(u, p.title)] && Contents(r.out) == Contents(c.out) + Line(Record(u, p.title))
                  else r.out == c.out)
    ensures IsPrefix(c.offered, r.offered) && c.seen <= r.seen && IsPrefix(c.emitted, r.emitted)
    ensures IsPrefix(c.processed, r.processed) && IsPrefix(c.out, r.out) && (c.halted ==> r.halted)
  {
    if c.halted then c
    else
      var u := c.pending[i];
      match env.fetch(u)
      case None => c.(halted := true)
      case Some(p) =>
        var fetched := c.(pending := Remove(c.pending, i), processed := c.processed + [u]);
        var scan := Links(env.resolve, u, p.anchors);
        var linked := OfferAll(env, fetched, scan.links);
        var ended := linked.(halted := linked.halted || scan.failed);
        if !linked.halted && Matches(p) then
          ContentsAppend(c.out, Record(u, p.title));
          ended.(out := ended.out + [Record(u, p.title)])
        else ended
  }

  /** A record was written for a page that was fetched, passed the matcher, and has that title. */
  predicate Produced(env: Env, rec: Record) {
    env.fetch(rec.url).Some? && Matches(env.fetch(rec.url).value) && rec.title == env.fetch(rec.url).value.title
  }

  /**
   * The delivery invariant: no page is delivered twice and every delivered page was fetched
   * successfully; every record belongs to a delivered page that passed the matcher and
   * carries its title, and no URL has two records; while the crawl has not ended, every
   * delivered page that passed the matcher has its record.
   */
  ghost predicate DeliveryInv(env: Env, c: Crawl) {
    && NoDups(c.processed)
    && (forall u :: u in c.processed ==> env.fetch(u).Some?)
    && (forall k :: 0 <= k < |c.out| ==> c.out[k].url in c.processed && Produced(env, c.out[k]))
    && (forall k, l :: 0 <= k < l < |c.out| ==> c.out[k].url != c.out[l].url)
    && (!c.halted ==> forall u :: u in c.processed && env.fetch(u).Some? && Matches(env.fetch(u).value) ==>
          Record(u, env.fetch(u).value.title) in c.out)
  }

  /** The crawl invariant: the admission invariant and the delivery invariant. */
  ghost predicate Inv(env: Env, c: Crawl) {
    FrontierInv(env, c) && DeliveryInv(env, c)
  }

  /**
   * The delivery invariant with the record of the just-delivered page `u` still owed:
   * `u` has no record yet, and every other delivered page that matched has its record.
   */
  ghost predicate DeliveryInvBut(env: Env, c: Crawl, u: string) {
    && u in c.processed
    && NoDups(c.processed)
    && (forall v :: v in c.processed ==> env.fetch(v).Some?)
    && (forall k :: 0 <= k < |c.out| ==> c.out[k].url in c.processed && Produced(env, c.out[k]))
    && (forall k, l :: 0 <= k < l < |c.out| ==> c.out[k].url != c.out[l].url)
    && (forall k :: 0 <= k < |c.out| ==> c.out[k].url != u)
    && (forall v :: v in c.processed && v != u && env.fetch(v).Some? && Matches(env.fetch(v).value) ==>
          Record(v, env.fetch(v).value.title) in c.out)
  }

  /** Taking the page out of `pending` and recording its delivery keeps the invariant, except for the page's own record. */
  lemma DeliverPreservesInv(env: Env, c: Crawl, i: nat)
    requires Inv(env, c) && i < |c.pending| && env.fetch(c.pending[i]).Some? && !c.halted
    ensures var d := c.(pending := Remove(c.pending, i), processed := c.processed + [c.pending[i]]);
      FrontierInv(env, d) && DeliveryInvBut(env, d, c.pending[i])
  {
    forall k | 0 <= k < |c.out|
      ensures c.out[k].url != c.pending[i]
    {
      assert c.out[k].url in c.processed;
    }
  }

  /** Ending the crawl or writing output does not disturb the admission invariant. */
  lemma FrontierInvIgnoresOutput(env: Env, c: Crawl, ends: bool, out: seq<Record>)
    requires FrontierInv(env, c)
    ensures FrontierInv(env, c.(halted := c.halted || ends, out := out))
  {
  }

  /** Writing the owed record of a page that matched settles the delivery invariant. */
  lemma RecordSettles(env: Env, c: Crawl, u: string)
    requires DeliveryInvBut(env, c, u) && Matches(env.fetch(u).value)
    ensures DeliveryInv(env, c.(out := c.out + [Record(u, env.fetch(u).value.title)]))
  {
  }

  /** No record is owed when the page did not match, or when the crawl has ended. */
  lemma NothingOwed(env: Env, c: Crawl, u: string)
    requires DeliveryInvBut(env, c, u) && (c.halted || !Matches(env.fetch(u).value))
    ensures DeliveryInv(env, c)
  {
  }

  /**
   * Delivering a page keeps the crawl invariant: the page moves from pending to delivered,
   * its links keep the admission invariant, and it gets its one record exactly when the
   * crawl goes on and it matched.
   */
  lemma ProcessPreservesInv(env: Env, c: Crawl, i: nat)
    requires Inv(env, c) && i < |c.pending|
    ensures Inv(env, Process(env, c, i))
  {
    if !c.halted && env.fetch(c.pending[i]).Some? {
      var u, p := c.pending[i], env.fetch(c.pending[i]).value;
      var fetched := c.(pending := Remove(c.pending, i), processed := c.processed + [u]);
      DeliverPreservesInv(env, c, i);
      var scan := Links(env.resolve, u, p.anchors);
      var linked := OfferAll(env, fetched, scan.links);
      OfferAllPreservesInv(env, fetched, scan.links);
      var ended := linked.(halted := linked.halted || scan.failed);
      assert DeliveryInvBut(env, ended, u);
      var r := Process(env, c, i);
      if !linked.halted && Matches(p) {
        assert r == ended.(out := ended.out + [Record(u, p.title)]);
        FrontierInvIgnoresOutput(env, linked, scan.failed, r.out);
        RecordSettles(env, ended, u);
      } else {
        assert r == ended;
        FrontierInvIgnoresOutput(env, linked, scan.failed, r.out);
        NothingOwed(env, ended, u);
      }
    }
  }

  /** One more schedule entry only extends the crawl. */
  predicate Extends(c: Crawl, r: Crawl) {
    && IsPrefix(c.offered, r.offered) && c.seen <= r.seen && IsPrefix(c.emitted, r.emitted)
    && IsPrefix(c.processed, r.processed) && IsPrefix(c.out, r.out) && (c.halted ==> r.halted)
  }

  lemma ExtendsReflexive(c: Crawl)
    ensures Extends(c, c)
  {
    PrefixTransitive(c.offered, c.offered, c.offered);
    assert c.emitted[..|c.emitted|] == c.emitted;
    assert c.processed[..|c.processed|] == c.processed;
    assert c.out[..|c.out|] == c.out;
  }

  lemma ExtendsTransitive(a: Crawl, b: Crawl, c: Crawl)
    requires Extends(a, b) && Extends(b, c)
    ensures Extends(a, c)
  {
    PrefixTransitive(a.offered, b.offered, c.offered);
    PrefixTransitive(a.emitted, b.emitted, c.emitted);
    PrefixTransitive(a.processed, b.processed, c.processed);
    PrefixTransitive(a.out, b.out, c.out);
  }

  /**
   * The state after a schedule: each entry picks the pending fetch that completes next;
   * an entry naming no pending fetch is a tick in which nothing completes. Every run starts
   * from the seed's state, and each entry only extends the state before it.
   */
  function Run(env: Env, schedule: seq<nat>): (r: Crawl)
    ensures Extends(Init(env), r)
    ensures |schedule| > 0 ==> Extends(Run(env, schedule[..|schedule| - 1]), r)
    decreases |schedule|
  {
    if |schedule| == 0 then
      ExtendsReflexive(Init(env));
      Init(env)
    else
      var c := Run(env, schedule[..|schedule| - 1]);
      var i := schedule[|schedule| - 1];
      var r := if i < |c.pending| then Process(env, c, i) else c;
      ExtendsTransitive(Init(env), c, r);
      r
  }

  lemma {:induction false} RunInv(env: Env, schedule: seq<nat>)
    ensures Inv(env, Run(env, schedule))
    decreases |schedule|
  {
    if |schedule| > 0 {
      var c := Run(env, schedule[..|schedule| - 1]);
      RunInv(env, schedule[..|schedule| - 1]);
      var i := schedule[|schedule| - 1];
      if i < |c.pending| {
        ProcessPreservesInv(env, c, i);
      }
    }
  }

  /** Whatever order fetches complete in, the base URL is the first value offered and its normalization the first URL admitted. */
  lemma {:induction false} RunSeedFirst(env: Env, schedule: seq<nat>)
    ensures |Run(env, schedule).offered| > 0 && Run(env, schedule).offered[0] == BaseUrl
    ensures env.normalize(BaseUrl).Some? ==>
              |Run(env, schedule).emitted| > 0 && Run(env, schedule).emitted[0] == env.normalize(BaseUrl).value
  {
    RunInv(env, schedule);
  }

  /** Only the normalization of an offered URL that passed the scope guard is ever admitted. */
  lemma {:induction false} RunAdmitsOnlyInScope(env: Env, schedule: seq<nat>)
    ensures forall u :: u in Run(env, schedule).emitted ==>
              exists raw :: raw in Run(env, schedule).offered && InScope(raw) && env.normalize(raw) == Some(u)
  {
    RunInv(env, schedule);
  }

  /**
   * The feedback loop misses nothing: while the crawl has not ended, every in-scope URL ever
   * offered (the seed or a link of a delivered page) has its normalization admitted.
   */
  lemma {:induction false} RunAdmitsAllInScope(env: Env, schedule: seq<nat>)
    ensures !Run(env, schedule).halted ==>
              forall raw :: raw in Run(env, schedule).offered && InScope(raw) ==>
                env.normalize(raw).Some? && env.normalize(raw).value in Run(env, schedule).seen
  {
    RunInv(env, schedule);
  }

  /** No normalized URL is admitted twice and none is pending twice, however often it is rediscovered. */
  lemma {:induction false} RunAdmitsOnce(env: Env, schedule: seq<nat>)
    ensures var c := Run(env, schedule);
      && (forall i, j :: 0 <= i < j < |c.emitted| ==> c.emitted[i] != c.emitted[j])
      && (forall i, j :: 0 <= i < j < |c.pending| ==> c.pending[i] != c.pending[j])
      && (forall u :: u in c.seen <==> u in c.emitted)
  {
    RunInv(env, schedule);
  }

  /** Every delivered page was admitted, is no longer pending, and was delivered once. */
  lemma {:induction false} RunFetchesOnce(env: Env, schedule: seq<nat>)
    ensures var c := Run(env, schedule);
      && (forall i, j :: 0 <= i < j < |c.processed| ==> c.processed[i] != c.processed[j])
      && (forall u :: u in c.processed ==> u in c.emitted && u !in c.pending)
  {
    RunInv(env, schedule);
  }

  /** Each output record belongs to a distinct delivered page that passed the matcher, with that page's title. */
  lemma {:induction false} RunOutputSound(env: Env, schedule: seq<nat>)
    ensures var c := Run(env, schedule);
      && (forall k :: 0 <= k < |c.out| ==> c.out[k].url in c.processed && Produced(env, c.out[k]))
      && (forall k, l :: 0 <= k < l < |c.out| ==> c.out[k].url != c.out[l].url)
  {
    RunInv(env, schedule);
  }

  /** While the crawl has not ended, every delivered page that passed the matcher has its record. */
  lemma {:induction false} RunOutputComplete(env: Env, schedule: seq<nat>)
    ensures var c := Run(env, schedule);
      !c.halted ==> forall u :: u in c.processed && env.fetch(u).Some? && Matches(env.fetch(u).value) ==>
        Record(u, env.fetch(u).value.title) in c.out
  {
    RunInv(env, schedule);
  }

  /** Appending one entry to a schedule only extends the crawl. */
  lemma RunStepExtends(env: Env, schedule: seq<nat>, i: nat)
    ensures Extends(Run(env, schedule), Run(env, schedule + [i]))
  {
    var s := schedule + [i];
    assert s[..|s| - 1] == schedule;
    var r := Run(env, s);
  }

  lemma AppendSplit(schedule: seq<nat>, more: seq<nat>)
    requires |more| > 0
    ensures schedule + more == (schedule + more[..|more| - 1]) + [more[|more| - 1]]
  {
  }

  /** A crawl only grows: offers, admissions, deliveries and output are all extended, never rewritten. */
  lemma {:induction false} RunGrows(env: Env, schedule: seq<nat>, more: seq<nat>)
    ensures Extends(Run(env, schedule), Run(env, schedule + more))
    decreases |more|
  {
    var c := Run(env, schedule);
    if |more| == 0 {
      assert schedule + more == schedule;
      ExtendsReflexive(c);
    } else {
      var front, last := more[..|more| - 1], more[|more| - 1];
      var s := schedule + front;
      RunGrows(env, schedule, front);
      var m := Run(env, s);
      RunStepExtends(env, s, last);
      var r := Run(env, s + [last]);
      ExtendsTransitive(c, m, r);
      AppendSplit(schedule, more);
    }
  }

  /** The appended text only grows at its end: a longer schedule only adds lines after those already asked for. */
  lemma RunFileGrows(env: Env, schedule: seq<nat>, more: seq<nat>)
    ensures IsPrefix(Contents(Run(env, schedule).out), Contents(Run(env, schedule + more).out))
  {
    RunGrows(env, schedule, more);
    ContentsPrefix(Run(env, schedule).out, Run(env, schedule + more).out);
  }
}
