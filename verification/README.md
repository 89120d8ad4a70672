# IMDb comedy crawler — a Dafny model

This project models the crawl engine of a small reactive-streams web crawler (`index.js`).
The crawler pushes every URL it knows of into one subject. The subject's initial value is
the base URL `https://imdb.com`. A pipeline behind the subject does three things:

- it drops URLs that do not contain the base string;
- it normalizes the rest, removing the `ref` and `ref_` query parameters;
- it lets each normalized URL through only once (`distinct()`).

Every URL that gets through is fetched. Each fetched page goes to two subscribers:

- the link extractor resolves every non-empty `href` against the page's URL and pushes it
  back into the subject, which is what makes the crawl feed itself;
- the record matcher checks, in order, that the page is a movie, is tagged `Comedy` and is
  rated above 7; if all three hold, it appends the line `url, title\n` to the output file.

The model is a functional state machine:

- `Frontier.Crawl` is the state. It holds the offered values, the `distinct()` set, the
  admitted URLs, the pending fetches, the delivered pages, the output records and a
  "crawl has ended" flag.
- `Frontier.Offer` is one push into the subject.
- `Crawler.Process` is the delivery of one pending page.
- `Crawler.Run` folds a schedule of deliveries. Fetches may complete in any order, and the
  schedule chooses which pending page is delivered next.

The library calls are the fields of `Frontier.Env` and are left uninterpreted:

- normalize-url, `None` when it throws;
- Node's `url.resolve`, `None` when it throws;
- the HTTP request with HTML parsing, `None` when the request is rejected.

A parsed page is the record `Pages.Page` of the selector results the crawler reads.

Behaviour of the code worth knowing:

- Requests are neither retried nor delayed, and the number in flight is not capped.
- A rejected request, or a normalizer that throws, is not handled anywhere. Under RxJS's
  error semantics the error reaches both subscribers and tears the whole pipeline down,
  and the uncaught error ends the process. The model ends the crawl (`halted`). No record
  is written for the page whose link threw.
- A resolver that throws is caught inside the link subscriber only. That subscriber is torn
  down, and the remaining anchors of the page are not offered. The error is then reported
  as uncaught, which ends the process. The matcher is still subscribed, so it still sees
  that page. The model ends the crawl after the matcher has run.
- No property of normalization, such as idempotence, is assumed.
- The scope guard is a plain substring test against `https://imdb.com`, so a URL on
  another host that mentions it passes, and `https://www.imdb.com/...` does not.

## Model

| member | source | states |
|---|---|---|
| `Strings.Includes` | index.js:15 | `includes` holds iff the needle occurs at some index |
| `Frontier.InScope` | index.js:15 | a URL passes the scope guard iff the base string occurs in it at some index |
| `Pages.Links` | index.js:39-46 | the k-th link is the resolution, against the page URL, of the k-th anchor whose `href` is present and non-empty, in document order; the scan fails iff resolving one of them throws, and then stops at the first such anchor |
| `Matcher.Evaluate` | index.js:57-62 | the short-circuit chain matches iff every check holds; it stops at the first failing check, and the checks it evaluates are a prefix of the chain |
| `Matcher.MatchesIff` | index.js:50-62 | the chain's meaning over the page fields: a page matches iff its `og:type` content is exactly `video.movie`, `Comedy` occurs at some index of its subtext and its rating is a number above 7; a non-movie is rejected after one check, a non-comedy movie after two |
| `Sink.Line` | index.js:65 | the line is the URL, then `", "`, then the title, then a newline, at positions fixed by the field lengths |
| `Sink.ParseLineOfLine` | index.js:65 | the line `url, title\n` reads back as `(url, title)` whenever the URL has no `", "` in it |
| `Sink.LineOfParseLine` | index.js:65 | whatever reads back as a record is exactly that record's line |
| `Sink.ContentsConcat` | index.js:65 | the text appended for two runs of records is the text for the first followed by the text for the second |
| `Sink.ContentsPrefix` | index.js:65 | when the records only grow, the text asked to be appended only grows at its end |
| `Frontier.Offer` | index.js:13-20 | completeness: an in-scope URL whose normalization is new is admitted, added to the seen set and scheduled; soundness: nothing else is admitted; a throwing normalizer ends the crawl |
| `Frontier.OfferAll` | index.js:44-45 | a batch is offered in order; seen and admitted only grow; the crawl ends iff it had ended or some in-scope URL of the batch makes the normalizer throw |
| `Frontier.OfferAllCovers` | index.js:13-20 | after a batch that did not end the crawl, every in-scope URL of the batch has its normalization in the seen set |
| `Frontier.DuplicateOfferIgnored` | index.js:19 | two URLs that normalize the same are admitted at most once |
| `Frontier.OfferPreservesInv` | index.js:13-20 | one offer keeps the admission invariant: seen equals admitted, no duplicates, pending and delivered partition the admitted URLs, each admitted URL comes from an offered in-scope URL, and while the crawl goes on each offered in-scope URL is admitted |
| `Frontier.OfferAllPreservesInv` | index.js:39-46 | offering a page's links keeps the admission invariant |
| `Frontier.Init` | index.js:9-11 | the base URL is the first value offered; its normalization is the first URL admitted, or the crawl ends if normalization throws |
| `Crawler.Process` | index.js:22-68 | a delivered page offers its links, resolved against its own URL in document order, then gets one record iff it matches and none of its links made the normalizer throw; the appended text grows by exactly that line; a rejected request or a throwing resolver ends the crawl |
| `Crawler.ProcessPreservesInv` | index.js:22-68 | delivering a page keeps both invariants: it is delivered once, each record belongs to a distinct delivered page that matched, and while the crawl goes on each delivered page that matched has its record |
| `Crawler.Run` | index.js:22-35 | fetches complete in any order chosen by the schedule; every run starts from the seed's state, and each completion only extends the state before it |
| `Crawler.RunInv` | index.js:9-68 | both invariants hold after every schedule of deliveries |
| `Crawler.RunSeedFirst` | index.js:9-15 | for every schedule, the base URL is the first value offered and its normalization the first URL admitted |
| `Crawler.RunAdmitsOnlyInScope` | index.js:15-17 | for every schedule, each admitted URL is the normalization of an offered URL that contains the base string |
| `Crawler.RunAdmitsAllInScope` | index.js:11-47 | for every schedule, while the crawl goes on, every in-scope URL ever offered (the seed or a discovered link) has its normalization admitted |
| `Crawler.RunAdmitsOnce` | index.js:19 | for every schedule, no URL is admitted twice or pending twice, and the seen set is exactly the admitted URLs |
| `Crawler.RunFetchesOnce` | index.js:22-33 | for every schedule, each page is delivered at most once, only after admission, and is then no longer pending |
| `Crawler.RunOutputSound` | index.js:57-68 | for every schedule, each output record belongs to a distinct delivered page that passed the matcher, with that page's title |
| `Crawler.RunOutputComplete` | index.js:57-68 | for every schedule, while the crawl goes on, every delivered page that passed the matcher has its record |
| `Crawler.RunFileGrows` | index.js:63-68 | for every schedule, the appended text only grows at its end: a longer schedule only adds lines after those already asked for |
| `Crawler.RunGrows` | index.js:11-47 | a longer schedule only extends the offered values, the seen set, the admitted URLs, the delivered pages and the output |

## Left out

- The HTTP request (`rp`) and HTML parsing (cheerio) are network I/O and an external library. They are the function `Env.fetch` from a URL to an optional `Page`, which holds the selector results.
- The internals of normalize-url and of `url.resolve` are external libraries. They are the functions `Env.normalize` and `Env.resolve`; each may throw (`None`), and no other property of them is assumed.
- JavaScript's numeric coercion of the rating text (`+text`) is a float parse. `Page.rating` holds a finite result as an exact real and NaN as `None`; an infinite result (`+"Infinity"`, `+"1e400"`) is represented by any real on the same side of 7.
- The scheduling done by `mergeMap` and `share()` is concurrency. A schedule of deliveries replaces it, so any completion order is covered, but requests in flight are not modelled as such.
- `fs.appendFile` and `console.log` are file and console I/O. The output is the sequence of records in the order `appendFile` is called; the order in which the asynchronous appends land in the file is not modelled. `Sink.Contents` is the text this run asks to append, not the file itself: the `appendFile` callback ignores its error argument, so a failed write still logs `appended` and its line never reaches the file, and `comedy.txt` is appended to, never truncated, so lines left by earlier runs come before it.
- Termination of the crawl is unbounded by design. Only per-step invariants are proved.
- The process exit that follows an uncaught error is modelled only as the end of the crawl. After a resolver throws, the exit is deferred to a timer; a page whose fetch completes before it fires is still matched and written, though its links are not offered. The model ends the crawl at once, so such late records are not modelled.
