/**
 * Runs of the script on small documents: a page is built, the scan and the
 * media events are driven by hand, and each method states what the page looks
 * like at the end.
 */
module Scenarios {
  import opened Resolver
  import opened Page

  /** A scan of a single node. */
  lemma ScanOne(n: Node, inFlight: set<string>, target: string -> Option<string>, base: nat, ls: map<nat, Listeners>)
    ensures Scan([n], inFlight, target, base) == [Step(n, inFlight, target, base)]
    ensures Accepted([n], inFlight, target) == if Accepts(n, inFlight, target) then 1 else 0
    ensures Accepts(n, inFlight, target) ==> Registered([n], inFlight, target, base, ls) == ls[base := Listeners(target(n.src).value, [0])]
  {
    assert [n][..0] == [];
    assert Accepted([], inFlight, target) == 0;
    assert Registered([], inFlight, target, base, ls) == ls;
  }

  /** A scan of two nodes. */
  lemma ScanTwo(a: Node, b: Node, inFlight: set<string>, target: string -> Option<string>, base: nat)
    ensures var ida := base + (if Accepts(a, inFlight, target) then 1 else 0);
            Scan([a, b], inFlight, target, base) == [Step(a, inFlight, target, base), Step(b, inFlight, target, ida)]
    ensures Accepted([a, b], inFlight, target) == (if Accepts(a, inFlight, target) then 1 else 0) + (if Accepts(b, inFlight, target) then 1 else 0)
  {
    var ns := [a, b];
    assert ns[..|ns| - 1] == [a] && ns[|ns| - 1] == b;
    ScanOne(a, inFlight, target, base, map[]);
    assert Accepted(ns, inFlight, target) == Accepted([a], inFlight, target) + (if Accepts(b, inFlight, target) then 1 else 0);
    var ida := base + Accepted([a], inFlight, target);
    assert Scan(ns, inFlight, target, base) == Scan([a], inFlight, target, base) + [Step(b, inFlight, target, ida)];
  }

  /** The error handlers of a video that has a single handler pair, with count `c`. */
  lemma ErrorsOne(inFlight: set<string>, vid: nat, url: string, c: nat)
    ensures AfterErrors(inFlight, url, [c]) == if c < MaxRetries then inFlight + {url} else inFlight - {url}
    ensures ScheduledRetries(vid, url, [c]) == if c < MaxRetries then [Timer(vid, url, c + 1)] else []
    ensures MaxRetries in [c] <==> c == MaxRetries
  {
    assert [c][..0] == [];
  }

  /** The error handlers, with one more handler of count `c` at the end. */
  lemma ErrorsSnoc(inFlight: set<string>, vid: nat, url: string, cs: seq<nat>, c: nat)
    ensures AfterErrors(inFlight, url, cs + [c]) ==
              if c < MaxRetries then AfterErrors(inFlight, url, cs) + {url} else AfterErrors(inFlight, url, cs) - {url}
    ensures ScheduledRetries(vid, url, cs + [c]) ==
              ScheduledRetries(vid, url, cs) + if c < MaxRetries then [Timer(vid, url, c + 1)] else []
  {
    assert (cs + [c])[..|cs|] == cs;
  }

  /** The error handlers of a video that has been retried once. */
  lemma ErrorsTwo(inFlight: set<string>, vid: nat, url: string)
    ensures AfterErrors(inFlight, url, [0, 1]) == inFlight + {url}
    ensures ScheduledRetries(vid, url, [0, 1]) == [Timer(vid, url, 1), Timer(vid, url, 2)]
    ensures MaxRetries !in [0, 1]
  {
    ErrorsOne(inFlight, vid, url, 0);
    ErrorsSnoc(inFlight, vid, url, [0], 1);
    assert [0] + [1] == [0, 1];
  }

  /** The error handlers of a video whose last retry carries the limit. */
  lemma ErrorsFour(inFlight: set<string>, vid: nat, url: string)
    ensures AfterErrors(inFlight, url, [0, 1, 1, 2]) == inFlight - {url}
    ensures ScheduledRetries(vid, url, [0, 1, 1, 2]) == [Timer(vid, url, 1), Timer(vid, url, 2), Timer(vid, url, 2)]
    ensures MaxRetries in [0, 1, 1, 2]
  {
    ErrorsTwo(inFlight, vid, url);
    ErrorsSnoc(inFlight, vid, url, [0, 1], 1);
    assert [0, 1] + [1] == [0, 1, 1];
    ErrorsSnoc(inFlight, vid, url, [0, 1, 1], 2);
    assert [0, 1, 1] + [2] == [0, 1, 1, 2];
  }

  /** A page holding one unflagged poster image of width 640, after its first scan. */
  method Scanned(src: string, url: string) returns (page: Page)
    requires ScanTarget(src) == Some(url)
    ensures fresh(page) && page.Valid()
    ensures page.nodes == [Video(0, url, true, Px(640), Percent(100), true)]
    ensures 0 in page.listeners && page.listeners[0] == Listeners(url, [0])
    ensures page.inFlight == {} && page.timers == [] && page.nextId == 1
  {
    var img := Img(src, false, 640, {});
    page := new Page([img]);
    ScanOne(img, {}, ScanTarget, 0, map[]);
    page.ReplacePosters();
  }

  /**
   * An image with poster `src`, whose video is `url`, fails to load once; the
   * retry timer fires and the second load succeeds: the video stays in place,
   * carries two handler pairs (counts 0 and 1), and its URL is no longer being
   * retried.
   */
  method RetryThenLoad(src: string, url: string) returns (video: Node, counts: seq<nat>, retrying: set<string>, pending: nat)
    requires ScanTarget(src) == Some(url)
    ensures video == Video(0, url, true, Px(640), Percent(100), true)
    ensures counts == [0, 1]
    ensures retrying == {}
    ensures pending == 0
  {
    var page := Scanned(src, url);
    FailOnce(page, url);
    page.FireLoaded(0);
    video := page.nodes[0];
    counts := page.listeners[0].counts;
    retrying := page.inFlight;
    pending := |page.timers|;
  }

  /** The page of `Scanned` after its video's first error: the URL is being retried and one retry is pending. */
  method FailFirst(page: Page, url: string)
    requires page.Valid() && page.nodes == [Video(0, url, true, Px(640), Percent(100), true)]
    requires 0 in page.listeners && page.listeners[0] == Listeners(url, [0])
    requires page.inFlight == {} && page.timers == []
    modifies page
    ensures page.Valid() && page.nodes == old(page.nodes) && page.listeners == old(page.listeners) && page.nextId == old(page.nextId)
    ensures page.inFlight == {url} && page.timers == [Timer(0, url, 1)]
  {
    ErrorsOne({}, 0, url, 0);
    page.FireError(0);
    assert page.timers == [] + [Timer(0, url, 1)];
  }

  /** The page of `Scanned` after one error and the retry it schedules. */
  method FailOnce(page: Page, url: string)
    requires page.Valid() && page.nodes == [Video(0, url, true, Px(640), Percent(100), true)]
    requires 0 in page.listeners && page.listeners[0] == Listeners(url, [0])
    requires page.inFlight == {} && page.timers == []
    modifies page
    ensures page.Valid() && page.nodes == old(page.nodes)
    ensures 0 in page.listeners && page.listeners[0] == Listeners(url, [0, 1])
    ensures page.inFlight == {url} && page.timers == []
  {
    FailFirst(page, url);
    page.FireTimer();
  }

  /** The page of `FailOnce` after its second error: both handler pairs run and each schedules a retry. */
  method FailAgain(page: Page, url: string)
    requires page.Valid() && page.nodes == [Video(0, url, true, Px(640), Percent(100), true)]
    requires 0 in page.listeners && page.listeners[0] == Listeners(url, [0, 1])
    requires page.inFlight == {url} && page.timers == []
    modifies page
    ensures page.Valid() && page.nodes == old(page.nodes) && page.listeners == old(page.listeners)
    ensures page.inFlight == {url} && page.timers == [Timer(0, url, 1), Timer(0, url, 2)]
  {
    ErrorsTwo({url}, 0, url);
    page.FireError(0);
  }

  /** The page of `FailOnce` after a second error and the two retries it schedules. */
  method FailTwice(page: Page, url: string)
    requires page.Valid() && page.nodes == [Video(0, url, true, Px(640), Percent(100), true)]
    requires 0 in page.listeners && page.listeners[0] == Listeners(url, [0, 1])
    requires page.inFlight == {url} && page.timers == []
    modifies page
    ensures page.Valid() && page.nodes == old(page.nodes)
    ensures 0 in page.listeners && page.listeners[0] == Listeners(url, [0, 1, 1, 2])
    ensures page.inFlight == {url} && page.timers == []
  {
    FailAgain(page, url);
    page.FireTimer();
    assert page.listeners[0] == Listeners(url, [0, 1, 1]) && page.timers == [Timer(0, url, 2)];
    page.FireTimer();
  }

  /**
   * The video keeps failing. Each retry adds a handler pair, and each error runs
   * every pair attached so far, so the second error schedules two retries. Once
   * the pair with count `MaxRetries` has run, the video is out of the document and
   * its URL is no longer being retried, though the earlier pairs of the same
   * error have queued three more reloads.
   */
  method RetriesRunOut(src: string, url: string) returns (nodes: seq<Node>, counts: seq<nat>, retrying: set<string>, pending: seq<Timer>)
    requires ScanTarget(src) == Some(url)
    ensures nodes == []
    ensures counts == [0, 1, 1, 2]
    ensures retrying == {}
    ensures pending == [Timer(0, url, 1), Timer(0, url, 2), Timer(0, url, 2)]
  {
    var page := Scanned(src, url);
    FailOnce(page, url);
    FailTwice(page, url);
    ErrorsFour({url}, 0, url);
    ghost var v := page.nodes[0];
    assert [v][..0] == [];
    page.FireError(0);
    nodes := page.nodes;
    counts := page.listeners[0].counts;
    retrying := page.inFlight;
    pending := page.timers;
  }

  /**
   * The page of `Scanned` after its video failed once, with a second image of
   * the same poster added by the site while the retry is pending.
   */
  method Retrying(src: string, url: string) returns (page: Page)
    requires ScanTarget(src) == Some(url)
    ensures fresh(page) && page.Valid()
    ensures page.nodes == [Video(0, url, true, Px(640), Percent(100), true), Img(src, false, 0, {})]
    ensures 0 in page.listeners && page.listeners[0] == Listeners(url, [0])
    ensures page.inFlight == {url} && page.timers == [Timer(0, url, 1)] && page.nextId == 1
  {
    page := Scanned(src, url);
    FailFirst(page, url);
    page.nodes := page.nodes + [Img(src, false, 0, {})];
  }

  /**
   * While the first video's URL is being retried, the site adds a second image
   * with the same poster: the scan passes it over. Once the first video has
   * loaded, the next scan replaces it with a video of its own.
   */
  method SkippedWhileRetrying(src: string, url: string) returns (skipped: Node, later: Node)
    requires ScanTarget(src) == Some(url)
    ensures skipped == Img(src, false, 0, {})
    ensures later == Video(1, url, true, Percent(100), Percent(100), true)
  {
    var page := Retrying(src, url);
    ghost var v := page.nodes[0];
    var img := page.nodes[1];
    ScanTwo(v, img, {url}, ScanTarget, 1);
    page.ReplacePosters();
    skipped := page.nodes[1];
    page.FireTimer();
    page.FireLoaded(0);
    assert page.inFlight == {} && page.nextId == 1;
    assert Step(img, {}, ScanTarget, 1) == Video(1, url, true, Percent(100), Percent(100), true);
    ScanTwo(v, img, {}, ScanTarget, 1);
    page.ReplacePosters();
    later := page.nodes[1];
  }

  /** `removeBlockers` on a page with an overlay and one ordinary container: only the container is left. */
  method BlockersRemoved() returns (nodes: seq<Node>)
    ensures nodes == [Element({"message"})]
  {
    var overlay := Element({OverlayClass});
    var message := Element({"message"});
    var page := new Page([overlay, message]);
    KeepAppendOne([], overlay, NotBlocker);
    KeepAppendOne([overlay], message, NotBlocker);
    assert [] + [overlay] == [overlay] && [overlay] + [message] == [overlay, message];
    page.RemoveBlockers();
    nodes := page.nodes;
  }

  /**
   * The video fails twice and the next load succeeds: it stays in the document
   * and its URL is no longer being retried, but the second error ran both handler
   * pairs, so one more retry, with count 2, is still pending.
   */
  method FailTwiceThenLoad(src: string, url: string) returns (video: Node, retrying: set<string>, pending: seq<Timer>)
    requires ScanTarget(src) == Some(url)
    ensures video == Video(0, url, true, Px(640), Percent(100), true)
    ensures retrying == {}
    ensures pending == [Timer(0, url, 2)]
  {
    var page := Scanned(src, url);
    FailOnce(page, url);
    FailAgain(page, url);
    page.FireTimer();
    page.FireLoaded(0);
    video := page.nodes[0];
    retrying := page.inFlight;
    pending := page.timers;
  }
}
