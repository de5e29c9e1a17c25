/**
 * The document side of the LPSG video unblocker: the scan that swaps poster
 * images for `<video>` elements, the retry handlers every video carries, and the
 * removal of the overlay elements that block playback.
 *
 * The document is a flat sequence of nodes in document order. Videos made by the
 * scan get an identity (`id`) so that handlers and pending timers can refer to a
 * video after it has been taken out of the document, as the closures of the
 * script do. Each call of `loadVideoWithRetry` attaches one more error/success
 * handler pair to its video (the `removeEventListener` calls before it never
 * match, because the handlers are fresh closures), so a video's handlers are
 * recorded as the sequence of retry counts of those calls, in attachment order.
 * `setTimeout` is a FIFO queue of pending retries; with one fixed delay, timers
 * fire in the order they were set.
 */
module Page {
  import opened Resolver

  /** `maxRetries` in `loadVideoWithRetry`. */
  const MaxRetries: nat := 2

  const BlockerClass: string := "video-easter-egg-blocker"
  const OverlayClass: string := "video-easter-egg-overlay"

  /** A CSS length as the script writes it into `style.width` / `style.maxWidth`. */
  datatype CssLength = Px(n: nat) | Percent(p: nat)

  /**
   * A node of the document: an image (with its `data-replaced` flag and its
   * `width` in pixels, 0 when unknown), a video made by the scan, or any other
   * element, of which only the classes matter.
   */
  datatype Node =
    | Img(src: string, replaced: bool, width: nat, classes: set<string>)
    | Video(id: nat, src: string, controls: bool, styleWidth: CssLength, styleMaxWidth: CssLength, replaced: bool)
    | Element(classes: set<string>)

  /** The handler pairs attached to one video: its URL and the retry count of each attaching call, oldest first. */
  datatype Listeners = Listeners(url: string, counts: seq<nat>)

  /** A pending `setTimeout` retry: reload video `video` and attach handlers with count `count`. */
  datatype Timer = Timer(video: nat, url: string, count: nat)

  // ---------------------------------------------------------------------------
  // The scan

  /**
   * The URL the scan would put in place of an image with this `src`: the
   * resolver's URL, unless it is a thumbnail URL.
   */
  function ScanTarget(src: string): Option<string> {
    match VideoUrl(src)
    case Some(url) => if IsThumbnailUrl(url) then None else Some(url)
    case None => None
  }

  /** The thumbnail exclusion never fires: the scan's target is exactly the resolver's URL. */
  lemma ScanTargetIsVideoUrl(src: string)
    ensures ScanTarget(src) == VideoUrl(src)
  {
    DerivedUrlNeverThumbnail(src);
  }

  /**
   * The image passes every test of the scan: not flagged, has a target, target not
   * being retried. The scan is stated for any way `target` of judging a `src`; the
   * page uses `ScanTarget`.
   */
  predicate Accepts(n: Node, inFlight: set<string>, target: string -> Option<string>) {
    && n.Img?
    && !n.replaced
    && target(n.src).Some?
    && target(n.src).value !in inFlight
  }

  /** The video that takes the place of image `img`. */
  function Replacement(img: Node, url: string, id: nat): Node
    requires img.Img?
  {
    Video(id, url, true, if img.width != 0 then Px(img.width) else Percent(100), Percent(100), true)
  }

  /** What the scan leaves at one position, given the id the next video would get. */
  function Step(n: Node, inFlight: set<string>, target: string -> Option<string>, id: nat): Node {
    if Accepts(n, inFlight, target) then Replacement(n, target(n.src).value, id) else n
  }

  /** How many of `ns` the scan accepts. */
  function Accepted(ns: seq<Node>, inFlight: set<string>, target: string -> Option<string>): (r: nat)
    ensures r <= |ns|
    decreases |ns|
  {
    if ns == [] then 0
    else Accepted(ns[..|ns| - 1], inFlight, target) + (if Accepts(ns[|ns| - 1], inFlight, target) then 1 else 0)
  }

  /** The document after a scan of `ns` that numbers its new videos from `base`. */
  function Scan(ns: seq<Node>, inFlight: set<string>, target: string -> Option<string>, base: nat): (r: seq<Node>)
    ensures |r| == |ns|
    decreases |ns|
  {
    if ns == [] then []
    else
      var init := ns[..|ns| - 1];
      Scan(init, inFlight, target, base) + [Step(ns[|ns| - 1], inFlight, target, base + Accepted(init, inFlight, target))]
  }

  /** The handler lists `ls` after a scan of `ns`: one more entry, a single pair with count 0, for each new video. */
  function Registered(ns: seq<Node>, inFlight: set<string>, target: string -> Option<string>, base: nat, ls: map<nat, Listeners>): map<nat, Listeners>
    decreases |ns|
  {
    if ns == [] then ls
    else
      var init := ns[..|ns| - 1];
      var n := ns[|ns| - 1];
      var before := Registered(init, inFlight, target, base, ls);
      if Accepts(n, inFlight, target) then before[base + Accepted(init, inFlight, target) := Listeners(target(n.src).value, [0])]
      else before
  }

  lemma AcceptedAppend(ns: seq<Node>, n: Node, inFlight: set<string>, target: string -> Option<string>)
    ensures Accepted(ns + [n], inFlight, target) == Accepted(ns, inFlight, target) + (if Accepts(n, inFlight, target) then 1 else 0)
  {
    assert (ns + [n])[..|ns|] == ns;
  }

  /** Position by position, the scan replaces exactly the accepted images, numbering videos in document order. */
  lemma {:induction false} ScanAt(ns: seq<Node>, inFlight: set<string>, target: string -> Option<string>, base: nat, i: nat)
    requires i < |ns|
    ensures Scan(ns, inFlight, target, base)[i] == Step(ns[i], inFlight, target, base + Accepted(ns[..i], inFlight, target))
    decreases |ns|
  {
    var init := ns[..|ns| - 1];
    if i < |ns| - 1 {
      ScanAt(init, inFlight, target, base, i);
      assert init[..i] == ns[..i];
    }
  }

  /** A node is left as it was exactly when the scan does not accept it. */
  lemma ScanLeavesUnaccepted(ns: seq<Node>, inFlight: set<string>, target: string -> Option<string>, base: nat, i: nat)
    requires i < |ns|
    ensures Scan(ns, inFlight, target, base)[i] == ns[i] <==> !Accepts(ns[i], inFlight, target)
  {
    ScanAt(ns, inFlight, target, base, i);
  }

  /**
   * An accepted image becomes, at the same position, a video of its target URL
   * with controls on, the image's pixel width (or 100% when it has none), a
   * maximum width of 100% and the replaced flag.
   */
  lemma ScanReplaces(ns: seq<Node>, inFlight: set<string>, target: string -> Option<string>, base: nat, i: nat)
    requires i < |ns| && Accepts(ns[i], inFlight, target)
    ensures var v := Scan(ns, inFlight, target, base)[i];
            && v.Video? && v.src == target(ns[i].src).value && v.controls && v.replaced
            && v.styleWidth == (if ns[i].width != 0 then Px(ns[i].width) else Percent(100))
            && v.styleMaxWidth == Percent(100)
            && v.id == base + Accepted(ns[..i], inFlight, target)
  {
    ScanAt(ns, inFlight, target, base, i);
  }

  /** An image whose target is being retried is skipped, whatever else holds of it. */
  lemma ScanSkipsInFlight(ns: seq<Node>, inFlight: set<string>, target: string -> Option<string>, base: nat, i: nat)
    requires i < |ns| && ns[i].Img? && target(ns[i].src).Some? && target(ns[i].src).value in inFlight
    ensures Scan(ns, inFlight, target, base)[i] == ns[i]
  {
    ScanAt(ns, inFlight, target, base, i);
  }

  /** Images earlier in the document get smaller ids: `Accepted` counts one more past every accepted image. */
  lemma {:induction false} AcceptedGrows(ns: seq<Node>, inFlight: set<string>, target: string -> Option<string>, i: nat, j: nat)
    requires i < j <= |ns| && Accepts(ns[i], inFlight, target)
    ensures Accepted(ns[..i], inFlight, target) < Accepted(ns[..j], inFlight, target)
    decreases j
  {
    assert ns[..j][..j - 1] == ns[..j - 1];
    if j - 1 > i {
      AcceptedGrows(ns, inFlight, target, i, j - 1);
    }
  }

  /**
   * The scan never consults an updated in-flight set, so two unflagged images with
   * the same target in one pass are both replaced, each by a video of its own.
   */
  lemma SameTargetBothReplaced(ns: seq<Node>, inFlight: set<string>, target: string -> Option<string>, base: nat, i: nat, j: nat)
    requires i < j < |ns|
    requires Accepts(ns[i], inFlight, target) && ns[j].Img? && !ns[j].replaced
    requires target(ns[j].src) == target(ns[i].src)
    ensures var r := Scan(ns, inFlight, target, base);
            && r[i].Video? && r[j].Video? && r[i].src == r[j].src && r[i].id < r[j].id
  {
    ScanAt(ns, inFlight, target, base, i);
    ScanAt(ns, inFlight, target, base, j);
    AcceptedGrows(ns, inFlight, target, i, j);
  }

  /** Nothing the scan leaves behind is accepted by a second scan with the same in-flight set. */
  lemma {:induction false} ScanLeavesNothing(ns: seq<Node>, inFlight: set<string>, target: string -> Option<string>, base: nat)
    ensures Accepted(Scan(ns, inFlight, target, base), inFlight, target) == 0
    decreases |ns|
  {
    if ns != [] {
      var init := ns[..|ns| - 1];
      ScanLeavesNothing(init, inFlight, target, base);
      var last := Step(ns[|ns| - 1], inFlight, target, base + Accepted(init, inFlight, target));
      AcceptedAppend(Scan(init, inFlight, target, base), last, inFlight, target);
    }
  }

  /** A scan that accepts nothing changes nothing and attaches nothing. */
  lemma {:induction false} ScanNoneAccepted(ns: seq<Node>, inFlight: set<string>, target: string -> Option<string>, base: nat, ls: map<nat, Listeners>)
    requires Accepted(ns, inFlight, target) == 0
    ensures Scan(ns, inFlight, target, base) == ns
    ensures Registered(ns, inFlight, target, base, ls) == ls
    decreases |ns|
  {
    if ns != [] {
      var init := ns[..|ns| - 1];
      ScanNoneAccepted(init, inFlight, target, base, ls);
      assert init + [ns[|ns| - 1]] == ns;
    }
  }

  /** Scanning the scan's own output again, with the same in-flight set, is a no-op: the scan is idempotent. */
  lemma ScanIdempotent(ns: seq<Node>, inFlight: set<string>, target: string -> Option<string>, base: nat, base': nat, ls: map<nat, Listeners>)
    ensures Scan(Scan(ns, inFlight, target, base), inFlight, target, base') == Scan(ns, inFlight, target, base)
    ensures Registered(Scan(ns, inFlight, target, base), inFlight, target, base', ls) == ls
  {
    ScanLeavesNothing(ns, inFlight, target, base);
    ScanNoneAccepted(Scan(ns, inFlight, target, base), inFlight, target, base', ls);
  }

  /**
   * The new videos get the ids `base .. base + Accepted - 1`, each with one handler
   * pair of count 0; every other entry is left as it was.
   */
  lemma {:induction false} RegisteredIds(ns: seq<Node>, inFlight: set<string>, target: string -> Option<string>, base: nat, ls: map<nat, Listeners>)
    ensures var r := Registered(ns, inFlight, target, base, ls);
            forall v :: v in r <==> v in ls || base <= v < base + Accepted(ns, inFlight, target)
    ensures var r := Registered(ns, inFlight, target, base, ls);
            forall v :: base <= v < base + Accepted(ns, inFlight, target) ==> v in r && r[v].counts == [0]
    ensures var r := Registered(ns, inFlight, target, base, ls);
            forall v :: v in ls && !(base <= v < base + Accepted(ns, inFlight, target)) ==> r[v] == ls[v]
    decreases |ns|
  {
    if ns != [] {
      RegisteredIds(ns[..|ns| - 1], inFlight, target, base, ls);
    }
  }

  /** One more step of the scan loop: how the prefix functions grow by one node. */
  lemma ScanStep(doc: seq<Node>, inFlight: set<string>, target: string -> Option<string>, base: nat, ls: map<nat, Listeners>, i: nat)
    requires i < |doc|
    ensures var s := Step(doc[i], inFlight, target, base + Accepted(doc[..i], inFlight, target));
            && Scan(doc[..i + 1], inFlight, target, base) + doc[i + 1..] == (Scan(doc[..i], inFlight, target, base) + doc[i..])[i := s]
            && (Scan(doc[..i], inFlight, target, base) + doc[i..])[i] == doc[i]
    ensures Accepted(doc[..i + 1], inFlight, target) == Accepted(doc[..i], inFlight, target) + (if Accepts(doc[i], inFlight, target) then 1 else 0)
    ensures Registered(doc[..i + 1], inFlight, target, base, ls) ==
              if Accepts(doc[i], inFlight, target)
              then Registered(doc[..i], inFlight, target, base, ls)[base + Accepted(doc[..i], inFlight, target) := Listeners(target(doc[i].src).value, [0])]
              else Registered(doc[..i], inFlight, target, base, ls)
  {
    assert doc[..i + 1][..i] == doc[..i];
    var s := Step(doc[i], inFlight, target, base + Accepted(doc[..i], inFlight, target));
    var sc := Scan(doc[..i], inFlight, target, base);
    assert doc[i..] == [doc[i]] + doc[i + 1..];
    assert (sc + doc[i..])[i := s] == sc + [s] + doc[i + 1..];
  }

  /** The scan loop's invariants, advanced over the node at position `i`. */
  lemma ScanAdvance(doc: seq<Node>, inFlight: set<string>, target: string -> Option<string>, base: nat, ls: map<nat, Listeners>, i: nat)
    requires i < |doc|
    ensures var id := base + Accepted(doc[..i], inFlight, target);
            && Scan(doc[..i + 1], inFlight, target, base) + doc[i + 1..] == (Scan(doc[..i], inFlight, target, base) + doc[i..])[i := Step(doc[i], inFlight, target, id)]
            && (Scan(doc[..i], inFlight, target, base) + doc[i..])[i] == doc[i]
            && base + Accepted(doc[..i + 1], inFlight, target) == id + (if Accepts(doc[i], inFlight, target) then 1 else 0)
            && Registered(doc[..i + 1], inFlight, target, base, ls) ==
                 if Accepts(doc[i], inFlight, target)
                 then Registered(doc[..i], inFlight, target, base, ls)[id := Listeners(target(doc[i].src).value, [0])]
                 else Registered(doc[..i], inFlight, target, base, ls)
  {
    ScanStep(doc, inFlight, target, base, ls, i);
  }

  // ---------------------------------------------------------------------------
  // Handlers

  /** `loadVideoWithRetry(video, url, count)` on the handler lists: one more pair, with count `count`. */
  function Attach(ls: map<nat, Listeners>, vid: nat, url: string, count: nat): (r: map<nat, Listeners>)
    ensures r.Keys == ls.Keys + {vid}
    ensures vid in ls ==> r[vid].url == ls[vid].url && r[vid].counts == ls[vid].counts + [count]
    ensures vid !in ls ==> r[vid] == Listeners(url, [count])
    ensures forall v :: v in ls && v != vid ==> r[v] == ls[v]
  {
    if vid in ls then ls[vid := Listeners(ls[vid].url, ls[vid].counts + [count])]
    else ls[vid := Listeners(url, [count])]
  }

  /**
   * The in-flight set after the error handlers with retry counts `counts` ran in
   * order: a handler below the retry limit adds the URL, the one at the limit deletes it.
   */
  function AfterErrors(inFlight: set<string>, url: string, counts: seq<nat>): set<string>
    decreases |counts|
  {
    if counts == [] then inFlight
    else
      var before := AfterErrors(inFlight, url, counts[..|counts| - 1]);
      if counts[|counts| - 1] < MaxRetries then before + {url} else before - {url}
  }

  /** The retries the error handlers with counts `counts` schedule, in order: one with count c+1 for each c below the limit. */
  function ScheduledRetries(vid: nat, url: string, counts: seq<nat>): seq<Timer>
    decreases |counts|
  {
    if counts == [] then []
    else
      var c := counts[|counts| - 1];
      ScheduledRetries(vid, url, counts[..|counts| - 1]) + (if c < MaxRetries then [Timer(vid, url, c + 1)] else [])
  }

  /** The number of handlers below the retry limit. */
  function BelowLimit(counts: seq<nat>): nat
    decreases |counts|
  {
    if counts == [] then 0
    else BelowLimit(counts[..|counts| - 1]) + (if counts[|counts| - 1] < MaxRetries then 1 else 0)
  }

  /**
   * The last handler decides: after an error the URL is in flight exactly when the
   * most recently attached handler was below the retry limit; no other URL changes.
   */
  lemma {:induction false} AfterErrorsLastDecides(inFlight: set<string>, url: string, counts: seq<nat>)
    ensures counts != [] ==> (url in AfterErrors(inFlight, url, counts) <==> counts[|counts| - 1] < MaxRetries)
    ensures forall u :: u != url ==> (u in AfterErrors(inFlight, url, counts) <==> u in inFlight)
    decreases |counts|
  {
    if counts != [] {
      AfterErrorsLastDecides(inFlight, url, counts[..|counts| - 1]);
    }
  }

  /**
   * Each scheduled retry belongs to the erring video and its URL, carries a count
   * in `1 .. MaxRetries`, and there is one per handler below the limit.
   */
  lemma {:induction false} RetriesBounded(vid: nat, url: string, counts: seq<nat>)
    ensures |ScheduledRetries(vid, url, counts)| == BelowLimit(counts)
    ensures forall t :: t in ScheduledRetries(vid, url, counts) ==>
              t.video == vid && t.url == url && 1 <= t.count <= MaxRetries
    decreases |counts|
  {
    if counts != [] {
      RetriesBounded(vid, url, counts[..|counts| - 1]);
    }
  }

  /** One more handler of the dispatch loop. */
  lemma HandlerStep(inFlight: set<string>, vid: nat, url: string, ns: seq<Node>, counts: seq<nat>, j: nat)
    requires j < |counts| && counts[j] <= MaxRetries
    ensures AfterErrors(inFlight, url, counts[..j + 1]) ==
              if counts[j] < MaxRetries then AfterErrors(inFlight, url, counts[..j]) + {url}
              else AfterErrors(inFlight, url, counts[..j]) - {url}
    ensures ScheduledRetries(vid, url, counts[..j + 1]) ==
              ScheduledRetries(vid, url, counts[..j]) + if counts[j] < MaxRetries then [Timer(vid, url, counts[j] + 1)] else []
    ensures var before := if MaxRetries in counts[..j] then Keep(ns, NotVideo(vid)) else ns;
            (if MaxRetries in counts[..j + 1] then Keep(ns, NotVideo(vid)) else ns) ==
              if counts[j] < MaxRetries then before else Keep(before, NotVideo(vid))
  {
    assert counts[..j + 1][..j] == counts[..j];
    assert counts[..j + 1] == counts[..j] + [counts[j]];
    if MaxRetries in counts[..j] {
      KeepIdempotent(ns, NotVideo(vid));
    }
  }

  // ---------------------------------------------------------------------------
  // Removing nodes

  /** The nodes of `ns` that satisfy `p`, in their order. */
  function Keep(ns: seq<Node>, p: Node -> bool): seq<Node>
    decreases |ns|
  {
    if ns == [] then []
    else Keep(ns[..|ns| - 1], p) + (if p(ns[|ns| - 1]) then [ns[|ns| - 1]] else [])
  }

  /** `Keep` drops exactly the nodes that fail `p`. */
  lemma {:induction false} KeepMembers(ns: seq<Node>, p: Node -> bool)
    ensures forall n :: n in Keep(ns, p) <==> n in ns && p(n)
    decreases |ns|
  {
    if ns != [] {
      KeepMembers(ns[..|ns| - 1], p);
      assert ns == ns[..|ns| - 1] + [ns[|ns| - 1]];
    }
  }

  /** Keeping twice keeps the same nodes. */
  lemma {:induction false} KeepIdempotent(ns: seq<Node>, p: Node -> bool)
    ensures Keep(Keep(ns, p), p) == Keep(ns, p)
    decreases |ns|
  {
    if ns != [] {
      var init := ns[..|ns| - 1];
      var last := ns[|ns| - 1];
      KeepIdempotent(init, p);
      KeepAppend(Keep(init, p), if p(last) then [last] else [], p);
    }
  }

  lemma {:induction false} KeepAppend(xs: seq<Node>, ys: seq<Node>, p: Node -> bool)
    ensures Keep(xs + ys, p) == Keep(xs, p) + Keep(ys, p)
    decreases |ys|
  {
    if ys == [] {
      assert xs + ys == xs;
    } else {
      var init := ys[..|ys| - 1];
      assert (xs + ys)[..|xs + ys| - 1] == xs + init;
      KeepAppend(xs, init, p);
    }
  }

  /** `Keep` changes nothing when every node passes. */
  lemma {:induction false} KeepAll(ns: seq<Node>, p: Node -> bool)
    requires forall n :: n in ns ==> p(n)
    ensures Keep(ns, p) == ns
    decreases |ns|
  {
    if ns != [] {
      KeepAll(ns[..|ns| - 1], p);
      assert ns == ns[..|ns| - 1] + [ns[|ns| - 1]];
    }
  }

  /** A node that `removeBlockers` leaves: it has neither blocker class. */
  predicate NotBlocker(n: Node) {
    (n.Img? || n.Element?) ==> BlockerClass !in n.classes && OverlayClass !in n.classes
  }

  /** A node that `video.remove()` on video `vid` leaves. */
  function NotVideo(vid: nat): Node -> bool {
    (n: Node) => !(n.Video? && n.id == vid)
  }

  lemma KeepAppendOne(ns: seq<Node>, n: Node, p: Node -> bool)
    ensures Keep(ns + [n], p) == Keep(ns, p) + (if p(n) then [n] else [])
  {
    assert (ns + [n])[..|ns|] == ns;
  }

  /** One more step of the removal loop. */
  lemma KeepStep(doc: seq<Node>, j: nat, p: Node -> bool)
    requires j < |doc|
    ensures var front := Keep(doc[..j], p);
            && (front + doc[j..])[|front|] == doc[j]
            && (p(doc[j]) ==> Keep(doc[..j + 1], p) + doc[j + 1..] == front + doc[j..])
            && (!p(doc[j]) ==> Keep(doc[..j + 1], p) + doc[j + 1..] == (front + doc[j..])[..|front|] + (front + doc[j..])[|front| + 1..])
            && |Keep(doc[..j + 1], p)| == |front| + (if p(doc[j]) then 1 else 0)
  {
    assert doc[..j + 1] == doc[..j] + [doc[j]];
    KeepAppendOne(doc[..j], doc[j], p);
    var front := Keep(doc[..j], p);
    assert doc[j..] == [doc[j]] + doc[j + 1..];
    assert (front + doc[j..])[..|front|] == front;
    assert (front + doc[j..])[|front| + 1..] == doc[j + 1..];
  }

  lemma PutTwice(ns: seq<Node>, i: nat, a: Node, b: Node)
    requires i < |ns|
    ensures ns[i := a][i := b] == ns[i := b]
  {
  }

  lemma PutSame(ns: seq<Node>, i: nat)
    requires i < |ns|
    ensures ns[i := ns[i]] == ns
  {
  }

  lemma StepAccepts(n: Node, inFlight: set<string>, target: string -> Option<string>, id: nat)
    requires Accepts(n, inFlight, target)
    ensures Step(n, inFlight, target, id) == Replacement(n, target(n.src).value, id)
  {
  }

  // ---------------------------------------------------------------------------
  // The page

  /** Every recorded handler count is within the retry limit. */
  predicate CountsBounded(counts: seq<nat>) {
    forall j :: 0 <= j < |counts| ==> counts[j] <= MaxRetries
  }

  /** Every video with handlers has an id below `nextId`, at least one pair, and counts within the limit. */
  predicate ListenersOk(ls: map<nat, Listeners>, nextId: nat) {
    forall v :: v in ls ==> v < nextId && ls[v].counts != [] && CountsBounded(ls[v].counts)
  }

  /** Every video in the document has handlers for its own URL. */
  predicate VideosOk(ns: seq<Node>, ls: map<nat, Listeners>) {
    forall n :: n in ns && n.Video? ==> n.id in ls && ls[n.id].url == n.src
  }

  /** Every pending retry names a video with handlers, its URL, and a count in `1 .. MaxRetries`. */
  predicate TimersOk(ts: seq<Timer>, ls: map<nat, Listeners>) {
    forall t :: t in ts ==> t.video in ls && ls[t.video].url == t.url && 1 <= t.count <= MaxRetries
  }

  /** `ls'` keeps every handler list of `ls` for the same URL. */
  predicate Extends(ls: map<nat, Listeners>, ls': map<nat, Listeners>) {
    forall v :: v in ls ==> v in ls' && ls'[v].url == ls[v].url
  }

  lemma VideosOkPut(ns: seq<Node>, ls: map<nat, Listeners>, i: nat, n: Node)
    requires VideosOk(ns, ls) && i < |ns|
    requires n.Video? ==> n.id in ls && ls[n.id].url == n.src
    ensures VideosOk(ns[i := n], ls)
  {
    forall m | m in ns[i := n] && m.Video?
      ensures m.id in ls && ls[m.id].url == m.src
    {
      var k :| 0 <= k < |ns[i := n]| && ns[i := n][k] == m;
      if k != i {
        assert m in ns;
      }
    }
  }

  lemma VideosOkSub(ns: seq<Node>, ns': seq<Node>, ls: map<nat, Listeners>)
    requires VideosOk(ns, ls)
    requires forall n :: n in ns' ==> n in ns
    ensures VideosOk(ns', ls)
  {
  }

  lemma StillOk(ns: seq<Node>, ts: seq<Timer>, ls: map<nat, Listeners>, ls': map<nat, Listeners>)
    requires VideosOk(ns, ls) && TimersOk(ts, ls) && Extends(ls, ls')
    ensures VideosOk(ns, ls') && TimersOk(ts, ls')
  {
  }

  /**
   * The removal loop of `removeBlockers`: the nodes failing `p` are taken out of
   * the document one at a time, the remaining ones closing up behind them.
   */
  method RemoveEach(doc: seq<Node>, p: Node -> bool) returns (ns: seq<Node>)
    ensures ns == Keep(doc, p)
  {
    ns := doc;
    var i := 0;
    ghost var j := 0;
    while i < |ns|
      invariant 0 <= j <= |doc|
      invariant ns == Keep(doc[..j], p) + doc[j..]
      invariant i == |Keep(doc[..j], p)|
      decreases |doc| - j
    {
      KeepStep(doc, j, p);
      if !p(ns[i]) {
        ns := ns[..i] + ns[i + 1..];
      } else {
        i := i + 1;
      }
      j := j + 1;
    }
    assert doc[..j] == doc;
  }

  class Page {
    /** The document, in document order. */
    var nodes: seq<Node>
    /** `retryingVideos`. */
    var inFlight: set<string>
    /** The handler pairs attached to each video made so far, by video id. */
    var listeners: map<nat, Listeners>
    /** Pending `setTimeout` retries, in firing order. */
    var timers: seq<Timer>
    /** The id the next video will get. */
    var nextId: nat

    /**
     * Every video has been given handlers, with at least one pair and every count
     * within the limit; every video in the document and every pending retry agrees
     * with its handlers' URL, and pending retries carry counts in `1 .. MaxRetries`.
     */
    ghost predicate Valid()
      reads this
    {
      ListenersOk(listeners, nextId) && VideosOk(nodes, listeners) && TimersOk(timers, listeners)
    }

    /** A page as loaded: no script-made videos yet, nothing in flight, nothing pending. */
    constructor(doc: seq<Node>)
      requires forall n :: n in doc ==> !n.Video?
      ensures nodes == doc && inFlight == {} && listeners == map[] && timers == [] && nextId == 0
      ensures Valid()
    {
      nodes := doc;
      inFlight := {};
      listeners := map[];
      timers := [];
      nextId := 0;
    }

    /** `loadVideoWithRetry(video, url, count)`: attaches one more error/success handler pair to the video. */
    method LoadVideoWithRetry(vid: nat, url: string, count: nat)
      requires Valid()
      requires vid < nextId && count <= MaxRetries
      requires vid in listeners ==> listeners[vid].url == url
      modifies this
      ensures listeners == Attach(old(listeners), vid, url, count)
      ensures nodes == old(nodes) && inFlight == old(inFlight) && timers == old(timers) && nextId == old(nextId)
      ensures Valid()
    {
      ghost var ls := listeners;
      listeners := Attach(listeners, vid, url, count);
      assert CountsBounded(listeners[vid].counts);
      StillOk(nodes, timers, ls, listeners);
    }

    /**
     * The `forEach` callback of `replacePosters` for the image at position `i`:
     * an accepted image is flagged, gets a fresh video with its first handler
     * pair, and the video takes its place; any other node is left alone.
     */
    method ProcessImage(i: nat, target: string -> Option<string>)
      requires Valid() && i < |nodes|
      modifies this
      ensures nodes == old(nodes)[i := Step(old(nodes)[i], inFlight, target, old(nextId))]
      ensures nextId == old(nextId) + (if Accepts(old(nodes)[i], inFlight, target) then 1 else 0)
      ensures listeners == if Accepts(old(nodes)[i], inFlight, target)
                           then old(listeners)[old(nextId) := Listeners(target(old(nodes)[i].src).value, [0])]
                           else old(listeners)
      ensures inFlight == old(inFlight) && timers == old(timers)
      ensures Valid()
    {
      var img := nodes[i];
      if Accepts(img, inFlight, target) {
        var url := target(img.src).value;
        var flagged := Img(img.src, true, img.width, img.classes);
        var id := nextId;
        nextId := nextId + 1;
        VideosOkPut(nodes, listeners, i, flagged);
        nodes := nodes[i := flagged];
        LoadVideoWithRetry(id, url, 0);
        VideosOkPut(nodes, listeners, i, Replacement(img, url, id));
        nodes := nodes[i := Replacement(img, url, id)];
        PutTwice(old(nodes), i, flagged, Replacement(img, url, id));
        StepAccepts(img, inFlight, target, id);
      } else {
        PutSame(nodes, i);
      }
    }

    /** `replacePosters`: the callback runs for every node, in document order. */
    method ReplacePosters()
      requires Valid()
      modifies this
      ensures nodes == Scan(old(nodes), old(inFlight), ScanTarget, old(nextId))
      ensures nextId == old(nextId) + Accepted(old(nodes), old(inFlight), ScanTarget)
      ensures listeners == Registered(old(nodes), old(inFlight), ScanTarget, old(nextId), old(listeners))
      ensures inFlight == old(inFlight) && timers == old(timers)
      ensures Valid()
    {
      ScanWith(ScanTarget);
    }

    /** The loop of `replacePosters`, for any way `target` of judging an image's `src`. */
    method ScanWith(target: string -> Option<string>)
      requires Valid()
      modifies this
      ensures nodes == Scan(old(nodes), old(inFlight), target, old(nextId))
      ensures nextId == old(nextId) + Accepted(old(nodes), old(inFlight), target)
      ensures listeners == Registered(old(nodes), old(inFlight), target, old(nextId), old(listeners))
      ensures inFlight == old(inFlight) && timers == old(timers)
      ensures Valid()
    {
      ghost var doc := nodes;
      ghost var base := nextId;
      ghost var ls0 := listeners;
      var i := 0;
      while i < |nodes|
        invariant 0 <= i <= |nodes| == |doc|
        invariant nodes == Scan(doc[..i], inFlight, target, base) + doc[i..]
        invariant nextId == base + Accepted(doc[..i], inFlight, target)
        invariant listeners == Registered(doc[..i], inFlight, target, base, ls0)
        invariant inFlight == old(inFlight) && timers == old(timers)
        invariant Valid()
      {
        ScanAdvance(doc, inFlight, target, base, ls0, i);
        ghost var cur, id, ls := nodes, nextId, listeners;
        assert cur[i] == doc[i];
        ProcessImage(i, target);
        assert nodes == cur[i := Step(doc[i], inFlight, target, id)];
        assert listeners == if Accepts(doc[i], inFlight, target) then ls[id := Listeners(target(doc[i].src).value, [0])] else ls;
        i := i + 1;
      }
      assert doc[..i] == doc;
    }

    /**
     * One `handleError` closure, made by the call with retry count `count`: below
     * the limit it marks the URL as retrying and schedules a retry with the next
     * count; at the limit it unmarks the URL and takes the video out of the document.
     */
    method HandleError(vid: nat, url: string, count: nat)
      requires Valid() && vid in listeners && listeners[vid].url == url
      modifies this
      ensures count < MaxRetries ==> inFlight == old(inFlight) + {url} && timers == old(timers) + [Timer(vid, url, count + 1)] && nodes == old(nodes)
      ensures count >= MaxRetries ==> inFlight == old(inFlight) - {url} && timers == old(timers) && nodes == Keep(old(nodes), NotVideo(vid))
      ensures listeners == old(listeners) && nextId == old(nextId)
      ensures Valid()
    {
      if count < MaxRetries {
        inFlight := inFlight + {url};
        timers := timers + [Timer(vid, url, count + 1)];
      } else {
        inFlight := inFlight - {url};
        KeepMembers(nodes, NotVideo(vid));
        nodes := Keep(nodes, NotVideo(vid));
      }
    }

    /** An `error` event on video `vid`: every attached error handler runs, oldest first. */
    method FireError(vid: nat)
      requires Valid() && vid in listeners
      modifies this
      ensures inFlight == AfterErrors(old(inFlight), old(listeners)[vid].url, old(listeners)[vid].counts)
      ensures timers == old(timers) + ScheduledRetries(vid, old(listeners)[vid].url, old(listeners)[vid].counts)
      ensures nodes == if MaxRetries in old(listeners)[vid].counts then Keep(old(nodes), NotVideo(vid)) else old(nodes)
      ensures listeners == old(listeners) && nextId == old(nextId)
      ensures Valid()
    {
      var url := listeners[vid].url;
      var counts := listeners[vid].counts;
      assert CountsBounded(counts);
      var j := 0;
      while j < |counts|
        invariant 0 <= j <= |counts|
        invariant inFlight == AfterErrors(old(inFlight), url, counts[..j])
        invariant timers == old(timers) + ScheduledRetries(vid, url, counts[..j])
        invariant nodes == if MaxRetries in counts[..j] then Keep(old(nodes), NotVideo(vid)) else old(nodes)
        invariant listeners == old(listeners) && nextId == old(nextId)
        invariant Valid()
      {
        HandlerStep(old(inFlight), vid, url, old(nodes), counts, j);
        HandleError(vid, url, counts[j]);
        j := j + 1;
      }
      assert counts[..j] == counts;
    }

    /** A `loadeddata` event on video `vid`: every attached success handler deletes the URL from the set. */
    method FireLoaded(vid: nat)
      requires Valid() && vid in listeners
      modifies this
      ensures inFlight == old(inFlight) - {old(listeners)[vid].url}
      ensures nodes == old(nodes) && listeners == old(listeners) && timers == old(timers) && nextId == old(nextId)
      ensures Valid()
    {
      inFlight := inFlight - {listeners[vid].url};
    }

    /** The oldest pending retry fires: the video's source is set again and handlers are attached with its count. */
    method FireTimer()
      requires Valid() && timers != []
      modifies this
      ensures timers == old(timers)[1..]
      ensures listeners == Attach(old(listeners), old(timers)[0].video, old(timers)[0].url, old(timers)[0].count)
      ensures nodes == old(nodes) && inFlight == old(inFlight) && nextId == old(nextId)
      ensures Valid()
    {
      var t := timers[0];
      assert t in timers;
      timers := timers[1..];
      LoadVideoWithRetry(t.video, t.url, t.count);
    }

    /** `removeBlockers`: every blocker or overlay element is taken out of the document, one at a time. */
    method RemoveBlockers()
      requires Valid()
      modifies this
      ensures nodes == Keep(old(nodes), NotBlocker)
      ensures inFlight == old(inFlight) && listeners == old(listeners) && timers == old(timers) && nextId == old(nextId)
      ensures Valid()
    {
      ghost var doc := nodes;
      nodes := RemoveEach(nodes, NotBlocker);
      KeepMembers(doc, NotBlocker);
      VideosOkSub(doc, nodes, listeners);
    }

  }
}
