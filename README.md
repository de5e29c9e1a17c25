# LPSG video unblocker — a Dafny model of its core

The userscript `lpsg.js` runs on forum pages. It takes out the overlay elements
that block embedded videos. It then replaces each poster image of a blocked video
with a playable `<video>` element, deriving the video's CDN URL from the poster's
`src`. A video that fails to load is retried after a delay. Once the retries run
out, the video is removed. The script shares one piece of state between all of
this: `retryingVideos`, the set of video URLs currently being retried.

The model has three files:

- `resolver.dfy` (module `Resolver`, pure) covers the URL resolution.
  - The two poster expressions are `/data/attachments/posters/(\d+)/(\d+)-([a-f0-9]+)\.jpg` and `/data/xfmg/poster/(\d+)/(\d+)-([a-f0-9]+)\.jpg`.
  - Each is a list of tokens: literal text and greedy capture groups.
  - Matching at a fixed position is a greedy scan (`MatchTokens`). It is proved sound and complete against a declarative definition of a match (`Spells`).
  - `FirstMatch` tries every position from the left, as `String.prototype.match` does, and is proved to return the leftmost match.
  - `VideoUrl` tries the attachment expression first and the gallery expression only when the first matches nowhere. It substitutes the three captures verbatim into the matching CDN template.
  - The thumbnail exclusion that follows is proved never to fire.
- `page.dfy` (module `Page`, imperative) covers the document and the handlers.
  - The class `Page` holds the document as a sequence of nodes, `retryingVideos` (`inFlight`), the handler pairs attached to each video, and the queue of pending `setTimeout` retries.
  - Its methods are the `forEach` callback of `replacePosters` and the `replacePosters` loop, `loadVideoWithRetry`, one `handleError` closure, the dispatch of an `error`, `loadeddata` or timer event, and `removeBlockers`.
  - Each method is proved against specification functions on sequences and maps: `Scan`, `Accepted`, `Registered`, `Attach`, `AfterErrors`, `ScheduledRetries` and `Keep`. The lemmas beside those functions state what the script promises.
  - Every method preserves `Page.Valid`:
    - every video in the document has handlers for its own URL;
    - every retry count ever passed to `loadVideoWithRetry` lies in `0 .. 2`;
    - every pending retry carries a count in `1 .. 2`.
- `scenarios.dfy` (module `Scenarios`) drives a page through complete runs and states the end state of each:
  - a failed load followed by a successful retry;
  - two failures followed by a success;
  - failures until the retries run out;
  - an image skipped while its URL is being retried;
  - overlay removal.

Two things in the code work differently from what its comments suggest.

- **Handlers accumulate.** `loadVideoWithRetry` removes `handleError` and `handleSuccess` before adding them, but both are fresh closures on every call, so the removal detaches nothing. Each call adds one more error/success handler pair, and an `error` event runs every pair attached so far, oldest first.
  - The model records a video's handlers as the growing sequence of the retry counts they were made with.
  - So a video is not limited to three load attempts. Its second error schedules two retries. The error that finally removes it also queues further retries, which still fire on the detached element (`Scenarios.RetriesRunOut`).
- **When a URL is marked as retrying.** A URL enters `retryingVideos` on the first load error, not when loading starts (line 45).
  - Until that first error, a scan does not skip images with the same target.
  - Two images with the same poster in one pass both become videos (`Page.SameTargetBothReplaced`).

The script's comments and log lines suggest otherwise on each of these points:

- "to avoid duplicates" at lines 14 and 66 suggests at most one retry sequence per URL and the deregistration of earlier handlers;
- "attempt n/3" at line 36 suggests exactly three attempts.

The model follows the code.

## Model

| member | source | states |
|---|---|---|
| Resolver.MatchTokensSound | lpsg.js:99 | whatever the greedy matcher returns at position `k` is a match there: every literal occurs in order and every capture is a non-empty run of its class |
| Resolver.MatchTokensComplete | lpsg.js:99 | for a pattern whose groups are each followed by a literal outside their class, every match at `k` is the one the greedy matcher returns, so the match at a position is unique |
| Resolver.MatchAtSound | lpsg.js:99 | a poster match found at `i` is a match of `<prefix>(\d+)/(\d+)-([a-f0-9]+)\.jpg` at `i` |
| Resolver.MatchAtComplete | lpsg.js:99 | any match of a poster expression at `i`, with captures `c`, is found at `i` with exactly the captures `c` |
| Resolver.MatchIsPosterPath | lpsg.js:99 | a match with captures `c` is exactly an occurrence of `prefix + c1 + "/" + c2 + "-" + c3 + ".jpg"` where `c1` and `c2` are non-empty digit strings and `c3` is a non-empty lowercase-hex string; text may follow `.jpg` |
| Resolver.SearchLeftmost | lpsg.js:99 | the search returns a match at or after `from` with no match between `from` and it, and returns nothing exactly when no match starts at or after `from` |
| Resolver.FirstMatchIsLeftmost | lpsg.js:106 | when a match with captures `c` starts at `i` and none starts earlier, `src.match` yields that match with the captures `c` |
| Resolver.ResolveAttachment | lpsg.js:99-102 | if the attachment expression matches leftmost at `i` with captures `(p, v, h)`, the URL is `https://cdn-videos.lpsg.com/data/video/p/v-h.mp4` |
| Resolver.ResolveGallery | lpsg.js:104-112 | if the attachment expression matches nowhere and the gallery expression matches leftmost with `(a, m, h)`, the URL is `https://cdn-videos.lpsg.com/data/xfmg/video/a/m-h.mp4` |
| Resolver.ResolveNone | lpsg.js:95-112 | no URL is derived exactly when neither expression matches anywhere in `src` |
| Resolver.FirstMatchCaptures | lpsg.js:101-109 | the captures substituted into a template are non-empty digit and hex strings and contain no `/` |
| Resolver.DerivedUrlLacksU | lpsg.js:102-109 | no URL built by either template contains the letter `u` |
| Resolver.DerivedUrlNeverThumbnail | lpsg.js:114-119 | no derived URL contains `/data/xfmg/thumbnail/` or `/data/xfmg/album_thumbnail/`, so the exclusion branch never fires |
| Resolver.ResolvedImpliesSelected | lpsg.js:77-83 | every `src` that resolves contains `/data/attachments/posters/` or `/data/xfmg/poster/`, the substrings the first two selectors demand |
| Resolver.AttachmentExample | lpsg.js:99-102 | `/data/attachments/posters/42/99-abc123.jpg` resolves to the attachment video URL with captures `42`, `99`, `abc123` |
| Resolver.GalleryExample | lpsg.js:104-112 | `/data/xfmg/poster/7/15-deadbeef.jpg` resolves to the gallery video URL with captures `7`, `15`, `deadbeef` |
| Resolver.ThumbnailExample | lpsg.js:95-112 | `/data/xfmg/thumbnail/7/15-deadbeef.jpg` resolves to nothing |
| Page.ScanTargetIsVideoUrl | lpsg.js:114-119 | the URL the scan acts on, after the thumbnail test, is exactly the resolver's URL |
| Page.ScanAt | lpsg.js:86-157 | position by position, the scan leaves each node or replaces an accepted image, numbering new videos in document order |
| Page.ScanLeavesUnaccepted | lpsg.js:87-156 | a node is left unchanged, and an image is left unflagged, exactly when it is not an image, is already flagged, resolves to nothing, or has a URL being retried |
| Page.ScanReplaces | lpsg.js:129-143 | an accepted image becomes, at the same position, a video of its URL with controls on, width `<width>px` or `100%` when the width is 0, maximum width `100%`, and the replaced flag |
| Page.ScanSkipsInFlight | lpsg.js:121-125 | an image whose URL is in `retryingVideos` is left as it is |
| Page.AcceptedGrows | lpsg.js:86-143 | an image accepted earlier in the document gets a smaller video id than any image accepted after it |
| Page.SameTargetBothReplaced | lpsg.js:121-143 | two unflagged images with the same URL in one pass both become videos of that URL, with distinct ids |
| Page.ScanLeavesNothing | lpsg.js:76-158 | a second scan with the same set accepts nothing in the first scan's output |
| Page.ScanNoneAccepted | lpsg.js:76-158 | a scan that accepts nothing changes no node and attaches no handler |
| Page.ScanIdempotent | lpsg.js:76-158 | scanning the scan's output again, with the same `retryingVideos`, changes nothing and attaches nothing |
| Page.RegisteredIds | lpsg.js:129-140 | the scan attaches handlers to exactly the ids `base .. base + Accepted - 1`, one pair with count 0 each, and leaves other entries alone |
| Page.Attach | lpsg.js:66-72 | `loadVideoWithRetry` adds one handler pair with the given count to the video's pairs, keeps its URL, and leaves other videos' handlers alone |
| Page.AfterErrorsLastDecides | lpsg.js:38-58 | after an error, the URL is being retried exactly when the most recently attached handler's count is below 2; no other URL changes |
| Page.RetriesBounded | lpsg.js:41-53 | an error schedules one retry per handler below the limit, each for the same video and URL with a count in `1 .. 2` |
| Page.KeepMembers | lpsg.js:18-26 | removal keeps exactly the nodes that pass the test |
| Page.KeepIdempotent | lpsg.js:54-58 | removing the same nodes twice is the same as removing them once, as `video.remove()` on a detached video does nothing |
| Page.KeepAll | lpsg.js:22-25 | when no node is a blocker, nothing is removed |
| Page.RemoveEach | lpsg.js:19-24 | the removal loop leaves exactly the nodes that pass the test, in their order |
| Page.Page.constructor | lpsg.js:15 | a page starts with `retryingVideos` empty, no handlers and no pending retries |
| Page.Page.LoadVideoWithRetry | lpsg.js:29-73 | one more handler pair with the given count is attached to the video; nothing else changes |
| Page.Page.ProcessImage | lpsg.js:86-157 | an accepted image is flagged, its video gets a fresh id and its first handler pair with count 0, and the video takes the image's place; any other node is left alone; `retryingVideos` is not touched |
| Page.Page.ScanWith | lpsg.js:86-157 | the loop leaves the document as `Scan` describes, takes one id per accepted image, and attaches the handlers `Registered` describes; `retryingVideos` and the timers are unchanged |
| Page.Page.ReplacePosters | lpsg.js:76-158 | `replacePosters` is the loop above, with images judged by the resolver's URL |
| Page.Page.HandleError | lpsg.js:38-59 | below the limit, the handler marks the URL and queues a retry with count + 1; at the limit, it unmarks the URL and removes the video |
| Page.Page.FireError | lpsg.js:38-71 | an error runs every attached error handler in order, as `AfterErrors` and `ScheduledRetries` describe; the video is removed once a handler at the limit has run |
| Page.Page.FireLoaded | lpsg.js:61-64 | a successful load deletes the URL from `retryingVideos` and leaves the video in the document |
| Page.Page.FireTimer | lpsg.js:47-53 | the oldest pending retry fires and calls `loadVideoWithRetry` with its count |
| Page.Page.RemoveBlockers | lpsg.js:18-26 | every node with class `video-easter-egg-blocker` or `video-easter-egg-overlay` is taken out; everything else stays in order |
| Scenarios.RetryThenLoad | lpsg.js:29-73 | one failure, the retry, then success: the video stays with handler counts `[0, 1]`, nothing is being retried, and nothing is pending |
| Scenarios.FailTwiceThenLoad | lpsg.js:29-73 | two failures, then success: the video stays and nothing is being retried, but one retry with count 2 is still pending |
| Scenarios.RetriesRunOut | lpsg.js:38-72 | after repeated failures, the handler counts are `[0, 1, 1, 2]`; the last error removes the video and unmarks the URL, and three more retries are queued |
| Scenarios.SkippedWhileRetrying | lpsg.js:121-125 | an image added while its URL is being retried is skipped; the scan after the successful load replaces it with a new video |
| Scenarios.BlockersRemoved | lpsg.js:18-26 | on a page with an overlay and one other element, only the other element remains |

## Left out

- All `console.log` output. It is logging only.
- The `MutationObserver`, `DOMContentLoaded` and `init` wiring (lines 160-178). A scan, a blocker removal and each media or timer event are explicit method calls, made in any order the caller chooses.
- CSS selector evaluation (lines 19-21 and 77-83).
  - The scan looks at every image and lets the resolver judge it. `Resolver.ResolvedImpliesSelected` shows that every image the resolver accepts contains a substring the first two selectors require.
  - The fancybox selector contributes only images that the resolver then judges.
  - The difference between the absolute `img.src` and the attribute value is not modelled: `src` is the string the expressions are matched against.
- The document tree. The document is a flat sequence in document order. Removing a blocker does not take the blocker's descendants with it.
- The `closest(...)` lookup and the bold styling of the container (lines 146-153). They are cosmetic and carry no invariant.
- The flag set on an image that has been swapped out. The model flags the image before the swap, but only the video remains at that position afterwards.
- Real media loading, the network, and the `video.src = ''` / `video.src = currentSrc` reassignment (lines 49-51). A reload is the `FireTimer` step, and load errors and successes are the `FireError` and `FireLoaded` events. A video's `src` is unchanged by a reload.
- The 500 ms delay. `setTimeout` is a first-in-first-out queue of pending retries, because every retry uses the same delay. There is no clock.
- Which video element receives an event. Events are addressed to a video by the id the model gives each video it creates.
- The userscript metadata header (lines 1-8).
- Page.Page.LoadVideoWithRetry: requires a retry count of at most 2, the limit. The script calls it only with 0 and with `count + 1` for a count below the limit, and `Page.Valid` carries this bound. The model therefore does not describe a call with a larger count, which the script never makes.
