/**
 * URL resolution of the LPSG video unblocker: a poster image's `src` is matched
 * against two regular expressions, thread-attachment posters first and gallery
 * posters second, and the three captures of the leftmost match are substituted
 * into a fixed video URL on the CDN host.
 *
 * Both expressions have the shape `<prefix>(\d+)\/(\d+)-([a-f0-9]+)\.jpg` and are
 * unanchored. They are written here as token lists: literal text and greedy
 * capture groups. Each group is followed by a literal whose first character the
 * group's class does not contain, so matching at a fixed position needs no
 * backtracking and the match there, if any, is unique. `MatchTokens` computes it
 * by taking maximal runs; `Spells` says declaratively what a match is; the two are
 * proved to agree. `FirstMatch` tries every position from the left, as
 * `String.prototype.match` does with a non-global expression.
 */
module Resolver {

  datatype Option<T> = None | Some(value: T)

  /** The character classes used by the capture groups: `\d` and `[a-f0-9]`. */
  datatype CharClass = Digit | Hex {
    predicate Has(c: char) {
      match this
      case Digit => '0' <= c <= '9'
      case Hex => '0' <= c <= '9' || 'a' <= c <= 'f'
    }
  }

  /** A piece of a regular expression: literal text, or a greedy capture group `(<class>+)`. */
  datatype Token = Lit(text: string) | Group(cls: CharClass)

  /** The three capture groups of a poster pattern: post or album id, video or media id, hash. */
  datatype Captures = Captures(first: string, second: string, hash: string)

  /** A successful match: the position where it starts and what it captured. */
  datatype Match = Match(at: nat, captures: Captures)

  const AttachmentPoster: string := "/data/attachments/posters/"
  const GalleryPoster: string := "/data/xfmg/poster/"
  const VideoHost: string := "https://cdn-videos.lpsg.com"
  const ThumbnailSegment: string := "/data/xfmg/thumbnail/"
  const AlbumThumbnailSegment: string := "/data/xfmg/album_thumbnail/"

  /** `<prefix>(\d+)\/(\d+)-([a-f0-9]+)\.jpg` */
  function PosterPattern(prefix: string): seq<Token> {
    [Lit(prefix), Group(Digit), Lit("/"), Group(Digit), Lit("-"), Group(Hex), Lit(".jpg")]
  }

  /** The number of capture groups in `ts`. */
  function Groups(ts: seq<Token>): nat {
    if ts == [] then 0 else (if ts[0].Group? then 1 else 0) + Groups(ts[1..])
  }

  predicate AllIn(s: string, cls: CharClass) {
    forall k :: 0 <= k < |s| ==> cls.Has(s[k])
  }

  /** `sub` occurs in `s` starting at index `i`. */
  predicate OccursAt(s: string, sub: string, i: nat) {
    i + |sub| <= |s| && s[i..i + |sub|] == sub
  }

  /** `String.prototype.includes`. */
  predicate Contains(s: string, sub: string) {
    exists i: nat :: i <= |s| && OccursAt(s, sub, i)
  }

  predicate Lacks(s: string, ch: char) {
    forall k :: 0 <= k < |s| ==> s[k] != ch
  }

  /**
   * Every group is directly followed by literal text whose first character is
   * outside the group's class, so a greedy group never has to give characters back.
   */
  predicate Deterministic(ts: seq<Token>) {
    forall j :: 0 <= j < |ts| && ts[j].Group? ==>
      j + 1 < |ts| && ts[j + 1].Lit? && |ts[j + 1].text| > 0 && !ts[j].cls.Has(ts[j + 1].text[0])
  }

  /**
   * `s` spells out the tokens `ts` from index `k` on, and `caps` is the text each
   * group read: what it means for the expression to match at `k` with those captures.
   */
  predicate Spells(s: string, k: nat, ts: seq<Token>, caps: seq<string>)
    decreases |ts|
  {
    if ts == [] then k <= |s| && caps == []
    else
      match ts[0]
      case Lit(t) => OccursAt(s, t, k) && Spells(s, k + |t|, ts[1..], caps)
      case Group(cls) =>
        && |caps| > 0 && |caps[0]| > 0 && AllIn(caps[0], cls) && OccursAt(s, caps[0], k)
        && Spells(s, k + |caps[0]|, ts[1..], caps[1..])
  }

  /** Length of the greedy run of `cls` characters starting at `k`. */
  function Run(s: string, k: nat, cls: CharClass): (n: nat)
    requires k <= |s|
    ensures k + n <= |s|
    decreases |s| - k
  {
    if k < |s| && cls.Has(s[k]) then 1 + Run(s, k + 1, cls) else 0
  }

  /** `Run` is greedy: everything it spans is in the class and the character after it is not. */
  lemma {:induction false} RunMaximal(s: string, k: nat, cls: CharClass)
    requires k <= |s|
    ensures AllIn(s[k..k + Run(s, k, cls)], cls)
    ensures k + Run(s, k, cls) == |s| || !cls.Has(s[k + Run(s, k, cls)])
    decreases |s| - k
  {
    if k < |s| && cls.Has(s[k]) {
      var n' := Run(s, k + 1, cls);
      RunMaximal(s, k + 1, cls);
      assert s[k..k + 1 + n'] == [s[k]] + s[k + 1..k + 1 + n'];
    }
  }

  /** A run of exactly `n` class characters followed by a non-class character is what `Run` finds. */
  lemma {:induction false} RunExact(s: string, k: nat, n: nat, cls: CharClass)
    requires k + n <= |s|
    requires AllIn(s[k..k + n], cls)
    requires k + n == |s| || !cls.Has(s[k + n])
    ensures Run(s, k, cls) == n
    decreases n
  {
    if n > 0 {
      assert s[k..k + n][0] == s[k];
      assert s[k + 1..k + 1 + (n - 1)] == s[k..k + n][1..];
      RunExact(s, k + 1, n - 1, cls);
    }
  }

  /** The backtrack-free match of `ts` at `k`: each literal must occur there, each group takes its greedy run. */
  function MatchTokens(s: string, k: nat, ts: seq<Token>): (r: Option<seq<string>>)
    requires k <= |s|
    ensures r.Some? ==> |r.value| == Groups(ts)
    decreases |ts|
  {
    if ts == [] then Some([])
    else
      match ts[0]
      case Lit(t) => if OccursAt(s, t, k) then MatchTokens(s, k + |t|, ts[1..]) else None
      case Group(cls) =>
        var n := Run(s, k, cls);
        if n == 0 then None
        else
          match MatchTokens(s, k + n, ts[1..])
          case Some(rest) => Some([s[k..k + n]] + rest)
          case None => None
  }

  /** Soundness: what `MatchTokens` returns is a way of spelling out `ts`. */
  lemma {:induction false} MatchTokensSound(s: string, k: nat, ts: seq<Token>)
    requires k <= |s|
    ensures MatchTokens(s, k, ts).Some? ==> Spells(s, k, ts, MatchTokens(s, k, ts).value)
    decreases |ts|
  {
    if ts != [] {
      match ts[0]
      case Lit(t) =>
        if OccursAt(s, t, k) {
          MatchTokensSound(s, k + |t|, ts[1..]);
        }
      case Group(cls) =>
        var n := Run(s, k, cls);
        if n > 0 && MatchTokens(s, k + n, ts[1..]).Some? {
          RunMaximal(s, k, cls);
          MatchTokensSound(s, k + n, ts[1..]);
          var caps := MatchTokens(s, k, ts).value;
          assert caps[0] == s[k..k + n] && caps[1..] == MatchTokens(s, k + n, ts[1..]).value;
        }
    }
  }

  lemma DeterministicTail(ts: seq<Token>)
    requires Deterministic(ts) && ts != []
    ensures Deterministic(ts[1..])
  {
    forall j | 0 <= j < |ts[1..]| && ts[1..][j].Group?
      ensures j + 1 < |ts[1..]| && ts[1..][j + 1].Lit? && |ts[1..][j + 1].text| > 0
              && !ts[1..][j].cls.Has(ts[1..][j + 1].text[0])
    {
      assert ts[1..][j] == ts[j + 1];
    }
  }

  /** In a deterministic pattern, a group can only have read its greedy run. */
  lemma GroupTakesItsRun(s: string, k: nat, ts: seq<Token>, caps: seq<string>)
    requires k <= |s| && Deterministic(ts) && ts != [] && ts[0].Group? && Spells(s, k, ts, caps)
    ensures |caps| > 0 && Run(s, k, ts[0].cls) == |caps[0]|
  {
    var n := |caps[0]|;
    var next := ts[1].text;
    assert ts[1..][0] == ts[1];
    assert OccursAt(s, next, k + n);
    assert s[k + n..k + n + |next|][0] == s[k + n];
    RunExact(s, k, n, ts[0].cls);
  }

  /** Completeness: for a deterministic pattern, any way of spelling it out is the one `MatchTokens` finds. */
  lemma {:induction false} MatchTokensComplete(s: string, k: nat, ts: seq<Token>, caps: seq<string>)
    requires k <= |s| && Deterministic(ts) && Spells(s, k, ts, caps)
    ensures MatchTokens(s, k, ts) == Some(caps)
    decreases |ts|
  {
    if ts != [] {
      DeterministicTail(ts);
      match ts[0]
      case Lit(t) =>
        MatchTokensComplete(s, k + |t|, ts[1..], caps[..]);
      case Group(cls) =>
        var n := |caps[0]|;
        GroupTakesItsRun(s, k, ts, caps);
        MatchTokensComplete(s, k + n, ts[1..], caps[1..]);
        assert [caps[0]] + caps[1..] == caps;
    }
  }

  /** The tails of the poster pattern, token by token. */
  function PatternTail(n: nat): seq<Token>
    requires 1 <= n <= 7
  {
    [Group(Digit), Lit("/"), Group(Digit), Lit("-"), Group(Hex), Lit(".jpg")][n - 1..]
  }

  lemma PatternTails(prefix: string)
    ensures PosterPattern(prefix) == [Lit(prefix)] + PatternTail(1)
    ensures PatternTail(1) == [Group(Digit)] + PatternTail(2)
    ensures PatternTail(2) == [Lit("/")] + PatternTail(3)
    ensures PatternTail(3) == [Group(Digit)] + PatternTail(4)
    ensures PatternTail(4) == [Lit("-")] + PatternTail(5)
    ensures PatternTail(5) == [Group(Hex)] + PatternTail(6)
    ensures PatternTail(6) == [Lit(".jpg")] + PatternTail(7)
    ensures PatternTail(7) == []
  {
  }

  lemma GroupsCons(x: Token, ts: seq<Token>)
    ensures Groups([x] + ts) == (if x.Group? then 1 else 0) + Groups(ts)
  {
    assert ([x] + ts)[1..] == ts;
  }

  /** Both poster patterns have three groups and need no backtracking. */
  lemma PosterPatternShape(prefix: string)
    ensures Groups(PosterPattern(prefix)) == 3
    ensures Deterministic(PosterPattern(prefix))
  {
    PatternTails(prefix);
    GroupsCons(Lit(".jpg"), PatternTail(7));
    GroupsCons(Group(Hex), PatternTail(6));
    GroupsCons(Lit("-"), PatternTail(5));
    GroupsCons(Group(Digit), PatternTail(4));
    GroupsCons(Lit("/"), PatternTail(3));
    GroupsCons(Group(Digit), PatternTail(2));
    GroupsCons(Lit(prefix), PatternTail(1));
  }

  /** Captures that the groups `(\d+)`, `(\d+)` and `([a-f0-9]+)` can produce. */
  predicate WellFormed(c: Captures) {
    && |c.first| > 0 && AllIn(c.first, Digit)
    && |c.second| > 0 && AllIn(c.second, Digit)
    && |c.hash| > 0 && AllIn(c.hash, Hex)
  }

  /** The text that a match with captures `c` consumes. */
  function PosterPath(prefix: string, c: Captures): string {
    prefix + c.first + "/" + c.second + "-" + c.hash + ".jpg"
  }

  /** The poster expression for `prefix` matches `s` at `i` with captures `c`. */
  predicate MatchesAt(s: string, prefix: string, i: nat, c: Captures) {
    Spells(s, i, PosterPattern(prefix), [c.first, c.second, c.hash])
  }

  /** The match starting exactly at `i`, if there is one. */
  function MatchAt(s: string, prefix: string, i: nat): Option<Captures> {
    if i > |s| then None
    else
      match MatchTokens(s, i, PosterPattern(prefix))
      case Some(cs) =>
        PosterPatternShape(prefix);
        Some(Captures(cs[0], cs[1], cs[2]))
      case None => None
  }

  /** Soundness: what `MatchAt` finds is a match. */
  lemma MatchAtSound(s: string, prefix: string, i: nat)
    ensures MatchAt(s, prefix, i).Some? ==> MatchesAt(s, prefix, i, MatchAt(s, prefix, i).value)
  {
    if i <= |s| {
      MatchTokensSound(s, i, PosterPattern(prefix));
      PosterPatternShape(prefix);
      if MatchTokens(s, i, PosterPattern(prefix)).Some? {
        var cs := MatchTokens(s, i, PosterPattern(prefix)).value;
        assert [cs[0], cs[1], cs[2]] == cs;
      }
    }
  }

  /** Completeness: whenever the expression matches at `i`, `MatchAt` finds that very match. */
  lemma MatchAtComplete(s: string, prefix: string, i: nat, c: Captures)
    requires MatchesAt(s, prefix, i, c)
    ensures MatchAt(s, prefix, i) == Some(c)
  {
    PosterPatternShape(prefix);
    assert OccursAt(s, prefix, i);
    MatchTokensComplete(s, i, PosterPattern(prefix), [c.first, c.second, c.hash]);
  }

  /** An occurrence of `x + y` is an occurrence of `x` followed directly by one of `y`. */
  lemma OccursConcat(s: string, x: string, y: string, i: nat)
    ensures OccursAt(s, x + y, i) <==> OccursAt(s, x, i) && OccursAt(s, y, i + |x|)
  {
    if i + |x| + |y| <= |s| {
      assert s[i..i + |x| + |y|] == s[i..i + |x|] + s[i + |x|..i + |x| + |y|];
      if s[i..i + |x| + |y|] == x + y {
        assert (x + y)[..|x|] == x;
        assert (x + y)[|x|..] == y;
      }
    }
  }

  /** The text the tokens `ts` stand for once the groups are filled with `caps`. */
  function Render(ts: seq<Token>, caps: seq<string>): string
    decreases |ts|
  {
    if ts == [] then ""
    else
      match ts[0]
      case Lit(t) => t + Render(ts[1..], caps)
      case Group(_) => if caps == [] then "" else caps[0] + Render(ts[1..], caps[1..])
  }

  /** `caps` has one non-empty entry per group, drawn from that group's class. */
  predicate Fits(ts: seq<Token>, caps: seq<string>)
    decreases |ts|
  {
    if ts == [] then caps == []
    else
      match ts[0]
      case Lit(_) => Fits(ts[1..], caps)
      case Group(cls) => |caps| > 0 && |caps[0]| > 0 && AllIn(caps[0], cls) && Fits(ts[1..], caps[1..])
  }

  /** Spelling out a pattern is the same as fitting captures to it and finding the rendered text. */
  lemma {:induction false} SpellsRender(s: string, k: nat, ts: seq<Token>, caps: seq<string>)
    ensures Spells(s, k, ts, caps) <==> Fits(ts, caps) && OccursAt(s, Render(ts, caps), k)
    decreases |ts|
  {
    if ts != [] {
      match ts[0]
      case Lit(t) =>
        SpellsRender(s, k + |t|, ts[1..], caps);
        OccursConcat(s, t, Render(ts[1..], caps), k);
      case Group(cls) =>
        if caps != [] {
          SpellsRender(s, k + |caps[0]|, ts[1..], caps[1..]);
          OccursConcat(s, caps[0], Render(ts[1..], caps[1..]), k);
        }
    }
  }

  lemma RenderLit(t: string, rest: seq<Token>, caps: seq<string>)
    ensures Render([Lit(t)] + rest, caps) == t + Render(rest, caps)
    ensures Fits([Lit(t)] + rest, caps) == Fits(rest, caps)
  {
    assert ([Lit(t)] + rest)[1..] == rest;
  }

  lemma RenderGroup(cls: CharClass, rest: seq<Token>, cap: string, caps: seq<string>)
    ensures Render([Group(cls)] + rest, [cap] + caps) == cap + Render(rest, caps)
    ensures Fits([Group(cls)] + rest, [cap] + caps) == (|cap| > 0 && AllIn(cap, cls) && Fits(rest, caps))
  {
    assert ([Group(cls)] + rest)[1..] == rest;
    assert ([cap] + caps)[1..] == caps;
  }

  lemma ConcatAssoc(x: string, y: string, z: string)
    ensures x + (y + z) == x + y + z
  {
  }

  /** Filling a poster pattern gives the poster path. */
  lemma PosterPatternRender(prefix: string, c: Captures)
    ensures Render(PosterPattern(prefix), [c.first, c.second, c.hash]) == PosterPath(prefix, c)
  {
    var none: seq<string> := [];
    var r5 := c.hash + ".jpg";
    var r4 := "-" + r5;
    var r3 := c.second + r4;
    var r2 := "/" + r3;
    var r1 := c.first + r2;
    assert Render(PatternTail(6), none) == ".jpg" by {
      PatternTails(prefix);
      RenderLit(".jpg", PatternTail(7), none);
    }
    assert Render(PatternTail(5), [c.hash]) == r5 by {
      PatternTails(prefix);
      RenderGroup(Hex, PatternTail(6), c.hash, none);
      assert [c.hash] + none == [c.hash];
    }
    assert Render(PatternTail(3), [c.second, c.hash]) == r3 by {
      PatternTails(prefix);
      RenderLit("-", PatternTail(5), [c.hash]);
      RenderGroup(Digit, PatternTail(4), c.second, [c.hash]);
      assert [c.second] + [c.hash] == [c.second, c.hash];
    }
    assert Render(PosterPattern(prefix), [c.first, c.second, c.hash]) == prefix + r1 by {
      PatternTails(prefix);
      RenderLit("/", PatternTail(3), [c.second, c.hash]);
      RenderGroup(Digit, PatternTail(2), c.first, [c.second, c.hash]);
      assert [c.first] + [c.second, c.hash] == [c.first, c.second, c.hash];
      RenderLit(prefix, PatternTail(1), [c.first, c.second, c.hash]);
    }
    assert prefix + r1 == PosterPath(prefix, c) by {
      ConcatAssoc(prefix + c.first + "/" + c.second + "-", c.hash, ".jpg");
      ConcatAssoc(prefix + c.first + "/" + c.second, "-", r5);
      ConcatAssoc(prefix + c.first + "/", c.second, r4);
      ConcatAssoc(prefix + c.first, "/", r3);
      ConcatAssoc(prefix, c.first, r2);
    }
  }

  /** The captures fit a poster pattern exactly when they are well formed. */
  lemma PosterPatternFits(prefix: string, c: Captures)
    ensures Fits(PosterPattern(prefix), [c.first, c.second, c.hash]) == WellFormed(c)
  {
    PatternTails(prefix);
    var none: seq<string> := [];
    RenderLit(".jpg", PatternTail(7), none);
    RenderGroup(Hex, PatternTail(6), c.hash, none);
    assert [c.hash] + none == [c.hash];
    RenderLit("-", PatternTail(5), [c.hash]);
    RenderGroup(Digit, PatternTail(4), c.second, [c.hash]);
    assert [c.second] + [c.hash] == [c.second, c.hash];
    RenderLit("/", PatternTail(3), [c.second, c.hash]);
    RenderGroup(Digit, PatternTail(2), c.first, [c.second, c.hash]);
    assert [c.first] + [c.second, c.hash] == [c.first, c.second, c.hash];
    RenderLit(prefix, PatternTail(1), [c.first, c.second, c.hash]);
  }

  /** A match is exactly an occurrence of the poster path built from well-formed captures. */
  lemma MatchIsPosterPath(s: string, prefix: string, i: nat, c: Captures)
    ensures MatchesAt(s, prefix, i, c) <==> WellFormed(c) && OccursAt(s, PosterPath(prefix, c), i)
  {
    SpellsRender(s, i, PosterPattern(prefix), [c.first, c.second, c.hash]);
    PosterPatternRender(prefix, c);
    PosterPatternFits(prefix, c);
  }

  /** No match starts at a position in `[lo, hi)`. */
  ghost predicate NoMatchBetween(s: string, prefix: string, lo: nat, hi: nat) {
    forall j: nat, c: Captures :: lo <= j < hi ==> !MatchesAt(s, prefix, j, c)
  }

  /** No match starts at a position `>= lo`. */
  ghost predicate NoMatchFrom(s: string, prefix: string, lo: nat) {
    forall j: nat, c: Captures :: lo <= j ==> !MatchesAt(s, prefix, j, c)
  }

  /** The leftmost match starting at a position `>= from`. */
  function Search(s: string, prefix: string, from: nat): Option<Match>
    decreases |s| + 1 - from
  {
    if from > |s| then None
    else
      match MatchAt(s, prefix, from)
      case Some(c) => Some(Match(from, c))
      case None => Search(s, prefix, from + 1)
  }

  /** `src.match(re)` for a non-global expression: the leftmost match. */
  function FirstMatch(s: string, prefix: string): Option<Match> {
    Search(s, prefix, 0)
  }

  /** `Search` returns a real match with no match between `from` and it, and finds nothing only when there is nothing. */
  lemma {:induction false} SearchLeftmost(s: string, prefix: string, from: nat)
    ensures Search(s, prefix, from).Some? ==>
              var m := Search(s, prefix, from).value;
              from <= m.at && MatchesAt(s, prefix, m.at, m.captures) && NoMatchBetween(s, prefix, from, m.at)
    ensures Search(s, prefix, from).None? <==> NoMatchFrom(s, prefix, from)
    decreases |s| + 1 - from
  {
    if from > |s| {
      forall j: nat, c: Captures | from <= j
        ensures !MatchesAt(s, prefix, j, c)
      {
        PosterPatternShape(prefix);
        assert !OccursAt(s, prefix, j);
      }
    } else {
      MatchAtSound(s, prefix, from);
      match MatchAt(s, prefix, from)
      case Some(c) =>
      case None =>
        SearchLeftmost(s, prefix, from + 1);
        forall c: Captures ensures !MatchesAt(s, prefix, from, c) {
          if MatchesAt(s, prefix, from, c) {
            MatchAtComplete(s, prefix, from, c);
          }
        }
    }
  }

  /** `FirstMatch` finds the leftmost match and, when one exists, its unique captures. */
  lemma FirstMatchIsLeftmost(s: string, prefix: string, i: nat, c: Captures)
    requires MatchesAt(s, prefix, i, c)
    requires NoMatchBetween(s, prefix, 0, i)
    ensures FirstMatch(s, prefix) == Some(Match(i, c))
  {
    SearchLeftmost(s, prefix, 0);
    var m := FirstMatch(s, prefix).value;
    assert MatchesAt(s, prefix, m.at, m.captures);
    assert m.at == i;
    MatchAtComplete(s, prefix, i, c);
    MatchAtComplete(s, prefix, i, m.captures);
  }

  function AttachmentVideoUrl(c: Captures): string {
    VideoHost + "/data/video/" + c.first + "/" + c.second + "-" + c.hash + ".mp4"
  }

  function GalleryVideoUrl(c: Captures): string {
    VideoHost + "/data/xfmg/video/" + c.first + "/" + c.second + "-" + c.hash + ".mp4"
  }

  /** The video URL derived from a poster `src`: attachment pattern first, gallery pattern only if that fails. */
  function VideoUrl(src: string): Option<string> {
    match FirstMatch(src, AttachmentPoster)
    case Some(m) => Some(AttachmentVideoUrl(m.captures))
    case None =>
      match FirstMatch(src, GalleryPoster)
      case Some(m) => Some(GalleryVideoUrl(m.captures))
      case None => None
  }

  /** The exclusion test applied to a derived URL before a video is built. */
  predicate IsThumbnailUrl(url: string) {
    Contains(url, ThumbnailSegment) || Contains(url, AlbumThumbnailSegment)
  }

  /** An attachment-poster match anywhere decides the result: the leftmost one's captures, verbatim. */
  lemma ResolveAttachment(src: string, i: nat, c: Captures)
    requires MatchesAt(src, AttachmentPoster, i, c)
    requires NoMatchBetween(src, AttachmentPoster, 0, i)
    ensures VideoUrl(src) == Some(AttachmentVideoUrl(c))
  {
    FirstMatchIsLeftmost(src, AttachmentPoster, i, c);
  }

  /** The gallery pattern is consulted only when the attachment pattern matches nowhere. */
  lemma ResolveGallery(src: string, i: nat, c: Captures)
    requires NoMatchFrom(src, AttachmentPoster, 0)
    requires MatchesAt(src, GalleryPoster, i, c)
    requires NoMatchBetween(src, GalleryPoster, 0, i)
    ensures VideoUrl(src) == Some(GalleryVideoUrl(c))
  {
    SearchLeftmost(src, AttachmentPoster, 0);
    FirstMatchIsLeftmost(src, GalleryPoster, i, c);
  }

  /** No URL is derived exactly when neither expression matches anywhere in `src`. */
  lemma ResolveNone(src: string)
    ensures VideoUrl(src).None? <==> NoMatchFrom(src, AttachmentPoster, 0) && NoMatchFrom(src, GalleryPoster, 0)
  {
    SearchLeftmost(src, AttachmentPoster, 0);
    SearchLeftmost(src, GalleryPoster, 0);
  }

  /** The captures that reach a URL template are non-empty digit and hex strings, so none holds a `/`. */
  lemma FirstMatchCaptures(s: string, prefix: string)
    ensures FirstMatch(s, prefix).Some? ==>
              var c := FirstMatch(s, prefix).value.captures;
              WellFormed(c) && Lacks(c.first, '/') && Lacks(c.second, '/') && Lacks(c.hash, '/')
  {
    SearchLeftmost(s, prefix, 0);
    if FirstMatch(s, prefix).Some? {
      var m := FirstMatch(s, prefix).value;
      MatchIsPosterPath(s, prefix, m.at, m.captures);
    }
  }

  lemma LacksConcat(a: string, b: string, ch: char)
    requires Lacks(a, ch) && Lacks(b, ch)
    ensures Lacks(a + b, ch)
  {
    forall k | 0 <= k < |a + b| ensures (a + b)[k] != ch {
      if k >= |a| { assert (a + b)[k] == b[k - |a|]; }
    }
  }

  /** A string without the character `ch` contains no string that has it. */
  lemma LacksNotContains(s: string, sub: string, ch: char)
    requires Lacks(s, ch) && ch in sub
    ensures !Contains(s, sub)
  {
    var j :| 0 <= j < |sub| && sub[j] == ch;
    forall i: nat ensures !OccursAt(s, sub, i) {
      if i + |sub| <= |s| {
        assert s[i..i + |sub|][j] == s[i + j] != ch;
      }
    }
  }

  /** The thumbnail exclusion can never fire: neither template yields a URL containing a thumbnail segment. */
  lemma DerivedUrlNeverThumbnail(src: string)
    ensures VideoUrl(src).Some? ==> !IsThumbnailUrl(VideoUrl(src).value)
  {
    if VideoUrl(src).Some? {
      var url := VideoUrl(src).value;
      DerivedUrlLacksU(src);
      SegmentsHoldU();
      LacksNotContains(url, ThumbnailSegment, 'u');
      LacksNotContains(url, AlbumThumbnailSegment, 'u');
    }
  }

  lemma SegmentsHoldU()
    ensures 'u' in ThumbnailSegment && 'u' in AlbumThumbnailSegment
  {
    assert ThumbnailSegment[13] == 'u';
    assert AlbumThumbnailSegment[14] == 'u';
  }

  /** No derived URL holds the letter `u`: not the host, not the fixed path, not a digit or hex capture. */
  lemma DerivedUrlLacksU(src: string)
    ensures VideoUrl(src).Some? ==> Lacks(VideoUrl(src).value, 'u')
  {
    match FirstMatch(src, AttachmentPoster)
    case Some(m) =>
      FirstMatchCaptures(src, AttachmentPoster);
      TemplateHeadsLackU();
      LacksTemplate(VideoHost + "/data/video/", m.captures);
    case None =>
      match FirstMatch(src, GalleryPoster)
      case Some(m) =>
        FirstMatchCaptures(src, GalleryPoster);
        TemplateHeadsLackU();
        LacksTemplate(VideoHost + "/data/xfmg/video/", m.captures);
      case None =>
  }

  lemma TemplateHeadsLackU()
    ensures Lacks(VideoHost + "/data/video/", 'u')
    ensures Lacks(VideoHost + "/data/xfmg/video/", 'u')
  {
    assert Lacks(VideoHost, 'u');
    assert Lacks("/data/video/", 'u');
    assert Lacks("/data/xfmg/video/", 'u');
    LacksConcat(VideoHost, "/data/video/", 'u');
    LacksConcat(VideoHost, "/data/xfmg/video/", 'u');
  }

  /** A template filled with well-formed captures holds no letter `u`. */
  lemma LacksTemplate(head: string, c: Captures)
    requires Lacks(head, 'u') && WellFormed(c)
    ensures Lacks(head + c.first + "/" + c.second + "-" + c.hash + ".mp4", 'u')
  {
    LacksConcat(head, c.first, 'u');
    LacksConcat(head + c.first, "/", 'u');
    LacksConcat(head + c.first + "/", c.second, 'u');
    LacksConcat(head + c.first + "/" + c.second, "-", 'u');
    LacksConcat(head + c.first + "/" + c.second + "-", c.hash, 'u');
    LacksConcat(head + c.first + "/" + c.second + "-" + c.hash, ".mp4", 'u');
  }

  /**
   * Any `src` that resolves contains one of the substrings that the first two
   * selectors of the scan require, so scanning every image and letting the
   * resolver judge it selects the same images as the selectors do.
   */
  lemma ResolvedImpliesSelected(src: string)
    ensures VideoUrl(src).Some? ==> Contains(src, AttachmentPoster) || Contains(src, GalleryPoster)
  {
    SearchLeftmost(src, AttachmentPoster, 0);
    SearchLeftmost(src, GalleryPoster, 0);
    match FirstMatch(src, AttachmentPoster)
    case Some(m) => assert OccursAt(src, AttachmentPoster, m.at);
    case None =>
      match FirstMatch(src, GalleryPoster)
      case Some(m) => assert OccursAt(src, GalleryPoster, m.at);
      case None =>
  }

  /** A character of `prefix` that `s` lacks rules out every match. */
  lemma AbsentCharNoMatch(s: string, prefix: string, ch: char)
    requires ch in prefix && Lacks(s, ch)
    ensures NoMatchFrom(s, prefix, 0)
  {
    LacksNotContains(s, prefix, ch);
  }

  /** Thread attachment poster: `/data/attachments/posters/42/99-abc123.jpg`. */
  lemma AttachmentExample(src: string)
    requires src == "/data/attachments/posters/42/99-abc123.jpg"
    ensures VideoUrl(src) == Some(AttachmentVideoUrl(Captures("42", "99", "abc123")))
  {
    var c := Captures("42", "99", "abc123");
    AttachmentExamplePath(src);
    MatchIsPosterPath(src, AttachmentPoster, 0, c);
    ResolveAttachment(src, 0, c);
  }

  /** Gallery poster: `/data/xfmg/poster/7/15-deadbeef.jpg`. */
  lemma GalleryExample(src: string)
    requires src == "/data/xfmg/poster/7/15-deadbeef.jpg"
    ensures VideoUrl(src) == Some(GalleryVideoUrl(Captures("7", "15", "deadbeef")))
  {
    var c := Captures("7", "15", "deadbeef");
    GalleryExamplePath(src);
    MatchIsPosterPath(src, GalleryPoster, 0, c);
    GallerySrcLacksC(src);
    assert AttachmentPoster[10] == 'c';
    AbsentCharNoMatch(src, AttachmentPoster, 'c');
    ResolveGallery(src, 0, c);
  }

  lemma AttachmentExamplePath(src: string)
    requires src == "/data/attachments/posters/42/99-abc123.jpg"
    ensures OccursAt(src, PosterPath(AttachmentPoster, Captures("42", "99", "abc123")), 0)
  {
    assert PosterPath(AttachmentPoster, Captures("42", "99", "abc123")) == src;
  }

  lemma GalleryExamplePath(src: string)
    requires src == "/data/xfmg/poster/7/15-deadbeef.jpg"
    ensures OccursAt(src, PosterPath(GalleryPoster, Captures("7", "15", "deadbeef")), 0)
  {
    assert PosterPath(GalleryPoster, Captures("7", "15", "deadbeef")) == src;
  }

  lemma GallerySrcLacksC(src: string)
    requires src == "/data/xfmg/poster/7/15-deadbeef.jpg"
    ensures Lacks(src, 'c')
  {
  }

  /** A gallery thumbnail resolves to nothing: neither pattern matches it. */
  lemma ThumbnailExample()
    ensures VideoUrl("/data/xfmg/thumbnail/7/15-deadbeef.jpg").None?
  {
    var src := "/data/xfmg/thumbnail/7/15-deadbeef.jpg";
    assert AttachmentPoster[23] == 'r';
    assert GalleryPoster[16] == 'r';
    AbsentCharNoMatch(src, AttachmentPoster, 'r');
    AbsentCharNoMatch(src, GalleryPoster, 'r');
    ResolveNone(src);
  }
}
