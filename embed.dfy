/**
 * The link helpers of config.php: `getGoogleDriveEmbedUrl`,
 * `getYouTubeVideoId` and `getYouTubeEmbedUrl`.
 *
 * Each of their regular expressions has the shape
 * `(?:p1|p2|...)([a-zA-Z0-9_-]...)`: a few fixed prefixes followed by a run of
 * id characters.  `preg_match` reports the leftmost position at which the
 * pattern matches; at one position it tries the prefixes in order.  That scan
 * is written out here (FirstAlt, Search) instead of a general regex engine.
 */
module Embed {
  import opened Php

  /** `[a-zA-Z0-9_-]` */
  predicate IsIdChar(c: char)
  {
    IsAsciiAlnum(c) || c == '_' || c == '-'
  }

  /** Length of the maximal run of id characters starting at `i`. */
  function RunLen(s: string, i: nat): (n: nat)
    requires i <= |s|
    ensures i + n <= |s|
    ensures forall k :: i <= k < i + n ==> IsIdChar(s[k])
    ensures i + n == |s| || !IsIdChar(s[i + n])
    decreases |s| - i
  {
    if i < |s| && IsIdChar(s[i]) then 1 + RunLen(s, i + 1) else 0
  }

  lemma {:induction false} RunLenAtLeast(s: string, i: nat, n: nat)
    requires i + n <= |s|
    requires forall k :: i <= k < i + n ==> IsIdChar(s[k])
    ensures RunLen(s, i) >= n
    decreases n
  {
    if n > 0 {
      RunLenAtLeast(s, i + 1, n - 1);
    }
  }

  predicate StartsAt(s: string, i: nat, p: string)
  {
    i + |p| <= |s| && s[i..i + |p|] == p
  }

  /** Prefix `p` followed by at least `min` id characters starts at `i`. */
  predicate MatchesAt(s: string, i: nat, p: string, min: nat)
    requires i <= |s|
  {
    StartsAt(s, i, p) && RunLen(s, i + |p|) >= min
  }

  /** The alternation tried in order at position `i`, from alternative `k`
      on: the index of the first alternative that matches there. */
  function FirstAltFrom(s: string, i: nat, alts: seq<string>, min: nat, k: nat): (r: Option<nat>)
    requires i <= |s| && k <= |alts|
    ensures r.Some? ==> k <= r.value < |alts| && MatchesAt(s, i, alts[r.value], min)
    ensures r.Some? ==> forall j :: k <= j < r.value ==> !MatchesAt(s, i, alts[j], min)
    ensures r.None? ==> forall j :: k <= j < |alts| ==> !MatchesAt(s, i, alts[j], min)
    decreases |alts| - k
  {
    if k == |alts| then None
    else if MatchesAt(s, i, alts[k], min) then Some(k)
    else FirstAltFrom(s, i, alts, min, k + 1)
  }

  function FirstAlt(s: string, i: nat, alts: seq<string>, min: nat): Option<nat>
    requires i <= |s|
  {
    FirstAltFrom(s, i, alts, min, 0)
  }

  datatype Hit = Hit(at: nat, alt: nat)

  /** `preg_match`: the leftmost position at or after `i` where the pattern
      matches, with the alternative that matched there. */
  function Search(s: string, i: nat, alts: seq<string>, min: nat): (r: Option<Hit>)
    requires i <= |s|
    ensures r.Some? ==> i <= r.value.at <= |s| && FirstAlt(s, r.value.at, alts, min) == Some(r.value.alt)
    ensures r.Some? ==> forall p :: i <= p < r.value.at ==> FirstAlt(s, p, alts, min).None?
    ensures r.None? ==> forall p :: i <= p <= |s| ==> FirstAlt(s, p, alts, min).None?
    decreases |s| - i
  {
    match FirstAlt(s, i, alts, min)
    case Some(k) => Some(Hit(i, k))
    case None => if i == |s| then None else Search(s, i + 1, alts, min)
  }

  /** Where the capture group begins for a hit. */
  function CaptureStart(s: string, alts: seq<string>, min: nat, h: Hit): (c: nat)
    requires h.at <= |s| && FirstAlt(s, h.at, alts, min) == Some(h.alt)
    ensures h.alt < |alts| && StartsAt(s, h.at, alts[h.alt]) && c == h.at + |alts[h.alt]|
    ensures c <= |s| && c + RunLen(s, c) <= |s| && RunLen(s, c) >= min
  {
    h.at + |alts[h.alt]|
  }

  /** Every position where nothing matches can be skipped. */
  lemma {:induction false} SearchSkips(s: string, lo: nat, hi: nat, alts: seq<string>, min: nat)
    requires lo <= hi <= |s|
    requires forall p :: lo <= p < hi ==> FirstAlt(s, p, alts, min).None?
    ensures Search(s, lo, alts, min) == Search(s, hi, alts, min)
    decreases hi - lo
  {
    if lo < hi {
      SearchSkips(s, lo + 1, hi, alts, min);
    }
  }

  lemma SearchMiss(s: string, i: nat, alts: seq<string>, min: nat)
    requires i < |s| && FirstAlt(s, i, alts, min).None?
    ensures Search(s, i, alts, min) == Search(s, i + 1, alts, min)
  {
  }

  lemma SearchHit(s: string, i: nat, alts: seq<string>, min: nat, k: nat)
    requires i <= |s| && FirstAlt(s, i, alts, min) == Some(k)
    ensures Search(s, i, alts, min) == Some(Hit(i, k))
  {
  }

  /** All the YouTube prefixes begin with a lower-case 'y'. */
  predicate StartWithY(alts: seq<string>)
  {
    forall j :: 0 <= j < |alts| ==> |alts[j]| > 0 && alts[j][0] == 'y'
  }

  lemma NoMatchWithoutY(s: string, p: nat, alts: seq<string>, min: nat)
    requires p <= |s| && StartWithY(alts)
    requires p == |s| || s[p] != 'y'
    ensures FirstAlt(s, p, alts, min).None?
  {
    forall j | 0 <= j < |alts| ensures !MatchesAt(s, p, alts[j], min) {
      if p + |alts[j]| <= |s| {
        assert s[p..p + |alts[j]|][0] == s[p];
      }
    }
  }

  /** A stretch without any 'y' holds no YouTube link. */
  lemma SkipWithoutY(s: string, lo: nat, hi: nat, alts: seq<string>, min: nat)
    requires lo <= hi <= |s| && StartWithY(alts)
    requires forall p :: lo <= p < hi ==> s[p] != 'y'
    ensures Search(s, lo, alts, min) == Search(s, hi, alts, min)
  {
    forall p | lo <= p < hi ensures FirstAlt(s, p, alts, min).None? {
      NoMatchWithoutY(s, p, alts, min);
    }
    SearchSkips(s, lo, hi, alts, min);
  }

  /* ---------------- Google Drive ---------------- */

  const DrivePattern: seq<string> := ["/d/"]
  const DocsPattern: seq<string> := ["/document/d/"]
  const DriveFilePrefix := "https://drive.google.com/file/d/"
  const DocsPrefix := "https://docs.google.com/document/d/"

  /** The capture `([a-zA-Z0-9_-]+)`: greedy, so the whole run. */
  function GreedyId(s: string, c: nat): string
    requires c <= |s|
  {
    s[c..c + RunLen(s, c)]
  }

  function DrivePreview(id: string): string
  {
    DriveFilePrefix + id + "/preview"
  }

  function DocsPreview(id: string): string
  {
    DocsPrefix + id + "/preview"
  }

  /** `getGoogleDriveEmbedUrl` (config.php:63-73).  The Docs branch never
      decides the result: the link comes back unchanged exactly when the
      Drive pattern matches nowhere, and is a Drive file preview otherwise. */
  function DriveEmbedUrl(url: string): (r: string)
    ensures Search(url, 0, DrivePattern, 1).None? ==> r == url
    ensures Search(url, 0, DrivePattern, 1).Some? ==>
              |DriveFilePrefix| < |r| && r[..|DriveFilePrefix|] == DriveFilePrefix
  {
    var r :=
      match Search(url, 0, DrivePattern, 1)
      case Some(h) => DrivePreview(GreedyId(url, CaptureStart(url, DrivePattern, 1, h)))
      case None =>
        match Search(url, 0, DocsPattern, 1)
        case Some(h) => DocsPreview(GreedyId(url, CaptureStart(url, DocsPattern, 1, h)))
        case None => url;
    DocsImpliesDrive(url);
    r
  }

  /** "/d/" followed by at least one id character starts at `p`. */
  predicate DriveLinkAt(url: string, p: nat)
  {
    p + 3 < |url| && url[p..p + 3] == "/d/" && IsIdChar(url[p + 3])
  }

  lemma DriveAltIff(url: string, p: nat)
    requires p <= |url|
    ensures FirstAlt(url, p, DrivePattern, 1).Some? <==> DriveLinkAt(url, p)
  {
    if DriveLinkAt(url, p) {
      RunLenAtLeast(url, p + 3, 1);
      assert MatchesAt(url, p, DrivePattern[0], 1);
    }
  }

  /** The Docs branch is dead: every "/document/d/<id>" contains "/d/<id>". */
  lemma DocsImpliesDrive(url: string)
    ensures Search(url, 0, DocsPattern, 1).Some? ==> Search(url, 0, DrivePattern, 1).Some?
  {
    var docs := Search(url, 0, DocsPattern, 1);
    if docs.Some? {
      var p := docs.value.at;
      assert MatchesAt(url, p, DocsPattern[0], 1);
      assert url[p + 9..p + 12] == url[p..p + 12][9..12] == "/d/";
      DriveAltIff(url, p + 9);
      assert FirstAlt(url, p + 9, DrivePattern, 1).Some?;
    }
  }

  /** So a link is rewritten to the Drive file preview exactly when it holds
      "/d/" and an id character; the docs.google.com form is never produced
      from a link that has one. */
  lemma {:induction false} DriveEmbedRewrites(url: string, p: nat, n: nat)
    requires DriveLinkAt(url, p)
    requires forall q :: 0 <= q < p ==> !DriveLinkAt(url, q)
    requires p + 3 + n <= |url|
    requires forall k :: p + 3 <= k < p + 3 + n ==> IsIdChar(url[k])
    requires p + 3 + n == |url| || !IsIdChar(url[p + 3 + n])
    ensures DriveEmbedUrl(url) == DriveFilePrefix + url[p + 3..p + 3 + n] + "/preview"
  {
    DriveSearchAt(url, p);
    DriveEmbedOfSome(url, Hit(p, 0));
    DriveCaptureStart(url, Hit(p, 0));
    RunLenExact(url, p + 3, n);
    assert GreedyId(url, p + 3) == url[p + 3..p + 3 + n];
  }

  /** The Drive search stops at the leftmost "/d/<id>". */
  lemma DriveSearchAt(url: string, p: nat)
    requires DriveLinkAt(url, p)
    requires forall q :: 0 <= q < p ==> !DriveLinkAt(url, q)
    ensures Search(url, 0, DrivePattern, 1) == Some(Hit(p, 0))
  {
    forall q | 0 <= q < p ensures FirstAlt(url, q, DrivePattern, 1).None? {
      DriveAltIff(url, q);
    }
    SearchSkips(url, 0, p, DrivePattern, 1);
    DriveAltIff(url, p);
    assert FirstAlt(url, p, DrivePattern, 1) == Some(0);
  }

  lemma DriveEmbedOfSome(url: string, h: Hit)
    requires Search(url, 0, DrivePattern, 1) == Some(h)
    ensures DriveEmbedUrl(url) == DrivePreview(GreedyId(url, CaptureStart(url, DrivePattern, 1, h)))
  {
  }

  lemma DriveCaptureStart(url: string, h: Hit)
    requires h.at <= |url| && FirstAlt(url, h.at, DrivePattern, 1) == Some(h.alt)
    ensures CaptureStart(url, DrivePattern, 1, h) == h.at + 3
  {
  }

  lemma {:induction false} RunLenExact(s: string, i: nat, n: nat)
    requires i + n <= |s|
    requires forall k :: i <= k < i + n ==> IsIdChar(s[k])
    requires i + n == |s| || !IsIdChar(s[i + n])
    ensures RunLen(s, i) == n
    decreases n
  {
    if n > 0 {
      RunLenExact(s, i + 1, n - 1);
    }
  }

  /** Without "/d/<id>" anywhere, the link comes back unchanged (the Docs
      pattern cannot match either). */
  lemma DriveEmbedUnchanged(url: string)
    requires forall q :: 0 <= q <= |url| ==> !DriveLinkAt(url, q)
    ensures DriveEmbedUrl(url) == url
  {
    forall q | 0 <= q <= |url| ensures FirstAlt(url, q, DrivePattern, 1).None? {
      DriveAltIff(url, q);
    }
    DocsImpliesDrive(url);
  }

  /* ---------------- YouTube ---------------- */

  const WatchPattern: seq<string> := ["youtube.com/watch?v=", "youtu.be/", "youtube.com/embed/"]
  const ShortsPattern: seq<string> := ["youtube.com/shorts/"]
  /** The two patterns, in the order the `foreach` tries them. */
  const YouTubePatterns: seq<seq<string>> := [WatchPattern, ShortsPattern]
  /** `{11}` */
  const IdLength := 11
  const YouTubeEmbedPrefix := "https://www.youtube.com/embed/"

  predicate IsVideoId(id: string)
  {
    |id| == IdLength && forall k :: 0 <= k < |id| ==> IsIdChar(id[k])
  }

  /** The capture `([a-zA-Z0-9_-]{11})`: exactly eleven characters, even when
      the run is longer. */
  function CapturedId(url: string, alts: seq<string>, h: Hit): (id: string)
    requires h.at <= |url| && FirstAlt(url, h.at, alts, IdLength) == Some(h.alt)
    ensures IsVideoId(id)
  {
    var c := CaptureStart(url, alts, IdLength, h);
    url[c..c + IdLength]
  }

  /** `getYouTubeVideoId` (config.php:94-110): the first pattern in the list
      that matches anywhere wins. */
  function VideoIdFrom(url: string, patterns: seq<seq<string>>): (r: Option<string>)
    ensures r.Some? ==> IsVideoId(r.value)
    ensures r.None? <==> forall j :: 0 <= j < |patterns| ==> Search(url, 0, patterns[j], IdLength).None?
    ensures r.Some? ==> exists j :: 0 <= j < |patterns| && Search(url, 0, patterns[j], IdLength).Some?
                          && r.value == CapturedId(url, patterns[j], Search(url, 0, patterns[j], IdLength).value)
                          && forall i :: 0 <= i < j ==> Search(url, 0, patterns[i], IdLength).None?
  {
    if patterns == [] then None
    else
      match Search(url, 0, patterns[0], IdLength)
      case Some(h) => Some(CapturedId(url, patterns[0], h))
      case None => VideoIdFrom(url, patterns[1..])
  }

  /** `getYouTubeVideoId`: the watch / youtu.be / embed alternation is
      searched over the whole link first; the shorts pattern only when that
      finds nothing. */
  function VideoId(url: string): (r: Option<string>)
    ensures r.Some? ==> IsVideoId(r.value)
    ensures Search(url, 0, WatchPattern, IdLength).Some? ==>
              r == Some(CapturedId(url, WatchPattern, Search(url, 0, WatchPattern, IdLength).value))
    ensures Search(url, 0, WatchPattern, IdLength).None? ==>
              r == match Search(url, 0, ShortsPattern, IdLength)
                   case Some(h) => Some(CapturedId(url, ShortsPattern, h))
                   case None => None
  {
    VideoIdCases(url);
    VideoIdFrom(url, YouTubePatterns)
  }

  /** The two patterns of `getYouTubeVideoId`, one after the other. */
  lemma VideoIdCases(url: string)
    ensures var r := VideoIdFrom(url, YouTubePatterns);
            && (Search(url, 0, WatchPattern, IdLength).Some? ==>
                  r == Some(CapturedId(url, WatchPattern, Search(url, 0, WatchPattern, IdLength).value)))
            && (Search(url, 0, WatchPattern, IdLength).None? ==>
                  r == VideoIdFrom(url, [ShortsPattern]))
    ensures var r := VideoIdFrom(url, [ShortsPattern]);
            r == match Search(url, 0, ShortsPattern, IdLength)
                 case Some(h) => Some(CapturedId(url, ShortsPattern, h))
                 case None => None
  {
    assert YouTubePatterns[0] == WatchPattern && YouTubePatterns[1..] == [ShortsPattern];
    assert [ShortsPattern][0] == ShortsPattern && [ShortsPattern][1..] == [];
  }

  /** `getYouTubeEmbedUrl` (config.php:75-92): the same loop, building the
      embed link, or the link itself when no pattern matches. */
  function EmbedFrom(url: string, patterns: seq<seq<string>>): (r: string)
    ensures r == match VideoIdFrom(url, patterns)
                 case Some(id) => YouTubeEmbedPrefix + id
                 case None => url
  {
    if patterns == [] then url
    else
      match Search(url, 0, patterns[0], IdLength)
      case Some(h) => YouTubeEmbedPrefix + CapturedId(url, patterns[0], h)
      case None => EmbedFrom(url, patterns[1..])
  }

  /** The embed link is built from exactly the id `getYouTubeVideoId` finds. */
  function YouTubeEmbedUrl(url: string): (r: string)
    ensures r == match VideoId(url)
                 case Some(id) => YouTubeEmbedPrefix + id
                 case None => url
  {
    EmbedFrom(url, YouTubePatterns)
  }

  /** At the start of one watch prefix followed by eleven id characters,
      the watch pattern matches and captures exactly those eleven. */
  lemma WatchHitAt(s: string, i: nat, k: nat, id: string)
    requires k < |WatchPattern| && IsVideoId(id)
    requires i + |WatchPattern[k]| + IdLength <= |s|
    requires s[i..i + |WatchPattern[k]|] == WatchPattern[k]
    requires s[i + |WatchPattern[k]|..i + |WatchPattern[k]| + IdLength] == id
    ensures FirstAlt(s, i, WatchPattern, IdLength) == Some(k)
    ensures CapturedId(s, WatchPattern, Hit(i, k)) == id
  {
    IdFollowsPrefix(s, i, WatchPattern[k], id);
    assert s[i + 5] == WatchPattern[k][5];
    if k == 1 {
      Differs(s, i, WatchPattern[0], 5);
    } else if k == 2 {
      assert s[i + 12] == WatchPattern[k][12];
      Differs(s, i, WatchPattern[0], 12);
      Differs(s, i, WatchPattern[1], 5);
    }
  }

  /** A prefix does not start where the text differs from it. */
  lemma Differs(s: string, i: nat, p: string, m: nat)
    requires m < |p| && i + m < |s| && s[i + m] != p[m]
    ensures !StartsAt(s, i, p)
  {
    assert i + |p| <= |s| ==> s[i..i + |p|][m] == s[i + m];
  }

  /** A prefix followed by eleven id characters matches there. */
  lemma IdFollowsPrefix(s: string, i: nat, p: string, id: string)
    requires IsVideoId(id) && i + |p| + IdLength <= |s|
    requires s[i..i + |p|] == p && s[i + |p|..i + |p| + IdLength] == id
    ensures MatchesAt(s, i, p, IdLength)
  {
    var c := i + |p|;
    forall m | c <= m < c + IdLength ensures IsIdChar(s[m]) {
      assert s[m] == id[m - c];
    }
    RunLenAtLeast(s, c, IdLength);
  }

  /** A match of the watch pattern decides the id, whatever follows. */
  lemma WatchSearchDecides(s: string, h: Hit)
    requires Search(s, 0, WatchPattern, IdLength) == Some(h)
    ensures VideoId(s) == Some(CapturedId(s, WatchPattern, h))
  {
    assert YouTubePatterns[0] == WatchPattern;
  }

  /** A link "…youtu.be/<id>…" (or watch?v= / embed/) with no 'y' before
      it yields that id; a longer run of id characters is cut to eleven. */
  lemma WatchLinkId(pre: string, k: nat, id: string, rest: string)
    requires k < |WatchPattern| && IsVideoId(id)
    requires forall m :: 0 <= m < |pre| ==> pre[m] != 'y'
    ensures VideoId(pre + WatchPattern[k] + id + rest) == Some(id)
  {
    var s := pre + WatchPattern[k] + id + rest;
    var i := |pre|;
    LinkLayout(pre, WatchPattern[k], id, rest);
    WatchFoundAfter(s, 0, i, k, id);
    WatchSearchDecides(s, Hit(i, k));
  }

  /** Searching from `lo`, a watch / youtu.be / embed prefix at `i` with an
      id after it and no 'y' before it is the hit, and the id is captured. */
  lemma WatchFoundAfter(s: string, lo: nat, i: nat, k: nat, id: string)
    requires k < |WatchPattern| && IsVideoId(id) && lo <= i
    requires i + |WatchPattern[k]| + IdLength <= |s|
    requires s[i..i + |WatchPattern[k]|] == WatchPattern[k]
    requires s[i + |WatchPattern[k]|..i + |WatchPattern[k]| + IdLength] == id
    requires forall p :: lo <= p < i ==> s[p] != 'y'
    ensures Search(s, lo, WatchPattern, IdLength) == Some(Hit(i, k))
    ensures CapturedId(s, WatchPattern, Hit(i, k)) == id
  {
    SkipWithoutY(s, lo, i, WatchPattern, IdLength);
    WatchHitAt(s, i, k, id);
    SearchHit(s, i, WatchPattern, IdLength, k);
  }

  /** Where the parts of `pre + w + id + rest` sit. */
  lemma LinkLayout(pre: string, w: string, id: string, rest: string)
    ensures var s := pre + w + id + rest;
            && s[|pre|..|pre| + |w|] == w
            && s[|pre| + |w|..|pre| + |w| + |id|] == id
            && forall p :: 0 <= p < |pre| ==> s[p] == pre[p]
  {
    var s := pre + w + id + rest;
    assert s == pre + (w + (id + rest));
    assert (w + (id + rest))[..|w|] == w;
    assert (id + rest)[..|id|] == id;
  }

  /** Where a shorts prefix starts, no watch prefix does. */
  lemma ShortsNotWatch(s: string, i: nat)
    requires i + |ShortsPattern[0]| <= |s| && s[i..i + |ShortsPattern[0]|] == ShortsPattern[0]
    ensures FirstAlt(s, i, WatchPattern, IdLength).None?
  {
    assert s[i + 5] == s[i..i + |ShortsPattern[0]|][5];
    assert s[i + 12] == s[i..i + |ShortsPattern[0]|][12];
    Differs(s, i, WatchPattern[0], 12);
    Differs(s, i, WatchPattern[1], 5);
    Differs(s, i, WatchPattern[2], 12);
  }

  /** A link that starts with a shorts prefix has no watch match at 0. */
  lemma ShortsStartSkipped(s: string)
    requires |ShortsPattern[0]| <= |s| && s[0..|ShortsPattern[0]|] == ShortsPattern[0]
    ensures Search(s, 0, WatchPattern, IdLength) == Search(s, 1, WatchPattern, IdLength)
  {
    ShortsNotWatch(s, 0);
    SearchMiss(s, 0, WatchPattern, IdLength);
  }

  /** A shorts link is used when no watch / youtu.be / embed link is present. */
  lemma ShortsLinkId(pre: string, id: string, rest: string)
    requires IsVideoId(id)
    requires forall m :: 0 <= m < |pre| ==> pre[m] != 'y'
    requires forall m :: 0 <= m < |id| ==> id[m] != 'y'
    requires forall m :: 0 <= m < |rest| ==> rest[m] != 'y'
    ensures VideoId(pre + ShortsPattern[0] + id + rest) == Some(id)
  {
    var s := pre + ShortsPattern[0] + id + rest;
    var i := |pre|;
    var c := i + |ShortsPattern[0]|;
    ShortsLinkLayout(pre, id, rest);
    ShortsNotWatch(s, i);
    SkipWithoutY(s, 0, i, WatchPattern, IdLength);
    SearchSkips(s, i, i + 1, WatchPattern, IdLength);
    SkipWithoutY(s, i + 1, |s|, WatchPattern, IdLength);
    NoMatchWithoutY(s, |s|, WatchPattern, IdLength);
    assert Search(s, 0, WatchPattern, IdLength).None?;
    RunLenAtLeast(s, c, IdLength);
    assert MatchesAt(s, i, ShortsPattern[0], IdLength);
    SkipWithoutY(s, 0, i, ShortsPattern, IdLength);
    var h := Hit(i, 0);
    assert Search(s, 0, ShortsPattern, IdLength) == Some(h);
    assert CapturedId(s, ShortsPattern, h) == id;
    assert VideoIdFrom(s, [ShortsPattern]) == Some(id);
    assert YouTubePatterns[1..] == [ShortsPattern];
    assert VideoIdFrom(s, YouTubePatterns) == VideoIdFrom(s, [ShortsPattern]);
  }

  lemma ShortsLinkLayout(pre: string, id: string, rest: string)
    requires IsVideoId(id)
    requires forall m :: 0 <= m < |pre| ==> pre[m] != 'y'
    requires forall m :: 0 <= m < |id| ==> id[m] != 'y'
    requires forall m :: 0 <= m < |rest| ==> rest[m] != 'y'
    ensures var s := pre + ShortsPattern[0] + id + rest;
            var i, c := |pre|, |pre| + |ShortsPattern[0]|;
            && c + IdLength <= |s|
            && s[i..c] == ShortsPattern[0] && s[c..c + IdLength] == id
            && (forall p :: 0 <= p < |s| && p != i ==> s[p] != 'y')
            && (forall p :: c <= p < c + IdLength ==> IsIdChar(s[p]))
  {
    var s := pre + ShortsPattern[0] + id + rest;
    var i, c := |pre|, |pre| + |ShortsPattern[0]|;
    forall p | 0 <= p < |s| && p != i ensures s[p] != 'y' {
      if p < i {
        assert s[p] == pre[p];
      } else if p < c {
        assert s[p] == ShortsPattern[0][p - i];
      } else if p < c + IdLength {
        assert s[p] == id[p - c];
      } else {
        assert s[p] == rest[p - c - IdLength];
      }
    }
    forall p | c <= p < c + IdLength ensures IsIdChar(s[p]) {
      assert s[p] == id[p - c];
    }
    assert s[i..c] == ShortsPattern[0];
    assert s[c..c + IdLength] == id;
  }

  /** "youtu.be/" followed by a run longer than eleven characters. */
  lemma LongRunTruncated()
    ensures VideoId("https://youtu.be/dQw4w9WgXcQxyz") == Some("dQw4w9WgXcQ")
  {
    assert "https://youtu.be/dQw4w9WgXcQxyz" == "https://" + WatchPattern[1] + "dQw4w9WgXcQ" + "xyz";
    WatchLinkId("https://", 1, "dQw4w9WgXcQ", "xyz");
  }

  /** Matching is case-sensitive: a link without a lower-case 'y' has no id. */
  lemma NoIdWithoutY(url: string)
    requires forall m :: 0 <= m < |url| ==> url[m] != 'y'
    ensures VideoId(url).None?
  {
    SkipWithoutY(url, 0, |url|, WatchPattern, IdLength);
    NoMatchWithoutY(url, |url|, WatchPattern, IdLength);
    SkipWithoutY(url, 0, |url|, ShortsPattern, IdLength);
    NoMatchWithoutY(url, |url|, ShortsPattern, IdLength);
  }

  lemma UpperCaseHostHasNoId()
    ensures VideoId("https://YOUTU.BE/dQw4w9WgXcQ").None?
  {
    NoIdWithoutY("https://YOUTU.BE/dQw4w9WgXcQ");
  }

  /** The watch / youtu.be / embed pattern is tried over the whole link
      before the shorts pattern: a shorts link earlier in the text loses. */
  lemma WatchBeatsEarlierShorts(x: string, mid: string, id: string)
    requires IsVideoId(x) && IsVideoId(id)
    requires forall m :: 0 <= m < |x| ==> x[m] != 'y'
    requires forall m :: 0 <= m < |mid| ==> mid[m] != 'y'
    ensures VideoId(ShortsPattern[0] + x + mid + WatchPattern[1] + id) == Some(id)
  {
    ShortsThenWatchLayout(x, mid, id);
    WatchAfterShorts(ShortsPattern[0] + x + mid + WatchPattern[1] + id, |ShortsPattern[0]| + |x| + |mid|, id);
  }

  /** A link that starts with a shorts prefix and has a "youtu.be/<id>" at
      `i`, with no 'y' in between, yields that id. */
  lemma WatchAfterShorts(s: string, i: nat, id: string)
    requires IsVideoId(id)
    requires |ShortsPattern[0]| <= |s| && s[0..|ShortsPattern[0]|] == ShortsPattern[0]
    requires 1 <= i && i + |WatchPattern[1]| + IdLength <= |s|
    requires s[i..i + |WatchPattern[1]|] == WatchPattern[1]
    requires s[i + |WatchPattern[1]|..i + |WatchPattern[1]| + IdLength] == id
    requires forall p :: 1 <= p < i ==> s[p] != 'y'
    ensures VideoId(s) == Some(id)
  {
    ShortsStartSkipped(s);
    WatchFoundAfter(s, 1, i, 1, id);
    WatchSearchDecides(s, Hit(i, 1));
  }

  lemma ShortsThenWatchLayout(x: string, mid: string, id: string)
    requires IsVideoId(x) && IsVideoId(id)
    requires forall m :: 0 <= m < |x| ==> x[m] != 'y'
    requires forall m :: 0 <= m < |mid| ==> mid[m] != 'y'
    ensures var s := ShortsPattern[0] + x + mid + WatchPattern[1] + id;
            var i := |ShortsPattern[0]| + |x| + |mid|;
            && |ShortsPattern[0]| <= |s|
            && s[0..|ShortsPattern[0]|] == ShortsPattern[0]
            && i + |WatchPattern[1]| + IdLength <= |s|
            && s[i..i + |WatchPattern[1]|] == WatchPattern[1]
            && s[i + |WatchPattern[1]|..i + |WatchPattern[1]| + IdLength] == id
            && (forall p :: 1 <= p < i ==> s[p] != 'y')
  {
    var s := ShortsPattern[0] + x + mid + WatchPattern[1] + id;
    var i := |ShortsPattern[0]| + |x| + |mid|;
    forall p | 1 <= p < i ensures s[p] != 'y' {
      if p < |ShortsPattern[0]| {
        assert s[p] == ShortsPattern[0][p];
      } else if p < |ShortsPattern[0]| + |x| {
        assert s[p] == x[p - |ShortsPattern[0]|];
      } else {
        assert s[p] == mid[p - |ShortsPattern[0]| - |x|];
      }
    }
    assert s[0..|ShortsPattern[0]|] == ShortsPattern[0];
    assert s[i..i + |WatchPattern[1]|] == WatchPattern[1];
    assert s[i + |WatchPattern[1]|..i + |WatchPattern[1]| + IdLength] == id;
  }

  /** An embed link yields its own id again. */
  lemma EmbedLinkId(id: string)
    requires IsVideoId(id)
    ensures VideoId(YouTubeEmbedPrefix + id) == Some(id)
  {
    assert YouTubeEmbedPrefix + id == "https://www." + WatchPattern[2] + id + "";
    WatchLinkId("https://www.", 2, id, "");
  }

  /** The embed link is a fixed point: feeding it back in returns it. */
  lemma YouTubeEmbedIdempotent(url: string)
    ensures YouTubeEmbedUrl(YouTubeEmbedUrl(url)) == YouTubeEmbedUrl(url)
  {
    var v := VideoId(url);
    if v.Some? {
      var e := YouTubeEmbedPrefix + v.value;
      assert YouTubeEmbedUrl(url) == e;
      EmbedLinkId(v.value);
    }
  }
}
