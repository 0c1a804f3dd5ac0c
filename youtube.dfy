/** The YouTube URL utilities: video-ID extraction, thumbnail URLs,
    timestamp parsing and embed URLs (src/utils/youtube.ts). */
module YouTube {
  import opened Wrappers
  import opened Text

  // ---------------------------------------------------------------------
  // Video-ID extraction
  // ---------------------------------------------------------------------

  /** The three literal markers, in the order the patterns are tried. */
  const WatchMarker: string := "youtube.com/watch?v="
  const ShortMarker: string := "youtu.be/"
  const EmbedMarker: string := "youtube.com/embed/"
  const Markers: seq<string> := [WatchMarker, ShortMarker, EmbedMarker]

  /** A character of the capture class `[^&\n?#]`. */
  predicate IsIdChar(c: char) {
    c != '&' && c != '\n' && c != '?' && c != '#'
  }

  /** The greedy capture `([^&\n?#]+)` applied at the start of `s`:
      the longest prefix of `s` made of ID characters. */
  function IdRun(s: string): (r: string)
    ensures |r| <= |s| && r == s[..|r|]
    ensures forall k :: 0 <= k < |r| ==> IsIdChar(r[k])
    ensures |r| == |s| || !IsIdChar(s[|r|])
  {
    if s == [] || !IsIdChar(s[0]) then [] else [s[0]] + IdRun(s[1..])
  }

  /** The pattern `marker([^&\n?#]+)` matches at position `i` of `url`:
      the marker occurs there and is followed by at least one ID character. */
  predicate Qualifies(url: string, marker: string, i: nat) {
    i + |marker| < |url| && url[i..i + |marker|] == marker && IsIdChar(url[i + |marker|])
  }

  /** Where an unanchored, non-global `url.match(pattern)` finds the
      pattern when scanning from `from`: the leftmost qualifying position. */
  function MarkerIndex(url: string, marker: string, from: nat): (r: Option<nat>)
    ensures r.Some? ==>
      from <= r.value && Qualifies(url, marker, r.value) &&
      forall j: nat :: from <= j < r.value ==> !Qualifies(url, marker, j)
    ensures r.None? ==> forall j: nat :: from <= j ==> !Qualifies(url, marker, j)
    decreases |url| - from
  {
    if from + |marker| >= |url| then None
    else if Qualifies(url, marker, from) then Some(from)
    else MarkerIndex(url, marker, from + 1)
  }

  /** `url.match(pattern)` followed by `match[1]`, or None for a null match. */
  function PatternMatch(url: string, marker: string): Option<string> {
    match MarkerIndex(url, marker, 0)
    case None => None
    case Some(i) => Some(IdRun(url[i + |marker|..]))
  }

  /** The capture `id` is what pattern `k` of `markers` yields at `i`: no
      earlier pattern matches anywhere, pattern `k` matches at `i` and
      nowhere before `i`, and `id` is the greedy run after its marker. */
  ghost predicate Extracts(url: string, markers: seq<string>, k: nat, i: nat, id: string) {
    && k < |markers|
    && (forall k', j: nat :: 0 <= k' < k ==> !Qualifies(url, markers[k'], j))
    && Qualifies(url, markers[k], i)
    && (forall j: nat :: j < i ==> !Qualifies(url, markers[k], j))
    && id == IdRun(url[i + |markers[k]|..])
  }

  /** The loop over the patterns with its early return. */
  function FirstMatch(url: string, markers: seq<string>): (r: string)
    ensures r == "" <==> forall k, j: nat :: 0 <= k < |markers| ==> !Qualifies(url, markers[k], j)
    ensures r != "" ==> exists k, i :: Extracts(url, markers, k, i, r)
  {
    if markers == [] then ""
    else
      match PatternMatch(url, markers[0])
      case Some(id) =>
        var i := MarkerIndex(url, markers[0], 0).value;
        assert Extracts(url, markers, 0, i, id);
        id
      case None =>
        var r := FirstMatch(url, markers[1..]);
        assert forall k :: 1 <= k < |markers| ==> markers[k] == markers[1..][k - 1];
        if r == "" then r
        else
          ShiftExtracts(url, markers, r);
          r
  }

  lemma ShiftExtracts(url: string, markers: seq<string>, r: string)
    requires |markers| >= 1
    requires forall j: nat :: !Qualifies(url, markers[0], j)
    requires exists k, i :: Extracts(url, markers[1..], k, i, r)
    ensures exists k, i :: Extracts(url, markers, k, i, r)
  {
    var k: nat, i: nat :| Extracts(url, markers[1..], k, i, r);
    assert Extracts(url, markers, k + 1, i, r);
  }

  /** `getYouTubeVideoId`: empty exactly when no pattern matches;
      otherwise the capture of the first pattern that matches, at its
      leftmost match. */
  function VideoId(url: string): (r: string)
    ensures r == "" <==> forall k, j: nat :: 0 <= k < |Markers| ==> !Qualifies(url, Markers[k], j)
    ensures r != "" ==> exists k, i :: Extracts(url, Markers, k, i, r)
  {
    FirstMatch(url, Markers)
  }

  /** A non-empty extracted ID is a maximal run of ID characters of `url`:
      it sits right after a marker and is followed by the end of the URL
      or by one of `&`, `?`, `#`, newline. */
  lemma VideoIdIsMaximalRun(url: string)
    requires VideoId(url) != ""
    ensures forall c :: c in VideoId(url) ==> IsIdChar(c)
    ensures exists p: nat :: MaximalRunAt(url, p, VideoId(url))
  {
    var id := VideoId(url);
    var k: nat, i: nat :| Extracts(url, Markers, k, i, id);
    RunAfter(url, i + |Markers[k]|);
  }

  /** `id` occurs at `p` and is followed by the end of `url` or a
      character outside the capture class. */
  ghost predicate MaximalRunAt(url: string, p: nat, id: string) {
    p + |id| <= |url| && url[p..p + |id|] == id && (p + |id| == |url| || !IsIdChar(url[p + |id|]))
  }

  lemma RunAfter(url: string, p: nat)
    requires p <= |url|
    ensures MaximalRunAt(url, p, IdRun(url[p..]))
  {
    var id := IdRun(url[p..]);
    assert url[p..][..|id|] == url[p..p + |id|];
    assert p + |id| < |url| ==> url[p..][|id|] == url[p + |id|];
  }

  /** If the character `c` at position `k` of `marker` does not occur in
      `url`, the marker matches nowhere. */
  lemma NoMatchWithout(url: string, marker: string, k: nat, c: char)
    requires k < |marker| && marker[k] == c && c !in url
    ensures forall j: nat :: !Qualifies(url, marker, j)
  {
    forall j: nat ensures !Qualifies(url, marker, j) {
      if j + |marker| < |url| {
        assert url[j..j + |marker|][k] == url[j + k];
      }
    }
  }

  /** A match at `i` is the leftmost one when the marker's `k`-th
      character does not occur before position `i + k`. */
  lemma LeftmostMatch(url: string, marker: string, i: nat, k: nat)
    requires k < |marker| && Qualifies(url, marker, i)
    requires marker[k] !in url[..i + k]
    ensures MarkerIndex(url, marker, 0) == Some(i)
  {
    forall j: nat | j < i ensures !Qualifies(url, marker, j) {
      assert url[j..j + |marker|][k] == url[j + k] == url[..i + k][j + k];
    }
  }

  /** The capture right after a marker is exactly `n` characters long
      when those are ID characters and the next one is not. */
  lemma IdRunExact(s: string, n: nat)
    requires n <= |s| && (forall k :: 0 <= k < n ==> IsIdChar(s[k]))
    requires n == |s| || !IsIdChar(s[n])
    ensures IdRun(s) == s[..n]
  {
  }

  /** A character of a real YouTube video ID. */
  predicate IsYouTubeIdChar(c: char) {
    ('a' <= c <= 'z') || ('A' <= c <= 'Z') || IsDigit(c) || c == '-' || c == '_'
  }

  predicate IsYouTubeId(id: string) {
    |id| >= 1 && forall k :: 0 <= k < |id| ==> IsYouTubeIdChar(id[k])
  }

  /** A non-empty run of the capture class `[^&\n?#]`. */
  predicate IsCapture(id: string) {
    |id| >= 1 && forall k :: 0 <= k < |id| ==> IsIdChar(id[k])
  }

  /** YouTube's own ID characters all belong to the capture class. */
  lemma YouTubeIdIsCapture(id: string)
    requires IsYouTubeId(id)
    ensures IsCapture(id)
  {
  }

  const WatchBase: string := "https://www.youtube.com/watch?v="

  /** A canonical watch link gives back its video ID, whatever follows
      the ID as long as it starts with a separator. The ID may be any
      run of the capture class, not only the characters YouTube uses. */
  lemma WatchLinkId(id: string, rest: string)
    requires IsCapture(id)
    requires rest == [] || !IsIdChar(rest[0])
    ensures VideoId(WatchBase + id + rest) == id
  {
    var url := WatchBase + id + rest;
    var p := |WatchBase|;
    WatchBaseMatch(id, rest);
    assert url[p..] == id + rest;
    CaptureIs(url, p, id, rest);
    FirstPatternWins(url, 12, id);
  }

  /** In a canonical watch link the watch marker first matches at 12,
      after `https://www.`. */
  lemma WatchBaseMatch(id: string, rest: string)
    requires IsCapture(id)
    ensures MarkerIndex(WatchBase + id + rest, WatchMarker, 0) == Some(12)
  {
    var url := WatchBase + id + rest;
    var p := |WatchBase|;
    assert url[..p] == WatchBase;
    assert url[12..12 + |WatchMarker|] == WatchBase[12..] == WatchMarker;
    assert url[p] == id[0];
    assert Qualifies(url, WatchMarker, 12);
    assert url[..12] == WatchBase[..12];
    assert WatchMarker[0] !in url[..12];
    LeftmostMatch(url, WatchMarker, 12, 0);
  }

  /** The capture after position `p` is `id` when `id` is a video ID and
      what follows it starts with a separator. */
  lemma CaptureIs(url: string, p: nat, id: string, rest: string)
    requires p <= |url| && url[p..] == id + rest && IsCapture(id)
    requires rest == [] || !IsIdChar(rest[0])
    ensures IdRun(url[p..]) == id
  {
    IdRunExact(url[p..], |id|);
    assert (id + rest)[..|id|] == id;
  }

  /** The watch pattern, when it matches, decides. */
  lemma FirstPatternWins(url: string, i: nat, id: string)
    requires MarkerIndex(url, WatchMarker, 0) == Some(i)
    requires i + |WatchMarker| <= |url| && IdRun(url[i + |WatchMarker|..]) == id
    ensures VideoId(url) == id
  {
    PatternMatchIs(url, WatchMarker, i, id);
    FirstMatchHead(url, Markers, id);
  }

  /** With no watch match, the share-link pattern decides when it matches. */
  lemma SecondWins(url: string, markers: seq<string>, id: string)
    requires |markers| >= 2 && PatternMatch(url, markers[0]).None? && PatternMatch(url, markers[1]) == Some(id)
    ensures FirstMatch(url, markers) == id
  {
    FirstMatchSkip(url, markers);
    assert markers[1..][0] == markers[1];
    FirstMatchHead(url, markers[1..], id);
  }

  // The four lemmas below each unfold one step of FirstMatch or
  // PatternMatch. The worked cases call them instead of unfolding the
  // recursion on the literal pattern list themselves, which is far more
  // costly for the verifier.
  lemma FirstMatchSkip(url: string, markers: seq<string>)
    requires markers != [] && PatternMatch(url, markers[0]).None?
    ensures FirstMatch(url, markers) == FirstMatch(url, markers[1..])
  {
  }

  lemma FirstMatchHead(url: string, markers: seq<string>, id: string)
    requires markers != [] && PatternMatch(url, markers[0]) == Some(id)
    ensures FirstMatch(url, markers) == id
  {
  }

  lemma PatternMatchNone(url: string, marker: string)
    requires forall j: nat :: !Qualifies(url, marker, j)
    ensures PatternMatch(url, marker).None?
  {
  }

  lemma PatternMatchIs(url: string, marker: string, i: nat, id: string)
    requires MarkerIndex(url, marker, 0) == Some(i)
    requires i + |marker| <= |url| && IdRun(url[i + |marker|..]) == id
    ensures PatternMatch(url, marker) == Some(id)
  {
  }

  // The worked cases below name their URL in a `requires`, so that the
  // verifier reasons about it symbolically instead of evaluating the
  // whole extraction on a literal.

  /** A canonical watch link from the journey content data. */
  lemma WatchLinkExample(url: string, id: string)
    requires url == "https://www.youtube.com/watch?v=dFVN-VAesNM" && id == "dFVN-VAesNM"
    ensures VideoId(url) == id
  {
    assert IsCapture(id);
    assert WatchBase + id + "" == url;
    WatchLinkId(id, "");
  }

  /** A string with no marker gives the empty ID. */
  lemma NotAUrlExample(junk: string)
    requires junk == "not a url"
    ensures VideoId(junk) == ""
  {
    assert 'y' !in junk;
    NoMatchWithout(junk, WatchMarker, 0, 'y');
    NoMatchWithout(junk, ShortMarker, 0, 'y');
    NoMatchWithout(junk, EmbedMarker, 0, 'y');
  }

  const ShareBase: string := "https://youtu.be/"

  /** A share link gives back its video ID whenever what follows the ID
      has no `w`: the watch pattern then matches nowhere and the second
      pattern decides. */
  lemma ShareLinkId(id: string, rest: string)
    requires IsYouTubeId(id) && 'w' !in rest
    requires rest == [] || !IsIdChar(rest[0])
    ensures VideoId(ShareBase + id + rest) == id
  {
    var url := ShareBase + id + rest;
    var p := |ShareBase|;
    assert url[..p] == ShareBase;
    NoWatchInShare(id, rest);
    assert url[8..8 + |ShortMarker|] == ShareBase[8..] == ShortMarker;
    assert url[p] == id[0];
    LeftmostMatch(url, ShortMarker, 8, 0);
    assert url[p..] == id + rest;
    YouTubeIdIsCapture(id);
    CaptureIs(url, p, id, rest);
    PatternMatchNone(url, WatchMarker);
    PatternMatchIs(url, ShortMarker, 8, id);
    SecondWins(url, Markers, id);
  }

  /** The watch marker cannot match in a share link whose tail has no `w`:
      a `w` inside the ID is never preceded by the marker's `/`, except
      the ID's first character, and there the marker would have to start
      at the `:` of `https:`. */
  lemma NoWatchInShare(id: string, rest: string)
    requires IsYouTubeId(id) && 'w' !in rest
    ensures forall j: nat :: !Qualifies(ShareBase + id + rest, WatchMarker, j)
  {
    var url := ShareBase + id + rest;
    var p := |ShareBase|;
    assert 'w' !in ShareBase;
    forall j: nat ensures !Qualifies(url, WatchMarker, j) {
      if j + |WatchMarker| < |url| {
        var s := url[j..j + |WatchMarker|];
        assert s[0] == url[j] && s[11] == url[j + 11] && s[12] == url[j + 12];
        if j + 12 < p {
          assert url[j + 12] == ShareBase[j + 12];
        } else if j + 12 >= p + |id| {
          assert url[j + 12] == rest[j + 12 - p - |id|];
        } else if j + 11 >= p {
          assert url[j + 11] == id[j + 11 - p];
        } else {
          assert url[j] == ShareBase[5] == ':';
        }
      }
    }
  }

  /** A share link whose ID itself holds a `w`. */
  lemma ShareLinkWithWExample(url: string, id: string)
    requires id == "gYuMT0itw9g" && url == ShareBase + id
    ensures VideoId(url) == id
  {
    assert IsYouTubeId(id);
    assert url == ShareBase + id + "";
    ShareLinkId(id, "");
  }

  /** The share link of the journey content data: the capture stops at `?`. */
  lemma ShareLinkExample(url: string, id: string, rest: string)
    requires id == "ou_aBdkTlI8" && rest == "?si=ttPPPvYA8o1_VPFD"
    requires url == ShareBase + id + rest
    ensures VideoId(url) == id
  {
    assert IsYouTubeId(id);
    ShareLinkId(id, rest);
  }

  /** Pattern order beats position: a watch marker wins over any share-link
      marker before it, as long as no `w` precedes the watch marker. */
  lemma WatchAfterHead(head: string, id: string, rest: string)
    requires 'w' !in head && IsCapture(id)
    requires rest == [] || !IsIdChar(rest[0])
    ensures VideoId(head + WatchMarker + id + rest) == id
  {
    var url := head + WatchMarker + id + rest;
    var p := |head| + |WatchMarker|;
    WatchAfterHeadMatch(head, id, rest);
    assert url[p..] == id + rest;
    CaptureIs(url, p, id, rest);
    FirstPatternWins(url, |head|, id);
  }

  /** The leftmost watch match lies right after `head`. */
  lemma WatchAfterHeadMatch(head: string, id: string, rest: string)
    requires 'w' !in head && IsCapture(id)
    ensures MarkerIndex(head + WatchMarker + id + rest, WatchMarker, 0) == Some(|head|)
  {
    var url := head + WatchMarker + id + rest;
    var p := |head| + |WatchMarker|;
    assert url[|head|..p] == WatchMarker;
    assert url[p] == id[0];
    assert url[..|head| + 12] == head + WatchMarker[..12];
    assert 'w' !in WatchMarker[..12];
    LeftmostMatch(url, WatchMarker, |head|, 12);
  }

  /** A watch marker hidden in the query of a share link gives `xyz`, not `abc`. */
  lemma PatternOrderExample(url: string, head: string, id: string)
    requires head == "https://youtu.be/abc?u=" && id == "xyz"
    requires url == head + WatchMarker + id
    ensures VideoId(url) == id
  {
    assert 'w' !in head;
    assert IsCapture(id);
    assert url == head + WatchMarker + id + "";
    WatchAfterHead(head, id, "");
  }

  /** `youtube.com/watch?` followed by anything but `v` (and no further `y`)
      matches none of the patterns: the watch pattern needs `v=` right
      after `watch?`, so `watch?feature=x&v=ID` yields the empty ID. */
  lemma WatchWithoutV(tail: string)
    requires tail != [] && tail[0] != 'v' && 'y' !in tail
    ensures VideoId("youtube.com/watch?" + tail) == ""
  {
    var url := "youtube.com/watch?" + tail;
    assert url[1..] == "outube.com/watch?" + tail;
    assert 'y' !in "outube.com/watch?";
    WatchNeedsV(url, tail);
    ShortNotAtStart(url, tail);
    EmbedNotAtStart(url, tail);
    NoPatternMatches(url);
  }

  lemma WatchNeedsV(url: string, tail: string)
    requires tail != [] && tail[0] != 'v' && url == "youtube.com/watch?" + tail && WatchMarker[0] !in url[1..]
    ensures forall j: nat :: !Qualifies(url, WatchMarker, j)
  {
    OnlyCandidate(url, WatchMarker);
    assert url[18] == tail[0] && WatchMarker[18] == 'v';
    assert !Qualifies(url, WatchMarker, 0) by {
      if |url| > 20 { assert url[..20][18] == url[18]; }
    }
  }

  lemma ShortNotAtStart(url: string, tail: string)
    requires url == "youtube.com/watch?" + tail && ShortMarker[0] !in url[1..]
    ensures forall j: nat :: !Qualifies(url, ShortMarker, j)
  {
    OnlyCandidate(url, ShortMarker);
    assert url[5] == 'b' && ShortMarker[5] == '.';
    assert url[..9] != ShortMarker by { assert url[..9][5] == url[5]; }
  }

  lemma EmbedNotAtStart(url: string, tail: string)
    requires url == "youtube.com/watch?" + tail && EmbedMarker[0] !in url[1..]
    ensures forall j: nat :: !Qualifies(url, EmbedMarker, j)
  {
    OnlyCandidate(url, EmbedMarker);
    assert url[12] == 'w' && EmbedMarker[12] == 'e';
    assert url[..18] != EmbedMarker by { assert url[..18][12] == url[12]; }
  }

  /** No pattern matching anywhere gives the empty ID. */
  lemma NoPatternMatches(url: string)
    requires forall j: nat :: !Qualifies(url, WatchMarker, j)
    requires forall j: nat :: !Qualifies(url, ShortMarker, j)
    requires forall j: nat :: !Qualifies(url, EmbedMarker, j)
    ensures VideoId(url) == ""
  {
    forall k, j: nat | 0 <= k < |Markers| ensures !Qualifies(url, Markers[k], j) {
    }
  }

  lemma FeatureFirstExample(url: string, tail: string)
    requires tail == "feature=x&v=ID" && url == "youtube.com/watch?" + tail
    ensures VideoId(url) == ""
  {
    assert tail[0] == 'f' && 'y' !in tail;
    WatchWithoutV(tail);
  }

  /** When the marker's first character occurs only at the start of
      `url`, the start is the only place the marker can match. */
  lemma OnlyCandidate(url: string, marker: string)
    requires |marker| >= 1 && |url| >= 1 && marker[0] !in url[1..]
    ensures forall j: nat :: Qualifies(url, marker, j) ==> j == 0
  {
    forall j: nat | 0 < j ensures !Qualifies(url, marker, j) {
      if j + |marker| < |url| {
        assert url[j..j + |marker|][0] == url[j] == url[1..][j - 1];
      }
    }
  }

  // ---------------------------------------------------------------------
  // Thumbnail URLs
  // ---------------------------------------------------------------------

  /** The thumbnail qualities the image server offers. */
  datatype Quality = MaxResDefault | HqDefault | MqDefault | SdDefault | Default {
    function Name(): string {
      match this
      case MaxResDefault => "maxresdefault"
      case HqDefault => "hqdefault"
      case MqDefault => "mqdefault"
      case SdDefault => "sddefault"
      case Default => "default"
    }
  }

  const ThumbnailBase: string := "https://img.youtube.com/vi/"

  /** `getYouTubeThumbnail`: pure templating, no check of the ID. */
  function Thumbnail(videoId: string, quality: Quality := MaxResDefault): string {
    ThumbnailBase + videoId + "/" + quality.Name() + ".jpg"
  }

  /** The template keeps the ID verbatim (also the empty one) between the
      fixed prefix and `/<quality>.jpg`. */
  lemma ThumbnailLayout(videoId: string, quality: Quality)
    ensures var u := Thumbnail(videoId, quality);
      && u[..|ThumbnailBase|] == ThumbnailBase
      && u[|ThumbnailBase|..|ThumbnailBase| + |videoId|] == videoId
      && u[|ThumbnailBase| + |videoId|..] == "/" + quality.Name() + ".jpg"
  {
  }

  /** Different qualities give different URLs for the same ID, so each
      step of a quality fallback asks for a different image. */
  lemma ThumbnailQualityDistinct(videoId: string, q1: Quality, q2: Quality)
    requires q1 != q2
    ensures Thumbnail(videoId, q1) != Thumbnail(videoId, q2)
  {
    var head := ThumbnailBase + videoId + "/";
    var u1, u2 := Thumbnail(videoId, q1), Thumbnail(videoId, q2);
    var s1, s2 := q1.Name() + ".jpg", q2.Name() + ".jpg";
    assert u1 == head + s1 && u2 == head + s2;
    assert u1[|head|..] == s1 && u2[|head|..] == s2;
    assert |s1| != |s2| || s1[0] != s2[0];
  }

  // ---------------------------------------------------------------------
  // Timestamps
  // ---------------------------------------------------------------------

  /** What `Number` is modelled for: when the colon count selects the
      `mm:ss` or `hh:mm:ss` branch, every segment is a digit string. */
  predicate ValidTime(timeStr: string) {
    var parts := Split(timeStr, ':');
    (|parts| == 2 || |parts| == 3) ==> forall k :: 0 <= k < |parts| ==> IsDigits(parts[k])
  }

  /** `timeToSeconds`: `mm:ss` or `hh:mm:ss` in seconds, without range
      checks on the fields; 0 for any other number of colons. */
  function TimeToSeconds(timeStr: string): (r: nat)
    requires ValidTime(timeStr)
    ensures Count(timeStr, ':') != 1 && Count(timeStr, ':') != 2 ==> r == 0
  {
    var parts := Split(timeStr, ':');
    if |parts| == 2 then DigitsValue(parts[0]) * 60 + DigitsValue(parts[1])
    else if |parts| == 3 then DigitsValue(parts[0]) * 3600 + DigitsValue(parts[1]) * 60 + DigitsValue(parts[2])
    else 0
  }

  /** Two digit fields `a:b` give `a * 60 + b`, with no bound on `b`
      and an empty field read as 0. */
  lemma MinutesSeconds(a: string, b: string)
    requires IsDigits(a) && IsDigits(b)
    ensures ValidTime(a + ":" + b)
    ensures TimeToSeconds(a + ":" + b) == DigitsValue(a) * 60 + DigitsValue(b)
  {
    assert a + ":" + b == Join([a, b], ':');
    SplitJoin([a, b], ':');
  }

  /** Three digit fields `a:b:c` give `a * 3600 + b * 60 + c`. */
  lemma HoursMinutesSeconds(a: string, b: string, c: string)
    requires IsDigits(a) && IsDigits(b) && IsDigits(c)
    ensures ValidTime(a + ":" + b + ":" + c)
    ensures TimeToSeconds(a + ":" + b + ":" + c) == DigitsValue(a) * 3600 + DigitsValue(b) * 60 + DigitsValue(c)
  {
    assert [b, c] == [a, b, c][1..];
    assert Join([b, c], ':') == b + ":" + c;
    assert a + ":" + b + ":" + c == Join([a, b, c], ':');
    SplitJoin([a, b, c], ':');
  }

  /** Reading back a formatted `m:s` clock: the parse inverts the format. */
  lemma ClockRoundTrip(m: nat, s: nat)
    ensures ValidTime(NatToString(m) + ":" + NatToString(s))
    ensures TimeToSeconds(NatToString(m) + ":" + NatToString(s)) == m * 60 + s
  {
    MinutesSeconds(NatToString(m), NatToString(s));
  }

  /** Worked cases from the journey content data. */
  lemma TimeExamples(a: string, b: string, c: string)
    requires a == "1:20" && b == "2:13" && c == "7:53"
    ensures ValidTime(a) && TimeToSeconds(a) == 80
    ensures ValidTime(b) && TimeToSeconds(b) == 133
    ensures ValidTime(c) && TimeToSeconds(c) == 473
  {
    ClockValue(a);
    ClockValue(b);
    ClockValue(c);
  }

  /** No range check on the seconds. */
  lemma NoRangeCheck(t: string)
    requires t == "1:75"
    ensures ValidTime(t) && TimeToSeconds(t) == 135
  {
    ClockValue(t);
  }

  /** An empty field reads as 0. */
  lemma EmptyField(t: string)
    requires t == ":5"
    ensures ValidTime(t) && TimeToSeconds(t) == 5
  {
    var s := t[1..];
    assert t == "" + ":" + s;
    MinutesSeconds("", s);
    assert DigitsValue(s) == 5 by { assert s[..0] == ""; }
  }

  /** Three fields give hours, minutes and seconds. */
  lemma HoursField(t: string)
    requires t == "1:02:03"
    ensures ValidTime(t) && TimeToSeconds(t) == 3723
  {
    var h, m, s := t[..1], t[2..4], t[5..];
    assert t == h + ":" + m + ":" + s;
    HoursMinutesSeconds(h, m, s);
    assert m == [t[2], t[3]] && s == [t[5], t[6]];
    TwoDigits(t[2], t[3]);
    TwoDigits(t[5], t[6]);
    assert DigitsValue(h) == 1 by { assert h[..0] == ""; }
  }

  /** A string without a colon is one field, and one field gives 0. */
  lemma WrongCount(t: string)
    requires t == "bad"
    ensures ValidTime(t) && TimeToSeconds(t) == 0
  {
    assert ':' !in t;
    SplitFree(t, ':');
  }

  /** `m:ab` for one digit `m` and two digits `ab`. */
  lemma ClockValue(t: string)
    requires |t| == 4 && IsDigit(t[0]) && t[1] == ':' && IsDigit(t[2]) && IsDigit(t[3])
    ensures ValidTime(t)
    ensures TimeToSeconds(t) == DigitValue(t[0]) * 60 + DigitValue(t[2]) * 10 + DigitValue(t[3])
  {
    var m, s := t[..1], t[2..];
    assert t == m + ":" + s;
    assert IsDigits(m) && IsDigits(s);
    MinutesSeconds(m, s);
    assert s == [t[2], t[3]];
    TwoDigits(t[2], t[3]);
    assert DigitsValue(m) == DigitValue(t[0]) by { assert m[..0] == []; }
  }

  lemma TwoDigits(a: char, b: char)
    requires IsDigit(a) && IsDigit(b)
    ensures DigitsValue([a, b]) == DigitValue(a) * 10 + DigitValue(b)
  {
    assert [a, b][..1] == [a];
    assert [a][..0] == [];
    assert DigitsValue([a]) == DigitValue(a);
  }

  // ---------------------------------------------------------------------
  // Query strings (URLSearchParams)
  // ---------------------------------------------------------------------

  type Param = (string, string)

  /** Characters the application/x-www-form-urlencoded serializer of the
      WHATWG URL Standard (section 5.2) writes unescaped. */
  predicate IsUrlSafe(c: char) {
    ('a' <= c <= 'z') || ('A' <= c <= 'Z') || IsDigit(c) || c == '*' || c == '-' || c == '.' || c == '_'
  }

  predicate IsSafe(s: string) {
    forall k :: 0 <= k < |s| ==> IsUrlSafe(s[k])
  }

  predicate SafeParams(ps: seq<Param>) {
    forall k :: 0 <= k < |ps| ==> IsSafe(ps[k].0) && IsSafe(ps[k].1)
  }

  function PairString(p: Param): string {
    p.0 + "=" + p.1
  }

  function PairStrings(ps: seq<Param>): (r: seq<string>)
    ensures |r| == |ps| && forall k :: 0 <= k < |ps| ==> r[k] == PairString(ps[k])
  {
    if ps == [] then [] else [PairString(ps[0])] + PairStrings(ps[1..])
  }

  /** `params.toString()` when nothing needs escaping: `name=value`
      pairs joined by `&`. */
  function Serialize(ps: seq<Param>): string
    requires SafeParams(ps)
  {
    if ps == [] then "" else Join(PairStrings(ps), '&')
  }

  /** The matching parser: split on `&`, drop empty pieces, split each
      piece at its first `=`. */
  function ParseQuery(q: string): seq<Param> {
    ParsePieces(Split(q, '&'))
  }

  function ParsePieces(pieces: seq<string>): seq<Param> {
    if pieces == [] then []
    else (if pieces[0] == "" then [] else [ParsePair(pieces[0])]) + ParsePieces(pieces[1..])
  }

  function ParsePair(piece: string): Param {
    var halves := Split(piece, '=');
    if |halves| == 1 then (piece, "") else (halves[0], Join(halves[1..], '='))
  }

  /** Parsing a serialized list gives back the list. */
  lemma {:induction false} QueryRoundTrip(ps: seq<Param>)
    requires SafeParams(ps)
    ensures ParseQuery(Serialize(ps)) == ps
  {
    if ps != [] {
      var pieces := PairStrings(ps);
      forall k | 0 <= k < |pieces| ensures '&' !in pieces[k] {
        assert pieces[k] == ps[k].0 + "=" + ps[k].1;
        assert IsSafe(ps[k].0) && IsSafe(ps[k].1);
      }
      SplitJoin(pieces, '&');
      ParsePiecesOfPairs(ps);
    }
  }

  lemma {:induction false} ParsePiecesOfPairs(ps: seq<Param>)
    requires SafeParams(ps)
    ensures ParsePieces(PairStrings(ps)) == ps
  {
    if ps != [] {
      var n, v := ps[0].0, ps[0].1;
      assert IsSafe(n) && IsSafe(v);
      assert '=' !in n && '=' !in v;
      assert PairString(ps[0]) == Join([n, v], '=');
      SplitJoin([n, v], '=');
      assert PairString(ps[0]) != "";
      assert SafeParams(ps[1..]) by {
        forall k | 0 <= k < |ps[1..]| ensures IsSafe(ps[1..][k].0) && IsSafe(ps[1..][k].1) {
          assert ps[1..][k] == ps[k + 1];
        }
      }
      ParsePiecesOfPairs(ps[1..]);
      assert PairStrings(ps)[1..] == PairStrings(ps[1..]);
    }
  }

  /** `params.get(name)`: the value of the first pair with that name. */
  function Lookup(ps: seq<Param>, name: string): Option<string> {
    if ps == [] then None else if ps[0].0 == name then Some(ps[0].1) else Lookup(ps[1..], name)
  }

  function Names(ps: seq<Param>): (r: seq<string>)
    ensures |r| == |ps| && forall k :: 0 <= k < |ps| ==> r[k] == ps[k].0
  {
    if ps == [] then [] else [ps[0].0] + Names(ps[1..])
  }

  /** All pairs without the given name. */
  function RemoveAll(ps: seq<Param>, name: string): (r: seq<Param>)
    ensures name !in Names(r)
    ensures forall n :: n != name ==> Lookup(r, n) == Lookup(ps, n)
    ensures SafeParams(ps) ==> SafeParams(r)
  {
    if ps == [] then []
    else if ps[0].0 == name then RemoveAll(ps[1..], name)
    else [ps[0]] + RemoveAll(ps[1..], name)
  }

  /** The first pair with `name` gets `value`; the later ones are removed. */
  function ReplaceFirst(ps: seq<Param>, name: string, value: string): (r: seq<Param>)
    requires name in Names(ps)
    ensures Lookup(r, name) == Some(value)
    ensures forall n :: n != name ==> Lookup(r, n) == Lookup(ps, n)
    ensures SafeParams(ps) && IsSafe(name) && IsSafe(value) ==> SafeParams(r)
  {
    if ps[0].0 == name then [(name, value)] + RemoveAll(ps[1..], name)
    else [ps[0]] + ReplaceFirst(ps[1..], name, value)
  }

  /** `params.set(name, value)`: afterwards `get(name)` is `value`, every
      other name reads as before, and a new name is appended at the end. */
  function SetParam(ps: seq<Param>, name: string, value: string): (r: seq<Param>)
    ensures Lookup(r, name) == Some(value)
    ensures forall n :: n != name ==> Lookup(r, n) == Lookup(ps, n)
    ensures name !in Names(ps) ==> r == ps + [(name, value)]
    ensures SafeParams(ps) && IsSafe(name) && IsSafe(value) ==> SafeParams(r)
  {
    if name in Names(ps) then ReplaceFirst(ps, name, value)
    else
      LookupAppend(ps, name, value);
      ps + [(name, value)]
  }

  lemma {:induction false} LookupAppend(ps: seq<Param>, name: string, value: string)
    requires name !in Names(ps)
    ensures Lookup(ps + [(name, value)], name) == Some(value)
    ensures forall n :: n != name ==> Lookup(ps + [(name, value)], n) == Lookup(ps, n)
  {
    if ps != [] {
      assert Names(ps)[1..] == Names(ps[1..]);
      LookupAppend(ps[1..], name, value);
      assert (ps + [(name, value)])[1..] == ps[1..] + [(name, value)];
    }
  }

  // ---------------------------------------------------------------------
  // Embed URLs
  // ---------------------------------------------------------------------

  /** A `start`/`end` option: a number of seconds or a clock string. */
  datatype TimeArg = Seconds(n: nat) | Clock(s: string)

  predicate ValidTimeArg(t: TimeArg) {
    t.Clock? ==> ValidTime(t.s)
  }

  /** A number is used as it is; a string goes through `timeToSeconds`. */
  function ToSeconds(t: TimeArg): nat
    requires ValidTimeArg(t)
  {
    match t
    case Seconds(n) => n
    case Clock(s) => TimeToSeconds(s)
  }

  /** The options object; `None` is an absent (undefined) field. */
  datatype EmbedOptions = EmbedOptions(
    autoplay: Option<bool> := None,
    controls: Option<bool> := None,
    modestbranding: Option<bool> := None,
    rel: Option<bool> := None,
    enablejsapi: Option<bool> := None,
    start: Option<TimeArg> := None,
    end: Option<TimeArg> := None)

  predicate ValidOptions(o: EmbedOptions) {
    (o.start.Some? ==> ValidTimeArg(o.start.value)) && (o.end.Some? ==> ValidTimeArg(o.end.value))
  }

  function Flag(b: bool): string {
    if b then "1" else "0"
  }

  /** The five flags with their defaults: autoplay off, controls on,
      modest branding on, related videos off, JS API on. */
  function FlagParams(o: EmbedOptions): (r: seq<Param>)
    ensures SafeParams(r)
  {
    [ ("autoplay", Flag(o.autoplay.GetOr(false))),
      ("controls", Flag(o.controls.GetOr(true))),
      ("modestbranding", Flag(o.modestbranding.GetOr(true))),
      ("rel", Flag(o.rel.GetOr(false))),
      ("enablejsapi", Flag(o.enablejsapi.GetOr(true))) ]
  }

  /** The decimal seconds of an optional time option. */
  function TimeValue(t: Option<TimeArg>): (r: Option<string>)
    requires t.Some? ==> ValidTimeArg(t.value)
    ensures r.Some? <==> t.Some?
    ensures r.Some? ==> IsDigits(r.value) && DigitsValue(r.value) == ToSeconds(t.value)
  {
    match t
    case None => None
    case Some(v) => Some(NatToString(ToSeconds(v)))
  }

  /** An optional `name=<seconds>` pair. */
  function TimeParam(name: string, t: Option<TimeArg>): (r: seq<Param>)
    requires IsSafe(name) && (t.Some? ==> ValidTimeArg(t.value))
    ensures SafeParams(r)
  {
    match TimeValue(t)
    case None => []
    case Some(digits) =>
      assert IsSafe(digits);
      [(name, digits)]
  }

  lemma SafeParamsConcat(a: seq<Param>, b: seq<Param>)
    requires SafeParams(a) && SafeParams(b)
    ensures SafeParams(a + b)
  {
    assert forall k :: |a| <= k < |a + b| ==> (a + b)[k] == b[k - |a|];
  }

  /** The query layout the embed URL is specified by: the five flags in
      fixed order, then `start` if given, then `end` if given. */
  function EmbedParams(o: EmbedOptions): (r: seq<Param>)
    requires ValidOptions(o)
    ensures SafeParams(r)
  {
    var flags, start, end := FlagParams(o), TimeParam("start", o.start), TimeParam("end", o.end);
    SafeParamsConcat(flags, start);
    SafeParamsConcat(flags + start, end);
    flags + start + end
  }

  const EmbedBase: string := "https://www.youtube.com/embed/"

  /** `getYouTubeEmbedUrl`: the parameter list is built and then updated
      with `set` step by step, and the result has the specified layout. */
  method EmbedUrl(videoId: string, options: EmbedOptions := EmbedOptions()) returns (url: string)
    requires ValidOptions(options)
    ensures url == EmbedBase + videoId + "?" + Serialize(EmbedParams(options))
  {
    var params := FlagParams(options);
    assert "start" !in Names(params) && "end" !in Names(params);
    if options.start.Some? {
      var startSeconds := ToSeconds(options.start.value);
      params := SetParam(params, "start", NatToString(startSeconds));
    }
    assert params == FlagParams(options) + TimeParam("start", options.start);
    assert "end" !in Names(params);
    if options.end.Some? {
      var endSeconds := ToSeconds(options.end.value);
      params := SetParam(params, "end", NatToString(endSeconds));
    }
    assert params == EmbedParams(options);
    url := EmbedBase + videoId + "?" + Serialize(params);
  }

  /** The embed query string parses back to the specified parameter list. */
  lemma EmbedQueryParses(o: EmbedOptions)
    requires ValidOptions(o)
    ensures ParseQuery(Serialize(EmbedParams(o))) == EmbedParams(o)
  {
    QueryRoundTrip(EmbedParams(o));
  }

  /** The query starts with the five flags in fixed order, each "0" or
      "1", with its default when absent. */
  lemma EmbedFlagValues(o: EmbedOptions)
    requires ValidOptions(o)
    ensures var q := EmbedParams(o);
      && |q| >= 5
      && Names(q)[..5] == ["autoplay", "controls", "modestbranding", "rel", "enablejsapi"]
      && Lookup(q, "autoplay") == Some(Flag(o.autoplay.GetOr(false)))
      && Lookup(q, "controls") == Some(Flag(o.controls.GetOr(true)))
      && Lookup(q, "modestbranding") == Some(Flag(o.modestbranding.GetOr(true)))
      && Lookup(q, "rel") == Some(Flag(o.rel.GetOr(false)))
      && Lookup(q, "enablejsapi") == Some(Flag(o.enablejsapi.GetOr(true)))
  {
    var flags, times := FlagParams(o), TimeParam("start", o.start) + TimeParam("end", o.end);
    var q := EmbedParams(o);
    assert q == flags + times;
    FlagLookups(o);
    assert Names(q)[..5] == Names(flags) by {
      forall k | 0 <= k < 5 ensures Names(q)[k] == Names(flags)[k] {
        assert q[k] == flags[k];
      }
    }
    LookupSplit(flags, times, "autoplay");
    LookupSplit(flags, times, "controls");
    LookupSplit(flags, times, "modestbranding");
    LookupSplit(flags, times, "rel");
    LookupSplit(flags, times, "enablejsapi");
  }

  /** `start` and `end` are present exactly when the option is, after the
      flags, `start` first, each holding its value in seconds; nothing
      compares the two. */
  lemma EmbedTimeValues(o: EmbedOptions)
    requires ValidOptions(o)
    ensures var q := EmbedParams(o);
      && |q| >= 5 && q[5..] == TimeParam("start", o.start) + TimeParam("end", o.end)
      && Lookup(q, "start") == TimeValue(o.start)
      && Lookup(q, "end") == TimeValue(o.end)
  {
    var flags, times := FlagParams(o), TimeParam("start", o.start) + TimeParam("end", o.end);
    assert EmbedParams(o) == flags + times;
    FlagLookups(o);
    assert "start" !in Names(flags) && "end" !in Names(flags);
    LookupSplit(flags, times, "start");
    LookupSplit(flags, times, "end");
    TimeLookups(o);
  }

  lemma TimeLookups(o: EmbedOptions)
    requires ValidOptions(o)
    ensures var times := TimeParam("start", o.start) + TimeParam("end", o.end);
      && Lookup(times, "start") == TimeValue(o.start)
      && Lookup(times, "end") == TimeValue(o.end)
  {
    var start, end := TimeParam("start", o.start), TimeParam("end", o.end);
    LookupSplit(start, end, "start");
    LookupSplit(start, end, "end");
  }

  lemma FlagLookups(o: EmbedOptions)
    ensures var f := FlagParams(o);
      && Names(f) == ["autoplay", "controls", "modestbranding", "rel", "enablejsapi"]
      && Lookup(f, "autoplay") == Some(Flag(o.autoplay.GetOr(false)))
      && Lookup(f, "controls") == Some(Flag(o.controls.GetOr(true)))
      && Lookup(f, "modestbranding") == Some(Flag(o.modestbranding.GetOr(true)))
      && Lookup(f, "rel") == Some(Flag(o.rel.GetOr(false)))
      && Lookup(f, "enablejsapi") == Some(Flag(o.enablejsapi.GetOr(true)))
  {
    var f := FlagParams(o);
    var names := ["autoplay", "controls", "modestbranding", "rel", "enablejsapi"];
    assert Names(f) == names;
    forall k | 0 <= k < 5 ensures names[..k] == Names(f[..k]) {
    }
    LookupAt(f, 0, "autoplay");
    LookupAt(f, 1, "controls");
    LookupAt(f, 2, "modestbranding");
    LookupAt(f, 3, "rel");
    LookupAt(f, 4, "enablejsapi");
  }

  /** Lookup finds the first pair that carries the name. */
  lemma {:induction false} LookupAt(ps: seq<Param>, k: nat, name: string)
    requires k < |ps| && ps[k].0 == name && name !in Names(ps[..k])
    ensures Lookup(ps, name) == Some(ps[k].1)
  {
    if k > 0 {
      assert Names(ps[..k]) == [ps[0].0] + Names(ps[1..][..k - 1]);
      LookupAt(ps[1..], k - 1, name);
    }
  }

  /** Looking a name up in a concatenation: the first part decides when
      it holds the name. */
  lemma {:induction false} LookupSplit(a: seq<Param>, b: seq<Param>, name: string)
    ensures Lookup(a + b, name) == if name in Names(a) then Lookup(a, name) else Lookup(b, name)
  {
    if a != [] {
      assert (a + b)[1..] == a[1..] + b;
      assert Names(a) == [a[0].0] + Names(a[1..]);
      LookupSplit(a[1..], b, name);
    } else {
      assert a + b == b;
    }
  }

  /** With only `autoplay` given, the other four flags take their defaults. */
  lemma AutoplayFlags(o: EmbedOptions)
    requires o.autoplay == Some(true)
    requires o.controls.None? && o.modestbranding.None? && o.rel.None? && o.enablejsapi.None?
    ensures FlagParams(o) == [("autoplay", "1"), ("controls", "1"), ("modestbranding", "1"),
                              ("rel", "0"), ("enablejsapi", "1")]
  {
  }

  /** The journey clip from 1:20 to 2:13, in seconds. */
  lemma ClipTimes(s: string, e: string)
    requires s == "1:20" && e == "2:13"
    ensures ValidTimeArg(Clock(s)) && TimeValue(Some(Clock(s))) == Some("80")
    ensures ValidTimeArg(Clock(e)) && TimeValue(Some(Clock(e))) == Some("133")
  {
    ClipStart(s);
    ClipEnd(e);
  }

  lemma ClipStart(s: string)
    requires s == "1:20"
    ensures ValidTimeArg(Clock(s)) && TimeValue(Some(Clock(s))) == Some("80")
  {
    ClockValue(s);
    Numeral2('8', '0');
    ClockTimeValue(s, 80, "80");
  }

  lemma ClipEnd(e: string)
    requires e == "2:13"
    ensures ValidTimeArg(Clock(e)) && TimeValue(Some(Clock(e))) == Some("133")
  {
    ClockValue(e);
    Numeral3('1', '3', '3');
    ClockTimeValue(e, 133, "133");
  }

  lemma ClockTimeValue(t: string, n: nat, digits: string)
    requires ValidTime(t) && TimeToSeconds(t) == n && NatToString(n) == digits
    ensures ValidTimeArg(Clock(t)) && TimeValue(Some(Clock(t))) == Some(digits)
  {
  }

  /** The numeral of a two-digit value is its two digits. */
  lemma Numeral2(a: char, b: char)
    requires IsDigit(a) && IsDigit(b) && a != '0'
    ensures NatToString(DigitValue(a) * 10 + DigitValue(b)) == [a, b]
  {
    TwoDigits(a, b);
    NatToStringOfDigits([a, b]);
  }

  /** The numeral of a three-digit value is its three digits. */
  lemma Numeral3(a: char, b: char, c: char)
    requires IsDigit(a) && IsDigit(b) && IsDigit(c) && a != '0'
    ensures NatToString(DigitValue(a) * 100 + DigitValue(b) * 10 + DigitValue(c)) == [a, b, c]
  {
    assert [a, b, c][..2] == [a, b];
    TwoDigits(a, b);
    NatToStringOfDigits([a, b, c]);
  }

  /** The query the journey player asks for: autoplay on, the other flags
      at their defaults, and the clip from 1:20 to 2:13 in seconds. */
  lemma EmbedExample(o: EmbedOptions, s: string, e: string)
    requires s == "1:20" && e == "2:13"
    requires o == EmbedOptions(autoplay := Some(true), start := Some(Clock(s)), end := Some(Clock(e)))
    ensures ValidOptions(o)
    ensures EmbedParams(o) == [("autoplay", "1"), ("controls", "1"), ("modestbranding", "1"),
                               ("rel", "0"), ("enablejsapi", "1"), ("start", "80"), ("end", "133")]
  {
    ClipTimes(s, e);
    assert TimeParam("start", o.start) == [("start", "80")];
    assert TimeParam("end", o.end) == [("end", "133")];
    AutoplayFlags(o);
  }
}
