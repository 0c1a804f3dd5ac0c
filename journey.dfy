/** The state of the journey section's video player
    (`VideoPlayer` in src/components/JourneySection.tsx): the thumbnail
    quality that falls back on image errors, the play flag, and the
    thumbnail and embed URLs derived from the milestone's video link. */
module Journey {
  import opened Wrappers
  import opened Text
  import opened YouTube

  // ---------------------------------------------------------------------
  // The thumbnail fallback chain
  // ---------------------------------------------------------------------

  /** The qualities the player's state can hold: `default` is not one. */
  type FallbackQuality = q: Quality | q != Default witness MaxResDefault

  /** The fallback order, best first. */
  const FallbackChain: seq<FallbackQuality> := [MaxResDefault, HqDefault, MqDefault, SdDefault]

  /** The position of a quality in the fallback chain. */
  function Rank(q: FallbackQuality): (r: nat)
    ensures r < |FallbackChain| && FallbackChain[r] == q
  {
    match q
    case MaxResDefault => 0
    case HqDefault => 1
    case MqDefault => 2
    case SdDefault => 3
  }

  /** The quality after one image error: the next entry of the chain, or
      the last entry again once it is reached. */
  function NextQuality(q: FallbackQuality): FallbackQuality {
    var k := Rank(q);
    if k + 1 < |FallbackChain| then FallbackChain[k + 1] else FallbackChain[k]
  }

  /** The quality after `n` errors starting from `q`. */
  function AfterErrors(q: FallbackQuality, n: nat): FallbackQuality
    decreases n
  {
    if n == 0 then q else AfterErrors(NextQuality(q), n - 1)
  }

  function Min(a: int, b: int): int {
    if a <= b then a else b
  }

  /** Each error moves one step down the chain; `sddefault` is the only
      quality an error leaves unchanged. */
  lemma NextQualityStep(q: FallbackQuality)
    ensures q != SdDefault ==> Rank(NextQuality(q)) == Rank(q) + 1
    ensures NextQuality(q) == q <==> q == SdDefault
  {
  }

  /** `n` errors move `n` steps down the chain, stopping at its end. */
  lemma {:induction false} AfterErrorsRank(q: FallbackQuality, n: nat)
    ensures Rank(AfterErrors(q, n)) == Min(Rank(q) + n, |FallbackChain| - 1)
    decreases n
  {
    if n > 0 {
      NextQualityStep(q);
      AfterErrorsRank(NextQuality(q), n - 1);
    }
  }

  /** The quality never moves back up. */
  lemma FallbackMonotone(q: FallbackQuality, m: nat, n: nat)
    requires m <= n
    ensures Rank(AfterErrors(q, m)) <= Rank(AfterErrors(q, n))
  {
    AfterErrorsRank(q, m);
    AfterErrorsRank(q, n);
  }

  /** From the start, three errors reach `sddefault` and it stays. */
  lemma FallbackSettles(n: nat)
    requires n >= 3
    ensures AfterErrors(MaxResDefault, n) == SdDefault
    ensures forall m :: 0 <= m < 3 ==> AfterErrors(MaxResDefault, m) != SdDefault
  {
    AfterErrorsRank(MaxResDefault, n);
    forall m | 0 <= m < 3 ensures AfterErrors(MaxResDefault, m) != SdDefault {
      AfterErrorsRank(MaxResDefault, m);
    }
  }

  // ---------------------------------------------------------------------
  // The embed options
  // ---------------------------------------------------------------------

  /** An optional clock string as an optional time option. */
  function ClockOf(t: Option<string>): Option<TimeArg> {
    match t
    case None => None
    case Some(s) => Some(Clock(s))
  }

  /** The milestone's times are timestamps the parser reads. */
  predicate ValidTimes(startTime: Option<string>, endTime: Option<string>) {
    (startTime.Some? ==> ValidTime(startTime.value)) && (endTime.Some? ==> ValidTime(endTime.value))
  }

  /** The options object `{ autoplay: true, start: startTime, end: endTime }`. */
  function PlayerOptions(startTime: Option<string>, endTime: Option<string>): (o: EmbedOptions)
    requires ValidTimes(startTime, endTime)
    ensures ValidOptions(o)
  {
    EmbedOptions(autoplay := Some(true), start := ClockOf(startTime), end := ClockOf(endTime))
  }

  /** The player's query: autoplay on and the other flags at their
      defaults, then `start` and `end` exactly when the milestone gives
      them, in seconds. */
  lemma PlayerEmbedParams(startTime: Option<string>, endTime: Option<string>)
    requires ValidTimes(startTime, endTime)
    ensures var q := EmbedParams(PlayerOptions(startTime, endTime));
      && q[..5] == [("autoplay", "1"), ("controls", "1"), ("modestbranding", "1"), ("rel", "0"), ("enablejsapi", "1")]
      && (Lookup(q, "start").Some? <==> startTime.Some?)
      && (Lookup(q, "end").Some? <==> endTime.Some?)
      && (startTime.Some? ==> Lookup(q, "start") == Some(NatToString(TimeToSeconds(startTime.value))))
      && (endTime.Some? ==> Lookup(q, "end") == Some(NatToString(TimeToSeconds(endTime.value))))
  {
    var o := PlayerOptions(startTime, endTime);
    PlayerFlags(o);
    EmbedTimeValues(o);
  }

  lemma PlayerFlags(o: EmbedOptions)
    requires ValidOptions(o) && o.autoplay == Some(true)
    requires o.controls.None? && o.modestbranding.None? && o.rel.None? && o.enablejsapi.None?
    ensures EmbedParams(o)[..5] == [("autoplay", "1"), ("controls", "1"), ("modestbranding", "1"), ("rel", "0"), ("enablejsapi", "1")]
  {
    var flags := FlagParams(o);
    var q := EmbedParams(o);
    assert q == flags + TimeParam("start", o.start) + TimeParam("end", o.end);
    assert q[..5] == flags;
  }

  // ---------------------------------------------------------------------
  // The player
  // ---------------------------------------------------------------------

  /** One `VideoPlayer`: its props are constants, the two pieces of
      React state are fields the event handlers overwrite. */
  class VideoPlayer {
    const videoUrl: string
    const startTime: Option<string>
    const endTime: Option<string>
    var thumbnailQuality: FallbackQuality
    var isPlaying: bool
    /** The number of thumbnail errors handled so far. */
    ghost var errors: nat

    /** The quality is as far down the chain as the errors seen take it
        (see `ValidQuality`). */
    ghost predicate Valid()
      reads this
    {
      Rank(thumbnailQuality) == Min(errors, |FallbackChain| - 1)
    }

    /** `useState(false)` and `useState('maxresdefault')`. */
    constructor (videoUrl: string, startTime: Option<string>, endTime: Option<string>)
      ensures this.videoUrl == videoUrl && this.startTime == startTime && this.endTime == endTime
      ensures thumbnailQuality == MaxResDefault && !isPlaying && errors == 0
      ensures Valid()
    {
      this.videoUrl := videoUrl;
      this.startTime := startTime;
      this.endTime := endTime;
      thumbnailQuality := MaxResDefault;
      isPlaying := false;
      errors := 0;
    }

    /** The image URL shown before playing: the video's thumbnail at the
        quality the errors seen so far have fallen back to. */
    function ThumbnailUrl(): (r: string)
      requires Valid()
      reads this
      ensures r == Thumbnail(VideoId(videoUrl), AfterErrors(MaxResDefault, errors))
    {
      ValidQuality(this);
      Thumbnail(VideoId(videoUrl), thumbnailQuality)
    }

    /** `handleThumbnailError`: one step down the fallback chain, nothing
        at `sddefault`; the play flag is untouched. */
    method HandleThumbnailError()
      requires Valid()
      modifies this
      ensures Valid()
      ensures thumbnailQuality == NextQuality(old(thumbnailQuality))
      ensures isPlaying == old(isPlaying) && errors == old(errors) + 1
      ensures ThumbnailUrl() == Thumbnail(VideoId(videoUrl), NextQuality(old(thumbnailQuality)))
    {
      if thumbnailQuality == MaxResDefault {
        thumbnailQuality := HqDefault;
      } else if thumbnailQuality == HqDefault {
        thumbnailQuality := MqDefault;
      } else if thumbnailQuality == MqDefault {
        thumbnailQuality := SdDefault;
      }
      errors := errors + 1;
      NextQualityStep(old(thumbnailQuality));
    }

    /** The click handler `setIsPlaying(true)`. */
    method Play()
      requires Valid()
      modifies this
      ensures isPlaying
      ensures thumbnailQuality == old(thumbnailQuality) && errors == old(errors)
      ensures Valid()
    {
      isPlaying := true;
    }

    /** The iframe source once playing, for times the parser reads. */
    method EmbedUrl() returns (url: string)
      requires ValidTimes(startTime, endTime)
      ensures url == EmbedBase + VideoId(videoUrl) + "?" + Serialize(EmbedParams(PlayerOptions(startTime, endTime)))
    {
      url := YouTube.EmbedUrl(VideoId(videoUrl), PlayerOptions(startTime, endTime));
    }
  }

  /** A valid player shows the quality reached from `maxresdefault`
      after the errors it has handled. */
  lemma ValidQuality(p: VideoPlayer)
    requires p.Valid()
    ensures p.thumbnailQuality == AfterErrors(MaxResDefault, p.errors)
  {
    AfterErrorsRank(MaxResDefault, p.errors);
    RankInjective(p.thumbnailQuality, AfterErrors(MaxResDefault, p.errors));
  }

  lemma RankInjective(q1: FallbackQuality, q2: FallbackQuality)
    requires Rank(q1) == Rank(q2)
    ensures q1 == q2
  {
  }

  /** The two events the player reacts to. */
  datatype Event = ThumbnailError | Click

  /** The number of image errors among `events`. */
  function Errors(events: seq<Event>): nat {
    if events == [] then 0 else (if events[0] == ThumbnailError then 1 else 0) + Errors(events[1..])
  }

  lemma {:induction false} ErrorsAppend(events: seq<Event>, e: Event)
    ensures Errors(events + [e]) == Errors(events) + (if e == ThumbnailError then 1 else 0)
  {
    if events != [] {
      assert (events + [e])[1..] == events[1..] + [e];
      ErrorsAppend(events[1..], e);
    }
  }

  /** Delivers one event to the player. */
  method Deliver(p: VideoPlayer, e: Event)
    requires p.Valid()
    modifies p
    ensures p.Valid() && p.errors == old(p.errors) + Errors([e])
    ensures p.isPlaying == (old(p.isPlaying) || e == Click)
  {
    if e == ThumbnailError {
      p.HandleThumbnailError();
    } else {
      p.Play();
    }
  }

  /** Delivers `events` to the player in order. Whatever the order, the
      quality is the fallback after the errors seen, and the player is
      playing exactly when it already was or some event was a click. */
  method Run(p: VideoPlayer, events: seq<Event>)
    requires p.Valid()
    modifies p
    ensures p.Valid() && p.errors == old(p.errors) + Errors(events)
    ensures p.thumbnailQuality == AfterErrors(old(p.thumbnailQuality), Errors(events))
    ensures p.isPlaying <==> old(p.isPlaying) || Click in events
  {
    var k := 0;
    while k < |events|
      invariant 0 <= k <= |events|
      invariant p.Valid() && p.errors == old(p.errors) + Errors(events[..k])
      invariant p.isPlaying <==> old(p.isPlaying) || Click in events[..k]
    {
      assert events[..k + 1] == events[..k] + [events[k]];
      ErrorsAppend(events[..k], events[k]);
      Deliver(p, events[k]);
      k := k + 1;
    }
    assert events[..k] == events;
    RankAfter(old(p.thumbnailQuality), p.thumbnailQuality, old(p.errors), Errors(events));
  }

  /** Two valid states `n` errors apart are `n` fallback steps apart. */
  lemma RankAfter(q: FallbackQuality, q': FallbackQuality, e: nat, n: nat)
    requires Rank(q) == Min(e, |FallbackChain| - 1)
    requires Rank(q') == Min(e + n, |FallbackChain| - 1)
    ensures q' == AfterErrors(q, n)
  {
    AfterErrorsRank(q, n);
    RankInjective(q', AfterErrors(q, n));
  }

  /** The clip milestone of the journey data (`startTime` 1:20, `endTime`
      2:13) embeds with autoplay and `start=80&end=133`. */
  lemma ClipPlayerParams(s: string, e: string)
    requires s == "1:20" && e == "2:13"
    ensures ValidTimes(Some(s), Some(e))
    ensures EmbedParams(PlayerOptions(Some(s), Some(e))) ==
      [("autoplay", "1"), ("controls", "1"), ("modestbranding", "1"),
       ("rel", "0"), ("enablejsapi", "1"), ("start", "80"), ("end", "133")]
  {
    var o := EmbedOptions(autoplay := Some(true), start := Some(Clock(s)), end := Some(Clock(e)));
    EmbedExample(o, s, e);
  }
}
