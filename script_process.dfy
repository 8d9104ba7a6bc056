/** scripts/process.py: the earlier variant of the same pipeline. It takes
    the first ".mp4" of the listing, parses the first ".vtt" or else
    transcribes with Whisper, lets every failure propagate, copies Whisper's
    text verbatim, seeks to a caption's exact start on click, and scrolls to
    every active caption on every time update. */
module ScriptProcess {
  import opened Text
  import opened Timeline

  /** The text of a Whisper segment, taken as it is. */
  function Verbatim(s: string): string {
    s
  }

  // ---------------------------------------------------------------------
  // Building the caption list
  // ---------------------------------------------------------------------

  /** The WebVTT branch: cues numbered in order, times copied, line feeds
      turned into spaces; a parse error is not caught, so it ends the run
      (None). */
  method BuildFromVtt(feed: Feed) returns (r: Option<seq<Caption>>)
    ensures r.None? <==> feed.fails
    ensures r.Some? ==> IsTimeline(r.value, feed.items, ReplaceNewlines)
  {
    if feed.fails {
      return None;
    }
    var captions := Enumerate(feed.items, ReplaceNewlines);
    r := Some(captions);
  }

  /** The Whisper branch: segments numbered in order, times copied, text
      copied verbatim; a transcription error (a missing "segments" key
      included) is not caught, so it ends the run (None). */
  method BuildFromWhisper(feed: Feed) returns (r: Option<seq<Caption>>)
    ensures r.None? <==> feed.fails
    ensures r.Some? ==> IsTimeline(r.value, feed.items, Verbatim)
  {
    if feed.fails {
      return None;
    }
    var captions := Enumerate(feed.items, Verbatim);
    r := Some(captions);
  }

  /** One run, from the data directory's listing to the page's contents.
      `whisperInstalled` says whether the unconditional `import whisper`
      succeeds; `parseVtt` and `transcribe` stand for `webvtt.read` and
      Whisper's transcription. An uncaught exception (a failed import, no
      ".mp4" name for `next(...)`, a failed parse or transcription) ends
      the process with status 1. The video is the first ".mp4" name; the
      WebVTT branch is taken exactly when some name ends ".vtt", and then
      the first of them is parsed. */
  method Run(listing: seq<string>, whisperInstalled: bool, parseVtt: string -> Feed, transcribe: string -> Feed)
    returns (r: Outcome)
    ensures r.Exit? ==> r.status == 1
    ensures !whisperInstalled || FirstWith(listing, Mp4).None? ==> r.Exit?
    ensures r.Ready? ==> FirstWith(listing, Mp4) == Some(r.video)
    ensures whisperInstalled && FirstWith(listing, Mp4).Some? && Matching(listing, Vtt) != [] ==>
              var feed := parseVtt(Matching(listing, Vtt)[0]);
              (r.Exit? <==> feed.fails)
              && (r.Ready? ==> IsTimeline(r.captions, feed.items, ReplaceNewlines))
    ensures whisperInstalled && FirstWith(listing, Mp4).Some? && Matching(listing, Vtt) == [] ==>
              var feed := transcribe(FirstWith(listing, Mp4).value);
              (r.Exit? <==> feed.fails)
              && (r.Ready? ==> IsTimeline(r.captions, feed.items, Verbatim))
  {
    if !whisperInstalled {
      return Exit(1);
    }
    var video := FirstWith(listing, Mp4);
    var vtts := Matching(listing, Vtt);
    if video.None? {
      return Exit(1);
    }
    var built;
    if vtts != [] {
      built := BuildFromVtt(parseVtt(vtts[0]));
    } else {
      built := BuildFromWhisper(transcribe(video.value));
    }
    if built.None? {
      return Exit(1);
    }
    r := Ready(video.value, built.value);
  }

  // ---------------------------------------------------------------------
  // The page
  // ---------------------------------------------------------------------

  /** The element rendered for one caption. */
  function ItemFor(c: Caption, fixed1: real -> string): Item {
    Item(ElementId(c.id), "[" + fixed1(c.start) + "] ", c.text, c.start)
  }

  /** `caps.forEach(...)` appending one element per caption: in caption
      order, with element id 'c' + id, the text
      '[' + start.toFixed(1) + '] ' + text (`fixed1` stands for
      `toFixed(1)`), and a click handler seeking to exactly `start`. On a
      numbered list no two elements share an id. */
  method Render(captions: seq<Caption>, fixed1: real -> string) returns (items: seq<Item>)
    ensures |items| == |captions|
    ensures forall i :: 0 <= i < |captions| ==>
              items[i].elementId == ElementId(captions[i].id)
              && items[i].stamp == "[" + fixed1(captions[i].start) + "] "
              && items[i].text == captions[i].text
              && items[i].seekTo == captions[i].start
    ensures Numbered(captions) ==>
              forall i, j :: 0 <= i < j < |items| ==> items[i].elementId != items[j].elementId
  {
    items := [];
    for i := 0 to |captions|
      invariant |items| == i
      invariant forall k :: 0 <= k < i ==> items[k] == ItemFor(captions[k], fixed1)
    {
      items := items + [ItemFor(captions[i], fixed1)];
    }
    if Numbered(captions) {
      ElementIdsDistinct(captions);
    }
  }

  /** The player page once loaded: rendered list, playback position, the
      elements carrying the class "active" and the log of `scrollIntoView`
      calls (by caption id). Elements are identified with caption
      positions, which the numbered list makes equal to caption ids. */
  class Page {
    const video: string
    const captions: seq<Caption>
    const items: seq<Item>
    var currentTime: real
    var active: set<int>
    var scrolls: seq<int>

    ghost predicate Valid()
      reads this
    {
      Numbered(captions)
      && |items| == |captions|
      && (forall i :: 0 <= i < |items| ==> items[i].seekTo == captions[i].start)
      && (forall x :: x in active ==> 0 <= x < |captions|)
    }

    /** Loading the page renders the list; playback starts at 0 with
        nothing highlighted and nothing scrolled. */
    constructor (video: string, captions: seq<Caption>, fixed1: real -> string)
      requires Numbered(captions)
      ensures Valid()
      ensures this.video == video && this.captions == captions
      ensures |items| == |captions|
      ensures forall i :: 0 <= i < |captions| ==>
                items[i].elementId == ElementId(captions[i].id)
                && items[i].stamp == "[" + fixed1(captions[i].start) + "] "
                && items[i].text == captions[i].text
      ensures currentTime == 0.0 && active == {} && scrolls == []
    {
      this.video := video;
      this.captions := captions;
      var rendered := Render(captions, fixed1);
      items := rendered;
      currentTime := 0.0;
      active := {};
      scrolls := [];
    }

    /** `d.onclick`: clicking the element of caption `i` sets the playback
        position to exactly its start and changes nothing else. */
    method Click(i: nat)
      requires Valid() && i < |items|
      modifies this`currentTime
      ensures Valid()
      ensures currentTime == captions[i].start
    {
      currentTime := items[i].seekTo;
    }

    /** `v.ontimeupdate`: afterwards exactly the captions whose closed
        interval holds the current time are marked active (adding the mark
        to a marked element and removing it from an unmarked one change
        nothing), and a scroll was issued for every active caption, in
        caption order, whether or not it was active before. */
    method OnTimeUpdate()
      requires Valid()
      modifies this`active, this`scrolls
      ensures Valid()
      ensures active == ActiveAt(captions, currentTime)
      ensures scrolls == old(scrolls) + ActiveInOrder(captions, currentTime)
    {
      var t := currentTime;
      ghost var before := active;
      for i := 0 to |captions|
        invariant forall x :: x in active ==> 0 <= x < |captions|
        invariant forall j :: 0 <= j < |captions| ==>
                    (j in active <==> if j < i then Active(captions[j], t) else j in before)
        invariant scrolls == old(scrolls) + ActiveInOrder(captions[..i], t)
      {
        var c := captions[i];
        assert captions[..i + 1][..i] == captions[..i];
        if t >= c.start && t <= c.end {
          active := active + {c.id};
          scrolls := scrolls + [c.id];
        } else {
          active := active - {c.id};
        }
      }
      assert captions[..|captions|] == captions;
      forall x ensures x in active <==> x in ActiveAt(captions, t) {
        if x in active {
          assert captions[x].id == x;
        }
      }
    }
  }

  /** Two updates at the same playback position: the highlights are the
      same after both, and the second repeats every scroll of the first, in
      the same order. */
  method UpdateTwice(p: Page)
    requires p.Valid()
    modifies p`active, p`scrolls
    ensures p.Valid()
    ensures p.active == ActiveAt(p.captions, p.currentTime)
    ensures p.scrolls == old(p.scrolls) + ActiveInOrder(p.captions, p.currentTime)
                                        + ActiveInOrder(p.captions, p.currentTime)
  {
    p.OnTimeUpdate();
    p.OnTimeUpdate();
  }

  /** A click followed by a time update highlights the clicked caption
      exactly when its interval is not empty (start <= end). */
  method ClickThenUpdate(p: Page, i: nat)
    requires p.Valid() && i < |p.items|
    modifies p`currentTime, p`active, p`scrolls
    ensures p.Valid()
    ensures p.currentTime == p.captions[i].start
    ensures i in p.active <==> p.captions[i].start <= p.captions[i].end
  {
    p.Click(i);
    p.OnTimeUpdate();
    assert p.captions[i].id == i;
  }
}
