/** process.py: finds the downloaded video and subtitle files, builds the
    caption list from the first WebVTT file (or, failing any, from a Whisper
    transcription when Whisper is installed), and writes a page whose script
    renders the list, seeks on click and highlights the active captions,
    scrolling only when a caption becomes active. */
module Process {
  import opened Text
  import opened Timeline

  // ---------------------------------------------------------------------
  // fmt(n): the timestamp shown before each caption
  // ---------------------------------------------------------------------

  /** JavaScript's truncation toward zero of a real. */
  function Trunc(x: real): int {
    if x >= 0.0 then x.Floor else -((-x).Floor)
  }

  /** JavaScript's `x % 60`: the remainder of the truncating division,
      which takes the sign of `x`. */
  function Rem60(x: real): real {
    x - 60.0 * (Trunc(x / 60.0) as real)
  }

  /** `s.slice(-2)` on a string of at least two characters. */
  function LastTwo(s: string): string
    requires |s| >= 2
  {
    s[|s| - 2..]
  }

  /** `Math.floor(n % 60)`, computed on integers (see `FloorRem60Exact`). */
  function FloorRem60(n: real): int {
    n.Floor - 60 * Trunc(n / 60.0)
  }

  /** `n % 60` is `n` less a whole multiple of 60, so its floor is
      `floor(n)` less that multiple: `FloorRem60` is `Math.floor(n % 60)`
      for every time, negative ones included. */
  lemma FloorRem60Exact(n: real)
    ensures FloorRem60(n) == Rem60(n).Floor
  {
  }

  /** `Math.floor(n/60) + ':' + ('0' + Math.floor(n%60)).slice(-2)`. */
  function Fmt(n: real): string {
    IntToString((n / 60.0).Floor) + ":" + LastTwo("0" + IntToString(FloorRem60(n)))
  }

  /** The seconds field of a value below 60 is its two decimal digits, a
      leading zero supplied below 10. */
  lemma SecondsField(s: nat)
    requires s < 60
    ensures LastTwo("0" + IntToString(s)) == [Digit(s / 10), Digit(s % 10)]
  {
    var hi, lo := s / 10, s % 10;
    var d := IntToString(s);
    if s < 10 {
      assert hi == 0 && lo == s;
      assert d == [Digit(lo)];
      assert "0" + d == [Digit(hi), Digit(lo)];
    } else {
      assert hi < 10;
      assert d == NatToString(hi) + [Digit(lo)];
      assert NatToString(hi) == [Digit(hi)];
      assert "0" + d == ['0', Digit(hi), Digit(lo)];
    }
  }

  /** For a time `n >= 0`, `Fmt(n)` is the whole minutes `floor(n/60)` in
      decimal, a colon, and the seconds `floor(n) mod 60` as exactly two
      digits. */
  lemma FmtFields(n: real)
    requires n >= 0.0
    ensures Fmt(n) == NatToString(n.Floor / 60) + ":" + [Digit(n.Floor % 60 / 10), Digit(n.Floor % 60 % 10)]
  {
    var q, f := (n / 60.0).Floor, n.Floor;
    assert 0 <= q;
    assert Trunc(n / 60.0) == q;
    assert 60 * q <= f < 60 * q + 60;
    assert f / 60 == q && f % 60 == f - 60 * q;
    SecondsField(f - 60 * q);
  }

  /** Two digits read back as the number they were written for. */
  lemma TwoDigitsReadBack(sec: nat)
    requires sec < 100
    ensures ParseNat([Digit(sec / 10), Digit(sec % 10)]) == sec
  {
    var hi, lo := Digit(sec / 10), Digit(sec % 10);
    var tail := [hi, lo];
    assert tail[..|tail| - 1] == [hi];
    assert [hi][..0] == [];
    assert ParseNat([hi]) == sec / 10 by {
      assert DigitValue(hi) == sec / 10;
    }
    assert DigitValue(lo) == sec % 10;
    assert ParseNat(tail) == ParseNat([hi]) * 10 + DigitValue(lo);
  }

  /** A clock text `minutes:ss` splits at its third-to-last character into
      two digit strings that read back as the minutes and the seconds. */
  lemma ClockReadsBack(s: string, m: nat, sec: nat)
    requires sec < 60
    requires s == NatToString(m) + ":" + [Digit(sec / 10), Digit(sec % 10)]
    ensures |s| >= 4 && s[|s| - 3] == ':'
    ensures forall i :: 0 <= i < |s| - 3 ==> IsDigit(s[i])
    ensures IsDigit(s[|s| - 2]) && IsDigit(s[|s| - 1])
    ensures ParseNat(s[..|s| - 3]) == m && ParseNat(s[|s| - 2..]) == sec
  {
    assert s[..|s| - 3] == NatToString(m);
    assert s[|s| - 2..] == [Digit(sec / 10), Digit(sec % 10)];
    ParseNatToString(m);
    TwoDigitsReadBack(sec);
  }

  /** `s` is a clock text `minutes:ss` (decimal minutes, a colon, two
      decimal digits) whose seconds are below 60 and which stands for
      `total` seconds. */
  predicate ReadsAsClock(s: string, total: int) {
    |s| >= 4 && s[|s| - 3] == ':'
    && (forall i :: 0 <= i < |s| - 3 ==> IsDigit(s[i])) && IsDigit(s[|s| - 2]) && IsDigit(s[|s| - 1])
    && ParseNat(s[|s| - 2..]) < 60
    && ParseNat(s[..|s| - 3]) * 60 + ParseNat(s[|s| - 2..]) == total
  }

  /** The timestamp reads back: for `n >= 0` it is digits, a colon and two
      digits, and minutes * 60 + seconds is the whole number of seconds in
      `n`, with the seconds below 60. */
  lemma FmtReadsBack(n: real)
    requires n >= 0.0
    ensures ReadsAsClock(Fmt(n), n.Floor)
  {
    var f := n.Floor;
    FmtFields(n);
    ClockReadsBack(Fmt(n), f / 60, f % 60);
  }

  // ---------------------------------------------------------------------
  // Finding the downloaded files
  // ---------------------------------------------------------------------

  /** The loop over the data directory's listing: `video_file` is
      overwritten by every name ending ".mp4", so it ends up holding the
      last one (None if there is none), and every name ending ".vtt" is
      appended to `vtt_files` in listing order. */
  method SelectMedia(listing: seq<string>) returns (video: Option<string>, vtts: seq<string>)
    ensures video == LastWith(listing, Mp4)
    ensures vtts == Matching(listing, Vtt)
  {
    video, vtts := None, [];
    for i := 0 to |listing|
      invariant video == LastWith(listing[..i], Mp4)
      invariant vtts == Matching(listing[..i], Vtt)
    {
      var f := listing[i];
      assert listing[..i + 1] == listing[..i] + [f];
      LastWithSnoc(listing[..i], f, Mp4);
      MatchingSnoc(listing[..i], f, Vtt);
      if EndsWith(f, Mp4) {
        video := Some(f);
      }
      if EndsWith(f, Vtt) {
        vtts := vtts + [f];
      }
    }
    assert listing[..|listing|] == listing;
  }

  // ---------------------------------------------------------------------
  // Building the caption list
  // ---------------------------------------------------------------------

  /** The WebVTT branch: cues are numbered in order with their times copied
      and every line feed in the text turned into a space; an exception
      anywhere in parsing discards everything appended so far and leaves
      the list empty. */
  method BuildFromVtt(feed: Feed) returns (captions: seq<Caption>)
    ensures feed.fails ==> captions == []
    ensures !feed.fails ==> IsTimeline(captions, feed.items, ReplaceNewlines)
  {
    captions := Enumerate(feed.items, ReplaceNewlines);
    if feed.fails {
      captions := [];
    }
  }

  /** The Whisper branch: segments are numbered in order with their times
      copied and their text stripped of surrounding whitespace (line feeds
      inside are kept); an exception keeps whatever was appended before it. */
  method BuildFromWhisper(feed: Feed) returns (captions: seq<Caption>)
    ensures IsTimeline(captions, feed.items, Strip)
  {
    captions := Enumerate(feed.items, Strip);
  }

  /** One run, from the data directory's listing to the page's contents.
      `parseVtt` stands for `webvtt.read` applied to a file of the data
      directory and `transcribe` for Whisper's transcription of one;
      `whisperAvailable` says whether `import whisper` succeeded. No ".mp4"
      name means exit status 1. Otherwise the first ".vtt" name is parsed
      when there is one; if not, the video is transcribed when Whisper is
      available; if not, the page has no captions. */
  method Run(listing: seq<string>, whisperAvailable: bool, parseVtt: string -> Feed, transcribe: string -> Feed)
    returns (r: Outcome)
    ensures r.Exit? <==> LastWith(listing, Mp4).None?
    ensures r.Exit? ==> r.status == 1
    ensures r.Ready? ==> LastWith(listing, Mp4) == Some(r.video)
    ensures r.Ready? && Matching(listing, Vtt) != [] && parseVtt(Matching(listing, Vtt)[0]).fails ==>
              r.captions == []
    ensures r.Ready? && Matching(listing, Vtt) != [] && !parseVtt(Matching(listing, Vtt)[0]).fails ==>
              IsTimeline(r.captions, parseVtt(Matching(listing, Vtt)[0]).items, ReplaceNewlines)
    ensures r.Ready? && Matching(listing, Vtt) == [] && whisperAvailable ==>
              IsTimeline(r.captions, transcribe(r.video).items, Strip)
    ensures r.Ready? && Matching(listing, Vtt) == [] && !whisperAvailable ==>
              r.captions == []
  {
    var video, vtts := SelectMedia(listing);
    if video.None? {
      return Exit(1);
    }
    var captions := [];
    if |vtts| > 0 {
      captions := BuildFromVtt(parseVtt(vtts[0]));
    } else if whisperAvailable {
      captions := BuildFromWhisper(transcribe(video.value));
    }
    r := Ready(video.value, captions);
  }

  // ---------------------------------------------------------------------
  // The page
  // ---------------------------------------------------------------------

  /** The element rendered for one caption. */
  function ItemFor(c: Caption, fmt: real -> string): Item {
    Item(ElementId(c.id), "[" + fmt(c.start) + "]", c.text, c.start + 0.01)
  }

  /** `captions.forEach(...)` appending one element per caption to the
      list, in caption order: element id 'c' + id, the label
      '[' + fmt(start) + ']' before the text (`fmt` is the page's timestamp
      formatter; the page passes `Fmt`), and a click handler seeking to
      start + 0.01. On a numbered list no two elements share an id. */
  method Render(captions: seq<Caption>, fmt: real -> string) returns (items: seq<Item>)
    ensures |items| == |captions|
    ensures forall i :: 0 <= i < |captions| ==>
              items[i].elementId == ElementId(captions[i].id)
              && items[i].stamp == "[" + fmt(captions[i].start) + "]"
              && items[i].text == captions[i].text
              && items[i].seekTo == captions[i].start + 0.01
    ensures Numbered(captions) ==>
              forall i, j :: 0 <= i < j < |items| ==> items[i].elementId != items[j].elementId
  {
    items := [];
    for i := 0 to |captions|
      invariant |items| == i
      invariant forall k :: 0 <= k < i ==> items[k] == ItemFor(captions[k], fmt)
    {
      items := items + [ItemFor(captions[i], fmt)];
    }
    if Numbered(captions) {
      ElementIdsDistinct(captions);
    }
  }

  /** The player page once loaded: the caption list it renders, the
      video's playback position, which elements carry the class "active",
      and the log of `scrollIntoView` calls (by caption id). Elements are
      identified with caption positions, which the numbered list makes
      equal to caption ids. */
  class Page {
    const video: string
    const captions: seq<Caption>
    const items: seq<Item>
    var currentTime: real
    var active: set<int>
    var scrolls: seq<int>

    ghost predicate Valid()
      reads this
    {
      Numbered(captions)
      && |items| == |captions|
      && (forall i :: 0 <= i < |items| ==> items[i].seekTo == captions[i].start + 0.01)
      && (forall x :: x in active ==> 0 <= x < |captions|)
    }

    /** Loading the page renders the list; playback starts at 0 with
        nothing highlighted and nothing scrolled. */
    constructor (video: string, captions: seq<Caption>)
      requires Numbered(captions)
      ensures Valid()
      ensures this.video == video && this.captions == captions
      ensures |items| == |captions|
      ensures forall i :: 0 <= i < |captions| ==>
                items[i].elementId == ElementId(captions[i].id)
                && items[i].stamp == "[" + Fmt(captions[i].start) + "]"
                && items[i].text == captions[i].text
      ensures currentTime == 0.0 && active == {} && scrolls == []
    {
      this.video := video;
      this.captions := captions;
      var rendered := Render(captions, Fmt);
      items := rendered;
      currentTime := 0.0;
      active := {};
      scrolls := [];
    }

    /** `d.onclick`: clicking the element of caption `i` sets the playback
        position to its start plus 0.01 and changes nothing else. */
    method Click(i: nat)
      requires Valid() && i < |items|
      modifies this`currentTime
      ensures Valid()
      ensures currentTime == captions[i].start + 0.01
    {
      currentTime := items[i].seekTo;
    }

    /** `video.ontimeupdate`: afterwards exactly the captions whose closed
        interval holds the current time are marked active, and a scroll was
        issued, in caption order, for each of them that was not marked
        active before. */
    method OnTimeUpdate()
      requires Valid()
      modifies this`active, this`scrolls
      ensures Valid()
      ensures active == ActiveAt(captions, currentTime)
      ensures scrolls == old(scrolls) + NewlyActive(captions, old(active), currentTime)
    {
      var t := currentTime;
      ghost var before := active;
      for i := 0 to |captions|
        invariant forall x :: x in active ==> 0 <= x < |captions|
        invariant forall j :: 0 <= j < |captions| ==>
                    (j in active <==> if j < i then Active(captions[j], t) else j in before)
        invariant scrolls == old(scrolls) + NewlyActive(captions[..i], before, t)
      {
        var c := captions[i];
        assert captions[..i + 1][..i] == captions[..i];
        if t >= c.start && t <= c.end {
          if c.id !in active {
            active := active + {c.id};
            scrolls := scrolls + [c.id];
          }
        } else {
          active := active - {c.id};
        }
      }
      assert captions[..|captions|] == captions;
      forall x ensures x in active <==> x in ActiveAt(captions, t) {
        if x in active {
          assert captions[x].id == x;
        }
      }
    }
  }

  /** Two updates at the same playback position: the second changes no
      highlight and issues no scroll. */
  method UpdateTwice(p: Page)
    requires p.Valid()
    modifies p`active, p`scrolls
    ensures p.Valid()
    ensures p.active == ActiveAt(p.captions, p.currentTime)
    ensures p.scrolls == old(p.scrolls) + NewlyActive(p.captions, old(p.active), p.currentTime)
  {
    p.OnTimeUpdate();
    ghost var once := p.scrolls;
    p.OnTimeUpdate();
    NoRescroll(p.captions, p.currentTime);
    assert p.scrolls == once + [];
  }

  /** A click followed by a time update highlights the clicked caption
      exactly when it lasts at least the 0.01 s the click adds to its
      start: a caption shorter than that is skipped. */
  method ClickThenUpdate(p: Page, i: nat)
    requires p.Valid() && i < |p.items|
    modifies p`currentTime, p`active, p`scrolls
    ensures p.Valid()
    ensures p.currentTime == p.captions[i].start + 0.01
    ensures i in p.active <==> p.captions[i].start + 0.01 <= p.captions[i].end
  {
    p.Click(i);
    p.OnTimeUpdate();
    assert p.captions[i].id == i;
  }
}
