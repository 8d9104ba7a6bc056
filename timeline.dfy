/** What both scripts share: the caption record, what the external
    subtitle parser and transcriber hand over, how the downloaded files are
    picked out of the data directory's listing, the enumerate-and-append loop
    that numbers the captions, and the activation rule the player page
    applies on every time update. */
module Timeline {
  import opened Text

  datatype Option<T> = None | Some(value: T)

  /** One timed entry as an external collaborator delivers it: a WebVTT cue
      (`start_in_seconds`, `end_in_seconds`, `text`) or a transcription
      segment (`start`, `end`, `text`). */
  datatype Cue = Cue(start: real, end: real, text: string)

  /** What iterating over a parser's or transcriber's output yields: the
      entries produced, in order, and whether an exception is raised after
      the last of them. */
  datatype Feed = Feed(items: seq<Cue>, fails: bool)

  /** The `{id, start, end, text}` record embedded in the player page. */
  datatype Caption = Caption(id: int, start: real, end: real, text: string)

  /** How a run ends: the process exits with a status, or the page is
      written for the chosen video file with these captions. */
  datatype Outcome = Exit(status: int) | Ready(video: string, captions: seq<Caption>)

  /** One rendered line of the caption list: the element id, the timestamp
      label shown before the text, the text, and the time a click seeks to. */
  datatype Item = Item(elementId: string, stamp: string, text: string, seekTo: real)

  const Mp4 := ".mp4"
  const Vtt := ".vtt"

  // ---------------------------------------------------------------------
  // Picking files out of a directory listing
  // ---------------------------------------------------------------------

  /** The names in the listing that end with `suffix`, in listing order
      (a list comprehension with an `endswith` filter). */
  function Matching(names: seq<string>, suffix: string): (r: seq<string>)
    ensures |r| <= |names|
    ensures forall x :: x in r <==> x in names && EndsWith(x, suffix)
  {
    if names == [] then []
    else (if EndsWith(names[0], suffix) then [names[0]] else []) + Matching(names[1..], suffix)
  }

  /** Filtering a listing piece by piece gives the same list, in the same
      order, as filtering it whole. */
  lemma {:induction false} MatchingAppend(a: seq<string>, b: seq<string>, suffix: string)
    ensures Matching(a + b, suffix) == Matching(a, suffix) + Matching(b, suffix)
  {
    if a == [] {
      assert a + b == b;
    } else {
      assert (a + b)[0] == a[0];
      assert (a + b)[1..] == a[1..] + b;
      MatchingAppend(a[1..], b, suffix);
    }
  }

  /** The position of the first name ending with `suffix`, or `|names|`
      when there is none. */
  function FirstIndexWith(names: seq<string>, suffix: string): (k: nat)
    ensures k <= |names|
    ensures k < |names| ==> EndsWith(names[k], suffix)
    ensures forall j :: 0 <= j < k ==> !EndsWith(names[j], suffix)
  {
    if names == [] then 0
    else if EndsWith(names[0], suffix) then 0
    else 1 + FirstIndexWith(names[1..], suffix)
  }

  /** `next(f for f in names if f.endswith(suffix))`: the first matching
      name, or None where Python raises StopIteration. */
  function FirstWith(names: seq<string>, suffix: string): Option<string>
  {
    var k := FirstIndexWith(names, suffix);
    if k < |names| then Some(names[k]) else None
  }

  /** The position of the last name ending with `suffix`, or -1 when there
      is none. */
  function LastIndexWith(names: seq<string>, suffix: string): (k: int)
    ensures -1 <= k < |names|
    ensures 0 <= k ==> EndsWith(names[k], suffix)
    ensures forall j :: k < j < |names| ==> !EndsWith(names[j], suffix)
  {
    if names == [] then -1
    else if EndsWith(names[|names| - 1], suffix) then |names| - 1
    else LastIndexWith(names[..|names| - 1], suffix)
  }

  /** The name a loop ends up holding when it overwrites its variable with
      every name ending with `suffix`: the last such name, or None. */
  function LastWith(names: seq<string>, suffix: string): Option<string>
  {
    var k := LastIndexWith(names, suffix);
    if 0 <= k then Some(names[k]) else None
  }

  /** Scanning one more name: it becomes the last match if it has the
      suffix, and otherwise the last match stays what it was. */
  lemma LastWithSnoc(names: seq<string>, f: string, suffix: string)
    ensures LastWith(names + [f], suffix) == if EndsWith(f, suffix) then Some(f) else LastWith(names, suffix)
  {
    assert (names + [f])[..|names|] == names;
  }

  /** Scanning one more name appends it to the filtered list exactly when
      it has the suffix. */
  lemma MatchingSnoc(names: seq<string>, f: string, suffix: string)
    ensures Matching(names + [f], suffix) == Matching(names, suffix) + if EndsWith(f, suffix) then [f] else []
  {
    MatchingAppend(names, [f], suffix);
    assert [f][1..] == [];
  }

  /** The first element of the filtered list is the name `next(...)` finds,
      and the filtered list is empty exactly when `next(...)` finds nothing. */
  lemma {:induction false} FirstMatchIsFirstWith(names: seq<string>, suffix: string)
    ensures Matching(names, suffix) == [] <==> FirstWith(names, suffix).None?
    ensures Matching(names, suffix) != [] ==> Matching(names, suffix)[0] == FirstWith(names, suffix).value
  {
    if names != [] && !EndsWith(names[0], suffix) {
      FirstMatchIsFirstWith(names[1..], suffix);
    }
  }

  /** First-match and last-match selection disagree only when the listing
      holds more than one matching name; with exactly one they agree. */
  lemma FirstAndLastWithAgree(names: seq<string>, suffix: string)
    requires |Matching(names, suffix)| <= 1
    ensures FirstWith(names, suffix) == LastWith(names, suffix)
  {
    var f, l := FirstIndexWith(names, suffix), LastIndexWith(names, suffix);
    if f < |names| {
      assert f <= l;
      assert f == l by {
        if f < l { MatchingCount(names, suffix, f, l); }
      }
    }
  }

  /** Two matching positions in the listing give two entries in the
      filtered list. */
  lemma {:induction false} MatchingCount(names: seq<string>, suffix: string, i: nat, j: nat)
    requires i < j < |names|
    requires EndsWith(names[i], suffix) && EndsWith(names[j], suffix)
    ensures |Matching(names, suffix)| >= 2
  {
    if 0 < i {
      MatchingCount(names[1..], suffix, i - 1, j - 1);
    } else {
      assert names[j] == names[1..][j - 1];
      assert names[j] in Matching(names[1..], suffix);
    }
  }

  // ---------------------------------------------------------------------
  // Numbering the captions
  // ---------------------------------------------------------------------

  /** Every caption's id is its position in the list: ids are 0..N-1. */
  predicate Numbered(caps: seq<Caption>) {
    forall i :: 0 <= i < |caps| ==> caps[i].id == i
  }

  /** `caps` is what `for i, c in enumerate(cues): captions.append(...)`
      builds from an empty list: one caption per cue, in cue order, with id
      `i`, the cue's times copied unchanged and its text passed through
      `norm`. */
  ghost predicate IsTimeline(caps: seq<Caption>, cues: seq<Cue>, norm: string -> string) {
    |caps| == |cues|
    && forall i :: 0 <= i < |caps| ==>
         caps[i] == Caption(i, cues[i].start, cues[i].end, norm(cues[i].text))
  }

  /** The enumerate-and-append loop both scripts run over a feed's entries. */
  method Enumerate(cues: seq<Cue>, norm: string -> string) returns (captions: seq<Caption>)
    ensures IsTimeline(captions, cues, norm)
    ensures Numbered(captions)
  {
    captions := [];
    for i := 0 to |cues|
      invariant IsTimeline(captions, cues[..i], norm)
    {
      var c := cues[i];
      captions := captions + [Caption(i, c.start, c.end, norm(c.text))];
    }
    assert cues[..|cues|] == cues;
  }

  // ---------------------------------------------------------------------
  // Activation on a time update
  // ---------------------------------------------------------------------

  /** `t >= c.start && t <= c.end`: the closed interval, so a caption is
      still active at the instant `t == c.end`. */
  predicate Active(c: Caption, t: real) {
    t >= c.start && t <= c.end
  }

  /** The ids of the captions active at time `t`. */
  function ActiveAt(caps: seq<Caption>, t: real): set<int> {
    set i | 0 <= i < |caps| && Active(caps[i], t) :: caps[i].id
  }

  /** The ids scrolled into view, in caption order, by an update at time
      `t` that scrolls only to captions not already marked active in
      `before`. */
  function NewlyActive(caps: seq<Caption>, before: set<int>, t: real): seq<int> {
    if caps == [] then []
    else
      var c := caps[|caps| - 1];
      NewlyActive(caps[..|caps| - 1], before, t)
      + (if Active(c, t) && c.id !in before then [c.id] else [])
  }

  /** The ids scrolled into view, in caption order, by an update at time
      `t` that scrolls to every active caption. */
  function ActiveInOrder(caps: seq<Caption>, t: real): seq<int> {
    if caps == [] then []
    else
      var c := caps[|caps| - 1];
      ActiveInOrder(caps[..|caps| - 1], t) + (if Active(c, t) then [c.id] else [])
  }

  /** An id is scrolled to by the edge-triggered update exactly when its
      caption is active now and was not marked active before. */
  lemma {:induction false} NewlyActiveExactly(caps: seq<Caption>, before: set<int>, t: real)
    ensures forall x :: x in NewlyActive(caps, before, t) <==> x in ActiveAt(caps, t) && x !in before
  {
    if caps != [] {
      var init, c := caps[..|caps| - 1], caps[|caps| - 1];
      NewlyActiveExactly(init, before, t);
      assert ActiveAt(caps, t) == ActiveAt(init, t) + (if Active(c, t) then {c.id} else {}) by {
        forall x ensures x in ActiveAt(caps, t) <==> x in ActiveAt(init, t) || (Active(c, t) && x == c.id) {
          if x in ActiveAt(caps, t) {
            var i :| 0 <= i < |caps| && Active(caps[i], t) && caps[i].id == x;
            if i < |init| { assert init[i] == caps[i]; }
          }
          if x in ActiveAt(init, t) {
            var i :| 0 <= i < |init| && Active(init[i], t) && init[i].id == x;
            assert caps[i] == init[i];
          }
        }
      }
    }
  }

  /** An update scrolls to nothing when every caption active at `t` is
      already marked. */
  lemma {:induction false} NothingNew(caps: seq<Caption>, before: set<int>, t: real)
    requires forall i :: 0 <= i < |caps| && Active(caps[i], t) ==> caps[i].id in before
    ensures NewlyActive(caps, before, t) == []
  {
    if caps != [] {
      NothingNew(caps[..|caps| - 1], before, t);
    }
  }

  /** A second update at the time the marks were last reconciled to scrolls
      to nothing. */
  lemma NoRescroll(caps: seq<Caption>, t: real)
    ensures NewlyActive(caps, ActiveAt(caps, t), t) == []
  {
    NothingNew(caps, ActiveAt(caps, t), t);
  }

  /** From a page with nothing marked, the edge-triggered update scrolls to
      the same captions, in the same order, as the one that scrolls to every
      active caption. */
  lemma {:induction false} FirstUpdateScrollsAllActive(caps: seq<Caption>, t: real)
    ensures NewlyActive(caps, {}, t) == ActiveInOrder(caps, t)
  {
    if caps != [] {
      FirstUpdateScrollsAllActive(caps[..|caps| - 1], t);
    }
  }

  /** On a numbered list the every-update scrolls go to exactly the active
      ids, each once, in increasing order (the order of the captions). */
  lemma {:induction false} ActiveInOrderSorted(caps: seq<Caption>, t: real)
    requires Numbered(caps)
    ensures forall x :: x in ActiveInOrder(caps, t) <==> x in ActiveAt(caps, t)
    ensures forall x :: x in ActiveInOrder(caps, t) ==> 0 <= x < |caps|
    ensures forall i, j :: 0 <= i < j < |ActiveInOrder(caps, t)| ==>
              ActiveInOrder(caps, t)[i] < ActiveInOrder(caps, t)[j]
  {
    FirstUpdateScrollsAllActive(caps, t);
    NewlyActiveExactly(caps, {}, t);
    if caps != [] {
      var init, c := caps[..|caps| - 1], caps[|caps| - 1];
      assert Numbered(init);
      ActiveInOrderSorted(init, t);
      var s := ActiveInOrder(init, t);
      assert c.id == |init|;
      forall i | 0 <= i < |s| ensures s[i] < |init| {
        assert s[i] in s;
      }
      forall x | x in ActiveInOrder(caps, t) ensures 0 <= x < |caps| {
        var i :| 0 <= i < |caps| && Active(caps[i], t) && caps[i].id == x;
      }
    }
  }

  /** On a numbered list the edge-triggered update scrolls, whatever was
      marked before, to caption positions only, each at most once and in
      increasing (caption) order. */
  lemma {:induction false} NewlyActiveSorted(caps: seq<Caption>, before: set<int>, t: real)
    requires Numbered(caps)
    ensures forall x :: x in NewlyActive(caps, before, t) ==> 0 <= x < |caps|
    ensures forall i, j :: 0 <= i < j < |NewlyActive(caps, before, t)| ==>
              NewlyActive(caps, before, t)[i] < NewlyActive(caps, before, t)[j]
  {
    if caps != [] {
      var init, c := caps[..|caps| - 1], caps[|caps| - 1];
      assert Numbered(init);
      NewlyActiveSorted(init, before, t);
      var s := NewlyActive(init, before, t);
      assert c.id == |init|;
      forall i | 0 <= i < |s| ensures s[i] < |init| {
        assert s[i] in s;
      }
      forall x | x in NewlyActive(caps, before, t) ensures 0 <= x < |caps| {
        if x in s {
          assert x < |init|;
        }
      }
    }
  }

  /** Two captions meeting at 2.0 s: both are active at the shared
      boundary, only the first at 1.5 s, and neither after the second ends. */
  lemma TouchingCaptions()
    ensures var caps := [Caption(0, 0.0, 2.0, "Hello"), Caption(1, 2.0, 4.0, "World")];
      ActiveAt(caps, 2.0) == {0, 1} && ActiveAt(caps, 1.5) == {0} && ActiveAt(caps, 4.1) == {}
  {
    var caps := [Caption(0, 0.0, 2.0, "Hello"), Caption(1, 2.0, 4.0, "World")];
    assert Active(caps[0], 2.0) && Active(caps[1], 2.0);
    assert Active(caps[0], 1.5) && !Active(caps[1], 1.5);
    assert !Active(caps[0], 4.1) && !Active(caps[1], 4.1);
  }

  // ---------------------------------------------------------------------
  // Element ids of the rendered list
  // ---------------------------------------------------------------------

  /** `'c' + c.id`: the id of the element rendered for a caption. */
  function ElementId(id: int): string {
    "c" + IntToString(id)
  }

  /** Distinct caption ids give distinct element ids, so the element
      `getElementById('c' + c.id)` finds is the one rendered for `c`. */
  lemma ElementIdInjective(a: int, b: int)
    ensures ElementId(a) == ElementId(b) <==> a == b
  {
    if ElementId(a) == ElementId(b) {
      assert ElementId(a)[1..] == IntToString(a);
      assert ElementId(b)[1..] == IntToString(b);
      IntToStringInjective(a, b);
    }
  }

  /** On a numbered list every caption gets an element id of its own. */
  lemma ElementIdsDistinct(caps: seq<Caption>)
    requires Numbered(caps)
    ensures forall i, j :: 0 <= i < j < |caps| ==> ElementId(caps[i].id) != ElementId(caps[j].id)
  {
    forall i, j | 0 <= i < j < |caps| ensures ElementId(caps[i].id) != ElementId(caps[j].id) {
      ElementIdInjective(i, j);
    }
  }
}
