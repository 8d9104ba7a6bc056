# Caption timeline and player page of yt_termux_app

yt_termux_app downloads a video with its captions and writes a static HTML
page that plays the video next to a clickable caption list, highlighting
the caption being spoken. Two near-duplicate scripts do this:
`process.py` and the older `scripts/process.py`. This Dafny project models
the part of both that has logic of its own:

- picking the video and the subtitle files out of the data directory's
  listing (`Timeline.Matching`, `FirstWith`, `LastWith`,
  `Process.SelectMedia`);
- building the `{id, start, end, text}` caption list from a WebVTT parse
  or a Whisper transcription, with each script's text normalisation and
  failure policy (`Timeline.Enumerate`, the `BuildFrom…` methods, `Run`);
- the timestamp formatter `fmt` of `process.py` (`Process.Fmt`);
- the page's script: rendering one element per caption, seeking on click,
  and the `ontimeupdate` handler that marks the active captions and
  scrolls to them. `process.py` scrolls only when a caption becomes
  active. `scripts/process.py` scrolls to every active caption on every
  update. Each page is a class (`Process.Page`, `ScriptProcess.Page`)
  holding the playback position, the set of highlighted captions and a
  log of scrolls.

Files: `text.dfy` (module `Text`: Python's `endswith`, `replace`, `strip`
and JavaScript's integer-to-text), `timeline.dfy` (module `Timeline`:
shared records, listing selection, numbering, the activation rule),
`process.dfy` (module `Process`) and `script_process.dfy` (module
`ScriptProcess`).

Playback times are `real`. The scripts compare them, add 0.01, divide by
60, take JavaScript's truncating `% 60` and take `Math.floor`. Exact reals
keep what matters: `%` on doubles is exact, and `Math.floor(n/60)` on a
double equals the floor of the exact quotient. `toFixed(1)` in
`scripts/process.py` is floating-point formatting, represented by the
function parameter `fixed1`. The external parser
and transcriber are represented by what iterating over their output yields
(`Feed`): the entries produced, in order, and whether an exception follows
them. A Python exception that nothing catches ends the process with status
1, and `Outcome.Exit(1)` stands for it.

Caption text, failures and clicks behave as follows in the code:

- WebVTT text only has its line feeds replaced and is not trimmed.
  `process.py` strips Whisper text but keeps inner line feeds.
  `scripts/process.py` copies Whisper text verbatim.
- `process.py` keeps the segments appended before a Whisper exception.
  `scripts/process.py` catches nothing, so any failure ends the run.
- In `process.py` a click seeks to `start + 0.01`, so a caption shorter
  than 0.01 s (for example one with `start == end`) is not highlighted by
  a click followed by a time update (`Process.ClickThenUpdate`).

## Model

| member | source | states |
|---|---|---|
| `Text.ReplaceNewlines` | process.py:84 | Same length. Every `\n` becomes a space and every other character is unchanged, so the result has no line feed. |
| `Text.ReplaceNewlinesFixed` | scripts/process.py:39 | Replacing is idempotent. A text is left unchanged exactly when it has no line feed. |
| `Text.Strip` | process.py:102 | The result is a contiguous part of the input. Only Python whitespace is cut before and after it. It neither starts nor ends with whitespace. |
| `Text.StripExact` | process.py:102 | Stripping whitespace from both sides of a middle whose ends are not whitespace gives exactly that middle. Line feeds inside it are kept. |
| `Text.StripTwice` | process.py:102 | Stripping is idempotent. |
| `Text.ParseNatToString` | process.py:140 | Reading the decimal text of a number back gives the number. |
| `Text.IntToStringInjective` | process.py:146 | Different integers have different decimal texts. |
| `Timeline.Matching` | scripts/process.py:28 | The filtered list holds exactly the listed names with the suffix, and is no longer than the listing. |
| `Timeline.MatchingAppend` | process.py:62-66 | Filtering is done piece by piece in listing order: filtering `a + b` gives filter(a) followed by filter(b). |
| `Timeline.FirstIndexWith` | scripts/process.py:27 | Gives the position of the first name with the suffix: it has the suffix and no earlier name does. Gives `|names|` when no name has it. |
| `Timeline.LastIndexWith` | process.py:62-64 | Gives the position of the last name with the suffix: it has the suffix and no later name does. Gives -1 when no name has it. |
| `Timeline.FirstMatchIsFirstWith` | scripts/process.py:27-33 | `vtts` is empty exactly when `next(...)` finds nothing. `vtts[0]` is the first name with the suffix. |
| `Timeline.FirstAndLastWithAgree` | process.py:62-64 | With at most one name ending ".mp4", the last-match loop and the first-match `next(...)` choose the same video. |
| `Timeline.Enumerate` | process.py:79-85 | The `enumerate` and append loop gives one caption per cue, in cue order. Caption `i` has id `i`, the cue's start and end unchanged, and the normalised text. |
| `Timeline.NewlyActiveExactly` | process.py:161-168 | An id is scrolled to by the edge-triggered update exactly when its caption is active now and was not marked before. |
| `Timeline.NothingNew` | process.py:162-165 | When every active caption is already marked, the update scrolls to nothing. |
| `Timeline.NoRescroll` | process.py:161-165 | A second update at the same time issues no scroll. |
| `Timeline.FirstUpdateScrollsAllActive` | scripts/process.py:89-91 | Starting with nothing marked, the edge-triggered and every-update handlers scroll to the same captions in the same order. |
| `Timeline.ActiveInOrderSorted` | scripts/process.py:87-91 | On a numbered list, every-update scrolls go to exactly the active ids, each once, in increasing (caption) order. |
| `Timeline.NewlyActiveSorted` | process.py:161-168 | On a numbered list, whatever was marked before, the edge-triggered update scrolls only to caption positions, each at most once, in increasing caption order. |
| `Timeline.TouchingCaptions` | process.py:161 | The interval is closed. At 2.0 both captions `[0,2]` and `[2,4]` are active, at 1.5 only the first, at 4.1 neither. |
| `Timeline.ElementIdInjective` | process.py:146-159 | `'c' + id` is equal for two ids exactly when the ids are equal, so `getElementById` finds the caption's own element. |
| `Process.FloorRem60Exact` | process.py:140 | `Math.floor(n % 60)`, with JavaScript's truncating remainder, equals `floor(n)` minus 60 times the truncated `n/60`, for every time, negative ones included. |
| `Process.SecondsField` | process.py:140 | `('0' + s).slice(-2)` for `s < 60` is exactly the two digits of `s`. |
| `Process.FmtFields` | process.py:139-141 | For `n >= 0`, `fmt(n)` is `floor(n/60)` in decimal, then ":", then `floor(n) mod 60` as exactly two digits, zero-padded. |
| `Process.ClockReadsBack` | process.py:139-141 | A text made of the decimal minutes, ":", and two seconds digits splits at its third-to-last character. The two parts read back as the minutes and the seconds. |
| `Process.FmtReadsBack` | process.py:139-141 | For `n >= 0`, `fmt(n)` is digits, ":", and two digits. The seconds are below 60, and minutes*60 + seconds is `floor(n)`. |
| `Process.SelectMedia` | process.py:60-66 | The listing loop leaves `video_file` holding the last ".mp4" name (None if there is none). `vtt_files` holds the ".vtt" names in listing order. |
| `Process.BuildFromVtt` | process.py:74-88 | A failed parse leaves an empty list, even when entries were appended before the failure. Otherwise the cues are numbered in order, times are copied and `\n` becomes a space. |
| `Process.BuildFromWhisper` | process.py:95-105 | Segments are numbered in order, times are copied and text is stripped. An exception keeps the entries appended before it. |
| `Process.Run` | process.py:59-107 | With no ".mp4" name, the run exits with status 1. Otherwise the video is the last ".mp4". The captions come from parsing the first ".vtt" if there is one, else from Whisper on the video if available, else they are empty. |
| `Process.Render` | process.py:143-154 | One item per caption, in caption order. Each has element id `'c'+id`, label `'['+fmt(start)+']'` for the given formatter, the text, and seeks to `start + 0.01`. Element ids are distinct on a numbered list. |
| `Process.Page.constructor` | process.py:143-154 | Loading renders the list with `Fmt` as the formatter, so each label is `'['+Fmt(start)+']'`. Playback is at 0, nothing is highlighted and nothing is scrolled. |
| `Process.Page.Click` | process.py:152 | A click sets the playback position to `start + 0.01` and changes nothing else. |
| `Process.Page.OnTimeUpdate` | process.py:156-170 | After the update the highlighted set is exactly the captions with `start <= t <= end`. One scroll is logged, in caption order, for each caption that was not highlighted before. |
| `Process.UpdateTwice` | process.py:156-170 | Two updates at the caller's playback position, which they leave unchanged, give the highlights of that position and scroll only what the first one scrolls. |
| `Process.ClickThenUpdate` | process.py:152-170 | After a click and an update, playback is at `start + 0.01` and the clicked caption is highlighted exactly when `start + 0.01 <= end`. |
| `ScriptProcess.BuildFromVtt` | scripts/process.py:32-40 | A failed parse ends the run. Otherwise the cues are numbered in order, times are copied and `\n` becomes a space. |
| `ScriptProcess.BuildFromWhisper` | scripts/process.py:41-50 | A failed transcription ends the run. Otherwise the segments are numbered in order, with times and text copied verbatim. |
| `ScriptProcess.Run` | scripts/process.py:27-50 | Exit status 1 when the whisper import fails, there is no ".mp4" name, or parsing or transcription fails. The video is the first ".mp4". The VTT branch is taken exactly when a ".vtt" name exists, and then the first one is parsed. |
| `ScriptProcess.Render` | scripts/process.py:77-84 | One item per caption, in caption order. Each has element id `'c'+id`, text `'['+toFixed(1)+'] '+text`, and seeks to exactly `start`. Element ids are distinct on a numbered list. |
| `ScriptProcess.Page.constructor` | scripts/process.py:77-84 | Loading renders the list. Playback is at 0, nothing is highlighted and nothing is scrolled. |
| `ScriptProcess.Page.Click` | scripts/process.py:82 | A click sets the playback position to exactly `start` and changes nothing else. |
| `ScriptProcess.Page.OnTimeUpdate` | scripts/process.py:86-96 | Afterwards the highlighted set is exactly the captions with `start <= t <= end`. One scroll is logged for every active caption, in caption order, whether or not it was highlighted before. |
| `ScriptProcess.UpdateTwice` | scripts/process.py:86-96 | Two updates at the caller's playback position, which they leave unchanged, give the highlights of that position and log every active caption's scroll twice, in the same order. |
| `ScriptProcess.ClickThenUpdate` | scripts/process.py:82-96 | After a click and an update, playback is at exactly `start` and the clicked caption is highlighted exactly when `start <= end`. |

## Left out

- The download through `yt_dlp` (process.py:53-57, scripts/process.py:24-25). It is network I/O through an external library.
- Creating and clearing the data directory, and `os.listdir` itself (process.py:31-38, scripts/process.py:8-12). The listing is an input sequence. `scripts/process.py` lists the directory twice (lines 27 and 28). The model assumes both calls see the same listing.
- `webvtt.read`, `whisper.load_model` and `transcribe` are foreign libraries. Their output is the `Feed` argument, and `res.get("segments", [])` is folded into it. A failing `load_model` call in `process.py` (line 93, outside the `try`) is not modelled.
- The optional `import whisper` of `process.py` (lines 13-17) is the boolean `whisperAvailable`. For `scripts/process.py`, the unconditional import on line 1 is the boolean `whisperInstalled`.
- Reading the URL from the command line (process.py:23-26, scripts/process.py:3). The error exit for a missing argument is not modelled.
- `json.dumps`, the HTML and CSS text, and the DOM beyond the "active" class and the scroll log. This includes smooth scrolling and the `if (!el) return;` guard, which never fires for rendered ids.
- `toFixed(1)` (scripts/process.py:81) is floating-point formatting. It is the function parameter `fixed1`, and its digits are not modelled.
- Writing the page and opening it with `termux-open` or `webbrowser.open` (process.py:177-185, scripts/process.py:52-102). These are file, process and OS calls.
- Process.FmtFields: proved for `n >= 0` only. Negative times never come from either source. `Fmt` itself follows JavaScript for every real. JavaScript's exponent notation for integers of 10^21 and above is not modelled.
- Floating-point rounding of times, and NaN, are not modelled, because times are exact reals.
