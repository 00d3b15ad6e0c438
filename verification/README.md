# YouTube chapters content script — a Dafny model

This project models the page-controller logic of a browser extension. The
extension adds generated chapter markers to YouTube video pages. The logic
lives in `content.js`, in the `YouTubeChaptersGenerator` class, and has four
parts:

- **the job poll loop** (`pollForCompletion`). It asks for a job's status up
  to 60 times. Between attempts it sleeps 5 s, but never after the last
  attempt. It returns the first 'completed' response, throws the last
  attempt's error, or throws a timeout error. Status replies are given as a
  sequence with one entry per attempt, and sleeps are counted instead of
  waited.
- **time formatting** (`formatTime` and the millisecond-to-second
  conversion in `injectChapters`). A string that holds a ':' is shown
  unchanged. A value that is neither a string nor a number, or one that
  parses to NaN, is shown as `0:00`. Whole seconds are shown as `M:SS`
  below one hour and as `H:MM:SS` from one hour on.
- **video-session tracking** (`checkCurrentVideo`). The stored video id
  changes, and the chapters panel is cleared, exactly when the URL's id is
  non-empty and different from the stored one.
- **chapter rendering and the generate flow**. `injectChapters` turns each
  chapter record into a seek offset, a display string and a title.
  `handleGenerateChapters` runs a fixed sequence of checks: stored video id,
  download reply, `job_id`, poll outcome, chapters present. Every error
  becomes an on-page message.

Modules:

- `Values`: optional values and JavaScript truthiness.
- `Text`: decimal rendering, `padStart`, and a digit reader.
- `TimeFormat`: `formatTime`, plus a clock reader that is its inverse.
- `Chapters`: per-record rendering and the `forEach` loop.
- `JobPoll`: the poll loop. It exists both as a recursive reference
  definition and as a method that mirrors the source loop.
- `VideoSession`: `checkCurrentVideo`.
- `Generate`: `handleGenerateChapters`.

The code does not treat a 'failed' status as terminal. The
`throw new Error('Job failed: …')` at content.js:142 runs inside the attempt's
`try`, and the `catch` at content.js:154-159 rethrows only when
`attempt === maxAttempts`. Otherwise it sleeps and starts the next attempt. A
'failed' status therefore ends polling only on attempt 60, exactly like a
transport error. The model follows the code (`JobPoll.EarlyErrorIsSwallowed`,
`Generate.EarlyFailureThenSuccessInjects`).

## Model

| member | source | states |
|---|---|---|
| Text.NatToString | content.js:302-304 | A number's string form has at least one digit and no leading zero, and it is one digit long exactly when the number is below 10 |
| Text.NatToStringRoundTrip | content.js:302-304 | Reading a rendered number back as decimal digits gives the number |
| Text.PadStart2 | content.js:302-304 | `padStart(2, '0')` yields at least two characters. A string of two or more is unchanged; a shorter one ends with the original and is filled with '0' on the left up to length 2 |
| Text.Pad2ReadsBack | content.js:302-304 | Below 100, `toString().padStart(2, '0')` gives exactly two digits that read back as the number |
| TimeFormat.FormatTime | content.js:273-305 | Every display holds a ':'. A string holding a ':' comes back unchanged. A value that is neither string nor number, or a string that parses to NaN, gives "0:00" |
| TimeFormat.FormatSeconds | content.js:297-304 | Every clock display of whole seconds holds a ':' and has at least four characters (`M:SS`). Its exact shape is pinned down by the round-trip lemmas below |
| TimeFormat.ParseSeconds | content.js:283 | `parseFloat` gives NaN for a blank string, and a number for a string that starts with a digit |
| TimeFormat.DigitRunStopsAfter | content.js:283 | `parseFloat` reads digits up to the first non-digit |
| TimeFormat.ParseSecondsReadsDecimal | content.js:283 | A whole number's decimal form reads back as that number when the text after it is empty or starts with something other than a digit, '.', 'e' or 'E' |
| TimeFormat.ParseSecondsPlusSign | content.js:283 | A leading '+' is skipped: "+" followed by a whole number's decimal form reads as that number |
| TimeFormat.ParseSecondsBareFraction | content.js:283 | A bare fraction such as ".5" reads as 0 whole seconds |
| TimeFormat.ParseSecondsSkipsSpace | content.js:283 | Leading JavaScript white space does not change what `parseFloat` reads |
| TimeFormat.ParseSecondsNaN | content.js:283-295 | A string starting with anything but white space, '+', '-', '.', a digit or 'I' parses to NaN |
| TimeFormat.IdeographicSpaceExample | content.js:283-304 | An ideographic space (U+3000) before "90" is skipped, so the string is shown as "1:30" |
| TimeFormat.NinetySecondsExample | content.js:297-304 | 90 s is shown as "1:30" |
| TimeFormat.ClockFieldsSum | content.js:297-299 | The computed minutes are below 60, and hours·3600 + minutes·60 + seconds equals the input |
| TimeFormat.ParseShortClock | content.js:304 | `M:SS` whose lead field has no leading zero and is below 60, and whose second field is two digits below 60, reads back as M·60 + SS |
| TimeFormat.ParseLongClock | content.js:301-302 | `H:MM:SS` with H ≥ 1 and no leading zero, and two-digit fields below 60, reads back as H·3600 + MM·60 + SS |
| TimeFormat.ShortFieldsReadBack | content.js:304 | The `M:SS` text built from minutes < 60 and seconds < 60 reads back as minutes·60 + seconds |
| TimeFormat.LongFieldsReadBack | content.js:301-302 | The `H:MM:SS` text built from hours ≥ 1, minutes < 60 and seconds < 60 reads back as hours·3600 + minutes·60 + seconds |
| TimeFormat.ShortDisplayRoundTrip | content.js:297-304 | Below one hour, the display of s seconds reads back as s |
| TimeFormat.LongDisplayRoundTrip | content.js:297-302 | From one hour on, the display of s seconds reads back as s |
| TimeFormat.FormatTimeRoundTrip | content.js:297-304 | The display of s whole seconds reads back as s |
| TimeFormat.FormatTimeInjective | content.js:297-304 | Different whole seconds never give the same display |
| TimeFormat.FormatTimeColonCount | content.js:301-304 | The display holds one ':' when s < 3600 and two otherwise |
| TimeFormat.FallbackIsZero | content.js:286-295 | The fallback "0:00" is the display of zero seconds |
| TimeFormat.FormatTimeIdempotent | content.js:277-281 | Passing a display back to `formatTime` as a string returns it unchanged |
| TimeFormat.NumericStringAsNumber | content.js:282-285 | A numeric string without ':' is shown like the number it parses to |
| TimeFormat.TwoMinutesExample | content.js:297-304 | 125 s is shown as "2:05" |
| TimeFormat.OverAnHourExample | content.js:297-302 | 3725 s is shown as "1:02:05" |
| TimeFormat.StringExamples | content.js:276-295 | "12:34" is shown unchanged, and "abc" gives "0:00" |
| Chapters.StartMillis | content.js:239 | `chapter.start_time \|\| 0`: the start time when present, otherwise 0 |
| Chapters.RenderChapter | content.js:238-249 | seek·1000 ≤ (start_time \|\| 0) < seek·1000 + 1000. The title is the headline when it is non-empty, otherwise "Untitled Chapter", so it is never empty |
| Chapters.RenderedDisplayReadsBack | content.js:239-247 | The time shown for a chapter reads back as its seek offset |
| Chapters.RenderAll | content.js:229-258 | One item per chapter record, in input order, and item i is the rendering of record i |
| Chapters.InjectChapters | content.js:229-258 | The `forEach` loop builds exactly the per-record rendering of the whole batch |
| Chapters.RenderAllAppend | content.js:229-258 | Each record is rendered on its own: rendering a + b gives the rendering of a followed by the rendering of b |
| Chapters.MissingStartRendersZero | content.js:239-243 | A record without start_time seeks to 0 and shows "0:00" |
| Chapters.RenderChapterExample | content.js:239-249 | start_time 125000 gives seek 125 and "2:05". start_time 999 with an empty headline gives seek 0, "0:00" and "Untitled Chapter" |
| JobPoll.FailureMessage | content.js:142 | The error a 'failed' status raises is "Job failed: " followed by the job's message, or by "Unknown error" when the message is missing or empty |
| JobPoll.Classify | content.js:134-153 | An attempt returns the response exactly when its status is 'completed' |
| JobPoll.ClassifyFollowsStatus | content.js:134-159 | 'completed' returns the response. A failed check raises its own error, and a 'failed' status raises "Job failed: " + (message \|\| 'Unknown error'). An attempt waits exactly when the status is anything else ('pending', 'processing' or unknown) |
| JobPoll.PollFrom | content.js:131-163 | From any attempt, the loop ends within 60 checks. It sleeps once per attempt that is neither its last nor attempt 60. A returned response came from a 'completed' check |
| JobPoll.Poll | content.js:125-164 | The loop makes 1 to 60 checks and exactly one sleep fewer than checks |
| JobPoll.PollForCompletion | content.js:125-164 | The attempt-by-attempt loop gives the same outcome, check count and sleep count as the reference definition, and never sleeps after its last check |
| JobPoll.SleepBound | content.js:128-159 | Total sleep is at most 59 × 5000 ms |
| JobPoll.PollReaches | content.js:131-159 | With no 'completed' reply before attempt k, the loop reaches attempt k after k − 1 sleeps |
| JobPoll.FirstCompletedIsReturned | content.js:131-140 | If check k is the first 'completed' one, its response is returned after exactly k checks and k − 1 sleeps |
| JobPoll.NoCompletionOutcome | content.js:141-163 | With no 'completed' reply in 60 checks, there are 60 checks and 59 sleeps. The last check's error (transport message, or "Job failed: " + (message \|\| 'Unknown error')) is thrown unchanged. A waiting last status gives the timeout error |
| JobPoll.AllWaitingTimesOut | content.js:143-163 | If every status is 'pending', 'processing' or unknown, the loop times out after 60 checks and 59 sleeps |
| JobPoll.ResolvedIffCompleted | content.js:131-163 | The loop resolves if and only if one of the first 60 checks reports 'completed' |
| JobPoll.PollFromUsesOnlyChecksMade | content.js:131-140 | Oracles that agree on the checks actually made give the same result, from any attempt |
| JobPoll.ChecksBeyondTheEndUnused | content.js:131-163 | No check follows the one the loop ends on |
| JobPoll.EarlyErrorIsSwallowed | content.js:141-159 | A transport error or a 'failed' status on an attempt below 60 acts exactly like a waiting reply ('pending', 'processing' or unknown) in its place |
| JobPoll.EarlyNonCompletionInterchangeable | content.js:141-159 | Oracles that differ only at one attempt below 60, where neither reports 'completed', give the same result |
| VideoSession.CheckCurrentVideo | content.js:26-38 | The panel is cleared if and only if the URL id is non-empty and differs from the stored one, and then the stored id becomes that id. If the panel is not cleared, nothing changes |
| VideoSession.CheckPreservesValid | content.js:31-35 | The stored id is never the empty string |
| VideoSession.CheckCurrentVideoIdempotent | content.js:31-37 | Checking the same id a second time changes nothing and clears nothing |
| VideoSession.NavigationRemovesPanel | content.js:31-51 | A panel shown for one video is gone once a different video is detected |
| VideoSession.FirstCheckStoresId | content.js:5-38 | The first check after start-up stores any non-empty id and clears exactly then |
| VideoSession.Track | content.js:15-38 | A series of checks keeps the stored id valid. With no clear it changes nothing, and after any clear no panel is present |
| VideoSession.TrackFollowsHistory | content.js:15-38 | After a series of checks the stored id is the last non-empty id seen (or the initial one). The panel was cleared once for each position whose id is non-empty and differs from the id stored just before it |
| VideoSession.HistoryAfterFirst | content.js:15-38 | The stored id and the count of new ids after a series split at the first observation |
| VideoSession.RepeatedIdClearsOnce | content.js:15-38 | Observing the same id n ≥ 1 times in a row clears exactly once if it is new and non-empty, never otherwise, and ends as one check would |
| Generate.ErrorNotice | content.js:95 | The `catch` notice quotes the error's text whole, between "Error: " and ". Check console for details." |
| Generate.ErrorNoticeInjective | content.js:95 | Different errors show different notices |
| Generate.HandleGenerateChapters | content.js:55-97 | One to three messages are shown. A download is requested exactly when a video id is stored. At most 60 status checks are made. Chapters are injected exactly when the last message is the success message |
| Generate.NoVideoShowsOnlyMessage | content.js:60-64 | With no video id stored, or an empty one, only the missing-video message is shown: no download, no polling, no chapters |
| Generate.InjectedIffSuccess | content.js:73-90 | Chapters are injected if and only if the flow succeeds: video id, job_id, a resolved poll, and chapters present. What is injected is the rendering of those chapters |
| Generate.ResolvedIsCompleted | content.js:138-140 | A resolved poll always carries status 'completed' |
| Generate.EveryRunEndsWithNotice | content.js:60-96 | Every run ends with the success message, the missing-video message, or an error notice, so no error escapes. A rejected poll shows its own error text |
| Generate.StoredIdNeverShowsNoVideo | content.js:60-96 | With a stored video id the first message is "Starting audio download..." and the missing-video message never appears |
| Generate.BranchNotices | content.js:66-96 | With a stored video id: a failed download shows its error text with no polling; a missing or empty `job_id` shows "No job_id received from download API" with no status check; otherwise the poll's checks are the run's checks after the download and processing messages; a resolved poll without chapters shows "Job completed but no chapters data received" |
| Generate.EarlyFailureThenSuccessInjects | content.js:141-159 | A 'failed' status on attempt 1 followed by a later 'completed' with chapters still injects those chapters |

## Left out

- DOM work is not modelled: the MutationObserver, `querySelector`/`createElement`/`innerHTML`, the close button, `seekToTime`, and the 3-second removal of notifications. The only DOM state kept is the abstract "panel present" flag of `VideoSession`.
- `injectChapters` returns early when there is no `#movie_player`, and inserts the panel only when `#secondary-inner` exists. Both are DOM lookups and are not modelled. `Generate` reports the rendered items, not the panel's presence.
- The model does not send `chrome.runtime` messages. `startAudioDownload` and `checkJobStatus` appear only as their replies: `Generate.DownloadReply` and a sequence of `JobPoll.CheckResult`. The `generateChapters` message listener (content.js:321-337) is also left out. It only relays the outcome of `handleGenerateChapters`, which never rejects.
- The status oracle must hold at least 60 entries. This is how the model gives one answer per attempt; it does not restrict the source.
- Sleeping is counted in `PollResult.sleeps` rather than waited. Real time is not modelled.
- A `null` or `undefined` status reply is not modelled. Reading `response.status` on it throws a TypeError, which the loop catches. A reply of another primitive type reads `status` as `undefined`, so it is an unknown status and waits; `StatusResponse` with any status other than the three named ones covers that case. `TransportError` stands in for every error an attempt can raise.
- TimeFormat.ParseSeconds: this is `parseFloat` restricted to leading white space, an optional '+', and decimal digits with an optional fraction. A leading '-', an exponent ("1e3"), and "Infinity" are not modelled: the model reads "-5" and "Infinity" as NaN and "1e3" as 1. The model drops a fraction exactly. `parseFloat` first rounds the decimal to the nearest double, so a fraction very close to the next whole number reads one higher in the source: "59.99999999999999999" is 60 there and shows "1:00", while the model shows "0:59". Digit strings are read exactly, with no limit on their length. A JavaScript number holds integers exactly only up to 2^53, so for a digit string beyond that the source's display can differ from the model's.
- TimeFormat.Timestamp: `Num` holds whole, non-negative seconds of any size. Fractional, negative, NaN and infinite numbers are not modelled. Above 2^53 a JavaScript number loses integer precision, and from 10^21 on `Number.prototype.toString` switches to exponent notation. The model's `FormatTime`, and so `FormatTimeInjective`, hold for exact naturals only.
- Chapters.RenderChapter: the model assumes the server sends `start_time` as a non-negative number of milliseconds (or leaves it out). content.js:239-240 floors whatever it receives, so a negative `start_time` would give a negative seek and a non-numeric string would give NaN. Neither is modelled.
- Chapters.ChapterRecord: `start_time` is a non-negative number of milliseconds or absent, and `headline` is a string or absent. Strings coerced by the division, and non-string headlines, are not modelled. A `null` entry in the chapter list makes content.js:231 throw. A truthy `data.chapters` that is not an array makes `forEach` at content.js:229 throw. Neither is modelled. In the source, either error is caught at content.js:92-96: the run then shows an error notice instead of the success message, after `injectChapters` has already removed the old panel (content.js:197-200). `end_time` and `summary` are only logged in the source, so they are left out too.
- `background.js` and `popup.js` are not part of this model. They consist of `fetch` wrappers, URL building and popup UI state.
- Generate.DownloadReply: a download reply whose data is `undefined` or `null` is not modelled. In the source it throws a TypeError at content.js:73, and the `catch` at content.js:92-96 shows it as an error notice.
- Concurrency is not modelled. `handleGenerateChapters` suspends at every `await` (content.js:70, 81 and the sleeps and checks of the poll loop). Meanwhile the MutationObserver (content.js:16-18) keeps running `checkCurrentVideo`. So in the source, a run started for one video can inject that video's chapters after navigation to another video has cleared the panel and stored the new id, and two runs can overlap. `Generate` reads the stored video id once and is not linked to `VideoSession`. `VideoSession.NavigationRemovesPanel` therefore describes the state between runs only.
- Logging is not modelled: the `console.log`, `console.error` and `console.warn` calls (for example content.js:132, 144 and 155, and the unknown-status warning at content.js:149) have no effect on the page or on the control flow.
