# youtubedown in Dafny

A model of the command-line YouTube downloader `youtube-downloader.js`. The
script bootstraps the `yt-dlp` binary, fetches a video's metadata, and starts
either a video (mp4) or an audio (mp3) download. While the download runs, it
turns the downloader's events into a throttled progress line and a final
message. The model covers the logic of that flow:

- `Formatters`: the pure helpers.
  - `createProgressBar`: a 30-cell bar and its colour. An out-of-range
    percentage makes `String.prototype.repeat` throw a RangeError.
  - `formatBytes`: the binary unit and the value rounded to two decimals.
  - `formatTime`: `MM:SS`. The odd outputs for negative and infinite input
    are proved too: -30 s prints as "-1:-30" and Infinity as "Infinity:NaN"
    (`FormatTimeOddOutputs`).
- `Download`: the four listeners that `downloadVideo` and `downloadAudio`
  attach to the downloader's event emitter ('progress', 'ytDlpEvent',
  'error', 'close'). Both functions install identical listeners, so they
  are modelled once, parameterised by `Kind`. Each listener first reads a
  `Signal` from its event (`Read`): the outcome of the progress listener's
  drawing attempt, the file name a 'ytDlpEvent' announces, the error's
  message, or the close. `React` is the listener on that signal and
  `Step` the two together. `Replay` folds `React` over signals, and `Run`
  over the signals read from a sequence of events.
- `DownloadLaws`: what the listeners guarantee over a whole run, stated
  over the signals they read.
- `Driver`: everything else in the command-line flow.
  - `args[1] || 'mp4'` and the mp4/mp3 dispatch.
  - The author fallback of the metadata step.
  - Tolerating a timed-out metadata request.
  - The hint chosen for an error message.
  - `downloadYouTube`'s outcome and the process exit code.

Supporting modules model the runtime behaviour the script relies on:

- `Number`: JavaScript numbers as exact reals plus NaN and the infinities.
  It covers truthiness, `Math.round`, the truncating `%`, and `parseFloat`.
- `Text`: integer `toString`, `padStart`, `trim`, `replace` of the first
  occurrence, and `includes`.
- `PosixPath`: `path.basename`.

Wall-clock time (`Date.now()`) is not read by the model. Each progress event
carries its timestamp `now`, and a handler starts from its spawn time.

How the code behaves where a reader might expect otherwise:

- Listeners keep running after the promise settles. When a 'close' reaches
  the listeners after an 'error', both the failure and the success line are
  printed, yet the promise is rejected and the process exits with 1
  (`ErrorThenClose`, `ErrorThenCloseExitsWithFailure`). This needs the
  'close' to arrive in the same task as the 'error'. The chain from the
  rejection to `process.exit` (lines 405, 420-435, 460-468) runs as
  microtasks, so a 'close' in a later task is never handled.
- A 'progress' event that passes the 300 ms throttle (line 260) with a
  percentage that reaches 305/3 (about 101.67) or falls below -5/3 makes
  `createProgressBar` throw inside the listener. An event the throttle
  drops is never drawn, so it cannot throw. The model ends the run there
  (`crashed`). Nothing catches the exception, so the process exits with 1
  (`CrashExitsWithFailure`). From 0 to 100 this never happens
  (`NoCrashWithinRange`).
- `formatBytes` is defined but never called in this file. It is modelled
  anyway.
- Any metadata error whose message contains "Timeout" is tolerated, not
  only the script's own 30-second timer.
- The unsupported-format error is raised only after the metadata step
  (`UnsupportedFormatFailsAfterMetadata`).

## Model

| member | source | states |
|---|---|---|
| Formatters.BarColour | youtube-downloader.js:78-80 | green exactly above 75, yellow exactly in (50, 75], cyan otherwise and for NaN |
| Formatters.RepeatCount | youtube-downloader.js:75-76 | repeat's count: NaN counts as zero; infinite counts are refused; a finite count is accepted exactly above -1 and drops its fraction toward zero |
| Formatters.ColourIsMonotone | youtube-downloader.js:78-80 | the colour never steps back as the percentage grows |
| Formatters.CreateProgressBar | youtube-downloader.js:71-83 | the bar is drawn exactly when the percentage is NaN or in [-5/3, 305/3), otherwise repeat throws; cell i is filled exactly when the percentage reaches (2i+1)·5/3; NaN gives an empty bar; the colour is BarColour |
| Formatters.BarWithinRange | youtube-downloader.js:72-76 | for 0..100 the bar is round(p·0.3) filled cells followed by the rest empty, 30 in all |
| Formatters.BarFillsMonotonically | youtube-downloader.js:73-76 | a cell filled at some percentage stays filled at every larger one |
| Formatters.BarExtremes | youtube-downloader.js:73-76 | the bar is full exactly from 295/3 % and empty exactly below 5/3 % |
| Formatters.UnitIndex | youtube-downloader.js:92 | the unit index i brackets the count: 1024^i <= bytes < 1024^(i+1) |
| Formatters.UnitIndexIsLargest | youtube-downloader.js:92 | every j with 1024^j <= bytes is at most the unit index |
| Formatters.UnitName | youtube-downloader.js:91-93 | B, KB, MB, GB for indices 0..3, "undefined" past the table |
| Formatters.UnitDefinedBelowTebibyte | youtube-downloader.js:91-93 | the unit is defined exactly for counts below 1024^4 |
| Formatters.ScaledHundredths | youtube-downloader.js:93 | the hundredths are the integer nearest to 100·bytes/1024^i, halves up |
| Formatters.ScaledValueBounds | youtube-downloader.js:92-93 | the printed value lies between 1 and 1024 inclusive |
| Formatters.HundredthsText | youtube-downloader.js:93 | a whole number of hundredths prints without a decimal point |
| Formatters.HundredthsTextRoundTrip | youtube-downloader.js:93 | the printed value reads back through parseFloat as exactly h/100 |
| Formatters.FormatBytes | youtube-downloader.js:88-94 | absent and zero counts give "0 B" |
| Formatters.FormatBytesExamples | youtube-downloader.js:88-94 | None and 0 give "0 B", 1024 gives "1 KB", 1536 gives "1.5 KB" |
| Formatters.FormatBytesCarry | youtube-downloader.js:92-93 | 1048575 bytes prints as "1024 KB": rounding carries past the unit |
| Formatters.FormatTime | youtube-downloader.js:99-104 | absent, zero and NaN give "00:00"; every output is at least five characters |
| Formatters.FormatTimeOddOutputs | youtube-downloader.js:99-104 | -30 s prints as "-1:-30", Infinity as "Infinity:NaN", -Infinity as "-Infinity:NaN" |
| Formatters.NegativeDurationsShowMinus | youtube-downloader.js:101-103 | every negative duration prints with a leading minus |
| Formatters.ClockFields | youtube-downloader.js:101-102 | for non-negative input the fields are the quotient and remainder of the whole seconds by 60 |
| Formatters.FormatTimeOfPositive | youtube-downloader.js:99-104 | a positive duration prints as the clock of its whole seconds |
| Formatters.FormatTimeOfNat | youtube-downloader.js:101-103 | n seconds print as padded n/60, a colon, and padded n%60 |
| Formatters.FormatTimeTruncates | youtube-downloader.js:101-102 | fractional seconds are dropped, never rounded |
| Formatters.FormatTimeRoundTrip | youtube-downloader.js:99-104 | the text of a whole duration parses back (ParseClock) to the same number of seconds |
| Formatters.FormatTimeFields | youtube-downloader.js:101-103 | the seconds field is two digits below 60; the minutes field is longer than two characters exactly from 6000 s |
| Number.Round | youtube-downloader.js:73 | Math.round picks the integer r with r-1/2 <= x < r+1/2 |
| Number.Trunc | youtube-downloader.js:75-76 | truncation toward zero: the integer part with the fraction dropped on either side of zero |
| Number.RoundIsUnique | youtube-downloader.js:73 | that integer is the only one in the half-open window |
| Number.Rem60 | youtube-downloader.js:102 | `%` keeps the dividend's sign, stays below 60 in magnitude, and differs from the dividend by a whole multiple of 60 |
| Number.ParseUnsigned | youtube-downloader.js:262-264 | parseFloat yields NaN exactly when no numeric prefix starts the text |
| Number.ParseFloat | youtube-downloader.js:262-264 | leading whitespace is skipped and a minus sign negates the rest |
| Number.ParseFloatOfTenths | youtube-downloader.js:262-264 | an `NN.N` text reads back as exactly t/10 |
| Number.ParseFloatOfNat | youtube-downloader.js:262-264 | an integer's text reads back as itself |
| Text.NatToString | youtube-downloader.js:103 | only digits, no leading zero |
| Text.IntToString | youtube-downloader.js:103 | a negative integer prints as '-' and the digits of its magnitude |
| Text.DigitsValueOfNatToString | youtube-downloader.js:103 | the rendered digits denote the number |
| Text.PadStart | youtube-downloader.js:103 | padStart keeps the text as a suffix, fills to the width, never truncates |
| Text.Repeat | youtube-downloader.js:75-76 | k copies of the character |
| Text.TrimStripsPadding | youtube-downloader.js:263 | trim removes exactly the surrounding ECMAScript whitespace |
| Text.RemoveFirst | youtube-downloader.js:263 | replace('%', '') removes only the first '%' and keeps everything else in order |
| Text.RemoveFirstOfLast | youtube-downloader.js:263 | a trailing '%' is the one removed when it is the only one |
| Text.IndexOf | youtube-downloader.js:201 | finds the leftmost occurrence at or after `from`, or reports there is none |
| Text.IncludesMeansOccurs | youtube-downloader.js:425-431 | includes holds exactly when the substring occurs somewhere |
| Text.IncludesInContext | youtube-downloader.js:425-431 | a string contains any part it was built from |
| PosixPath.Basename | youtube-downloader.js:282 | the last segment: with trailing separators dropped, the result is a separator-free suffix that is either the whole path or follows a separator |
| PosixPath.StripTrailingSeparators | youtube-downloader.js:282 | drops exactly the trailing separators and keeps the rest as a prefix |
| PosixPath.BasenameOfPlainName | youtube-downloader.js:282 | a name without separators is its own basename |
| PosixPath.BasenameOfJoin | youtube-downloader.js:282 | the basename of dir/name is name |
| PosixPath.BasenameIdempotent | youtube-downloader.js:282 | taking the basename twice changes nothing |
| Download.Spawned | youtube-downloader.js:247-249 | a fresh handler: not started, throttle at the spawn time, no file name, promise pending |
| Download.Attempt | youtube-downloader.js:261-266 | nothing happens for a falsy percentage; it throws exactly when a present percentage cannot be drawn; a drawn frame carries the parsed percentage |
| Download.AttemptFollowsCreateProgressBar | youtube-downloader.js:261-266 | Attempt throws exactly where createProgressBar throws |
| Download.FrameBar | youtube-downloader.js:266 | the bar of a frame is the one createProgressBar draws for its percentage |
| Download.OnProgressPrints | youtube-downloader.js:252-276 | the printed output is the start notice on the first event, then the frame drawn at now when the event passes the throttle and draws |
| Download.OnProgress | youtube-downloader.js:252-276 | the start notice appears only on the first event; it throws exactly on an accepted, undrawable percentage; lastUpdate moves to now exactly on accepted events that do not throw; exactly one redraw, stamped now, on accepted drawable events |
| Download.FindMatch | youtube-downloader.js:280 | the leftmost position where the marker is followed by a character on its line |
| Download.LineRun | youtube-downloader.js:280 | the run up to the next line terminator |
| Download.CaptureIsRestOfLine | youtube-downloader.js:280-281 | there is no capture exactly when no match exists; the capture is non-empty, has no line terminator, and is the rest of the line after the leftmost match |
| Download.DestinationOf | youtube-downloader.js:279-283 | a name is announced exactly for 'download' events whose data matches; the name is the basename of the captured path and has no separator |
| Download.Settle | youtube-downloader.js:290 | only the first resolve or reject takes effect |
| Download.OnError | youtube-downloader.js:287-291 | prints the failure notice and rejects with the error unless already settled |
| Download.Shown | youtube-downloader.js:296-298 | the file name is shown exactly when it is non-empty |
| Download.OnClose | youtube-downloader.js:293-300 | prints the success line with the file name only when it is non-empty, and resolves unless already settled |
| Download.ReadKeepsMeaning | youtube-downloader.js:252-300 | what a listener reads from an event keeps the event's kind, the outcome of its drawing attempt, the file name it announces and how it settles the promise |
| Download.ThrowIsUndrawable | youtube-downloader.js:261-266 | a progress event whose drawing attempt throws has a present percentage the bar cannot draw |
| Download.React | youtube-downloader.js:252-300 | only progress signals throw, move the throttle or draw; the file name changes only on an announced destination; an error or close settles a pending promise; each close prints one success line |
| Download.Step | youtube-downloader.js:252-300 | the same per event: only progress events throw, move the throttle or draw; the file name changes only on a destination; an error or close settles a pending promise; each close prints one success line |
| Download.Replay | youtube-downloader.js:252-300 | all signals are handled unless a listener throws, and the last handled signal is then a progress signal |
| Download.Run | youtube-downloader.js:252-300 | all events are handled unless a listener throws, and the last handled event is then a progress event |
| DownloadLaws.StartNoticeOnce | youtube-downloader.js:253-257 | the start notice is printed once, exactly when a progress signal was handled on an unstarted handler |
| DownloadLaws.SpacedSnoc | youtube-downloader.js:260 | a redraw more than 300 ms after the last one keeps the redraws spaced |
| DownloadLaws.ThrottledStep | youtube-downloader.js:259-275 | one more signal keeps the redraws spaced, the throttle timestamp never moving back and never behind a redraw |
| DownloadLaws.RedrawsAreThrottled | youtube-downloader.js:259-275 | each redraw comes more than 300 ms after the previous one, the first after the last accepted update |
| DownloadLaws.SpacedPairwise | youtube-downloader.js:260 | redraws k places apart are more than 300·k ms apart |
| DownloadLaws.RedrawsOfFreshDownload | youtube-downloader.js:247-275 | every redraw of a fresh download, even the only one, comes more than 300 ms after its spawn; redraws k places apart are more than 300·k ms apart |
| DownloadLaws.LastDestinationIsLatest | youtube-downloader.js:282 | the destination announced last wins |
| DownloadLaws.LastDestinationWithoutAnnouncement | youtube-downloader.js:249 | without an announcement the name stays as it was |
| DownloadLaws.FileNameStep | youtube-downloader.js:278-285 | one more signal keeps the file name equal to the last destination among the handled signals |
| DownloadLaws.FileNameIsLastDestination | youtube-downloader.js:278-285 | the remembered file name is the last destination among the handled signals |
| DownloadLaws.CloseShowsLastDestination | youtube-downloader.js:293-298 | a close prints the last announced destination, or no name when none was announced |
| DownloadLaws.LineRunToEnd | youtube-downloader.js:280 | a line without terminators runs to the end of the text |
| DownloadLaws.FindMatchIsLeftmost | youtube-downloader.js:280 | the matcher returns the leftmost match |
| DownloadLaws.NoMatchInTag | youtube-downloader.js:280 | no match starts in text without a capital D |
| DownloadLaws.MatchAtMarker | youtube-downloader.js:280 | the marker followed by a character on its line matches |
| DownloadLaws.FirstMatchAfterTag | youtube-downloader.js:280 | behind a tag like "[download] " the match is at the marker |
| DownloadLaws.LineRunOfPath | youtube-downloader.js:280 | the line run after the marker covers the whole path |
| DownloadLaws.CaptureAt | youtube-downloader.js:280-281 | the capture is the line run after the leftmost match |
| DownloadLaws.CaptureOfLine | youtube-downloader.js:280-281 | the capture is the whole path after the marker |
| DownloadLaws.DestinationOfLine | youtube-downloader.js:279-283 | a "[download] Destination: dir/name" line names the file name |
| DownloadLaws.SettlementIsFinal | youtube-downloader.js:290 | a settled promise never changes |
| DownloadLaws.UnsettledWithoutSettlingEvent | youtube-downloader.js:287-300 | without an error or close the promise keeps its state |
| DownloadLaws.FirstSettlingEventDecides | youtube-downloader.js:287-300 | the first handled error or close signal decides the outcome |
| DownloadLaws.ClosesOfSnoc | youtube-downloader.js:293-300 | one more signal adds one close exactly when it is a close |
| DownloadLaws.SuccessLineStep | youtube-downloader.js:293-300 | one more signal adds a success line exactly when it is a handled close |
| DownloadLaws.SuccessLinePerClose | youtube-downloader.js:293-300 | the success lines equal the handled closes, errors or not |
| DownloadLaws.NoCrashWithoutThrow | youtube-downloader.js:252-276 | without a throwing drawing attempt every signal is handled |
| DownloadLaws.CrashOnThrow | youtube-downloader.js:261-266 | a crash happens only on a progress signal whose drawing attempt throws |
| DownloadLaws.NoCrashWithinRange | youtube-downloader.js:261-266 | with percentages from 0 to 100 nothing throws and every event is handled |
| DownloadLaws.CrashMeansUndrawable | youtube-downloader.js:261-266 | a crash happens only on a present, undrawable percentage |
| DownloadLaws.RedrawShowsPercent | youtube-downloader.js:259-272 | an event past the throttle with a drawable percentage ends its output with a redraw, stamped with its time, showing the parsed percentage |
| DownloadLaws.NoPercentSign | youtube-downloader.js:263 | whitespace and a tenths literal hold no percent sign, so replace removes the trailing one |
| DownloadLaws.PercentTextValue | youtube-downloader.js:261-264 | " NN.N%" behind any whitespace reads as exactly NN.N |
| DownloadLaws.CloseWithoutOutput | youtube-downloader.js:293-300 | a close with no other output resolves and prints the success line without a name |
| DownloadLaws.ReplayErrorThenClose | youtube-downloader.js:287-300 | an error, then a close, on a pending handler: rejected with the error, yet both messages are printed |
| DownloadLaws.ErrorThenClose | youtube-downloader.js:287-300 | an error, then a close that reaches the listeners: rejected, yet both messages are printed |
| Driver.FormatArgument | youtube-downloader.js:460 | a missing or empty second argument means mp4 |
| Driver.Dispatch | youtube-downloader.js:404-410 | mp4 exactly selects video, mp3 exactly selects audio, everything else fails with the unsupported-format message |
| Driver.DispatchDefaultsAndCase | youtube-downloader.js:404-410 | no format means video; "MP4" and "mp3 " are refused |
| Driver.Author | youtube-downloader.js:187 | the uploader when present, else the channel when present, else "Desconocido" |
| Driver.AuthorIsNonEmptyChoice | youtube-downloader.js:187 | the author is never empty and is one of the three candidates |
| Driver.Summarise | youtube-downloader.js:185-191 | keeps title and duration and takes the author fallback |
| Driver.MetadataStep | youtube-downloader.js:200-206 | a failure is tolerated (no metadata) exactly when its message contains "Timeout"; otherwise it propagates the message |
| Driver.TimeoutsAreTolerated | youtube-downloader.js:167-169 | the timer's "Timeout", and any message mentioning it, is tolerated |
| Driver.ErrorHint | youtube-downloader.js:425-431 | rate limiting, else unavailable, else sign-in, else no hint, each by a case-sensitive substring |
| Driver.RateLimitWins | youtube-downloader.js:425-426 | a message containing "HTTP Error 429" always gets the rate-limit hint |
| Driver.UnavailableUnlessRateLimited | youtube-downloader.js:427-428 | "Video unavailable" gets its hint unless rate limiting is also mentioned |
| Driver.ShortMessagesGetNoHint | youtube-downloader.js:425-431 | a message shorter than every marker gets no hint |
| Driver.DownloadYouTube | youtube-downloader.js:384-437 | a bootstrap failure is reported first, with its prefix; a metadata failure other than a timeout fails with its own message; a download starts exactly when bootstrap and metadata pass and the format is known, and shows the fetched metadata; a started run crashes exactly when a listener threw, and otherwise completes exactly when the download resolves, fails with a rejection's reason, and waits while it is pending |
| Driver.UnsupportedFormatFailsAfterMetadata | youtube-downloader.js:394-410 | an unknown format never starts a download; it fails with the format message unless the metadata step failed first |
| Driver.ExitCode | youtube-downloader.js:440-468 | exit 1 without arguments; exit 0 exactly when the run completes; no exit exactly while it waits; every other exit, crashes included, is 1 |
| Driver.ErrorThenCloseExitsWithFailure | youtube-downloader.js:287-300 | an error then a close that reaches the listeners prints a success line yet exits with 1 |
| Driver.CrashExitsWithFailure | youtube-downloader.js:260-266 | a listener that throws while the promise is pending makes the process exit with 1 |

## Left out

- Bootstrapping `yt-dlp` (lines 109-157): downloading the binary, `chmod`, and the version query are I/O. Only the bootstrap failure's message prefix is modelled, as an input.
- Spinners, `setInterval`, `setTimeout`, and the race between the metadata request and its timer. The race's outcome is an input (`Fetch`).
- The `yt-dlp-wrap` calls `getVideoInfo` and `exec`, with their argument lists and the output template. Their results are inputs: the metadata and the event sequence.
- Console output, ANSI colours, banners, separators and `toLocaleString`. Printed output appears only as the effects the listeners produce.
- `displayVideoInfo`'s layout (lines 213-226). Only the author fallback and `formatTime` are modelled.
- `percent.toFixed(1)` on the progress line. A frame records the exact percentage.
- IEEE-754 floating point. Numbers are exact reals, so `Math.log`'s rounding in `formatBytes` is not modelled and the unit index is exact.
- Formatters.FormatBytes: only non-negative integer byte counts are modelled. Negative or fractional counts are left out because the function is never called.
- Number.ParseFloat: follows the ECMAScript grammar of `StrDecimalLiteral` without rounding. Results are exact rationals.
- Download.PercentValue: a numeric percentage is taken as itself. `parseFloat(String(n))` returns n for every number except -0, which reads back as 0; the bar and the frame treat both alike.
- PosixPath.Basename: POSIX rules only. Windows separators are not modelled.
- Elapsed-time reporting and `path.resolve` in the completion summary (lines 413-418): clock and file-system output.
- Any exception that escapes a listener ends `Replay` and `Run`. The model does not cover how the event emitter or the process reacts to it beyond the exit code.
- Download.Run: the events given are the ones delivered before `process.exit` runs. They are handled as if they arrive in the same task as the settling event. An event arriving in a later task after the promise has settled is never handled, because the microtask chain ending in `process.exit` runs first; such events belong outside the sequence. Under this assumption a listener exception is always uncaught and ends the process with 1, whatever the promise did.
- Text: strings are sequences of Unicode scalar values, not UTF-16 code units. Lone surrogates and the doubled length of characters outside the Basic Multilingual Plane are not modelled; the texts the model handles are compared and searched the same way in both.
