# ender_bot transcription core, modelled in Dafny

The transcription cog of ender_bot (`src/cogs/transcription.py`) takes a
recording the user picked from a Discord button. It runs ffmpeg's
`silencedetect` filter over the recording and reads every `silence_end:`
marker from the diagnostic text. It then plans one segment per silence end,
plus a final open-ended one, and hands each segment to an ffmpeg run meant
to cut it out. Each segment is then posted to a speech-to-text service, and
the texts of the successful replies are joined with newlines into a
transcript file named after the recording and the current date.

This project models the pure logic of that pipeline as Dafny functions over
immutable sequences and strings, and proves properties about it:

- `silence.dfy` covers the silence-marker parser. Module `Silence` models
  the regular expression `silence_end: (\d+(\.\d+)?)` as `re.finditer` runs
  it: leftmost match first, the search resuming at the end of the previous
  match, both `\d+` runs and the optional fraction greedy. Module
  `SilenceFacts` characterises that scan. Module `SilenceExamples` reads
  rendered diagnostic text back and covers the expression's edge cases.
  Numbers are exact decimals whose value is a `real`.
- `segments.dfy` covers the segment planner of `split_audio_silence`.
  Python's truthiness of `end` and `duration` is kept as written: `None`
  and `0.0` are both false. It also models the arguments the ffmpeg input
  stage receives, both as written and as evidently intended (see Findings).
- `combine.dfy` covers collecting the service's replies. It keeps the
  texts of status-200 replies, joins them with `"\n"`, and produces a
  numbered failure notice for every other reply.
- `naming.dfy` covers the derived names. These are `os.path.splitext`
  (POSIX rules), the segment file suffix, the upload name of each part,
  the transcript name `<root>_<YYYY-MM-DD>.txt`, and the 80- and
  100-character button label and identifier.
- `digits.dfy`, `strings.dfy` and `wrappers.dfy` are shared helpers:
  decimal digit strings, `rfind`, and an `Option` type for `None` and
  missing keys.

Two points about what the code does and does not promise:

- The parser reports the markers in text order, unsorted and possibly
  repeated. The contiguity lemmas therefore take positive, strictly
  increasing ends (`Segments.Ascending`) as a hypothesis.
- The status message at line 102 says "120s segments", but the code cuts
  only at silence ends; there is no fixed-length cutting to model.

## Model

| member | source | states |
|---|---|---|
| Silence.SilenceEnds | src/cogs/transcription.py:71 | one silence end per match of the expression, each a non-negative number |
| SilenceFacts.SilenceEndsCharacterized | src/cogs/transcription.py:71 | the silence ends are, in order, the values of the numbers captured by the leftmost non-overlapping scan |
| SilenceExamples.SilenceEndsRoundTrip | src/cogs/transcription.py:71 | text with one `silence_end: <number>` line per well-formed number yields exactly those numbers' values as silence ends, in order |
| Silence.Value | src/cogs/transcription.py:71 | the value of a captured number is non-negative and lies between its integer part and the integer part plus one |
| Silence.ValueDigits | src/cogs/transcription.py:71 | the value is the number the digits denote with the dot removed, shifted one decimal place per fraction digit (`12.05` is 1205 shifted 2 places) |
| Silence.ShiftScaled | src/cogs/transcription.py:71 | shifting `n` by `k` decimal places is dividing it by 10^k, so with `Silence.ValueDigits` the value of `12.05` is 1205 / 100 |
| SilenceExamples.FractionValue | src/cogs/transcription.py:71 | the captured number `12.05` has the value 12.05 exactly |
| Silence.Matches | src/cogs/transcription.py:71 | every match as `re.finditer` yields it; `SilenceFacts.MatchesCharacterized` states which ones |
| SilenceFacts.MatchAtExists | src/cogs/transcription.py:71 | a match starts at a position exactly when the marker `silence_end: ` is there followed by a digit |
| SilenceFacts.MatchAtSpan | src/cogs/transcription.py:71 | a match covers exactly the marker followed by the text of the captured number |
| SilenceFacts.MatchAtGreedy | src/cogs/transcription.py:71 | the character after a match could not extend it: it is not a digit, and it is not a dot followed by a digit when there was no fraction |
| SilenceFacts.CaptureAtUnique | src/cogs/transcription.py:71 | a well-formed number that is written at a position and cannot be extended there is the number captured at that position |
| SilenceFacts.ScanOrdered | src/cogs/transcription.py:71 | the reported matches appear in text order and do not overlap |
| SilenceFacts.ScanUnique | src/cogs/transcription.py:71 | there is only one leftmost, non-overlapping scan of a text |
| SilenceFacts.MatchesCharacterized | src/cogs/transcription.py:71 | the parser's matches are exactly the leftmost, non-overlapping, resume-at-end scan of the text, in both directions |
| SilenceFacts.NoMatchNoEnds | src/cogs/transcription.py:71 | the result is empty if and only if no position of the text starts a match |
| SilenceExamples.RenderRoundTrip | src/cogs/transcription.py:71 | text with one `silence_end: <number>` line per well-formed number parses back to exactly those numbers, in order |
| SilenceExamples.TrailingDotIgnored | src/cogs/transcription.py:71 | `silence_end: 12.` yields 12: a dot with no digit after it is not consumed |
| SilenceExamples.SignedNumberIgnored | src/cogs/transcription.py:71 | `silence_end: -3` yields nothing: a sign is not part of the expression |
| Segments.WithSentinel | src/cogs/transcription.py:80 | the loop walks every silence end in order and then a final `None` |
| Segments.Plan | src/cogs/transcription.py:78-96 | one cut per silence end plus one, and the first cut starts at 0 |
| Segments.PlanFrom | src/cogs/transcription.py:80-96 | the loop yields one cut per item, the first starting at the previous end it was given; `SegmentFacts.PlanFromReference` states every cut |
| Segments.InputCallsAsWritten | src/cogs/transcription.py:88-93 | one ffmpeg input per planned cut; `SegmentFacts.AsWrittenIgnoresEnds` and `SegmentFacts.AsWrittenIgnoresPlan` state that none carries its cut |
| Segments.InputCalls | src/cogs/transcription.py:85-93 | one ffmpeg input per silence end plus one, the options handed over; `SegmentFacts.CallsCarryPlan` states what each receives |
| SegmentFacts.PlanSpec | src/cogs/transcription.py:79-96 | cut `i` starts at the last non-zero end before it (0 if none); it is limited to `end - start` exactly when its end and that difference are both non-zero; the last cut is open-ended |
| SegmentFacts.PlanFromReference | src/cogs/transcription.py:80-96 | each loop step's start is the last truthy end seen so far, and its limit follows from that start and its own end |
| SegmentFacts.ZeroEndActsAsSentinel | src/cogs/transcription.py:82-96 | an end of 0 is falsy: its cut has no limit and the next cut starts where it did |
| SegmentFacts.ZeroDurationHasNoLimit | src/cogs/transcription.py:82-87 | an end equal to the current start gives a duration of 0, which is falsy, so that cut has no limit |
| SegmentFacts.Contiguous | src/cogs/transcription.py:79-96 | for positive ascending ends, each cut starts at the previous end, and each limited cut ends where the next one starts |
| SegmentFacts.LimitsSumToStart | src/cogs/transcription.py:81-96 | for positive ascending ends, the limits of the first `k` cuts add up to the start of cut `k` |
| SegmentFacts.LimitsSumToLastEnd | src/cogs/transcription.py:81-96 | for positive ascending ends, the limits add up to the last silence end |
| SegmentFacts.AsWrittenIgnoresPlan | src/cogs/transcription.py:85-93 | with one end at 5 s the plan is "0 to 5" and "5 to the end", yet both ffmpeg inputs receive identical options, with no seek and no limit |
| SegmentFacts.AsWrittenIgnoresEnds | src/cogs/transcription.py:85-93 | as written, two recordings' runs receive the same options exactly when they have equally many silence ends: where the ends lie never reaches ffmpeg |
| SegmentFacts.CallsCarryPlan | src/cogs/transcription.py:79-96 | with the options handed over, for any ends, sorted or not, run `i` seeks to the last non-zero silence end before it (0 if none), is limited exactly when its end and its duration are non-zero, and the run after the last end is open-ended |
| SegmentFacts.CallsTile | src/cogs/transcription.py:85-87 | with the options handed over and positive ascending ends, each run but the last stops where the next one starts, and only the last is open-ended |
| SegmentFacts.CallsDistinct | src/cogs/transcription.py:85-87 | with the options handed over and positive ascending ends, runs seek to strictly increasing offsets |
| Combine.OkIndices | src/cogs/transcription.py:114-123 | the successful replies' positions, strictly increasing, each naming a status-200 reply |
| Combine.FailIndices | src/cogs/transcription.py:114-126 | the failed replies' positions, strictly increasing, each naming a reply that is not status 200 |
| Combine.Notices | src/cogs/transcription.py:124-126 | one notice per reply that is not status 200 |
| Combine.Transcripts | src/cogs/transcription.py:121-123 | one text per status-200 reply; `CombineFacts.TranscriptsSpec` states which |
| Combine.Join | src/cogs/transcription.py:131 | joining a single text gives it unchanged; `CombineFacts.JoinSplit` and `CombineFacts.SplitJoin` state the rest |
| Combine.CombinedText | src/cogs/transcription.py:131 | the transcript; `CombineFacts.LinesAreTexts` and `CombineFacts.CombinedTextEmpty` state its lines and when it is empty |
| Combine.Notice | src/cogs/transcription.py:126 | the failure message of one segment; `CombineFacts.NoticeInjective` states that it determines the segment number and the body |
| CombineFacts.FailIndicesComplete | src/cogs/transcription.py:124-126 | no failed reply is missed |
| CombineFacts.NoticeInjective | src/cogs/transcription.py:126 | the failure message `Combine.Notice` determines its segment number and body: two messages agree exactly when both do |
| CombineFacts.NoticeAt | src/cogs/transcription.py:124-126 | the `k`-th notice is `Combine.Notice` of the `k`-th failed reply, numbered with its segment counted from 1 |
| CombineFacts.NoticesSpec | src/cogs/transcription.py:124-126 | the notices of `Combine.Notices` are, in segment order, `Combine.Notice` of each failed reply: its segment counted from 1 and its body |
| CombineFacts.FailedReplyNoticed | src/cogs/transcription.py:124-126 | every failed reply yields the notice for its own segment |
| CombineFacts.CombinedTextEmpty | src/cogs/transcription.py:131 | the transcript `Combine.CombinedText` is empty exactly when no segment succeeded, or the single one that did brought an empty or missing text |
| CombineFacts.OkIndicesComplete | src/cogs/transcription.py:121-123 | no status-200 reply is missed |
| CombineFacts.TranscriptsSpec | src/cogs/transcription.py:121-123 | the collected texts are those of the status-200 replies in segment order, `""` when the reply has no "text" field |
| CombineFacts.TranscriptsAppend | src/cogs/transcription.py:114-123 | the texts collected from consecutive runs of replies are the texts of each run, concatenated |
| CombineFacts.EveryReplyReported | src/cogs/transcription.py:121-126 | every reply yields exactly one text or one notice |
| CombineFacts.JoinSplit | src/cogs/transcription.py:131 | splitting a string at newlines and joining the pieces with `"\n"` gives the string back |
| CombineFacts.SplitJoin | src/cogs/transcription.py:131 | joining newline-free texts and splitting the result gives the texts back |
| CombineFacts.JoinEmpty | src/cogs/transcription.py:131 | the join is empty exactly when there are no texts, or there is one empty text |
| CombineFacts.AllFailedGivesEmpty | src/cogs/transcription.py:114-131 | when every segment fails, the transcript is empty and there is one notice per segment |
| CombineFacts.LinesAreTexts | src/cogs/transcription.py:114-131 | with newline-free texts, the lines of the transcript `Combine.CombinedText` are the successful segments' texts in order; failed segments leave no line |
| CombineFacts.MissingTextKeepsLine | src/cogs/transcription.py:121-131 | replies "a", no text, a failure, "b" give the transcript `a\n\nb` and the single notice for segment 3 |
| Naming.SplitExt | src/cogs/transcription.py:104 | the root and the extension together give the name back; `NamingFacts.SplitExtSound` and `NamingFacts.SplitExtComplete` state where it splits (`Naming.Stem` and `Naming.Ext` are its two halves) |
| Naming.SegmentExt | src/cogs/transcription.py:104 | the extension without its dot, or empty when the file has none |
| Naming.Stem | src/cogs/transcription.py:133 | the root half of `Naming.SplitExt`; `NamingFacts.SplitExtSound` and `NamingFacts.SplitExtComplete` state where it ends |
| Naming.SegmentSuffix | src/cogs/transcription.py:83 | the suffix of the temporary segment files; `NamingFacts.SegmentSuffixIsExt` states that it keeps the recording's extension |
| Naming.DateStr | src/cogs/transcription.py:132 | the date as `%Y-%m-%d`; `NamingFacts.DateStrRoundTrip` and `NamingFacts.DateStrInjective` state its shape and that it determines the date |
| Naming.OutputName | src/cogs/transcription.py:132-134 | the transcript file name; `NamingFacts.OutputNameShape`, `NamingFacts.OutputNameExt` and `NamingFacts.OutputNameCollides` state its parts and when two coincide |
| Naming.PartName | src/cogs/transcription.py:117 | the upload name of one segment; `NamingFacts.PartNameInjective` states that it determines the segment index |
| Naming.Label | src/cogs/transcription.py:45 | a prefix of the file name of length min(80, length), equal to the name exactly when the name has at most 80 characters |
| Naming.CustomId | src/cogs/transcription.py:46 | a prefix of the file name of length min(100, length), equal to the name exactly when the name has at most 100 characters |
| NamingFacts.SplitExtSound | src/cogs/transcription.py:104 | a reported extension starts at the last dot of the last path component, and a non-dot precedes it in that component |
| NamingFacts.SplitExtComplete | src/cogs/transcription.py:104 | every dot that starts an extension in that sense is the split point reported |
| NamingFacts.LeadingDotsAreRoot | src/cogs/transcription.py:104 | a name such as `.hidden`, with dots only at its start, has no extension |
| NamingFacts.SplitExtExample | src/cogs/transcription.py:104 | `talk.mp3` splits into `talk` and `.mp3` |
| NamingFacts.SegmentSuffixIsExt | src/cogs/transcription.py:83 | the suffix `Naming.SegmentSuffix` of the temporary segment files keeps the recording's extension; a recording without one gets the bare suffix `.` |
| NamingFacts.DateStrRoundTrip | src/cogs/transcription.py:132 | the date string `Naming.DateStr` has the shape YYYY-MM-DD, and its three fields read back as the year, month and day |
| NamingFacts.DateStrInjective | src/cogs/transcription.py:132 | different dates give different date strings |
| NamingFacts.OutputNameShape | src/cogs/transcription.py:132-134 | the transcript name `Naming.OutputName` is the recording's root followed by `_`, the date string and `.txt` |
| NamingFacts.OutputNameExt | src/cogs/transcription.py:132-134 | the transcript name's own extension is `.txt`, and its root is the recording's root with `_` and the date appended |
| NamingFacts.OutputNameCollides | src/cogs/transcription.py:132-134 | on the same day two recordings get the same transcript name exactly when their roots agree, whatever their extensions |
| NamingFacts.PartNameInjective | src/cogs/transcription.py:117 | upload names `Naming.PartName` of parts of one file differ exactly when the part indices differ |
| NamingFacts.LabelPrefixOfCustomId | src/cogs/transcription.py:45-46 | the label is a prefix of the identifier |
| NamingFacts.CustomIdCollides | src/cogs/transcription.py:46 | two files share a button identifier exactly when they are equal, or both have at least 100 characters and agree on the first 100 |

## Left out

- Running ffmpeg, `subprocess`, `tempfile`, `os.unlink`, `os.listdir` and `os.path.isfile` are left out because they are external processes and filesystem effects. The parser takes ffmpeg's diagnostic text as its input. The planner yields the cuts and input options instead of files.
- The HTTP upload, `aiohttp`, `asyncio` and `run_in_executor` are left out because they are network I/O and concurrency. Each segment's outcome is an input `Combine.Reply` holding a status, an optional "text" field and the body text.
- The Discord `View`, `Button` and callbacks, the messages sent to the channel, and logging are left out as UI plumbing. `Combine.Notice` models only the text of the per-segment failure message.
- `datetime.now()` is left out because it is the clock. The date is passed in as year, month and day.
- Writing the transcript and `os.path.join` with the output directory are left out because they are file I/O. `Naming.OutputName` is the file name within that directory.
- Silence.Value: the value is an exact real, while `float(...)` rounds to the nearest IEEE double. Float precision is not modelled.
- Segments: the planner's `end - start` and the sums of limits are exact real arithmetic, while the source subtracts IEEE doubles. `SegmentFacts.Contiguous`, `SegmentFacts.LimitsSumToStart`, `SegmentFacts.LimitsSumToLastEnd` and `SegmentFacts.CallsTile` therefore hold only up to float rounding in the source: with start 22.32 and end 87.171, the double sum of start and duration is 87.17099999999999.
- Silence: `\d` is modelled as the ASCII digits 0-9. Python's `\d` on `str` also accepts other Unicode decimal digits.
- Naming.DateStr: the year is zero-padded to four digits and limited to 1..9999. How `%Y` prints years below 1000 depends on the platform.
- Combine.Reply: a "text" field holding something other than a string is not modelled.
- Combine.Reply: an exception raised while handling a segment is not modelled. Examples are `session.post` failing or timing out, a status-200 body that `response.json()` rejects (line 122), or JSON that is not an object (`.get` at line 123). In the source, such an exception jumps to lines 139-141. The remaining segments are not tried, and their temporary files are not removed. No transcript is written, and the user sees only the generic error message. The model always yields a transcript.
- Line 93 calls `.run(quit=True)`, but the published signature of ffmpeg-python's `run` has no `quit` parameter. Read that way, the first run would raise `TypeError` before anything is cut or uploaded, and the callback would end at lines 139-141. This masks the consequence of the Findings row below. The ffmpeg-python library is not part of this model, so the model states only the options each ffmpeg input receives, not what a run produces.
- Naming.SplitExt: only the POSIX rules of `os.path.splitext` are modelled, with '/' as the only separator.
- Line 84 names `segment_file.close` without calling it, so it has no effect and has no counterpart in the model.

## Findings

| source | as written | input that shows it | evidently intended | confidence | as-written member | corrected member |
|---|---|---|---|---|---|---|
| src/cogs/transcription.py:85-93 | the options `ss` and `t` are built for every segment, but `ffmpeg.input(input_file)` is called without them, so every run would stream-copy the whole recording | one silence end at 5.0: the plan is "0 to 5" and "5 to the end", but both runs receive identical options with no seek and no limit | `ffmpeg.input(input_file, **input_kwargs)`, so that each run reads only its own cut and the runs tile the recording | high, not executed | SegmentFacts.AsWrittenIgnoresPlan | SegmentFacts.CallsTile |
