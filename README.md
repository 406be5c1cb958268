# Chapter reorder: a Dafny model of `ChapterManager`

The browser extension lets a viewer replay a video's chapters in an order of their
choosing. All of its logic lives in the `ChapterManager` object of `content.js`:

- it **extracts** a chapter list from the page, trying four sources in turn (the player's
  chapter metadata, the progress-bar segments, timestamp lines in the description, the
  macro-marker list items), then sorts it, drops near-duplicates and, for a video longer
  than five minutes with no chapters, makes evenly spaced placeholders;
- it keeps that list as the canonical timeline `chapters` and a copy, the working order
  `customOrder`, which the user rearranges with splice-style moves and can reset;
- it **plays** the working order: seek to the first entry, then on every `timeupdate` move
  to the next entry once the current one has played for its duration, a duration measured
  on the canonical timeline.

The model has one module per part:

| file | module | what it holds |
|---|---|---|
| `wrappers.dfy` | `Wrappers` | `Option` |
| `text.dfy` | `Text` | the JavaScript string primitives used: `toString`, `Number` on digit strings, `padStart`, `split`, `indexOf`/`replace`, `trim`, `\s` |
| `timestamps.dfy` | `Timestamps` | `timeToSeconds`, `secondsToTime`, and the two timestamp regular expressions written as character scanners |
| `chapters.dfy` | `Chapters` | the chapter record, the stable sort, the adjacent-gap filter, the placeholder fallback |
| `strategies.dfy` | `Strategies` | the four discovery strategies over an abstract page, and the cascade |
| `manager.dfy` | `Manager` | moves, chapter durations, the advance rule, and the `ChapterManager` class |

Each strategy and the fallback are `while` loops that push records, proved equal to a
function that says what they collect; the class's methods change the fields the source
changes and state the whole new state. The record's `timeStr` is always
`secondsToTime(time)` in the source, so the model derives it from `time` instead of
storing it.

Four behaviours of the code are easy to misread, and the model keeps them as written:

- A working-order entry that is not the last one plays for 60 seconds when no canonical
  chapter starts after it, however much of the video is left. With timeline 0, 60, 180
  played as 180, 0, 60 in a 300-second video, the entry at 180 plays for 60 s, not 120 s
  (`DefaultDurationExample`).
- `ChapterManager` has no operation to stop playback, report its status, reconcile a
  manual seek or tear down an earlier playback; the model has none either.
- Near-duplicates are dropped by comparing each chapter with its predecessor in the
  sorted input, not with the last chapter kept. So 0, 4, 8 becomes just 0.
- A description line's title is the line with the FIRST occurrence of the matched text
  removed, which may come before the match. In `a 1:234 1:23` the match is ` 1:23` at
  index 7, yet the title is `a4 1:23` (`ReplaceQuirkExample`).

## Model

| member | source | states |
|---|---|---|
| `Timestamps.TimeToSeconds` | content.js:213-221 | a text without `:` reads as 0 seconds; only a text with `:` can read as NaN |
| `Timestamps.TwoFieldsValue` | content.js:213-216 | two digit parts read as `m * 60 + s` |
| `Timestamps.ThreeFieldsValue` | content.js:217-218 | three digit parts read as `h * 3600 + m * 60 + s` |
| `Timestamps.OtherPartCounts` | content.js:219-220 | a text that does not split into two or three parts is 0 seconds |
| `Timestamps.NonNumericPart` | content.js:214 | a part that is not a digit string makes the value NaN (`None`) |
| `Timestamps.ReadTwoFields` | content.js:213-216 | `a:b` with digit fields reads as `a * 60 + b` |
| `Timestamps.ReadThreeFields` | content.js:213-218 | `a:b:c` with digit fields reads as `a * 3600 + b * 60 + c` |
| `Timestamps.SecondsToTime` | content.js:223-232 | the display ends in `:SS` with two digits, and with an hour or more also has `:MM:` with two digits before that |
| `Timestamps.SecondsToTimeFields` | content.js:223-232 | `H:MM:SS` with the hours unpadded and minutes and seconds two digits when there is a whole hour, else `M:SS` with the seconds two digits |
| `Timestamps.RoundTrip` | content.js:213-232 | `timeToSeconds(secondsToTime(n)) == n` for every `n >= 0` |
| `Timestamps.DisplayedTimeIsToken` | content.js:223-232 | every display time below 100 hours has the shape of the timestamp token |
| `Timestamps.TokenAt` | content.js:133 | a token found at a position is a whole `\d{1,2}:(\d{2}:)?\d{2}` match, followed by white space or the end when bounded |
| `Timestamps.BoundedTokenFound` | content.js:133 | a token followed by white space or the end is found at its start, whole |
| `Timestamps.TokenParses` | content.js:135-136 | a token always converts to a number of seconds, never NaN |
| `Timestamps.TokenSeconds` | content.js:136 | the seconds of a token are what `timeToSeconds` gives for it |
| `Timestamps.MatchAt` | content.js:133 | a match is the line start or one white-space character, then a bounded token |
| `Timestamps.FindLineTimestampFrom` | content.js:133 | the scan returns a valid match starting at or after the scan position |
| `Timestamps.FindFromIsLeftmost` | content.js:133 | a scan from before a bounded token finds a match no later than that token |
| `Timestamps.LineTimestampFound` | content.js:133-134 | a line matches exactly when it holds a bounded token preceded by the line start or white space, and the match is the leftmost one |
| `Timestamps.FindTokenFrom` | content.js:170 | the scan returns a whole token at or after the scan position |
| `Timestamps.TimeLabelTokenFound` | content.js:170-171 | a time label matches exactly when a token occurs in it, and the match is the leftmost token, and the longest token at that position |
| `Timestamps.TokenAtLongest` | content.js:170 | the token read at a position is the longest one there: `h:mm:ss` is preferred to its `h:mm` prefix |
| `Timestamps.FindTokenAt` | content.js:170 | the time-label scan returns the token read at the position it stops |
| `Timestamps.LongTokenExample` | content.js:170-171 | the label `1:23:45` matches as a whole and reads as 5025 s |
| `Text.Dec` | content.js:229-231 | `toString` of a number is a non-empty digit string |
| `Text.DecSpec` | content.js:229-231 | `toString` writes digits only, one digit below 10, two below 100, no leading zero |
| `Text.ParseDec` | content.js:214 | `Number` reads back what `toString` wrote |
| `Text.NumberValue` | content.js:214 | `Number` of a part is a number exactly when the part is a digit string; two digits give less than 100 |
| `Text.PadDec` | content.js:229-231 | `padStart(2, '0')` of a number below 100 has two digits and the same value |
| `Text.Split` | content.js:214 | `split` always gives at least one part |
| `Text.JoinSplit` | content.js:214 | `split(':')` loses nothing: its parts join back to the input |
| `Text.SplitPartsNoSep` | content.js:214 | no part of `split(':')` holds a `:` |
| `Text.SplitJoin` | content.js:214 | splitting undoes joining when no part holds the separator |
| `Text.IndexOfFrom` | content.js:138 | `indexOf` returns a position where the pattern occurs |
| `Text.IndexOfFromFirst` | content.js:138 | `indexOf` finds the first occurrence, and reports none only when there is none |
| `Text.ReplaceFirst` | content.js:138 | `replace` of a plain string leaves the text unchanged when the pattern does not occur; otherwise it cuts out exactly the first occurrence and keeps the rest in order |
| `Text.DropLeadingDropsOnly` | content.js:138 | `replace(/^[-\s]*/, '')` removes only dashes and white space, and leaves none at the front |
| `Text.TrimEndDropsOnlySpace` | content.js:138 | `trim` removes only white space at the end |
| `Text.Trim` | content.js:138 | the trimmed text neither starts nor ends with white space |
| `Chapters.Chapter.timeStr` | content.js:62 | a chapter's display time reads back as its start |
| `Chapters.Insert` | content.js:186 | inserting into the sorted list adds exactly that chapter |
| `Chapters.SortByTime` | content.js:186 | the sort is a permutation |
| `Chapters.InsertSorted` | content.js:186 | insertion keeps a list sorted |
| `Chapters.InsertStable` | content.js:186 | insertion puts a chapter before every later one of equal time |
| `Chapters.SortByTimeSpec` | content.js:186 | the sort orders by time, is a permutation, and keeps chapters of equal time in input order |
| `Chapters.KeptIndicesSpec` | content.js:187-189 | the kept indices increase, and an index is kept exactly when it is 0 or more than 5 s from its input predecessor |
| `Chapters.DedupeIsFilter` | content.js:187-189 | the filter's result is the input's chapters at exactly the kept indices, in order: a subsequence |
| `Chapters.Dedupe` | content.js:187-189 | the filter never grows the list; the first chapter always survives, so the result is empty only for empty input |
| `Chapters.DedupeSpaced` | content.js:186-189 | after the sort, consecutive kept chapters are more than 5 s apart |
| `Chapters.DedupeSorted` | content.js:186-189 | after the sort, the kept chapters are sorted and all come from the input |
| `Chapters.DedupeExample` | content.js:186-189 | times 0, 3, 10, 12, 50 become 0, 10, 50 |
| `Chapters.DedupeComparesWithInputPredecessor` | content.js:187-189 | times 0, 4, 8 become 0 alone |
| `Chapters.FallbackChapters` | content.js:191-204 | a video over 300 s gets 2 to 10 placeholders, the first at 0 |
| `Chapters.BuildFallback` | content.js:197-204 | the fallback loop pushes exactly the placeholders, in order |
| `Chapters.FallbackCountRange` | content.js:192-194 | a video over 300 s gets between 2 and 10 placeholders, at least 120 s each |
| `Chapters.FallbackTimes` | content.js:195-198 | every placeholder starts before the end and at least 120 s after the previous one |
| `Chapters.FallbackShape` | content.js:191-206 | placeholders: 2 to 10 of them, the first at 0, at least 120 s apart, all before the end, titled `Chapter i+1` |
| `Chapters.FallbackCanonical` | content.js:191-206 | the placeholders form a canonical timeline |
| `Chapters.PostProcess` | content.js:185-206 | post-processing gives an empty list exactly when nothing was found and the video is at most 300 s |
| `Chapters.PostProcessCanonical` | content.js:185-206 | post-processing always yields a canonical timeline of input chapters; it is empty only when nothing was found and the video is at most 300 s |
| `Strategies.ReadableCount` | content.js:54-64 | the first metadata path reads the entries before the first unreadable one |
| `Strategies.ReadPrimaryChapters` | content.js:56-64 | the first path's loop pushes one chapter per readable entry and stops (throws) at an unreadable one |
| `Strategies.ReadAltChapters` | content.js:73-83 | the second path's loop pushes one chapter per entry, including entries without a renderer or a title object |
| `Strategies.ReadPlayerChapters` | content.js:44-89 | metadata strategy: the first marker with chapters; the second path only when the first pushed nothing and did not throw |
| `Strategies.MetadataPrefix` | content.js:56-64 | the first path pushes one titled chapter per entry read |
| `Strategies.AltPrefix` | content.js:74-82 | the second path pushes one titled chapter per entry |
| `Strategies.MetadataChapters` | content.js:44-89 | every metadata chapter has a title |
| `Strategies.MetadataPrefixSpec` | content.js:56-64 | each metadata chapter starts at `floor(ms / 1000)` and is titled by its text or `Chapter i+1` |
| `Strategies.AltPrefixSpec` | content.js:74-82 | the second path gives one chapter per entry: at `floor(ms / 1000)` of its renderer (0 without one), titled by its text, or `Chapter i+1` when the renderer, its title object or its text is missing |
| `Strategies.NoTitleEntryExample` | content.js:56-82 | a renderer without a title object stops the first path before it, while the second path keeps its 90 s start |
| `Strategies.ReadProgressMarkers` | content.js:91-113 | the progress-bar loop pushes exactly the positioned segments, titled by label or index |
| `Strategies.ProgressChapters` | content.js:96-110 | at most one titled chapter per segment |
| `Strategies.ProgressChaptersSpec` | content.js:96-110 | no chapter exactly when no segment has a position |
| `Strategies.ProgressChaptersMembers` | content.js:96-110 | every positioned segment pushes its chapter, at its position and titled by its label or its index among all segments |
| `Strategies.ProgressChaptersOnlyMembers` | content.js:96-110 | nothing but the chapters of positioned segments is pushed |
| `Strategies.ProgressExample` | content.js:96-110 | segments at 30 s, none, 90 s with labels `Intro`, `x`, empty give `Intro` at 30 and `Chapter 3` at 90 |
| `Strategies.LineChapter` | content.js:131-150 | a line's chapter always has a title |
| `Strategies.LineChapterFound` | content.js:133-134 | a line yields a chapter exactly when it holds a bounded timestamp token |
| `Strategies.LineChapterSpec` | content.js:133-139 | a line's chapter starts at the leftmost bounded token's value and is titled by the cleaned line, or `Chapter at <token>` |
| `Strategies.ReplaceQuirkExample` | content.js:133-138 | in `a 1:234 1:23` the match is ` 1:23` at 7, but the title cuts the earlier occurrence at 1 and is `a4 1:23` |
| `Strategies.CleanTitleEmpty` | content.js:138-139 | the cleaned title is empty exactly when the rest of the line is only dashes and white space |
| `Strategies.CleanTitleShape` | content.js:138 | the cleaned title is the rest of the line with only dashes and white space cut from the front and white space from the back |
| `Strategies.KeepFound` | content.js:141-148 | a line keeps what was collected and adds at most one chapter |
| `Strategies.KeepFoundSpec` | content.js:141-148 | a line adds its own chapter exactly when it yields one and no collected chapter is within 5 s, and nothing otherwise |
| `Strategies.CollectGrows` | content.js:131-150 | scanning keeps what was collected and adds at most one chapter per line |
| `Strategies.CollectFrom` | content.js:131-150 | every chapter scanning adds is one some line yields |
| `Strategies.CollectApart` | content.js:141-148 | scanning never adds a chapter within 5 s of a collected one |
| `Strategies.CollectNonEmpty` | content.js:131-150 | once a line yields a chapter, or something was collected, the scan is not empty |
| `Strategies.CollectWellFormed` | content.js:131-150 | scanning keeps every chapter titled |
| `Strategies.ScanLinesSpec` | content.js:128-150 | a description's chapters are titled and no two are within 5 s |
| `Strategies.ScanFindsTimestamp` | content.js:128-150 | a text yields chapters exactly when one of its lines holds a bounded timestamp token |
| `Strategies.ScanDescription` | content.js:128-150 | the line loop computes the scan of the text's lines |
| `Strategies.ReadDescriptions` | content.js:116-156 | the selector loop stops at the first text that yields a chapter |
| `Strategies.DescriptionChapters` | content.js:116-156 | description chapters are titled and no two are within 5 s |
| `Strategies.DescriptionFindsTimestamp` | content.js:116-156 | the description strategy finds chapters exactly when some selector's text has a line with a bounded timestamp token |
| `Strategies.MacroChapter` | content.js:161-180 | a macro item always yields a titled chapter |
| `Strategies.ReadMacroItems` | content.js:158-183 | the macro loop pushes one chapter per item |
| `Strategies.MacroPrefix` | content.js:161-181 | one titled chapter per item |
| `Strategies.MacroPrefixSpec` | content.js:161-181 | the chapters are the items' chapters, in item order |
| `Strategies.MacroChapterSpec` | content.js:162-173 | an item starts at 0 without a time element or token, else at the value of the leftmost, longest token; its title is its trimmed text when not empty, else `Chapter i+1` |
| `Strategies.MacroTimeExample` | content.js:162-173 | a time label `1:23:45` puts the item at 5025 s |
| `Strategies.RawChapters` | content.js:44-183 | the cascade yields titled chapters, and never nothing when there are macro items |
| `Strategies.ReadStrategies` | content.js:44-183 | each strategy runs only while nothing has been found |
| `Strategies.ExtractedCanonical` | content.js:40-211 | extraction yields a canonical timeline; it is empty only when no strategy found anything and the video is at most 300 s |
| `Manager.RemoveAt` | content.js:391 | `splice(i, 1)` shifts the entries after `i` down by one |
| `Manager.InsertAt` | content.js:392 | `splice(i, 0, x)` puts `x` at `i` and shifts the rest up by one |
| `Manager.Moved` | content.js:390-394 | a move keeps the length and puts the moved entry at `to` |
| `Manager.MovedSpec` | content.js:390-394 | a move keeps the length, puts the moved entry at `to` and keeps the others in order |
| `Manager.MovedPermutes` | content.js:390-394 | a move keeps the multiset of chapters |
| `Manager.MovedInPlace` | content.js:390-394 | `moveChapter(i, i)` changes nothing |
| `Manager.MovedBack` | content.js:390-394 | moving back from `to` to `from` undoes a move |
| `Manager.MovedAdjacent` | content.js:380-386 | the up and down buttons exchange an entry with its neighbour |
| `Manager.FirstLater` | content.js:448 | `find` returns a canonical chapter starting later, and none exactly when none starts later |
| `Manager.FirstLaterIsEarliest` | content.js:448 | on a sorted timeline the chapter found is the earliest later one |
| `Manager.FirstLaterAt` | content.js:448 | the chapter found is the one at the first index with a later time |
| `Manager.ChapterDuration` | content.js:442-453 | an entry with a next entry plays for a positive time; the last plays to the end of the video |
| `Manager.DurationFollowsTimeline` | content.js:442-453 | a duration is the gap to the next canonical chapter, 60 s after the last canonical chapter, or the rest of the video for the last working-order entry |
| `Manager.DefaultDurationExample` | content.js:442-453 | timeline 0, 60, 180 played as 180, 0, 60 in 300 s gives durations 60, 60 and 240 |
| `Manager.ShouldAdvance` | content.js:435-436 | advancing needs a next entry and a playhead past the current entry's start |
| `Manager.AdvanceAtNextChapter` | content.js:428-453 | playing the timeline in its own order advances exactly when the playhead reaches the next chapter |
| `Manager.LastEntryStays` | content.js:435 | the last working-order entry never advances |
| `Manager.NextIndex` | content.js:428-440 | one event moves the index by at most one, only when the advance test passes, and never past the order |
| `Manager.IndexAfterBounds` | content.js:396-440 | from any index in the order, any run of events keeps the index in the order, moving forward at most one per event |
| `Manager.PlaybackExample` | content.js:428-453 | timeline 0, 30, 90 played as 90, 0, 30 in 150 s: the first entry advances at 150 s, the second at 30 s, the last never |
| `Manager.PlaybackRunExample` | content.js:396-440 | the same playback driven by events reaches the last entry and stays there |
| `Manager.ChapterManager.constructor` | content.js:3-18 | a new manager holds the extracted timeline, the working order equal to it, and index 0 |
| `Manager.ChapterManager.ExtractChapters` | content.js:40-211 | the timeline and the working order both become the extracted chapters; the video is untouched |
| `Manager.ChapterManager.ResetOrder` | content.js:336-338 | the working order becomes the timeline again |
| `Manager.ChapterManager.MoveChapter` | content.js:390-394 | the working order becomes the moved order and stays a permutation of the timeline |
| `Manager.ChapterManager.MoveUp` | content.js:380-382 | the up button moves an entry up only when it is not first |
| `Manager.ChapterManager.MoveDown` | content.js:383-385 | the down button moves an entry down only when it is not last |
| `Manager.ChapterManager.PlayChapter` | content.js:408-426 | seek to the entry's start and play; past the end nothing changes |
| `Manager.ChapterManager.PlayCustomOrder` | content.js:396-406 | on a non-empty order the index becomes 0 and the video seeks to the first entry and plays; on an empty order nothing changes |
| `Manager.ChapterManager.HandleVideoProgress` | content.js:428-440 | the index advances by exactly one and the video seeks to the new entry when a next entry exists and the playhead passed the current entry's duration; otherwise nothing but the playhead changes |

## Left out

- Waiting for the video (`waitForVideo`), the start-up delays, the page-navigation observer and re-initialisation (content.js:20-38, 456-501): timers and page events. The constructor takes the video's playhead, duration and paused flag as parameters.
- The panel, the list rendering, drag and drop, the toggle, debug and per-chapter play buttons (content.js:234-373, 376-379): page markup and UI. Only the index guards of the up and down buttons are modelled (`MoveUp`, `MoveDown`).
- MoveChapter: requires both indices inside the working order. The drop handler (content.js:315-319) passes `parseInt` of the drag data and of the target's index, so a non-numeric text (NaN, which `splice` reads as 0), a negative index (which `splice` counts from the end) or an index past the end (which splices in `undefined`) is not modelled.
- DOM queries and optional chaining are replaced by the abstract `Page` value. Each strategy reads the part of it that stands for what its selectors find.
- The progress-bar position: the source multiplies a parsed float percentage by the float duration. The model takes the resulting whole-second start as given, or `None` when the style has no `left:` percentage or the video has no duration.
- `Number()` on anything but a digit string: only digit strings (the empty one reads as 0) are read as numbers, anything else is NaN (`None`). Decimal points, signs and white space inside a part are not modelled.
- A renderer without `timeRangeStartMillis`: the first path would give a NaN start and the second path 0 (`|| 0`). The input type gives every renderer a whole number of milliseconds; a missing renderer (`NoRenderer`) is modelled on both paths.
- Video time, duration and the fallback spacing are whole seconds. `BuildFallback` uses exact integer division `i * d / n` for `Math.floor(i * (d / n))`, where floating-point rounding might differ by one second for some durations.
- The `timeupdate` subscription: every `playCustomOrder` call adds another listener that is never removed, so listeners pile up. The model has one handler call per event, `HandleVideoProgress(playhead)`.
- Logging, the `alert` of the debug button and the highlighting of the current list item: output only.
- `popup.js` is not part of this model. Its messages have no handler in `content.js`.
