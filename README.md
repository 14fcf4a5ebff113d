# showbrake in Dafny

showbrake is a Ruby script that rips TV episodes from a DVD or Blu-ray disc with HandBrakeCLI. This
project models its deterministic core and proves properties of that model:

- **The disc scan.** `Disc.new` reads HandBrakeCLI's scan output one line at a time.
  For each line it:
  - records the announced title count (once);
  - advances the scanned-titles counter;
  - then classifies the line as one of:
    - the end of the scan;
    - a `+ title N:` line, which appends a `Title`;
    - a section header (`+ chapters:`, `+ audio tracks:`, `+ subtitle tracks:`);
    - a four-space data line, which appends a chapter, audio track or subtitle track
      to the last title.
- **Durations.** A chapter's duration is read from `duration HH:MM:SS` in its text. A
  title's duration is the sum of its chapters, and the disc's is the sum of its titles.
  `duration_s` formats a duration.
- **The episode suggestion.**
  1. Keep the titles of at least 600 s.
  2. Take the second-longest of them as the baseline.
  3. Drop the titles more than a quarter away from the baseline.
  4. Build the default answer of the episode prompt from what is left: chapters of a
     lone title, the lone title whole, or every surviving title by index.
- **Episode descriptors.**
  - The pattern a typed answer must match.
  - The parse of each word into an `Episode` (a title, optionally one chapter or a
    chapter range).
  - `Episode#valid?` against the disc.
  - The prompt's rule of accepting only when every episode is valid.

The model has two layers:

- **Values.** Modules `Text`, `Seqs`, `ScanLines`, `DiscModel`, `Episodes`,
  `Suggestion` and `Media` hold:
  - the string matchers;
  - the scan as a state machine (`Step`, `Run`);
  - the suggestion as functions of the title list.
- **Objects.** Module `Discs` models the objects the source mutates:
  - class `Title`, whose `AddData` appends in place;
  - class `Disc`, whose counter setters, per-line handler and scan loop change its
    fields.

  Each method is proved to produce what `Step`/`Run` say, through `Disc.Models`.

**No newlines.** Scan lines, typed answers and their words hold no newline at all:
`each_line` ends a line at its only newline, which the model drops, and the answer is
`gets.strip`, split at spaces. Ruby's `^` and `$` match at every line boundary, not
only at the ends of the string, so the matchers (`DataLineMatch`, `Shape`, `Grammar`)
agree with the regexes on such newline-free text, which is all the program gives them.

**Crashing data line.** Line 335 of the source is unguarded. A data line that comes
before any header, or after a title line but before its header, is `nil.new`. One that
comes after a header but before any title is `nil.add_data`. Both raise, ending `Disc.new`. The model
returns them as `ScanError` values:
- `NoDataClass` comes first, because Ruby evaluates the argument before the call.
- `NoTitle` covers the case with no title.

**Deviation test.** `normal * 0.25` becomes `4 * |normal - d| > normal`. Both
durations are integers, so the float comparison agrees with this test.

**Sorting.** `sort!` is not stable. It is modelled by one fixed insertion sort, and
`PlanTieFree` shows that every other duration order gives the same suggestion.

**Empty suggestion.** When no title reaches 600 s, the suggestion is the empty string.
An empty answer returns the default without checking it against the pattern, so this
empty suggestion is accepted as zero episodes (`EmptyDefault`).

## Model

| member | source | states |
|---|---|---|
| ScanLines.ClassifyPriority | showbrake.rb:322-334 | each line kind is chosen exactly when its pattern occurs somewhere in the line and no earlier pattern of the chain does |
| ScanLines.NumberAtMatch | showbrake.rb:318-325 | for a suffix that starts with a non-digit (all four the scan uses do), the matcher succeeds exactly when `pre`, a non-empty digit run and `suf` occur in that order, and its value is the `to_i` of the captured digits |
| ScanLines.DataLineMatch | showbrake.rb:334 | a data line starts with four spaces and `+ `, and the captured rest is a suffix of the line at least eight characters shorter |
| ScanLines.DataLineMatchIff | showbrake.rb:334-335 | the matcher succeeds exactly when the line is four spaces, `+ `, a non-empty digit run, `:` or `,`, and a space; the number is the digits' `to_i` and the rest is everything after that space |
| ScanLines.DurationAt | showbrake.rb:431-432 | a duration match is at most 99:99:99 |
| ScanLines.DurationAtMatch | showbrake.rb:431-432 | the matcher succeeds exactly when `duration ` is followed by three colon-separated two-digit groups, and it is worth `H*3600 + M*60 + S` for the groups' `to_i` |
| ScanLines.ChapterDurationLeftmost | showbrake.rb:430-433 | a chapter's duration is the value of the leftmost `duration HH:MM:SS` in its text |
| ScanLines.ChapterDurationNone | showbrake.rb:430-433 | a chapter whose text holds no such match lasts 0 s |
| ScanLines.ChapterDurationBound | showbrake.rb:430-433 | a chapter never lasts more than 99:99:99 |
| ScanLines.ChapterDurationExample | showbrake.rb:431-432 | `duration 00:10:30` is 630 s |
| DiscModel.RunErrSticks | showbrake.rb:335 | once a line raises, the rest of the output is never read: the scan's outcome is that error |
| DiscModel.StepWellFormed | showbrake.rb:325-335 | each line keeps every title's index equal to its position and every item in the list of its own class |
| DiscModel.RunWellFormed | showbrake.rb:316-338 | every scan from a well-formed state keeps title indices exactly 0..n-1 in append order, and items sorted by class |
| DiscModel.RunTitleCount | showbrake.rb:346-348 | the expected title count is set at most once: it is the state's own if set, else the count of the first line announcing one; nil and later values are ignored |
| DiscModel.FirstCountSnoc | showbrake.rb:346-348 | the first announced count of a longer output is the set-once update of the shorter one's |
| DiscModel.StepScanned | showbrake.rb:355-359 | one line never lowers `@titles_scanned` and never lifts it past `@title_count.to_i` (0 while unset) |
| DiscModel.RunScanned | showbrake.rb:354-359 | over the whole scan `@titles_scanned` only grows and stays within the expected count |
| DiscModel.StepTitleLine | showbrake.rb:325-327 | a `+ title N:` line appends exactly one title, numbered N with index the prior title count, and resets the data class |
| DiscModel.StepHeader | showbrake.rb:328-333 | a header line selects the data class its words name and changes no title; it needs no title |
| DiscModel.StepDataLine | showbrake.rb:334-336 | a data line raises exactly when the data class is nil (first) or there is no title; otherwise it appends one item to the list of the current class of the last title, leaving the other lists, the number, the index and all earlier titles unchanged |
| DiscModel.StepOther | showbrake.rb:322-324 | the scan-done line and unmatched lines change neither the titles nor the data class |
| DiscModel.ChaptersDurationConcat | showbrake.rb:403-405 | a title's duration, the sum of its chapters' durations, adds up over any split of the chapter list |
| DiscModel.DiscDurationConcat | showbrake.rb:362-364 | a disc's duration, the sum of its titles' durations, adds up over any split of the title list |
| DiscModel.DiscDurationChapters | showbrake.rb:362-364 | the disc's duration, the sum of its titles' durations, is the total duration of all its chapters together, however they are spread over the titles |
| DiscModel.StepDuration | showbrake.rb:362-364 | the disc's duration grows only by chapter lines, each adding its own parsed duration; no other line changes it |
| Discs.Title.constructor | showbrake.rb:387-393 | a new title has the given number and index and three empty lists |
| Discs.Title.AddData | showbrake.rb:395-401 | the item is appended in place to the list of its class, nothing else changes |
| Discs.Disc.constructor | showbrake.rb:310-312 | before the scan: no titles, no count, nothing scanned |
| Discs.Disc.SetTitleCount | showbrake.rb:346-348 | `title_count=` leaves the count alone when already set or given nil, else stores the value |
| Discs.Disc.SetTitlesScanned | showbrake.rb:354-360 | the loop counts `@titles_scanned` up one at a time to `[value.to_i, @title_count.to_i].min`, never down |
| Discs.Disc.UpdateCounters | showbrake.rb:320-321 | both setters run on every line, before the chain, as `Counted` says |
| Discs.Disc.Record | showbrake.rb:322-336 | the chain on the objects does what `Dispatch` says: new title objects are fresh and appended, old ones stay in place |
| Discs.Disc.OpenTitle | showbrake.rb:326 | a title line appends one fresh `Title` object, numbered as the line says and indexed by its position, and leaves the objects before it in place |
| Discs.Disc.AddToLastTitle | showbrake.rb:335 | a data line changes only the last title object, in place, to the value `AddToLast` gives; the list of objects stays the same |
| Discs.Disc.HandleLine | showbrake.rb:318-337 | the block on one line does what `Step` says, including its errors, on the objects |
| Discs.Disc.Scan | showbrake.rb:316-338 | the line loop ends without error exactly when `Run` does, reports `Run`'s error otherwise, and leaves the objects holding `Run`'s final state |
| Discs.ReadDisc | showbrake.rb:309-338 | `Disc.new` on a scan output: a fresh disc whose objects hold the scan's result, or the scan's error |
| Episodes.Shape | showbrake.rb:256 | a match of `^(\d+)(?:\.(\d+)(?:-(\d+))?)?$` yields digit groups, the last only after the second, that spell the word back |
| Episodes.ShapeText | showbrake.rb:256 | every such group triple is matched back from its text (the match is complete) |
| Episodes.ParseEpisodeText | showbrake.rb:254-265 | parsing an episode's canonical text gives the episode back |
| Episodes.ParseEpisodeNone | showbrake.rb:256-257 | `Episode.new` raises exactly on words not of the shape digits, optionally `.` digits, optionally `-` digits |
| Episodes.ParseZero | showbrake.rb:256-264 | the token regex admits `0`, which parses to title 0 |
| Episodes.ParseLeadingZero | showbrake.rb:256-264 | groups go through `to_i`, so leading zeros are read as decimal (`1.07` is chapter 7 of title 1) |
| Episodes.ValidCovers | showbrake.rb:267-276 | a valid episode names a title of the disc; its chapter, or both ends of its range, are chapters of that title, and so is every chapter between the ends; with `ValidWhen` this is the full if-and-only-if of `valid?` |
| Episodes.ValidWhen | showbrake.rb:267-276 | an episode whose title is on the disc and whose chapter or both range ends lie in `1..chapters.length` is valid |
| Episodes.RangeUnordered | showbrake.rb:272-273 | range order is not checked: `a..b` is valid exactly when `b..a` is |
| Episodes.TitleZeroInvalid | showbrake.rb:268 | title 0 is never valid |
| Episodes.NatStrOfNum | showbrake.rb:166 | a `[1-9]\d*` number is at least 1 and is `to_s` of its value |
| Episodes.TokenText | showbrake.rb:166 | an episode's canonical text is a pattern token exactly when all its numbers are at least 1 |
| Episodes.TokenParses | showbrake.rb:166 | every pattern token parses, to a positive episode whose canonical text is the token |
| Episodes.GrammarJoin | showbrake.rb:166 | tokens joined by single spaces match the pattern |
| Episodes.GrammarSplit | showbrake.rb:166-167 | a string that matches the pattern is non-empty, is its own `split(' ')` words joined by spaces, and each word is a token |
| Episodes.ParseAll | showbrake.rb:167 | the `map` over the words succeeds exactly when every word parses, giving each word's episode in order |
| Episodes.GrammarAttempt | showbrake.rb:165-168 | a typed answer matching the pattern never raises; it gives at least one positive episode per word, accepted exactly when all are valid and asked again otherwise |
| Episodes.SingleAttempt | showbrake.rb:165-168 | a one-episode answer is accepted when that episode is valid and asked again otherwise |
| Episodes.ReversedRangeAccepted | showbrake.rb:267-276 | `1.5-2` is accepted on a disc whose first title has six chapters |
| Suggestion.UsableMembers | showbrake.rb:138 | the usable titles are exactly the titles of at least 600 s |
| Suggestion.CandidatesLong | showbrake.rb:138-143 | every surviving candidate is a title of the disc lasting at least 600 s |
| Suggestion.BaselineSurvives | showbrake.rb:140-142 | with more than one usable title the second-longest survives the deviation filter |
| Suggestion.CandidateIff | showbrake.rb:138-143 | with more than one usable title, a title survives exactly when it is long and `4*abs(normal - d) <= normal`; with at most one, exactly when it is long |
| Suggestion.CandidatesExist | showbrake.rb:138-143 | there is a candidate exactly when some title lasts at least 600 s |
| Suggestion.PlanTieFree | showbrake.rb:138-159 | any duration order of the long titles (any way `sort!` breaks ties) gives the same suggestion |
| Suggestion.SurvivorsPermutation | showbrake.rb:140-143 | duration orders with the same durations position by position keep the same survivors |
| Suggestion.PlanForPermutation | showbrake.rb:145-160 | the suggestion depends only on which titles survive, not on their order |
| Suggestion.ByIndexPermutation | showbrake.rb:158 | sorting the same titles by index gives the same index sequence |
| Suggestion.PlanSource | showbrake.rb:145-160 | every suggested episode is a candidate written as its index + 1 (never its HandBrake number), whole or at one of its chapters' numbers |
| Suggestion.PlanSeveral | showbrake.rb:157-159 | with zero or several candidates, each is suggested whole, in ascending index order |
| Suggestion.PlanSeveralCovers | showbrake.rb:157-159 | with zero or several candidates, every candidate appears in the suggestion |
| Suggestion.PlanSingle | showbrake.rb:145-156 | a lone candidate is suggested alone, split at its long chapters in list order exactly when it has more than one chapter and more than one of them lasts at least 600 s, whole otherwise |
| Suggestion.RenderParses | showbrake.rb:167 | splitting and parsing a rendered episode list gives the list back |
| Suggestion.SuggestParses | showbrake.rb:145-167 | the suggestion read as the answer is the planned episodes |
| Suggestion.SuggestEmpty | showbrake.rb:138-160 | the suggestion is the empty string exactly when no title reaches 600 s |
| Suggestion.SuggestionAccepted | showbrake.rb:145-168 | on a disc whose titles sit at their index and whose chapter numbers lie within their title, the prompt accepts the suggestion as the planned episodes |
| Suggestion.PlanPositive | showbrake.rb:145-160 | on such a disc every suggested number is at least 1 |
| Suggestion.SuggestionMatchesPattern | showbrake.rb:145-166 | on such a disc with a long title the suggestion also matches the pattern typed answers must match |
| Suggestion.EmptyDefault | showbrake.rb:166-168 | the empty default fails the pattern but is accepted, as no episodes |
| Suggestion.ScanSuggestionAccepted | showbrake.rb:134-168 | for every completed scan whose chapter numbers lie within their title, the suggestion is accepted as the planned episodes |
| Media.Pad2 | showbrake.rb:243 | `%02d` of a number under 100 is two digits reading back as the number |
| Media.ReadDurationText | showbrake.rb:240-246 | the formatted duration reads back as the duration |
| Media.DurationTextInjective | showbrake.rb:240-246 | different durations are formatted differently |
| Media.DurationTextHours | showbrake.rb:244 | the hour part is printed exactly from one hour on |

## Left out

- The prompts are not modelled: `Application.readline`, `choose`, `confirm`, and the
  questions about show, season, episode, subtitles and decombing. They read stdin. The
  re-prompt loop around the episode answer is left out too; one pass of it is
  `Episodes.Attempt`. The model does not decide whether the answer is typed or the
  default.
- The subprocess calls are not modelled: `Handbrake.exec` and `Handbrake.rip`. The
  scan's output enters as the `lines` parameter of `Discs.Disc.Scan`.
- The filesystem is not modelled: `Disc.list_of_volumes` and `media_type`.
- `Iflicks`, `Persist` and `AnsiEscape` are left out: automation, YAML storage and
  terminal control.
- All printing is left out: `print_breakdown`, the progress output of `title_count=`
  and `titles_scanned=`, and the cursor moves of the scan-done branch. `Media.DurationText`
  computes the text `duration_s` returns; nothing prints it.
- `ENCODING_DEFAULTS` is left out. It is static configuration for the rip.
- Regex matching is modelled only for the fixed patterns of the core, one matcher each.
  Lines are taken without the trailing newline `each_line` keeps.
- Lines are modelled as character strings, so the model has no invalid byte sequences.
  In the source, a scan line holding bytes invalid in the current encoding makes the
  regexes at showbrake.rb:318-334 raise `ArgumentError`, which ends `Disc.new`; the
  model never raises there.
- Discs.Disc.HandleLine: on an error, the contract says only which error is raised. The
  counter updates the line made before raising are not stated, since the exception ends
  `Disc.new` and the disc object is never used.
- Suggestion.SuggestionAccepted: the chapter numbers come from the tool's output. That
  they lie within their title is a premise, not something the scan guarantees.
