# Spill journal view: a Dafny model

Spill is a minimal macOS journaling app. Its one view, `ContentView`, holds a
text buffer the writer types into, a sidebar list of entries, a fifteen-minute
writing timer, a font-size button and live dictation through the system
speech recognizer. This project models the logic of that view and proves what
it guarantees:

- **Dictation** (`dictation.dfy`, `dictation_scenarios.dfy`). The buffer
  has two writers: the recognizer's callback and the person typing. The view
  remembers the committed text (`baseTextBeforeDictation`) and the latest
  provisional transcript (`currentPartialText`). While recording, the buffer
  is their concatenation, and any other content is taken as a manual edit.
  After an edit, the next recognition result is discarded and recognition is
  restarted on top of the edited text. A final result is committed with a
  trailing space and also restarts recognition. `DictationState` is a class
  whose methods are the event handlers. Its `Valid()` invariant is kept by
  every handler. The scenario methods replay whole sessions on a fresh state
  and prove the buffers an observer sees.
- **Titles and previews** (`title.dfy`, `preview.dfy`, `text.dfy`). The
  export file name is the first four cleaned words joined by hyphens, or
  "Entry <date>". The sidebar preview is the content on one line, trimmed and
  cut to thirty characters plus "...". `Text` holds the Foundation string
  operations both use: trimming a character set, replacing a character,
  splitting on a character set, joining, and ASCII lowercasing.
- **Timer** (`timer.dfy`). There are two pure parts: the scroll-wheel
  adjustment and the "m:ss" caption, using Swift's truncating division. The
  class `Countdown` holds the running state and handles ticks, scroll events,
  clicks and typing.
- **Font size** (`fontsize.dfy`). The button cycles through a fixed list of
  sizes.
- **Entries** (`entries.dfy`). The class `Journal` holds the sidebar list and
  the selection. It supports inserting a new entry, deleting one with
  reselection, and refreshing one entry's preview.

Each event handler runs to completion on the main queue, so each method is
one atomic step. A write by the view to `text` triggers the view's change
handler. Every scenario models this by calling `OnTextChange` with the buffer
just written after each write by the view. While the invariant holds such a
call changes nothing, because the buffer already equals base plus partial. A block deferred with `asyncAfter(0.05)` is counted in
`pendingRestarts` and runs when `FireRestart` is called.

### Behaviour of the code as written

- `isProcessingUserEdit` never survives a handler. Each path that sets it
  calls `stopRecording`, which clears it at once. `Valid()` states this, so
  the guard on that flag in the result callback never fires between events.
- `stopRecording` appends a space when the buffer is longer than the base and
  does not end in a space. This applies in two more cases:
  - when a final result is empty but a partial is still showing;
  - when an error arrives while a partial is showing.
  There the partial text stays in the buffer, followed by a space unless it
  already ends in one. When no partial is pending these events leave the
  buffer as it was
  (`Dictation.DictationState.OnResult`, `OnError`,
  `DictationScenarios.EmptyFinalKeepsPartial`, `DictationScenarios.ErrorStops`).
- `stopRecording` does not cancel a deferred restart. A final result or a
  handled edit stops the session itself and schedules a restart. If a new
  session is started and then stopped by hand before that restart runs, the
  restart starts recording again
  (`DictationScenarios.StopDoesNotCancelRestart`).
- When the audio engine fails to start, the `stopRecording` that follows does
  nothing, because recording is already off. The base is left equal to the
  buffer.

## Model

| member | source | states |
|---|---|---|
| Dictation.Flushed | spill/ContentView.swift:1579-1581 | stopping leaves the buffer as it is or adds one space; the space is added exactly when the buffer is longer than the base and does not end in a space; afterwards a buffer longer than its base ends in a space |
| Dictation.DictationState.Valid | spill/ContentView.swift:94-103 | no contract of its own; the invariant between events: the edit-processing flag is off, while recording the buffer is base plus partial, a flagged edit has no partial, and no partial shows while stopped. Every handler's `ensures Valid()` keeps it |
| Dictation.DictationState.constructor | spill/ContentView.swift:94-103 | the initial dictation state: not recording, empty base and partial, no edit flagged, nothing scheduled; it satisfies the invariant |
| Dictation.DictationState.Stop | spill/ContentView.swift:1557-1589 | a no-op when not recording; otherwise the buffer is flushed, base, partial and both flags are cleared and recording is off; scheduled restarts are untouched |
| Dictation.DictationState.Begin | spill/ContentView.swift:1443-1551 | with the recognizer unavailable or access denied nothing changes; otherwise a running session is stopped (flushing the buffer), the buffer becomes the base, the edit flag is cleared, and recording is on exactly when the engine started; the invariant is kept |
| Dictation.DictationState.Toggle | spill/ContentView.swift:809-815 | the microphone button stops a running session (flushing) and otherwise starts one as Begin does |
| Dictation.DictationState.OnTextChange | spill/ContentView.swift:1174-1187 | while recording, a buffer different from base plus partial is flagged as an edit and becomes the new base with no partial; otherwise only the buffer changes; the view's own write of the current buffer changes nothing |
| Dictation.DictationState.OnResult | spill/ContentView.swift:1477-1524 | not recording: nothing changes. After an edit: the buffer stays as typed, recording stops and one restart is scheduled. Partial: the buffer is base plus the transcript and recording goes on. Final: the buffer is base plus transcript plus a space (an empty transcript only flushes), recording stops and one restart is scheduled |
| Dictation.DictationState.OnError | spill/ContentView.swift:1526-1531 | an error stops a running session with the flushed buffer and schedules nothing; otherwise nothing changes |
| Dictation.DictationState.FireRestart | spill/ContentView.swift:1497-1500 | a deferred restart consumes one scheduled block, clears the edit-processing flag and starts recording as Begin does |
| DictationScenarios.SpokenSentence | spill/ContentView.swift:1504-1523 | two partial results show "hello" then "hello world"; the final "hello world." is committed as "hello world. " with one restart; the restarted session builds on it |
| DictationScenarios.EditWinsOverTranscript | spill/ContentView.swift:1489-1501 | after a manual edit, the next result is discarded, the edited buffer stays, one restart is scheduled and the new base is the edited buffer |
| DictationScenarios.ErrorStops | spill/ContentView.swift:1526-1531 | an error stops dictation with no restart; the buffer is unchanged with no partial showing, and a showing partial is kept with a space |
| DictationScenarios.EmptyFinalKeepsPartial | spill/ContentView.swift:1504-1518 | an empty final result after the partial "b" on base "a " leaves "a b " and schedules one restart |
| DictationScenarios.StopDoesNotCancelRestart | spill/ContentView.swift:1515-1518 | a restart scheduled by a final result resumes recording even when a session started and stopped by hand came in between |
| DictationScenarios.LateCallbacksIgnored | spill/ContentView.swift:1480 | results and errors that arrive after stopping change neither the buffer nor the scheduled restarts |
| Text.SkipForward | spill/ContentView.swift:1237 | from a start index, the end of the run of characters in the set: every character passed is in the set and the one it stops at is not |
| Text.SkipBackward | spill/ContentView.swift:1237 | the same run measured backwards from an end index |
| Text.Trim | spill/ContentView.swift:1237 | trimming gives the infix left after removing leading and trailing characters of the set; its ends are not in the set; it is empty exactly when every character is in the set; it holds only characters of the input |
| Text.TrimFixed | spill/ContentView.swift:1237 | a string whose ends are not in the set is left unchanged by trimming |
| Text.TrimIdempotent | spill/ContentView.swift:1237 | trimming twice is trimming once |
| Text.Replace | spill/ContentView.swift:1246 | replacing a character keeps the length, maps each occurrence to the replacement, keeps every other character, and leaves none of the replaced character |
| Text.ReplaceAbsent | spill/ContentView.swift:1077-1078 | replacing a character that does not occur is the identity |
| Text.Lower | spill/ContentView.swift:1251 | ASCII lowercasing of a character: upper-case letters move by 32 and nothing else changes; no upper-case letter is left |
| Text.LowerString | spill/ContentView.swift:1251 | lowercasing a string lowercases each character and keeps the length |
| Text.Split | spill/ContentView.swift:1247 | splitting on a character set yields at least one piece |
| Text.SplitChars | spill/ContentView.swift:1247 | the pieces hold only characters of the input and no separator |
| Text.SplitNoSep | spill/ContentView.swift:1247 | text without a separator is one piece, itself |
| Text.SplitAtSep | spill/ContentView.swift:1247 | the text is cut at every separator: the pieces of `a + [c] + b` for a separator `c` are the pieces of `a` followed by the pieces of `b`, so with Text.SplitNoSep the pieces are fixed in content, order and number |
| Text.SplitPieces | spill/ContentView.swift:1247 | the pieces concatenate to the input without its separators, and there is one piece more than there are separators |
| Text.Join | spill/ContentView.swift:1262 | no contract of its own; its properties are Text.JoinChars, Text.SplitJoin and Title.JoinFour |
| Text.SplitJoin | spill/ContentView.swift:1247 | joining pieces free of separators with one separator character and splitting again gives back exactly the pieces |
| Text.JoinChars | spill/ContentView.swift:1262 | joining starts with the first piece and holds only characters of the pieces and of the separator |
| Title.NonEmpty | spill/ContentView.swift:1248 | filtering keeps every non-empty string of the input and nothing else |
| Title.NonEmptyAppend | spill/ContentView.swift:1248 | filtering a concatenation is the concatenation of the filtered parts, so order and repeats are kept |
| Title.NonEmptyOne | spill/ContentView.swift:1248 | a single string is kept exactly when it is not empty; with Title.NonEmptyAppend this fixes the filter's result |
| Title.CleanWord | spill/ContentView.swift:1249-1252 | no contract of its own; its properties are Title.CleanWordShape |
| Title.TitleWords | spill/ContentView.swift:1245-1253 | no contract of its own; its properties are Title.TitleWordsShape and Title.NoWordsInBlank |
| Title.ExtractTitle | spill/ContentView.swift:1235-1267 | no contract of its own; its properties are Title.ExtractTitleIsSlug, Title.FallbackIffNoWords and Title.SlugHasNoBlanks |
| Title.CleanWordShape | spill/ContentView.swift:1249-1252 | a cleaned word from a piece without blanks or line feeds, if not empty, has no blank, line feed or upper-case letter and no punctuation at either end |
| Title.TitleWordsShape | spill/ContentView.swift:1245-1253 | every title word is non-empty, has no blank, line feed or upper-case letter, and has no punctuation at either end |
| Title.NoWordsInBlank | spill/ContentView.swift:1237-1242 | content that is empty after trimming has no words, so the early return is the same as the fallback |
| Title.JoinFour | spill/ContentView.swift:1256-1257 | the four-word interpolation equals joining the first four words with hyphens |
| Title.ExtractTitleIsSlug | spill/ContentView.swift:1235-1267 | the title is "Entry <date>" when there are no words, otherwise the first min(4, n) words joined by hyphens |
| Title.FallbackIffNoWords | spill/ContentView.swift:1235-1267 | the fallback title is returned if and only if the content has no words |
| Title.SlugHasNoBlanks | spill/ContentView.swift:1256-1262 | a title built from words holds no blank and no line feed |
| Preview.Normalized | spill/ContentView.swift:1077-1079 | no contract of its own; its properties are Preview.NormalizedShape |
| Preview.Truncate | spill/ContentView.swift:1080 | no contract of its own; its properties are Preview.TruncateShape |
| Preview.Preview | spill/ContentView.swift:1077-1080 | no contract of its own; its properties are Preview.PreviewShape and Preview.PreviewIdempotent |
| Preview.NormalizedShape | spill/ContentView.swift:1077-1079 | the normalized content holds no line feed and does not start or end with white space |
| Preview.TruncateShape | spill/ContentView.swift:1080 | truncation keeps text of at most 30 characters; longer text becomes its first 30 characters followed by "..."; line feeds and white space at the ends do not appear |
| Preview.PreviewShape | spill/ContentView.swift:1077-1080 | a preview has no line feed and no white space at its ends; it is the whole normalized content when that has at most 30 characters, else its first 30 characters and "..." |
| Preview.PreviewIdempotent | spill/ContentView.swift:1077-1080 | every preview is already in normal form: the preview of a preview is the same preview. The app does not rely on this |
| Timer.Quot | spill/ContentView.swift:345 | Swift's `/` truncates toward zero: the remainder lies in [0, b) for a non-negative dividend and in (-b, 0] for a negative one |
| Timer.Rem | spill/ContentView.swift:346 | Swift's `%` is the remainder of the truncating quotient and takes the sign of the dividend |
| Timer.ScrollAdjust | spill/ContentView.swift:575-581 | no contract of its own; its properties are Timer.ScrollAdjustRange, Timer.ScrollAdjustDirection and Timer.ScrollDivisionAgrees |
| Timer.ScrollAdjustRange | spill/ContentView.swift:576-582 | a scroll notch always gives a time in [0, 2700] that is a multiple of 120 seconds or exactly 2700 |
| Timer.ScrollAdjustDirection | spill/ContentView.swift:576-582 | for a time the timer can hold, scrolling up never lowers it and raises it below the maximum; scrolling down never raises it and lowers it above zero |
| Timer.ScrollDivisionAgrees | spill/ContentView.swift:576-580 | for non-negative times, truncating and Euclidean division give the same scroll result |
| Timer.ScrollDivisionDiffersWhenNegative | spill/ContentView.swift:576-580 | for -30 s the two divisions give different results (120 and 0) |
| Timer.FormatInt | spill/ContentView.swift:347 | no contract of its own; `%d` for the minutes, a minus sign before the digits of a negative number; its properties are Timer.DigitsRoundTrip and Timer.ClockRoundTrip |
| Timer.FormatInt2 | spill/ContentView.swift:347 | no contract of its own; `%02d` for the seconds; its properties are Timer.TwoDigits and Timer.ClockRoundTrip |
| Timer.TimerTitle | spill/ContentView.swift:341-348 | no contract of its own; its properties are Timer.ClockRoundTrip and Timer.DefaultTitleAgrees |
| Timer.DigitsShape | spill/ContentView.swift:347 | every character `%d` prints for a natural number is a decimal digit, and the first is '0' exactly when the number is zero |
| Timer.TwoDigits | spill/ContentView.swift:347 | `%02d` prints seconds below sixty as two decimal digits that read back as the seconds |
| Timer.DigitsRoundTrip | spill/ContentView.swift:347 | the decimal digits of a natural number read back as that number |
| Timer.ClockRoundTrip | spill/ContentView.swift:341-348 | the caption of any non-negative time is "m:ss": decimal digits everywhere except the colon third from the end, minutes without a leading zero, seconds below 60, and it reads back as that time |
| Timer.DefaultTitleAgrees | spill/ContentView.swift:342-344 | the fixed caption "15:00" of the idle default equals the general format for 900 seconds |
| Timer.Countdown.Valid | spill/ContentView.swift:56-57 | no contract of its own; the time stays in [0, 2700]. Every method's `ensures Valid()` keeps it |
| Timer.Countdown.constructor | spill/ContentView.swift:56-57 | the timer starts at 900 seconds, stopped |
| Timer.Countdown.Tick | spill/ContentView.swift:1035-1038 | a running timer above zero loses one second; at zero it stops; otherwise nothing changes; the time stays in [0, 2700] |
| Timer.Countdown.Scroll | spill/ContentView.swift:571-582 | the time changes only while hovering with a scaled delta (a quarter of the wheel delta) of at least 0.1 in magnitude, and then to the scroll adjustment; running is unchanged |
| Timer.Countdown.Click | spill/ContentView.swift:540-550 | a double click resets to 900 s and stops; a single click toggles running and keeps the time |
| Timer.Countdown.OnTyping | spill/ContentView.swift:1189-1192 | after typing, the timer runs exactly when it was running or the text has a character that is not white space |
| Timer.Countdown.TypingPaused | spill/ContentView.swift:1198-1202 | three seconds without typing stop the timer and keep the time |
| FontSize.IndexOf | spill/ContentView.swift:454 | the first index of a size in the list, or none exactly when the size is not listed |
| FontSize.IndexOfDistinct | spill/ContentView.swift:454 | in a list without repeats, each element's first index is its own index |
| FontSize.NextFontSize | spill/ContentView.swift:454-457 | no contract of its own; its properties are FontSize.NextOf, FontSize.NextFontSizeSteps and FontSize.NextFontSizeUnlisted |
| FontSize.NextOf | spill/ContentView.swift:454-457 | a click on the size at index i selects the size at (i + 1) mod 6 |
| FontSize.NextFontSizeSteps | spill/ContentView.swift:110 | a listed size steps to the next, two points larger, and 26 wraps to 16 |
| FontSize.NextFontSizeUnlisted | spill/ContentView.swift:454-457 | a size that is not in the list is kept |
| Entries.IndexOfId | spill/ContentView.swift:1083 | the first index of an entry with the given identifier, or none exactly when no entry has it |
| Entries.RemoveAt | spill/ContentView.swift:1217 | removal at an index shifts the later entries down by one and keeps the earlier ones |
| Entries.RemoveAtRemovesId | spill/ContentView.swift:1216-1217 | with unique identifiers, removing the found entry leaves no entry with its identifier and keeps the others unique |
| Entries.Journal.Valid | spill/ContentView.swift:51 | no contract of its own; the entries carry distinct identifiers. Every method's `ensures Valid()` keeps it |
| Entries.Journal.constructor | spill/ContentView.swift:51 | the list starts empty with nothing selected |
| Entries.Journal.InsertNew | spill/ContentView.swift:1118-1121 | a new entry with a fresh identifier goes to the front and is selected; identifiers stay unique |
| Entries.Journal.Delete | spill/ContentView.swift:1206-1232 | when the file removal failed or the entry is absent nothing changes; otherwise the entry is removed, the selection is kept unless it was the deleted entry, which gives way to the new first entry or to a newly created one when the list is empty |
| Entries.Journal.UpdatePreview | spill/ContentView.swift:1071-1089 | after a successful read, the first entry with the identifier gets the preview of the content; nothing else changes, and nothing at all on a failed read or a missing entry |
| Entries.InsertThenDelete | spill/ContentView.swift:1206-1227 | creating two entries and deleting the newer, selected one leaves the older one, selected |

## Left out

- Views, layout, colours, hover animations, fonts other than the size, and the sidebar's rendering are not modelled. They hold no logic beyond what is above.
- The speech recognizer, the audio engine and its tap, and the authorization requests are foreign calls. Their outcomes are the inputs `ready` (a recognizer is available and speech and microphone access are granted) and `engineStarted`. The asynchronous authorization callbacks are taken to answer at once.
- The recognition callback delivers a result and an error in one call. It is modelled as `OnResult` followed by `OnError`. The two forms agree. The edit and final-result returns stop recording, so the error branch then does nothing in either form. The one early return that would leave recording on is the guard on `isProcessingUserEdit` (spill/ContentView.swift:1484); that guard cannot fire between events, because the first conjunct of `Dictation.DictationState.Valid` keeps the flag off, and `OnResult` requires `Valid()`.
- Dictation.DictationState.OnTextChange: a write to the buffer and the change handler it triggers are taken as one step. In the app the `.onChange` handler (spill/ContentView.swift:431-433) runs later. A recognition block already queued could run in between. On the partial path (spill/ContentView.swift:1521-1522) it would overwrite the typed text with base plus transcript before the edit is detected, so the edit would be lost rather than flagged. The model does not capture that interleaving.
- A callback from a cancelled recognition task that arrives after a new session started is treated like a current one, because events carry no session identity. The code does the same.
- Time is not modelled. The one-second tick, the 0.05 s restart delay, the three-second typing pause and the 0.3 s double-click window are events or booleans given to the methods. The order of deferred blocks is chosen by the caller of `FireRestart`.
- Timer.Countdown.Tick: the bottom-navigation fade at zero is a view animation and is left out.
- Timer.Countdown.Scroll: the wheel's floating-point delta is reduced to two booleans, whether the scaled delta `deltaY * 0.25` is at least 0.1 in magnitude (a raw delta of at least 0.4), and `increase`, which is `deltaY < 0`: a negative delta raises the time.
- Strings are sequences of Unicode scalar values. Swift counts grapheme clusters in `count` and `prefix(30)`, and its `lowercased()` covers all of Unicode, not just ASCII. Swift's `!=` on strings in the edit test of `handleTextChange` compares up to canonical equivalence, and `hasSuffix(" ")` in `stopRecording` looks at the last grapheme cluster. The model counts scalars, lowercases ASCII only, compares strings as plain sequences, tests the last scalar for a space, and writes the whitespace sets out as fixed character lists.
- Font sizes are integers here; the source uses `CGFloat` values that are whole numbers.
- Files are not modelled: saving, loading and deleting entry files, the welcome text and empty-file handling in `createNewEntry`, `loadEntry` after a deletion, and the scan of existing entries in `loadExistingEntries`. Where an operation depends on a file operation, its outcome is an input (`fileRemoved`, `content`).
- Identifiers and dates: entries come in ready made, and the freshness of a new UUID is a precondition.
- Entries.Journal.Valid: the list is assumed to hold distinct identifiers. The entries loaded from disk are never checked for this; the assumption rests on each file name carrying its own UUID.
- PDF export, clipboard, URL opening, the chat prompts and the theme are not part of this model. `ExtractTitle` is their only piece of logic that is modelled.
