# Verified model of the audio-artifact naming and listing logic

The repository is a small Flask web app. It records audio in the browser, sends the audio to a cloud speech
recognizer, stores the transcript next to the recording, and turns submitted text into speech clips. Apart
from the web and cloud plumbing, it has a few self-contained pieces of string and list logic. This project
models those pieces in Dafny and proves what they guarantee:

- **the upload-name filter** `allowed_file` (`main.py`): a name is an audio artifact when the text after its
  last dot, lowercased, is `wav`;
- **the artifact listing** `get_files` (`main.py`), over two directory listings given as sequences of names:
  the upload root, and the `tts` sub-folder (`None` when that folder does not exist). It accepts names with
  the filter, prefixes clip names with `tts/`, sorts each group into descending string order, and returns the
  root group followed by the `tts` group;
- **the timestamp filename** `strftime("%Y%m%d-%I%M%S%p") + '.wav'` (`main.py`, upload and text-to-speech
  handlers), as a function of a clock reading, including the 24-hour to 12-hour conversion with `AM`/`PM`;
- **the transcript** (`main.py`): the first alternative of each recognition result, joined by newlines;
- **the recording timer display** `formatTime` (`script.js`): whole seconds shown as `M:SS`.

Modules:

| file | module | contents |
|---|---|---|
| `wrappers.dfy` | `Wrappers` | `Option` |
| `decimal.dfy` | `Decimal` | digit strings: zero-padded fields (`Padded`), unpadded integer text (`NatToString`), and their value (`Value`), with round-trip lemmas |
| `string_order.dfy` | `StringOrder` | Python's `<` on `str` (`Below`), proved to be the lexicographic order and a strict total order; descending insertion sort; uniqueness of a descending permutation |
| `uploads.dfy` | `Uploads` | `allowed_file`, `get_files`, and the listing lemmas |
| `timestamp_names.dfy` | `TimestampNames` | clock readings, the filename, its parser, and the order of names |
| `transcripts.dfy` | `Transcripts` | the first alternatives, `"\n".join`, and its inverse `Split` |
| `timer.dfy` | `Timer` | `padStart`, `formatTime`, and its parser |

`get_files` is imperative in the source: it appends to two lists inside `for` loops and sorts them in place.
`Uploads.GetFiles` is a method with the same loops over sequences. Python's Timsort is replaced by an
insertion sort (`StringOrder.SortDescending`). `StringOrder.SortedPermutationUnique` proves that only one
descending arrangement of a list of names exists, so both sorts return the same list.

The listing is sorted by *name*, not by time. `TimestampNames.EarlierDayNameBelow` proves that a recording
from an earlier day always sorts below one from a later day. `TimestampNames.LaterReadingSmallerName` and
`TimestampNames.ListingNotChronological` prove that within a day this breaks: 13:00 is written `01…PM` and
11:00 `11…AM`, so the 11:00 recording is listed first, as though it were the newer one. The model proves only
lexicographic order, plus this counterexample to chronological order.

`ParseTimestampName` and `ParseTime` are proved to invert the filename and the timer display in both
directions. Parsing a generated text gives its input back, and any text that parses is exactly the generated
text of what it parses to. It follows that two clock readings produce the same filename only when they are the
same second. `Split` at newlines is proved to invert the transcript join on non-empty lists of newline-free
lines. Joining the pieces of any split gives the text back, and those pieces never hold a newline.

## Model

| member | source | states |
|---|---|---|
| `Uploads.AfterLastDot` | main.py:31 | `rsplit('.', 1)[1]`: the text after the last dot (defined only when there is a dot, as the `and` guards) |
| `Uploads.AllowedFile` | main.py:29-31 | `allowed_file`: there is a dot, and what follows the last one lowercases to `wav` |
| `Uploads.LowerIsExtension` | main.py:31 | a string lowercases to `wav` exactly when it is `w`, `a`, `v` in any mix of cases |
| `Uploads.AfterLastDotIsLastExtension` | main.py:31 | `rsplit('.', 1)[1]` is the suffix that directly follows a dot and contains no dot itself |
| `Uploads.AllowedFileIff` | main.py:29-31 | a name is accepted iff it is at least 4 characters long, its fourth-last character is `.`, and its last three lowercase to `wav` (both directions) |
| `Uploads.EndsInWavAccepted` | main.py:29-31 | every name ending in `.wav` is accepted |
| `Uploads.AllowedFileExamples` | main.py:29-31 | `REC.WAV` and `take.2.Wav` are accepted; `recording`, `notes.txt`, `X.wav.txt`, `wav` and `X.wave` are rejected |
| `Uploads.TranscriptNameRejected` | main.py:90 | no transcript name (any name plus `.txt`) is accepted, so transcripts never appear in the listing |
| `Uploads.Allowed` | main.py:37-39 | the names the filter loops keep, in listing order (used for both loops, main.py:43-44 too) |
| `Uploads.AllowedCount` | main.py:37-39 | filtering keeps each accepted name exactly as often as the listing holds it, and drops every rejected name |
| `Uploads.AllowedMembers` | main.py:37-39 | a name is in the filtered group iff it is in the listing and accepted |
| `Uploads.TtsEntries` | main.py:41-45 | the clip group before sorting: nothing when the `tts` folder is missing, else the accepted clip names with `tts/` in front |
| `Uploads.PrefixedCount` | main.py:45 | an entry occurs in the prefixed group as often as the clip name after `tts/` occurs among the clips; entries without `tts/` never occur |
| `Uploads.PrefixedMembers` | main.py:45 | an entry is in the prefixed group iff it is `tts/` followed by some clip name |
| `Uploads.GetFiles` | main.py:34-49 | the result has the accepted root names, sorted descending, followed by the prefixed accepted clip names, sorted descending (`IsListing`) |
| `Uploads.ListingUnique` | main.py:47-48 | any two results that meet the `get_files` contract are equal, so Timsort and the model's sort give the same listing |
| `Uploads.ListingContents` | main.py:37-49 | the listing's multiset is the accepted root names plus the prefixed accepted clip names; nothing is added or dropped; membership in both directions |
| `Uploads.ListingRootBeforeTts` | main.py:49 | with root entries free of `/`, exactly the positions from the root-group size on carry `tts/`, so every root entry precedes every clip entry |
| `Uploads.ListingWithoutTtsFolder` | main.py:41-49 | without a `tts` folder, the listing is exactly the accepted root names sorted descending, with no `tts/` entry |
| `Uploads.ListingIgnoresDirectoryOrder` | main.py:37-48 | the order in which the two folders are listed does not change the result |
| `StringOrder.Below` | main.py:47-48 | Python's `a < b` on `str`, compared code point by code point with a proper prefix first |
| `StringOrder.BelowIsLexicographic` | main.py:47-48 | Python's string `<` is the proper-prefix-or-first-smaller-difference order (both directions) |
| `StringOrder.BelowTransitive` | main.py:47-48 | the string order is transitive |
| `StringOrder.BelowTotal` | main.py:47-48 | any two different strings are ordered one way or the other |
| `StringOrder.SortDescending` | main.py:47-48 | `sort(reverse=True)`: the result is in non-increasing order and is a permutation of the input |
| `StringOrder.SortedPermutationUnique` | main.py:47-48 | two non-increasing permutations of the same multiset are equal |
| `Decimal.Padded` | main.py:69 | a zero-padded field is exactly `width` decimal digits |
| `Decimal.ValuePadded` | main.py:69 | reading a padded field back gives the number written, when the number fits the width |
| `Decimal.PaddedValue` | main.py:69 | writing a digit string's value in the string's own width gives the string back |
| `Decimal.NatToString` | script.js:12-13 | a number's text is non-empty decimal digits with no superfluous leading zero |
| `Decimal.ValueNatToString` | script.js:12-13 | reading a number's text back gives the number |
| `Decimal.NatToStringValue` | script.js:12-13 | a canonical digit string is exactly the text of its value |
| `TimestampNames.Hour12` | main.py:69 | `%I`: the hour on a 12-hour clock, 12 for midnight and noon |
| `TimestampNames.Meridiem` | main.py:69 | `%p` in the C locale: `AM` before noon, `PM` from noon |
| `TimestampNames.Stamp` | main.py:69 | `strftime("%Y%m%d-%I%M%S%p")` of a clock reading |
| `TimestampNames.TimestampName` | main.py:119 | the stamp plus `.wav`, the same expression at main.py:69 and main.py:119 |
| `TimestampNames.NameFields` | main.py:69 | the name is 4 year digits, 2 month and 2 day digits, `-`, the 12-hour hour, minutes and seconds in 2 digits each, the meridiem, and `.wav` |
| `TimestampNames.TimestampNameLayout` | main.py:69 | the name is 21 characters: 8 date digits, `-`, hour `01`..`12`, minutes and seconds below 60, `AM` iff hour 0-11 and `PM` iff hour 12-23, then `.wav`; each field reads back as the reading's value |
| `TimestampNames.HourRoundTrip` | main.py:69 | `%I` is in 1..12, and `%I` with `%p` recovers the 24-hour hour |
| `TimestampNames.TwelveHourClockExamples` | main.py:69 | hour 0 is written `12`/`AM`, hour 12 `12`/`PM`, hour 13 `01`/`PM` |
| `TimestampNames.TimestampNameAccepted` | main.py:69-70 | every generated name passes the upload filter, and its transcript name does not |
| `TimestampNames.ParseTimestampNameRoundTrip` | main.py:119 | parsing a generated name gives back the clock reading it was made from |
| `TimestampNames.ParseTimestampNameSound` | main.py:119 | a name that parses is a valid reading's generated name, exactly |
| `TimestampNames.TimestampNameInjective` | main.py:68-69 | two valid readings get the same name only when they are the same second |
| `TimestampNames.EarlierDayNameBelow` | main.py:47 | a name from an earlier day sorts below a name from a later day |
| `TimestampNames.ListingNewerDayFirst` | main.py:34-49 | of two recordings from different days, the newer day's name is listed first |
| `TimestampNames.LaterReadingSmallerName` | main.py:69 | on the same day, a later reading whose 12-hour hour is smaller gets the smaller name |
| `TimestampNames.ListingNotChronological` | main.py:47-49 | recordings at 11:00 and 13:00 on one day are listed 11:00 first, so listing order is not time order |
| `Transcripts.Join` | main.py:89 | `"\n".join(lines)` |
| `Transcripts.Transcript` | main.py:89 | the transcript text, or nothing when some result has no alternative |
| `Transcripts.FirstAlternatives` | main.py:89 | the comprehension succeeds iff every result has an alternative; it then holds each result's first alternative, in result order |
| `Transcripts.SplitJoin` | main.py:89 | splitting the `"\n"`-join of a non-empty list of newline-free lines gives the lines back |
| `Transcripts.JoinSplit` | main.py:89 | joining the pieces of any split gives the text back |
| `Transcripts.SplitNoNewline` | main.py:89 | no piece of a split holds a newline |
| `Transcripts.TranscriptLines` | main.py:89 | the transcript exists iff every result has an alternative; when there is at least one result and no first alternative holds a newline, its lines are the first alternatives, one per result, in order |
| `Transcripts.TranscriptExamples` | main.py:89 | no results give `""`; one result gives its first alternative; a result without alternatives fails |
| `Timer.FormatTime` | script.js:11-14 | `formatTime`: the whole minutes, a colon, and the remaining seconds padded to two digits |
| `Timer.PadStart` | script.js:13 | `padStart` keeps the text as its suffix, fills only on the left, and reaches the width unless the text is longer |
| `Timer.PadSeconds` | script.js:13 | seconds below 60, padded to width 2 with `0`, are the two-digit zero-padded field of the same value |
| `Timer.FormatTimeLayout` | script.js:11-14 | the display is the unpadded minute count `floor(s/60)`, one `:` (the only one), and `s mod 60` in exactly two digits |
| `Timer.FormatTimeRoundTrip` | script.js:11-14 | reading the display back as `minutes*60 + ss` gives `s` |
| `Timer.ParseTimeSound` | script.js:11-14 | any string that parses as a time is exactly that time's display |
| `Timer.FormatTimePadsSeconds` | script.js:13 | 5 seconds are shown `0:05` |
| `Timer.FormatTimeWholeMinute` | script.js:12-13 | 60 seconds are shown `1:00` |
| `Timer.FormatTimeUnboundedMinutes` | script.js:12 | 3600 seconds are shown `60:00`; minutes do not wrap at an hour |

## Left out

- Flask routing, `flash`, `redirect`, `render_template`, `send_from_directory` and `send_file` (main.py:52-131) are web plumbing.
- The Google Cloud Speech and Text-to-Speech clients and calls are foreign network services (main.py:25-26, 78-86, 106-116). Only the shape of the recognition response used at main.py:89 is kept: a list of results, each a list of alternative transcripts.
- File I/O is replaced by input sequences. This covers `file.save`, `open`/`write`, `os.listdir`, `os.path.exists` and `os.makedirs`. A `tts` path that exists but is not a folder would make `os.listdir` raise; that is not modelled.
- `datetime.now()` becomes an input clock reading. `%p` is taken in the C locale (`AM`/`PM`); other locales are not modelled.
- Collisions among artifacts created in the same second are a runtime race and are not modelled. `TimestampNames.TimestampNameInjective` shows that collisions happen only within the same second.
- TimestampNames.Stamp: `%Y` is always written as four zero-padded digits. CPython 3.12 on glibc writes years below 1000 unpadded (`50101-120000AM` for year 5), so for those years the model's name, and the 21-character layout of `TimestampNames.TimestampNameLayout`, differ from the app's. `datetime.now()` never produces such a year.
- Uploads.AllowedFile: Python's `str.lower` is Unicode-wide, but the model lowercases ASCII letters only. No non-ASCII character lowercases to `w`, `a` or `v`, so accept and reject decisions are the same.
- Timer.FormatTime: seconds are exact natural numbers. JavaScript numbers are doubles: they lose precision above 2^53 and print in exponent notation from 10^21. Negative elapsed times, which a clock set backwards can produce, are not modelled.
- Python `str` can hold lone surrogates, for example the surrogate-escaped undecodable bytes that `os.listdir` returns. A Dafny `char` is a Unicode scalar value, so the model's names exclude such entries, although the filter and sort at main.py:37-48 accept them.
- Sentiment analysis, its annotation files and its classification do not appear in main.py or script.js, so they are not modelled.
- The rest of script.js is not modelled (script.js:17-78): event listeners, MediaRecorder, the `setInterval` timer, Blob/FormData and `fetch`. This is browser UI and asynchronous behaviour.
