# YouTube Shorts transcriber: a verified model of its core

The program is a Streamlit page. It takes a YouTube Data API key, a
channel id and a number of Shorts (1 to 50). It then:

- lists the channel's videos page by page;
- keeps the ones whose ISO 8601 duration its heuristic calls a Short;
- asks downsub.com for each Short's transcript;
- shows one row per Short with the transcript or the placeholder
  "No se pudo generar la transcripción".

This project models that processing in Dafny. Each part sits in its own module:

- `Duration` models the duration heuristic (`'M' not in duration or
  int(duration.split('M')[0].replace('PT', '')) < 1`) as `Classify`,
  including the `ValueError` that `int()` raises (the verdict `ParseError`).
- `Enumerator` models `obtener_shorts_del_canal`:
  - the cursor loop over search pages and the inner loop over each page's
    videos, as the imperative methods `ObtainShorts` and `ScanPage`;
  - `ObtainShorts` is proved equal to the specification function
    `Enumerate`, and `ScanPage` to the per-page functions `Pick` and
    `Aborts` that `Enumerate` is built from;
  - `Examine` is what the loop does with one video (keep, skip or abort),
    and `SearchFault` picks the error for a failed search call;
  - lemmas about `Enumerate` state what the loop promises.
- `Transcript` models `generar_transcripcion`:
  - `CsrfToken`, the token slice;
  - `Acquire`, the three-request session, as a function of the replies it
    receives, which also records the requests sent.
- `Normalizer` models the clean-up of the fetched transcript:
  `DropBlankLines` is the blank-line filter and `Normalize` applies it after
  `html.unescape`.
- `Pipeline` models the processing part of `main` as the method `Run`: the
  input check, the truncation to the chosen number of Shorts, and the result
  rows, whose last column is `Transcription` (the transcript or the
  placeholder).
- `PyText` holds the parts of Python's `str` and `int` that the code relies on:
  - `find` returning -1;
  - slices with negative bounds;
  - `split(c)[0]`, `replace`, `lower`, `isspace`/`strip` and `splitlines`;
  - `int()` with surrounding whitespace, a sign and underscores. The
    whitespace `int()` skips is not the `isspace` set: CPython skips '\t'..'\r'
    and ' ' below code point 128 and every non-ASCII `isspace` character, but
    not '\x1c'..'\x1f' (`IntSpace`).

The model follows the code where the code behaves differently from what the
program seems to intend.

- **The CSRF token is empty whenever the page holds the token field.** The
  searched marker `name="_token" value="` is 21 characters long, but the
  code adds only 20.
  - When the marker is present, the slice starts on the marker's own closing
    quote, so the token is empty and no extraction request is ever sent
    (`MarkerGivesEmptyToken`, `MarkerPageNeverPosts`).
  - When the marker is absent, `find` gives -1 and the slice starts at
    index 19, so the "token" is whatever text follows there
    (`NoMarkerQuotedToken`, `NoMarkerUnquotedToken`).
- **The 50-Short cap can be exceeded.** The cap is tested once per page, so
  the list can exceed 50 records by less than one page (`Overshoot`,
  `CapCanBeExceeded`).
- **A duration with hours and minutes wipes the whole result.** For example,
  "PT1H30M" makes `int("1H30")` raise. The `ValueError` is not caught by the
  per-video `except HttpError`, so the whole enumeration returns an empty
  list (`HoursAndMinutesFail`, `FaultMeansEmpty`). This is different from
  skipping the video or treating it as not a Short.
- **Nothing makes video ids unique.** A video listed twice is kept twice.

External services are modelled as input values:

- `pages` is the sequence of search responses. The cursor after page `i`
  exists exactly when page `i + 1` is listed.
- `Item.lookup` is each video's detail lookup.
- `landing`, `extract` and `fetch` are the downsub.com replies.
- `transcriptOf` is the transcript function used by `main`.
- `unescape` stands for `html.unescape`.

## Model

| member | source | states |
|---|---|---|
| Enumerator.ObtainShorts | sub.py:104-154 | the page loop returns exactly `Enumerate(pages)`: the Shorts of the pages read while fewer than 50 were held, or an empty list with the page's error |
| Enumerator.ScanPage | sub.py:115-135 | the per-video loop aborts exactly when some video's duration test raises, or its lookup raises anything but `HttpError` (including a reply without `contentDetails.duration`); otherwise it yields the Short records of the page in order |
| Enumerator.ReadsPrefix | sub.py:104-150 | the result is decided by a prefix `pages[..n]`: each page in it was requested with fewer than 50 records held, every page but the last went through without error, and after the last one the loop had to stop |
| Enumerator.FaultMeansEmpty | sub.py:109-154 | whenever an error is reported, the list returned is empty |
| Enumerator.Overshoot | sub.py:99-104 | with pages of at most 50 items, the list has fewer than 100 records, since the cap is only tested between pages |
| Enumerator.CapCanBeExceeded | sub.py:99-132 | two pages the 50-result search can return, one Short and then 50 Shorts with distinct ids, yield 51 records: the list is not bounded by 50 |
| Enumerator.PickMembers | sub.py:125-132 | a record is kept exactly for a video whose lookup returned a duration the heuristic calls Short, with that video's id, title and Shorts URL |
| Enumerator.PickAppend | sub.py:115-132 | the records of two runs of videos concatenate in order |
| Enumerator.SkipOnlyThatVideo | sub.py:125-135 | a video whose lookup raised `HttpError` or found no items is dropped and the others are unaffected |
| Enumerator.PickUrls | sub.py:131 | every record of a page links to the Shorts URL of its own id |
| Enumerator.ShortsUrls | sub.py:128-132 | every record returned links to `https://www.youtube.com/shorts/` followed by its own id |
| Enumerator.QuotaAnywhere | sub.py:142-143 | a search error whose text contains "quota" in any letter case is reported as quota exhausted, even if it also says "invalid" |
| Enumerator.InvalidWithoutQuota | sub.py:144-145 | without "quota", an error text containing "invalid" in any letter case is reported as an invalid key |
| Duration.MinutesDecide | sub.py:127 | "PT<m>M..." with the decimal spelling of m is a Short exactly when m < 1 (within the digit limit named under Left out) |
| Duration.HoursWithoutMinutesAreShort | sub.py:127 | "PT<h>H" and "PT<h>H<s>S" are Shorts whatever the hours, since they have no 'M' |
| Duration.HoursAndMinutesFail | sub.py:127 | "PT<h>H<m>M..." always makes `int()` raise |
| Duration.FieldDecides | sub.py:127 | "PT<field>M..." is decided by `int(field)` alone when the field holds no 'M' or 'P' |
| Duration.ShortExamples | sub.py:127 | "", "PT45S", "PT1H" and "PT0M30S" are Shorts |
| Duration.NotShortExamples | sub.py:127 | "PT1M" and "PT2M10S" are not Shorts |
| Duration.ParseErrorExample | sub.py:127 | "PT1H30M" raises |
| PyText.Find | sub.py:174-175 | `str.find`: -1 exactly when there is no occurrence from `start` on, otherwise the first occurrence from `start` |
| PyText.Slice | sub.py:176 | Python slicing: plain bounds, negative bounds counted from the end, crossed bounds give the empty string |
| PyText.BeforeFirst | sub.py:127 | `split(c)[0]` is the longest prefix without `c`, and is followed by `c` when shorter than the input |
| PyText.BeforeFirstAt | sub.py:127 | `split(c)[0]` of `x + c + y`, with `c` not in `x`, is `x` |
| PyText.Replace | sub.py:127 | `replace` leaves text without the pattern's first character alone and only brings in characters of the input or the replacement |
| PyText.ReplaceAtFront | sub.py:127 | an occurrence of the pattern at the front is replaced and the scan resumes right after it |
| PyText.ReplaceAbsent | sub.py:127 | text in which the pattern occurs nowhere comes back unchanged |
| PyText.ReplaceAfter | sub.py:127 | the first occurrence after a stretch where none starts is replaced, the stretch is kept, and the scan resumes right after it |
| PyText.ParseIntDecimal | sub.py:127 | `int()` reads back the decimal spelling of every natural number (within the digit limit named under Left out) |
| PyText.ParseIntNegative | sub.py:127 | `int()` reads a minus sign before a decimal spelling as the negated number (within the digit limit named under Left out) |
| PyText.ParseIntRejects | sub.py:127 | `int()` raises on any text holding a character that is not a digit, '_', a sign or whitespace `int()` skips |
| PyText.ParseIntKeepsSeparators | sub.py:127 | '\x1c' is whitespace to `str.isspace`, yet `int()` raises on text holding it |
| PyText.SplitJoin | sub.py:213 | splitting the '\n'-join of lines without '\n' and with a non-empty last line gives back the lines |
| PyText.Lower | sub.py:142 | `lower` keeps the length, leaves no ASCII capital in the result and keeps every other character |
| PyText.LowerTwice | sub.py:142-144 | lower-casing twice equals lower-casing once |
| Transcript.MarkerGivesEmptyToken | sub.py:174-176 | when the page holds `name="_token" value="`, the token slice is empty |
| Transcript.NoMarkerQuotedToken | sub.py:174-176 | without the marker, the token is the text from index 19 up to the first '"' after it |
| Transcript.NoMarkerUnquotedToken | sub.py:174-176 | without the marker and with no '"' after index 19, the token is `content[19:-1]` |
| Transcript.MarkerPageNeverPosts | sub.py:167-180 | a landing page holding the token field ends the session after the first request, with no transcript |
| Transcript.LocationDecidesFetch | sub.py:203-209 | after a successful extraction POST, the transcript is requested exactly when `data` is a non-empty list whose first entry has a non-empty `url`, and from that url; otherwise the session ends after the POST with no transcript |
| Transcript.AcquireSpec | sub.py:162-219 | the requests follow the order landing, extraction, transcript, each sent only after the previous step succeeded; a transcript comes back exactly when every step succeeded, and it is the normalised last reply |
| Transcript.TranscriptHasNoBlankLine | sub.py:209-214 | a transcript handed back never holds a blank line |
| Normalizer.NonBlankSpec | sub.py:213 | the line filter keeps a line exactly when it is not blank, and keeps the lines in order |
| Normalizer.OutputLines | sub.py:213 | the lines of the cleaned text are exactly the non-blank lines of the input, in order |
| Normalizer.NoBlankOutputLine | sub.py:213 | no line of the cleaned text is empty or whitespace only |
| Normalizer.DropBlankLinesIdempotent | sub.py:213 | dropping blank lines twice gives the same text as dropping them once |
| Pipeline.Run | sub.py:274-309 | the run stops for missing input exactly when the key or the channel id is empty, stops with no rows exactly when both are given and the enumeration is empty, and completes exactly otherwise; on completion row k copies the id, title and URL of the k-th Short and its transcript or the placeholder, for the first `maxShorts` Shorts |

## Left out

- The Streamlit interface is not modelled: the form, the spinner, the
  progress bar, the dataframe display and the success message. Messages shown
  with `st.error` and `st.warning` are not modelled either. The error the
  enumeration reports is returned as a `Fault` value instead.
- The import guard (`GOOGLE_API_AVAILABLE`, sub.py:86-88) is not modelled:
  the model assumes the client library is present.
- The `st.cache_data` caches and their time-to-live are not modelled.
  `transcriptOf` is a function of the URL, so each call gives the cached
  answer.
- The Google API client, `requests`, cookies, headers and JSON decoding are
  not modelled. They become input values. A JSON reply that cannot be
  decoded or read is `Unreadable`.
- Malformed search results are not modelled as such. Examples are a
  response without `items`, an item without `id.videoId`, or a Short
  without `snippet.title` (the title is read only for a video classified as
  a Short, sub.py:130). In the source they raise `KeyError` and end in the
  catch-all at sub.py:152. In the model, that outcome is the page variant
  `SearchCrashed`; a detail reply without `contentDetails.duration` is the
  lookup variant `LookupCrashed`.
- The exception texts are not kept: every unexpected exception is the
  single fault `Unexpected`. The texts of the `HttpError`s from the
  per-video lookups are not used either.
- `html.unescape` is a parameter. No property of entity decoding is
  stated. Idempotence is proved for the blank-line filter only.
- PyText.SplitLines: splits on '\n' only. Python's `splitlines` also
  breaks on '\r', '\r\n', '\v', '\f', '\x1c'-'\x1e', '\x85', U+2028 and U+2029.
- PyText.Lower: lower-cases ASCII letters only. This is enough to find
  "quota" and "invalid", but not for arbitrary Unicode text.
- PyText.ParseInt: accepts ASCII digits only. Python's `int()` also
  accepts other Unicode decimal digits.
- PyText.ParseInt: has no digit limit. CPython 3.11 and later (and 3.10.7
  and later) raise `ValueError` in `int()` on a string of more than 4300
  digits. For such minutes the program wipes the whole list, while the model
  classifies normally.
- PyText.ParseIntDecimal: holds in the program only for numbers of at most
  4300 digits, because of that limit.
- PyText.ParseIntNegative: holds in the program only for numbers of at most
  4300 digits, because of that limit.
- Duration.MinutesDecide: holds in the program only for minutes of at most
  4300 digits, because of that limit.
- `get_download_link`, the CSV export and the timestamped file name are not
  modelled. They are presentation.
- `time.sleep(1)` between transcripts is not modelled. Timing has no effect
  on the result.
- Pipeline.Run: accepts any integer for the number of Shorts. The source's
  slider limits it to 1..50. The model then follows Python's slicing for
  other values.
