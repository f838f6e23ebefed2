# YouTube transcript summariser: a Dafny model of its core

The program is a single Streamlit page. You paste a video link. The page
previews the video, fetches its captions, asks a language model for point-form
notes, and offers the notes and the transcript as a PDF. It then answers
questions about the video and lists the question/answer history newest first.
Almost all of it is glue around three outside services: the transcript API,
the Gemini model and FPDF. This project models the small amount of pure logic
inside that glue:

- `VideoId` (`video_id.dfy`): `get_video_id`, the regular-expression search
  `(?:v=|/)([0-9A-Za-z_-]{11})`. It is written as a leftmost-match
  specification (`MatchesAt`, `IsLeftmostMatch`). There is a recursive search
  and an iterative scan that tries `v=` before `/` at each position. The
  sidebar preview built from the result is modelled too.
- `Transcript` (`transcript.dfy`): `extract_transcript_details`. The link is
  split on `=` and the second field is taken. The caption fragments are
  appended as `" " + text`, and the result is passed through `str.strip()`.
  The transcript service is an oracle, `fetch: string -> FetchOutcome`.
- `Session` (`session.dfy`): one rerun of the page, as a pure function on an
  immutable session record `{transcript, conversation, question}`. It covers
  the default initialisation, the "Get Detailed Notes" branch, the question
  branch and the reversed history listing. The summary and answer services are
  oracles that return `Option<string>`. `None` means the call failed. Whether
  writing the PDF succeeds is an oracle too, `writePdf`. The PDF step is not
  inside any `try`, so when it raises the run ends before the question box.
- `Wrappers` (`wrappers.dfy`): the `Option` type, which stands for Python's
  `None`.

Behaviours of the code worth knowing:

- The transcript is fetched with `link.split("=")[1]`, not with the validated
  identifier. So a `youtu.be/<id>` link is previewed but never fetched
  (`Transcript.ShortLinkNeverFetched`). A link with `&t=5` fetches
  `<id>&t` (`Transcript.TimestampLinkFetchesOtherId`).
- The notes button works on the raw link whether or not the preview accepted
  it.
- Fetching can succeed with an empty text (no fragments). The caller then does
  not store it.
- A failed answer is stored as `None` in the turn, not as an empty string.
- The question box keeps its text across reruns, and the append does not
  compare it with the stored question. So, while a transcript is stored, every
  rerun that reaches the question box with a non-empty box asks the same
  question again (`Session.RerunRepeatsQuestion`).
- Building the PDF and opening it for download are not guarded. When either
  raises, the transcript and notes are kept but the question box is skipped:
  no turn is added, the stored question is not updated and no history is
  listed (`Session.PdfFailureStopsRun`).

## Model

| member | source | states |
|---|---|---|
| `VideoId.FirstMatchFrom` | app.py:63 | The search from a start position returns a position that matches, with no match between the start and it, or `None` when no position from the start on matches. |
| `VideoId.LeftmostIsUnique` | app.py:63 | Two leftmost matches of the same text are at the same position, so the capture `re.search` returns is well defined. |
| `VideoId.GetVideoId` | app.py:62-64 | A result is an 11-character string over `[0-9A-Za-z_-]`. It is the capture of the leftmost position where `v=` or `/` is followed by 11 such characters. The result is `None` exactly when no position matches. |
| `VideoId.CaptureAt` | app.py:64 | Group 1 of a match is the 11 identifier characters right after the `v=` or `/` prefix. |
| `VideoId.GetVideoIdIsLeftmostCapture` | app.py:63-64 | When the leftmost match is at `p`, the result is exactly the capture at `p`. |
| `VideoId.ScanRun` | app.py:63 | The character-by-character check of the `{11}` run succeeds exactly when 11 identifier characters start there. |
| `VideoId.ScanVideoId` | app.py:63-64 | The left-to-right scan that tries `v=` before `/` at each position returns the same result as the leftmost-match search. |
| `VideoId.WatchUrlIgnoresTrailer` | app.py:63 | A watch URL for an identifier, followed by anything at all, gives that identifier back. There is no end anchor. |
| `VideoId.WatchUrlRoundTrip` | app.py:106-108 | Extracting from the embed URL built for an identifier gives the identifier back. |
| `VideoId.ExampleWatchLink` | app.py:62-64 | `https://example.com/watch?v=dQw4w9WgXcQ` gives `dQw4w9WgXcQ`. |
| `VideoId.WatchLinkNamesId` | app.py:62-64 | In `https://<host>/<path>v=<id><anything>`, where host and path contain no `v` or `/` and each breaks an 11-character run early, the identifier found is `<id>`. |
| `VideoId.ShortLinkNamesId` | app.py:62-64 | In `https://<host>/<id><anything>` under the same condition on the host, the identifier found is `<id>`, through the `/` alternative. |
| `VideoId.ShortLinkNamesItsId` | app.py:62-64 | For every identifier, `https://youtu.be/<id>` gives that identifier. |
| `VideoId.ExampleInvalidLink` | app.py:62-64 | `https://example.com/invalid` gives `None`. |
| `VideoId.InvalidLinkHasNoMatch` | app.py:62-64 | No position of `https://example.com/invalid` is followed by `v=` or `/` and then 11 identifier characters. |
| `VideoId.SidebarPreview` | app.py:105-111 | An empty link shows nothing. A link with no identifier shows the error. Any other link embeds the watch URL of its identifier. |
| `VideoId.PreviewNamesSameVideo` | app.py:106-109 | The embedded URL names the same video as the link the user typed. |
| `Transcript.LeadingSpaces` | app.py:30 | The count covers whitespace characters only, and the character after them, if any, is not whitespace. |
| `Transcript.TrailingSpaces` | app.py:30 | The count covers whitespace characters only, and the character before them, if any, is not whitespace. |
| `Transcript.StripLeft` | app.py:30 | The result is a suffix of the input. Everything dropped is whitespace, and the result does not start with whitespace. |
| `Transcript.StripRight` | app.py:30 | The result is a prefix of the input. Everything dropped is whitespace, and the result does not end with whitespace. |
| `Transcript.Strip` | app.py:30 | The result has no whitespace at either end. It occurs in the input with only whitespace before and after it. |
| `Transcript.StripUnique` | app.py:30 | For any trimmed text with whitespace on both sides, `strip` returns that text. This characterises `strip` completely. |
| `Transcript.StripIdempotent` | app.py:30 | Stripping twice is the same as stripping once. |
| `Transcript.StripLeftSkips` | app.py:30 | Whitespace in front of a text that starts with a non-space character is exactly what `lstrip` removes. |
| `Transcript.StripRightSkips` | app.py:30 | Whitespace after a text that ends with a non-space character is exactly what `rstrip` removes. |
| `Transcript.Join` | app.py:26-28 | The accumulated text is empty exactly when there are no fragments. Otherwise it starts with a space, and it is at least one character per fragment long. |
| `Transcript.JoinAppend` | app.py:26-28 | Accumulating over `a + b` gives the accumulation over `a` followed by the one over `b`. |
| `Transcript.JoinPlacesFragment` | app.py:26-28 | Fragment `k` appears, after its space, right behind the text of fragments `0..k-1`. Fragment order is preserved. |
| `Transcript.Assemble` | app.py:26-30 | The transcript has no whitespace at its ends. It is the stripped core of the accumulated text, and it is empty for an empty fragment list. |
| `Transcript.AssembleTranscript` | app.py:26-30 | The accumulating loop followed by `strip()` computes the assembled transcript. |
| `Transcript.AssembleOfTrimmedFragments` | app.py:26-30 | When the first fragment starts and the last one ends with a non-space character, the transcript is the fragments in order with one space between neighbours. |
| `Transcript.JoinPair` | app.py:26-28 | Two fragments accumulate to a space, the first, a space and the second. |
| `Transcript.AssembleTwo` | app.py:26-30 | Two non-empty fragments without whitespace at their ends become the first, one space, and the second. |
| `Transcript.ExampleAssemble` | app.py:26-30 | The fragments `hello` and `world` become `hello` and `world` separated by a single space. |
| `Transcript.IndexOf` | app.py:23 | The first occurrence of a character, or `None` exactly when the character does not occur. |
| `Transcript.SplitId` | app.py:23 | `split("=")[1]` is `None` exactly when the link has no `=` (the caught `IndexError`). Otherwise it is the `=`-free text between the first `=` and the next `=` or the end. |
| `Transcript.SplitIdOfFields` | app.py:23 | Conversely, a link laid out as `a=v` or `a=v=…`, with no `=` in `a` or `v`, splits to `v`. |
| `Transcript.ExtractTranscriptDetails` | app.py:21-37 | A link without `=` and a failed fetch give `None` whatever the service does. A result exists exactly when the second `=`-field was fetched successfully, and it is the stripped accumulation of the fetched fragments. |
| `Transcript.TimestampLinkFetchesOtherId` | app.py:23-24 | For every identifier `id` and every `=`-free `t`, the link `https://www.youtube.com/watch?v=<id>&t=<t>` previews `id`, but the fetch is asked for `<id>&t`. |
| `Transcript.ShortLinkNeverFetched` | app.py:23 | For every identifier, `https://youtu.be/<id>` yields that identifier but has no `=`, so it never yields a transcript, whatever the service does. |
| `Session.DefaultsKeepExisting` | app.py:93-97 | Initialising a session whose keys are all present changes nothing. |
| `Session.FirstRunDefaults` | app.py:93-97 | On the first run, with no key stored, the session starts with no transcript, no turns and an empty question. |
| `Session.DefaultsIdempotent` | app.py:93-97 | Initialising again at the next rerun changes nothing. |
| `Session.GetDetailedNotes` | app.py:117-132 | The button never changes the conversation or the question. A non-empty fetched transcript is always stored, and the stored transcript changes to nothing else. Notes are shown exactly when the summary of that transcript is non-empty, and they are that summary. The run goes on past the button unless notes are shown and writing the PDF fails. |
| `Session.SummaryFailureKeepsTranscript` | app.py:120-125 | A failed summary shows no notes and lets the run go on, but the fetched transcript stays stored. |
| `Session.FailedFetchKeepsSession` | app.py:118-120 | A failed fetch or an empty transcript leaves the session exactly as it was, shows no notes and lets the run go on. |
| `Session.AskQuestion` | app.py:164-172 | The transcript is unchanged, and the stored question becomes the box's text. The conversation keeps all earlier turns as a prefix. It grows by exactly one turn, `(question, answer-or-None)`, when the box is non-empty and a transcript is stored, and otherwise not at all. |
| `Session.AskAll` | app.py:164-172 | Applying the question branch once per question, as reruns without the notes button do, keeps the transcript and never alters earlier turns. The stored question is the last one typed. |
| `Session.AskAllAppendsInOrder` | app.py:167-169 | With a transcript stored, `n` non-empty questions add exactly `n` turns, in the order asked. |
| `Session.NoTranscriptNoTurns` | app.py:167 | With no transcript stored, no question ever becomes a turn. |
| `Session.History` | app.py:174-176 | The listing has the same length as the conversation, and element `i` is turn `n-1-i`. |
| `Session.HistoryNewestFirst` | app.py:174-176 | A new turn goes to the top of the listing, and the rest keeps its order below it. |
| `Session.HistoryReversible` | app.py:176 | Reversing the listing gives back the chronological conversation. |
| `Session.ThreeQuestionsListedNewestFirst` | app.py:167-176 | Questions Q1, Q2, Q3 put through the question branch are listed as Q3, Q2, Q1. |
| `Session.Rerun` | app.py:103-176 | The preview is the sidebar preview of the link. The notes are those of the button branch when it was pressed, and none otherwise. The run stops before the question box exactly when the button branch stops at the PDF step; then the session is what the button left. Otherwise the session is the question branch applied to what the button left (or to the unchanged session when it was not pressed): the box's text is recorded, a turn `(question, answer)` is added exactly when the box is non-empty and a transcript is stored, and the listing is the whole conversation reversed, so its top entry is the turn just added. A stored transcript is never dropped. |
| `Session.RerunsWithoutButtonAreAskAll` | app.py:164-176 | Reruns without the notes button, one per question, leave exactly the session of the question branch applied once per question, and the last of them lists that conversation reversed. |
| `Session.ThreeRerunsListedNewestFirst` | app.py:164-176 | On the page, questions asked in reruns as Q1, Q2, Q3 are listed by the third rerun as Q3, Q2, Q1. |
| `Session.RerunKeepsTranscriptNonEmpty` | app.py:119-122 | If the stored transcript was non-empty before a rerun, it is non-empty after it: the button stores only a non-empty text, and nothing else writes the transcript. |
| `Session.PdfFailureStopsRun` | app.py:127-132 | When notes are shown and the PDF step fails, the notes and the fetched transcript stay, but no turn is added, the stored question is unchanged and no history is listed. |
| `Session.RerunRepeatsQuestion` | app.py:164-172 | With a transcript stored, a rerun that reaches the question box while it still holds the stored question appends that question again. |
| `Session.RerunWithoutButtonRepeatsQuestion` | app.py:164-172 | With a transcript stored and the button not pressed, a rerun whose box still holds the stored question always appends it again. |
| `Session.CaptionsDisabledScenario` | app.py:117-125 | Pressing the button for a video without captions shows no notes, stores no transcript, adds no turn, and lists the unchanged conversation newest first. |

## Left out

- The transcript API, Gemini and FPDF are foreign services. They appear only
  as oracle parameters: `fetch`, `summarize`, `answer` and `writePdf`. The prompt texts
  (app.py lines 15-18) and the "No response received." fallback are part of
  what those oracles return.
- PDF layout, the file write and the download button (app.py lines 67-90 and
  130-132) are not modelled. They are library layout and file I/O. The model
  keeps only whether that step succeeds (`writePdf`), because a failure there
  ends the run.
- Widgets, the CSS block, titles and the video embed itself (app.py lines
  100-114 and 134-185) are UI rendering. The model keeps what they display as
  data: the preview, the notes and the history listing.
- The texts of the error messages (app.py lines 33-36, 47, 58 and 111) are
  not modelled. The invalid-link branch at line 111 is modelled as
  `VideoId.InvalidLink`; only its message is left out. The substring check at
  line 33 only chooses which message to show. Both failure
  kinds, `CaptionsDisabled` and `FetchError`, give `None`.
- Configuration through dotenv and the API key (app.py lines 7-11) is left
  out. It is environment setup.
- A fragment without a `"text"` key raises inside the loop, and that exception
  is also caught. The model's fragments are strings, so this failure is folded
  into the `FetchError` outcome.
- `Transcript.IsSpace` is the fixed set of characters Python's `str.isspace`
  accepts. Other details of `str.strip` and `str.split` are not modelled.
- `Session.RerunRepeatsQuestion`: promises the repeated turn only for runs
  that reach the question box, because a failed PDF step ends the run before
  it (`Session.PdfFailureStopsRun`). Without the button the repeat is promised
  unconditionally (`Session.RerunWithoutButtonRepeatsQuestion`).
