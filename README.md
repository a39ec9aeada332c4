# swipe-interview core, modelled in Dafny

This project models the parts of the swipe-interview front end that make
decisions:

- **The heuristic field extractor** `extractFieldsFromText`. It turns the
  plain text of a résumé into a profile of name, e-mail and phone.
  - The e-mail and the phone regular expressions are modelled as
    leftmost scanners that follow a backtracking engine's order. Each scanner
    is proved sound and complete against a declarative description of the
    pattern's language.
  - The two name passes are loops that stop at the first accepted line. They
    are proved against a specification function.
  - The e-mail-derived name is a pure pipeline of split, filter, map and join.
- **The timed interview controller** `InterviewChat`. It is a class over
  `index`, `answers`, `timeLeft`, `running` and `showWelcome`. A ghost field
  stands for the saved session slot.
- **The end of an interview** `handleFinish`. It covers the remote score or
  the length-based fallback score, and the candidate record prepended to the
  stored list.
- **The résumé uploader's decision logic**. It covers the PDF test, the merge
  of extracted fields, single-field edits, the demo profile and the confirm
  gate that requires an e-mail.

Modules: `Wrappers` (Option), `Text` (JavaScript string operations on
`seq<char>`), `Scan` (leftmost search), `EmailScan`, `PhoneScan`,
`NameHeuristics`, `FieldExtractor`, `InterviewSession`, `Finalization` and
`Uploader`.

## Model

| member | source | states |
|---|---|---|
| `FieldExtractor.FieldsOf` | src/lib/pdfUtils.js:43-101 | The extractor's specification: three empty fields for empty text; otherwise the trimmed name from `NameOf`, the trimmed first e-mail match and the trimmed first phone match. `ExtractFields`, `FieldsTrimmed`, `EmailField`, `PhoneField` and `NameProvenance` state its properties |
| `FieldExtractor.ExtractFields` | src/lib/pdfUtils.js:43-102 | The method (the two pass loops, the e-mail fallback and the final trims) returns exactly the profile `FieldsOf` specifies: empty text gives three empty fields; otherwise the trimmed name from the first pass that succeeds, the trimmed first e-mail match and the trimmed first phone match |
| `FieldExtractor.FieldsTrimmed` | src/lib/pdfUtils.js:97-101 | Every returned field is trimmed, and empty input yields `{name: "", email: "", phone: ""}` |
| `FieldExtractor.Lines` | src/lib/pdfUtils.js:46-47 | `\r` becomes `\n`, the text is split at `\n`, each piece trimmed, and empty pieces dropped; `LinesShape` states the result's shape |
| `FieldExtractor.LinesShape` | src/lib/pdfUtils.js:46-47 | Every line after `\r` to `\n`, the split, trim and `filter(Boolean)` is non-empty and trimmed, and holds no `\n` or `\r` |
| `FieldExtractor.Normalize` | src/lib/pdfUtils.js:46 | Each `\r` becomes `\n` and every other character is kept, at the same position |
| `Text.JoinSplit` | src/lib/pdfUtils.js:47 | `split("\n")` loses nothing: joining its pieces with `\n` gives the text back |
| `Text.SplitJoin` | src/lib/pdfUtils.js:47 | Splitting pieces that hold no separator, once joined with it, gives the pieces back |
| `Text.SplitOnPieceChars` | src/lib/pdfUtils.js:47 | Every character of a split piece occurs in the split string |
| `Text.NonEmptyMembers` | src/lib/pdfUtils.js:47 | `filter(Boolean)` on strings keeps exactly the non-empty ones |
| `Text.NonEmptyAppend` | src/lib/pdfUtils.js:47 | `filter(Boolean)` keeps the lines in order: filtering a concatenation is the concatenation of the filtered parts |
| `Text.Trim` | src/lib/pdfUtils.js:47 | `trim()` yields a trimmed slice of its input with only whitespace cut off on either side, and leaves a trimmed string unchanged |
| `Text.TrimIdempotent` | src/lib/pdfUtils.js:97-101 | Trimming twice is trimming once |
| `Text.TrimEmptyIffBlank` | src/components/InterviewChat.jsx:88 | A string trims to `""` exactly when all its characters are whitespace |
| `EmailScan.MatchAt` | src/lib/pdfUtils.js:50 | The regex engine's attempt at one start position, in backtracking order. A match ends after its start and within the text; `MatchAtSound` and `MatchAtComplete` fix the language it matches |
| `EmailScan.FirstEmail` | src/lib/pdfUtils.js:50 | The first start position where `MatchAt` succeeds, with its end; `FirstEmailIsLeftmostLongest` characterises it |
| `EmailScan.EmailOf` | src/lib/pdfUtils.js:50-51 | `match ? match[0].trim() : ""` over the first match; `EmailOfIsFirstMatch` and `EmailShape` state its properties |
| `EmailScan.MatchAtSound` | src/lib/pdfUtils.js:50 | What the scanner matches at a start position is e-mail shaped: local characters, `@`, domain characters, `.`, two or more letters |
| `EmailScan.MatchAtComplete` | src/lib/pdfUtils.js:50 | If an e-mail shaped slice starts at a position, the scanner matches there, and its match is at least as long |
| `EmailScan.FirstEmailIsLeftmostLongest` | src/lib/pdfUtils.js:50 | The first match is the leftmost e-mail shaped slice and the longest at its start; there is no match exactly when the text holds no such slice |
| `EmailScan.EmailOfIsFirstMatch` | src/lib/pdfUtils.js:50-51 | The `trim()` leaves the match unchanged, so the e-mail is exactly the first match, and it is non-empty when there is one |
| `EmailScan.EmailShape` | src/lib/pdfUtils.js:50-51 | A non-empty e-mail is a slice of the input with a non-empty local part over `[A-Za-z0-9._%+-]`, an `@`, a domain over `[A-Za-z0-9.-]`, and a final `.` followed by at least two letters |
| `FieldExtractor.EmailField` | src/lib/pdfUtils.js:50-51 | The returned e-mail is the first match, and is empty exactly when no slice of the input is e-mail shaped |
| `PhoneScan.MatchAt` | src/lib/pdfUtils.js:54 | The regex engine's attempt at one start position, trying the alternatives in the engine's order. A match ends after its start and within the text; `MatchAtSound` and `MatchAtComplete` fix its language |
| `PhoneScan.FirstPhone` | src/lib/pdfUtils.js:54 | The first start position where `MatchAt` succeeds, with its end; `FirstPhoneIsLeftmost` characterises it |
| `PhoneScan.PhoneOf` | src/lib/pdfUtils.js:54-55 | `match ? match[0].trim() : ""` over the first match; `PhoneShape` states its properties |
| `PhoneScan.MatchAtSound` | src/lib/pdfUtils.js:54 | What the scanner matches at a start position is a string of the phone pattern's language |
| `PhoneScan.MatchAtComplete` | src/lib/pdfUtils.js:54 | If a slice in the phone language starts at a position, the scanner matches there |
| `PhoneScan.FirstPhoneIsLeftmost` | src/lib/pdfUtils.js:54 | The first match is in the language and starts further left than any other slice in it; there is no match exactly when no slice is in it |
| `PhoneScan.NumberHasTenDigits` | src/lib/pdfUtils.js:54 | Each of the three number groupings holds at least ten digits |
| `PhoneScan.SpanShape` | src/lib/pdfUtils.js:54 | A slice in the language holds at least ten digits and consists of digits, `-`, `.` or whitespace and at most a leading `+`; it ends in a digit |
| `PhoneScan.PhoneShape` | src/lib/pdfUtils.js:54-55 | A non-empty phone is the leftmost match itself, a slice of the input with at least ten digits and only those characters; it is empty exactly when nothing matches |
| `FieldExtractor.PhoneField` | src/lib/pdfUtils.js:54-55 | The returned phone is the first match, with the shape above, and empty exactly when no slice of the input matches |
| `NameHeuristics.Accepts` | src/lib/pdfUtils.js:62-82 | A line is accepted by a pass when it holds no `@` and no digit and its words qualify for that pass |
| `NameHeuristics.WordsQualify` | src/lib/pdfUtils.js:65-82 | Pass 1: 1 to 4 words, at least half starting with `A`-`Z`, and none of `\|:;<>~}{` in the line. Pass 2: 2 to 4 words, each a letter followed by one or more of letters, `.`, `'` or `-` |
| `NameHeuristics.ScanNamePass` | src/lib/pdfUtils.js:60-87 | The pass loop yields the first line within the bound (8 for pass 1, 20 for pass 2) that the pass accepts, and `""` exactly when no such line exists |
| `NameHeuristics.FirstAcceptedFrom` | src/lib/pdfUtils.js:60-86 | The first accepted line index lies within `Math.min(lines.length, limit)`, and every earlier line is rejected; no result means every line within the bound is rejected |
| `NameHeuristics.CapCount` | src/lib/pdfUtils.js:67 | The count of words starting with `A`-`Z` never exceeds the number of words |
| `FieldExtractor.NameOf` | src/lib/pdfUtils.js:58-95 | Pass 1's line if any, else pass 2's, else the e-mail-derived name when there is an e-mail, else `""`; `NameProvenance` states its properties |
| `FieldExtractor.NameProvenance` | src/lib/pdfUtils.js:58-95 | The name precedence. Pass 1's line (among the first 8) wins if any. Pass 2 (first 20) is consulted only if pass 1 finds none. Either name is the accepted line itself, with no `@` and no digit. Only when both fail and the e-mail is non-empty is the name derived from the e-mail: letters and spaces, each token capitalised. Otherwise it is `""` |
| `NameHeuristics.LocalPartBeforeAt` | src/lib/pdfUtils.js:90 | `email.split("@")[0]` is everything before the first `@` |
| `NameHeuristics.LettersOnly` | src/lib/pdfUtils.js:91 | `replace(/[^a-zA-Z]/g, "")` leaves only ASCII letters |
| `Text.SplitWhereConcat` | src/lib/pdfUtils.js:91 | Splitting at `.`, `_`, `-` loses only the separators: the pieces concatenate to the local part without them |
| `Text.WithoutAppend` | src/lib/pdfUtils.js:91 | Removing a character class from a concatenation removes it from each part |
| `NameHeuristics.CapitalizeLetters` | src/lib/pdfUtils.js:93 | Capitalising a piece of letters keeps it letters and makes its first letter upper-case |
| `NameHeuristics.JoinCapitalised` | src/lib/pdfUtils.js:93 | Joining capitalised letter pieces with spaces gives letters and spaces, each token starting upper-case |
| `NameHeuristics.DerivedName` | src/lib/pdfUtils.js:89-95 | The local part is split at `.`, `_` and `-`, empty pieces dropped, non-letters stripped, each piece capitalised, and the pieces joined with spaces; `DerivedNameShape` and the two examples state its properties |
| `NameHeuristics.DerivedNameShape` | src/lib/pdfUtils.js:89-95 | The derived name holds only ASCII letters and spaces, and every letter that starts a token is upper-case |
| `NameHeuristics.TrimKeepsShape` | src/lib/pdfUtils.js:98 | The final `trim()` keeps that shape |
| `NameHeuristics.DerivedNameExample` | src/lib/pdfUtils.js:89-95 | `john.q.public@x.com` gives `John Q Public` |
| `NameHeuristics.DerivedNameMayBeEmpty` | src/lib/pdfUtils.js:91-94 | `123@x.com` gives `""`: a non-empty e-mail does not guarantee a name |
| `Text.Words` | src/lib/pdfUtils.js:65-81 | `split(/\s+/)` yields at least one word, and no word holds whitespace; `WordsConcat` and `WordsJoin` tie the words to the line |
| `Text.WordsConcat` | src/lib/pdfUtils.js:65-81 | The words, run together, are exactly the line with its whitespace removed: the split drops whitespace and nothing else |
| `Text.WordsJoin` | src/lib/pdfUtils.js:65-81 | Non-empty words without whitespace, joined by single whitespace characters, split back into the same words |
| `Text.WordsOfTrimmed` | src/lib/pdfUtils.js:65 | `split(/\s+/)` of a non-empty trimmed line yields only non-empty words |
| `InterviewSession.SecondsForLevel` | src/components/InterviewChat.jsx:18-22 | `easy` gets 20 seconds, `medium` 60, any other level 120, and only those levels get 20 or 60 |
| `InterviewSession.Budgets` | src/components/InterviewChat.jsx:9-16 | The six questions have budgets 20, 20, 60, 60, 120, 120, never decreasing |
| `InterviewSession.Session.Init` | src/components/InterviewChat.jsx:26-32 | Each field comes from the saved snapshot or its `??` default. A restored session waits paused behind the welcome dialog; a new one runs. There are six answer slots and the snapshot is saved |
| `InterviewSession.Session.Tick` | src/components/InterviewChat.jsx:35-41 | While running, the countdown drops by one and is saved, and the auto-submit check follows. A paused controller does not change |
| `InterviewSession.Session.CheckTimeout` | src/components/InterviewChat.jsx:44-48 | It auto-submits exactly when running with `timeLeft <= 0`, and otherwise changes nothing |
| `InterviewSession.Session.TogglePause` | src/components/InterviewChat.jsx:135 | Flips `running` and changes nothing else: no answer, no countdown, no snapshot |
| `InterviewSession.Session.SetAnswer` | src/components/InterviewChat.jsx:78-82 | Only the current slot changes; index, countdown and timer state stay, and the snapshot is saved |
| `InterviewSession.Session.ResumeSession` | src/components/InterviewChat.jsx:62-67 | Closes the welcome dialog and runs the timer. It keeps question and answers, and resets a zero countdown to the question's budget |
| `InterviewSession.Session.StartFresh` | src/components/InterviewChat.jsx:69-76 | Back to question 0 with six empty answers, 20 seconds, running, welcome closed; the cleared slot is saved again |
| `InterviewSession.Session.Submit` | src/components/InterviewChat.jsx:84-105 | Settles the current slot. Before the last question it moves to the next one with its full budget, running. On the last it stays, stops, clears the saved session and hands off the answers from before the settle |
| `InterviewSession.Settled` | src/components/InterviewChat.jsx:88 | A manual submit never lengthens the answer |
| `InterviewSession.SettledByTrimTest` | src/components/InterviewChat.jsx:88 | The settle implements the source's `!a \|\| a.trim() === ""` test: blank answers become the timed-out marker (auto) or `""` (manual), others stay |
| `InterviewSession.SettledNeverBlankOnTimeout` | src/components/InterviewChat.jsx:88 | After a timed-out submit the slot is never blank, and a non-blank answer is never altered |
| `InterviewSession.SettleCurrent` | src/components/InterviewChat.jsx:86-90 | Only the current slot is settled: the answers keep their length and every other slot is unchanged |
| `InterviewSession.SettleCurrentSlot` | src/components/InterviewChat.jsx:86-90 | After a submit the current slot is non-blank if auto, blank exactly when the typed answer was if manual, and unchanged when non-blank; other slots are untouched |
| `InterviewSession.HandoffMissesLastSettle` | src/components/InterviewChat.jsx:97 | Six blank answers timed out on the last question: the stored slot holds the marker while the hand-off still holds `""` |
| `InterviewSession.ProgressPercent` | src/components/InterviewChat.jsx:107 | The integer percentage is within half a point of `index / 6 * 100`, and below 100 on every question |
| `Finalization.Points` | src/pages/Interviewee.jsx:51 | An answer earns one point per full 20 characters, at most 20 |
| `Finalization.SumPoints` | src/pages/Interviewee.jsx:49-51 | The `reduce` adding up each answer's points; `SumPointsBound` and `FallbackMonotone` state its bound and monotonicity |
| `Finalization.SumPointsBound` | src/pages/Interviewee.jsx:49-51 | The summed points are at most 20 per answer |
| `Finalization.FallbackScore` | src/pages/Interviewee.jsx:47-52 | The fallback score lies in 0..100 and is at most 20 per answer |
| `Finalization.PointsMonotone` | src/pages/Interviewee.jsx:51 | A longer answer never earns fewer points |
| `Finalization.FallbackMonotone` | src/pages/Interviewee.jsx:47-52 | Lengthening any answers never lowers the fallback score |
| `Finalization.FallbackExamples` | src/pages/Interviewee.jsx:47-52 | Lengths 0, 20, 40, 100, 100, 100 score 18; six 400-character answers are capped at 100 |
| `Finalization.Assess` | src/pages/Interviewee.jsx:24-54 | A remote score and summary are used verbatim. Any failure gives the fallback score and the fixed summary `Dummy summary generated (no scoring API).`. The answers are kept |
| `Finalization.RecordName` | src/pages/Interviewee.jsx:36 | `name \|\| email \|\| "Unknown"` is never empty and prefers the name, then the e-mail |
| `Finalization.CandidateRecord` | src/pages/Interviewee.jsx:34-64 | The record `saveCandidate` receives on the success path (lines 34-43) and on the fallback path (lines 55-64) copies e-mail, phone and the outcome's score, summary and answers, under the record name |
| `Finalization.IntervieweePage.constructor` | src/pages/Interviewee.jsx:11-12 | The page starts with no profile and no result, over the stored candidates |
| `Finalization.IntervieweePage.HandleConfirmProfile` | src/pages/Interviewee.jsx:14-16 | The confirmed fields become the profile |
| `Finalization.IntervieweePage.HandleFinish` | src/pages/Interviewee.jsx:19-66 | With or without the scoring service, the outcome is shown and exactly one record is prepended to the stored candidates; no failure escapes |
| `Uploader.IsPdf` | src/components/ResumeUploader.jsx:20 | A file is a PDF when its type is `application/pdf` or its lower-cased name ends in `.pdf`; `IsPdfIgnoresCase` characterises it |
| `Uploader.IsPdfIgnoresCase` | src/components/ResumeUploader.jsx:20 | A file is accepted when its type is `application/pdf` or its name ends in `.pdf` in any mix of cases, and only then |
| `Uploader.IsPdfExamples` | src/components/ResumeUploader.jsx:20 | `CV.PDF` is accepted, `cv.pdf.txt` and `cv.pd` are not, a PDF type is accepted whatever the name |
| `Uploader.ResumeUploader.constructor` | src/components/ResumeUploader.jsx:13-15 | The uploader starts with an empty profile, not loading, no text |
| `Uploader.ResumeUploader.HandleFile` | src/components/ResumeUploader.jsx:19-48 | A non-PDF changes nothing. A parsed PDF keeps the text and replaces all three fields with the extractor's, empty ones included. A failed parse leaves profile and text. Loading ends either way |
| `Uploader.WithField` | src/components/ResumeUploader.jsx:51 | An edit sets the chosen field and keeps the other two |
| `Uploader.ResumeUploader.HandleInputChange` | src/components/ResumeUploader.jsx:50-52 | One input edits one field of the profile and nothing else |
| `Uploader.ResumeUploader.HandleUseDemo` | src/components/ResumeUploader.jsx:54-59 | The profile becomes, and is confirmed as, `Demo Candidate`, `demo@example.com`, `9999999999` |
| `Uploader.ResumeUploader.HandleConfirm` | src/components/ResumeUploader.jsx:61-68 | The profile is passed on, as it stands, exactly when its e-mail is non-empty |

## Left out

- `extractTextFromPdf` and the pdf.js worker set-up (src/lib/pdfUtils.js:8-40) are not part of this model. `HandleFile` takes the extracted text, or its failure, as a parameter.
- The storage helpers (src/lib/storage.js) are not modelled as code. The session slot is the ghost field `stored`, and the candidate list is the ghost field `candidates`. Read and write failures, which the helpers swallow, are not modelled.
- React scheduling is not modelled:
  - the re-render order;
  - the persistence effect firing again after `clearSession` once the answers change;
  - `setInterval` and `setTimeout` delays;
  - input focus.
  Ticks and the auto-submit check are explicit method calls. Every transition that changes `index`, `answers` or `timeLeft` saves the snapshot, and the finishing submit ends with the slot cleared.
- `uuidv4()` and `Date.now()` are not modelled. The fresh session id is a parameter, and ids and timestamps are dropped from snapshots and records.
- `fetch("/api/score")` is the parameter `RemoteOutcome`: a score and a summary, or a failure. A body without `score` or `summary` fields is not modelled, and the score is taken to be an integer.
- `HandleFile` does not model `handleFile`'s return value. It is `Upload.LIST_IGNORE` on every path, so there is nothing to state about it. The user messages and console logging are left out too.
- JavaScript strings are UTF-16 code units, and the model uses `char`. Lengths and indices differ only for characters outside the Basic Multilingual Plane.
- `IsPdf` lower-cases with ASCII-only `LowerAscii`. Only ASCII letters can lower-case to the characters of `.pdf`, so the test gives the same answer.
- The controller's answers are always strings. `Finalization.Points` therefore has no case for a missing answer, which the source counts as length 0.
- `InterviewSession.Session.Init` requires a resumable snapshot: a saved index below 6 and six saved answer slots, if those fields are present. With a larger index the source would read past the question list.
- `InterviewSession.Session.StartFresh`: `clearSession()` runs, and then the persistence effect saves the new state, so the slot is not left empty.
- `InterviewSession.Session.Submit` on the last question does not advance `index`. The hand-off receives the answers from before the settle, not the settled ones (`HandoffMissesLastSettle`).
- `Finalization.IntervieweePage.HandleFinish` requires a confirmed profile. The page only starts the interview once one is set; with none, the source would throw on `profile.name`.
- `Finalization.IntervieweePage.HandleFinish` treats a response whose body cannot be read as a plain failure of the scoring call.
