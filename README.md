# Dial-100 emergency call assistant, modelled in Dafny

This models the sequential core of an automated emergency helpline (a
PSAP call taker). The call orchestrator greets the caller, then repeats
the following steps:

1. It records one utterance, which ends after a run of quiet audio frames.
2. It transcribes the utterance.
3. If the transcript is empty, it asks the caller to repeat and goes back to step 1.
4. Otherwise it appends the caller's turn to the conversation.
5. It asks a dialogue agent for a reply, speaks the reply, and appends it.
6. It stops once the reply contains "help is on the way".

It then speaks a closing line and saves the conversation as a text report
named after the current minute. A separate endpoint reads the language
model's summary of a call as a bracketed list and maps it to an incident
record.

Modules, one per file:

- `Text` covers the ASCII string operations the Python code relies on:
  - `strip`, `lower`, `title`;
  - substring search;
  - `split` on one separator, with its inverse `Join`;
  - `split(sep)[-1]`;
  - one-character `replace`.
- `Capture` models the silence-endpointed read loop of
  `record_audio_silence`, as an imperative method over a finite stream of
  frames.
- `Transcription` models what `transcribe_audio` does with the engine's
  answer, and the choice between Hindi and English for speech output.
- `Report` covers:
  - the transcript format and file name of `save_report`, written as a
    loop;
  - a reader for the transcript, which is the partner of the round-trip
    lemma.
- `Orchestrator` models `emergency_bot`:
  - a `CallSession` class whose conversation, speech log and saved files
    the methods update;
  - the loop over the scripted transcripts, with its invariants;
  - lemmas relating the conversation to what the caller said.
- `Incident` models the bracket-list parser of `get_incident`:
  - the leftmost, non-greedy search for `\[(.*?)\]`;
  - comma splitting and stripping;
  - the five-field mapping, with the error dict and the `IndexError`
    outcome;
  - a render/parse round trip for the list format the model is asked to
    produce.

The speech-to-text engine, the dialogue agent and the clock are inputs:

- a sequence of raw engine answers, one per capture;
- a function from the conversation to the agent's reply;
- a `Timestamp` value.

Speech output is a log of `(text, language)` pairs. A saved report is a
`(path, text)` value.

Where the code and its design description differ, the model follows the
code:

- **Re-prompt language.** The re-prompt after an empty transcript is
  spoken in the language the engine reported for that empty transcript,
  without the hi/en mapping (Assistant.py:135). The code keeps no
  "remembered caller language" across turns.
- **No transcription-failure path.** Engine failures are not turned into
  an empty transcript. The code has no such handler.
- **Short lists crash.** An incident list with fewer than five items raises
  `IndexError` (app.py:50-56). It does not return the error dict.

## Model

| member | source | states |
|---|---|---|
| Capture.IsSilent | Assistant.py:53-54 | a frame is quiet when its mean absolute sample is below the threshold, stated without division as `sum < threshold * length`; an empty frame is never quiet |
| Capture.TrailingSilent | Assistant.py:53-57 | the `silent_chunks` counter as a function of the frames read so far; it never exceeds the number of frames (its partners are TrailingSilentSnoc and TrailingSilentRun) |
| Capture.TrailingSilentSnoc | Assistant.py:53-57 | reading one more frame adds one to the consecutive-silence count if the frame is quiet, and resets the count to 0 if it is loud |
| Capture.TrailingSilentRun | Assistant.py:53-57 | the count is the length of the maximal trailing run of quiet frames: every frame in the run is quiet, and the frame before it is loud |
| Capture.Concat | Assistant.py:61 | the clip is every frame's samples, in reading order; a definition whose properties ConcatLength and RecordAudioSilence state |
| Capture.ConcatLength | Assistant.py:51-61 | a clip that ends in n quiet frames, each of them non-empty, holds at least n samples |
| Capture.QuietStreamEndpoint | Assistant.py:50-59 | if the caller is quiet from the start, reading stops after exactly maxSilentChunks + 1 frames and no earlier prefix meets the break test |
| Capture.NoEndpointNext | Assistant.py:58-59 | if no prefix up to n meets the break test and the prefix of length n + 1 does not either, then no prefix up to n + 1 meets it |
| Capture.RecordAudioSilence | Assistant.py:43-61 | the loop reads up to the first prefix whose trailing quiet run exceeds maxSilentChunks, and no shorter prefix does; the run is then exactly maxSilentChunks + 1 frames, all of them quiet; the clip is every frame read, concatenated in order, with more than maxSilentChunks samples |
| Capture.EndpointClip | Assistant.py:51-61 | a clip read up to the endpoint ends in maxSilentChunks + 1 quiet frames and holds more than maxSilentChunks samples |
| Text.Strip | Assistant.py:75 | the result starts and ends with non-whitespace, or is empty |
| Text.StripBounds | Assistant.py:75 | strip removes only whitespace, and only at the two ends: the result is a contiguous slice of the input with whitespace on both sides of it |
| Text.StripIdempotent | Assistant.py:75 | stripping twice is the same as stripping once |
| Text.StripBlank | Assistant.py:134 | a string strips to empty exactly when every character is whitespace |
| Text.Lower | Assistant.py:152 | lower-casing keeps the length and maps each character to its lower-case form |
| Text.Contains | Assistant.py:152 | the substring test, defined by recursion on the text; ContainsOccurrence characterises it by positions |
| Text.ContainsOccurrence | Assistant.py:152 | the `in` test holds exactly when the phrase occurs at some position |
| Text.Title | Assistant.py:116 | title case keeps the length; TitleLowerWord states what it does to the role names |
| Text.TitleLowerWord | Assistant.py:116 | title-casing a lower-case word capitalises its first letter and keeps the rest |
| Text.Split | app.py:46 | split gives one more piece than there are separators, and no piece contains the separator |
| Text.JoinSplit | app.py:46 | joining the pieces of a split with the separator gives back the original string |
| Text.SplitJoin | app.py:46 | splitting a join of separator-free pieces gives back the pieces |
| Text.JoinConcat | app.py:46 | joining two non-empty lists of pieces together is joining each one, with a separator between them |
| Text.JoinExcludes | app.py:44-46 | a character that is in no piece and is not the separator is not in the join |
| Text.CountZero | app.py:46 | a string has no occurrence of a character exactly when the character is not in it |
| Text.LastPiece | app.py:54-55 | the last piece of a split holds no separator; LastPieceSuffix states which suffix it is |
| Text.LastPieceSuffix | app.py:54-55 | `split(sep)[-1]` is the separator-free suffix after the last separator, or the whole string when it has no separator |
| Text.ReplaceChar | Assistant.py:112 | replace keeps the length, puts the new character wherever the old one was, and changes no other character |
| Transcription.PostProcess | Assistant.py:75-77 | the text is stripped; the language is the engine's language, or "en" when the engine reports none |
| Transcription.PostProcessStable | Assistant.py:75-77 | post-processing a transcript again changes nothing |
| Transcription.IsBlank | Assistant.py:134 | the call loop's emptiness test, defined as the stripped text being empty; BlankIffWhitespace characterises it |
| Transcription.BlankIffWhitespace | Assistant.py:134 | a transcript counts as empty exactly when the engine heard only whitespace, which is exactly when its stripped text is empty |
| Transcription.SynthesisLanguage | Assistant.py:146 | the reply is spoken with "hi" exactly when the detected language is "hi", and with "en" otherwise; the language is unchanged exactly for "hi" and "en" |
| Report.Pad | Assistant.py:109 | a strftime field is exactly `width` decimal digits |
| Report.PadValue | Assistant.py:109 | the padded digits read back as the number, for any number that fits the width |
| Report.PadInjective | Assistant.py:109 | distinct field values that fit the width print differently |
| Report.FormatTimestamp | Assistant.py:109 | the minute's text is 16 characters long; PadValue, StampFields and FileNameInjective state what it holds |
| Report.FileName | Assistant.py:110-112 | the report path, defined from the reports folder, the prefix, the timestamp with ':' made '-' and ".txt"; FileNameInjective is its partner |
| Report.FileNameInjective | Assistant.py:109-112 | for valid timestamps, two reports get the same file name exactly when they are saved in the same minute |
| Report.StampFields | Assistant.py:109-112 | the stamp in the file name is 16 characters long, with each field's digits at its fixed position |
| Report.DigitsKept | Assistant.py:112 | replacing ':' leaves a run of digits unchanged |
| Report.LineText | Assistant.py:116-118 | one `Role: content` line, defined from the title-cased role; ParseLineText reads it back |
| Report.ReportText | Assistant.py:114-118 | the transcript text, defined as the header, a blank line and the message lines; SaveReport builds it and ReportRoundTrip reads it back |
| Report.SaveReport | Assistant.py:108-118 | the file is `incident_reports/incident_report_<ts with ':' replaced by '-'>.txt` holding the header, a blank line, then one `Role: content` line per message in order, built by a loop proved against `ReportText` |
| Report.ReportTextSnoc | Assistant.py:115-118 | writing one more message extends the transcript by exactly that message's line and a newline |
| Report.RoleTitles | Assistant.py:116 | the title-cased role names are "User" and "Assistant" |
| Report.ReportTextAsJoin | Assistant.py:114-118 | the transcript is the newline join of the header, an empty line, one line per message, and an empty last piece |
| Report.LinesAsJoin | Assistant.py:115-118 | the message lines are the newline join of their texts, followed by a final newline |
| Report.BlankLine | Assistant.py:114 | proof helper about concatenation: two single newlines between any two strings equal the two-character separator written after the header |
| Report.ParseLineText | Assistant.py:118 | a single-line message reads back from its `Role: content` line |
| Report.LineTextNoNewline | Assistant.py:118 | the line of a single-line message holds no newline |
| Report.ParseLineTexts | Assistant.py:115-118 | the message lines read back as the whole conversation, in order |
| Report.ParseLinesSnoc | Assistant.py:115-118 | reading one more well-formed line appends its message to those already read |
| Report.FormatTimestampNoNewline | Assistant.py:109 | the timestamp text holds no newline |
| Report.ParseHeaderLine | Assistant.py:114 | the header line reads back as its timestamp |
| Report.LinePartsNoNewline | Assistant.py:114-118 | no line of the transcript holds a newline when no message does |
| Report.HeaderNoNewline | Assistant.py:114 | the header line holds no newline when the timestamp holds none |
| Report.LineTextsNoNewline | Assistant.py:118 | no message line holds a newline when no message content does |
| Report.ReportLines | Assistant.py:114-118 | splitting the transcript on newlines gives the header, an empty line, one line per message, and an empty last piece |
| Report.ParseReport | Assistant.py:114-118 | the reader for the transcript format, defined by splitting on newlines; it is the inverse in ReportRoundTrip |
| Report.ReportRoundTrip | Assistant.py:108-118 | reading a saved transcript back gives its timestamp and the whole conversation, as long as no message spans two lines |
| Report.MultilineContentIsAmbiguous | Assistant.py:118 | without that condition the format is ambiguous: for any x and y, a caller turn `x` + newline + `Assistant: ` + `y` gives the same transcript as the two turns `x` and `y` |
| Report.LabelAssoc | Assistant.py:118 | proof helper about concatenation used by the ambiguity lemma: it regroups a caller line holding a newline and an assistant label into two lines |
| Orchestrator.IsClosing | Assistant.py:152 | the termination test, defined as a substring test on the lower-cased reply; ClosingIsCaseInsensitive characterises it |
| Orchestrator.ClosingIsCaseInsensitive | Assistant.py:152-153 | a reply ends the call exactly when some stretch of it, lower-cased, equals "help is on the way" |
| Orchestrator.AlternatesNoRepeat | Assistant.py:140-149 | in an alternating conversation, no two consecutive messages have the same role |
| Orchestrator.CallerTextsStep | Assistant.py:133-140 | consuming one transcript adds its text to what the caller said, unless it is blank |
| Orchestrator.SilentCallerSaysNothing | Assistant.py:134-136 | whitespace-only transcripts add nothing at all to the conversation |
| Orchestrator.Speeches | Assistant.py:134-146 | what the loop says per transcript, defined by recursion on the transcripts; RepromptStep, ReplyStep and SpeechesLength state its properties |
| Orchestrator.RepromptStep | Assistant.py:134-136 | a blank transcript adds exactly one speech: the re-prompt, in that transcript's language |
| Orchestrator.ReplyStep | Assistant.py:140-146 | a non-blank transcript adds exactly one speech: the agent's reply, in Hindi or English |
| Orchestrator.SpeechesLength | Assistant.py:130-146 | between the greeting and the closing line, every transcript consumed is answered by exactly one speech |
| Orchestrator.AlternatingCounts | Assistant.py:140-149 | an alternating conversation that starts with the caller has ceil(n/2) caller turns and floor(n/2) agent turns |
| Orchestrator.UserTextsAt | Assistant.py:140 | the caller message at an even position is the corresponding entry of the caller's texts |
| Orchestrator.ConversationDetermined | Assistant.py:130-153 | two even-length alternating conversations that follow the same agent, with the same caller texts, are equal |
| Orchestrator.SameLength | Assistant.py:140-149 | even-length alternating conversations with the same caller texts have the same length |
| Orchestrator.SameAt | Assistant.py:140-149 | two such conversations that agree before a position also agree at it: the caller texts fix the caller's message, and the agent fixes the reply |
| Orchestrator.PrefixesAgree | Assistant.py:140-149 | two such conversations agree on every prefix |
| Orchestrator.CompletedTurn | Assistant.py:140-153 | one turn (a caller message, then the agent's reply to the history so far) keeps alternation, even length and agent-following; it adds one caller text and one reply; the call then closes exactly when that reply contains the phrase |
| Orchestrator.TurnAlternates | Assistant.py:140-149 | appending a caller message and then the reply keeps the roles alternating |
| Orchestrator.TurnFollows | Assistant.py:141-149 | the appended reply is the agent's answer to the history up to and including the new caller message |
| Orchestrator.TurnCloses | Assistant.py:151-153 | after the turn, only the new reply can contain the closing phrase, and it closes the call exactly when it contains the phrase |
| Orchestrator.BlankTurn | Assistant.py:134-136 | a blank transcript leaves the conversation unchanged and adds exactly the re-prompt to the speech log |
| Orchestrator.SpokenTurn | Assistant.py:140-153 | a non-blank transcript adds its text and then the agent's reply, speaks the reply in Hindi or English, and closes the call exactly when the reply contains the phrase |
| Orchestrator.Listen | Assistant.py:130-153 | the loop consumes transcripts until the call closes or the script runs out, and when it closes the last transcript consumed is the non-blank one that drew the closing reply; afterwards the conversation meets every property listed for EmergencyBot below, the speech log is the greeting followed by one speech per transcript, and nothing has been saved |
| Orchestrator.CallSession.constructor | Assistant.py:124-126 | a session starts with an empty conversation, nothing spoken and nothing saved |
| Orchestrator.CallSession.Speak | Assistant.py:24-35 | speaking adds exactly one `(text, language)` entry to the speech log and changes nothing else |
| Orchestrator.CallSession.Append | Assistant.py:140 | appending adds exactly one message to the conversation and changes nothing else |
| Orchestrator.CallSession.Save | Assistant.py:159 | saving adds the one report file for the current conversation and the given minute, and changes nothing else |
| Orchestrator.EmergencyBot | Assistant.py:122-161 | see the list below the table |
| Incident.CloseFrom | app.py:44 | finds the nearest `]` with no newline before it, or proves that there is none |
| Incident.SearchFrom | app.py:44 | finds the leftmost `[` that starts a match, ended by the nearest `]` after it; the match spans no newline; when the search fails, no `[`...`]` pair lies on one line |
| Incident.StripAll | app.py:47 | each item is the stripped piece at the same position |
| Incident.Items | app.py:46-47 | there is one item more than there are commas, and every item is stripped |
| Incident.Search | app.py:44 | the leftmost bracket match, from the start of the answer; its contract is that of SearchFrom |
| Incident.Extract | app.py:44-45 | the captured text of the match, if any; ExtractShape and ExtractRender state its properties |
| Incident.ParseIncident | app.py:44-59 | returns the error dict, with its fixed message, exactly when no `[`...`]` pair lies on one line; raises IndexError exactly when the bracket text has fewer than four commas; returns a structured result otherwise |
| Incident.ExtractShape | app.py:44 | a match exists exactly when some pair lies on one line; the extracted text holds no `]` and no newline |
| Incident.StructuredFieldsTrimmed | app.py:46-56 | every structured field is stripped |
| Incident.StructuredFieldsSeparatorFree | app.py:46-56 | summary, ambulance and fire engine hold no comma; injured and dead hold no colon |
| Incident.CountFields | app.py:51-55 | summary, ambulance and fire engine are items 0, 1 and 2 exactly as stripped; injured and dead are the stripped text after the last colon of items 3 and 4, or the whole item when it has no colon |
| Incident.LastColon | app.py:54-55 | for one stripped item: the text after its last colon, or the item itself when it has no colon |
| Incident.StripSubstring | app.py:47 | stripping introduces no character |
| Incident.LabelledValue | app.py:54-55 | a labelled count such as "Number of injured people: N" reads back as N, even when N is empty |
| Incident.SpacedItem | app.py:47 | an item written after ", " reads back as itself |
| Incident.RenderItemsClean | app.py:46 | no rendered item of a well-formed incident holds a comma, a `]` or a newline |
| Incident.PrefixClean | app.py:33 | proof helper for the render round trip: the fixed text written before each field holds no comma, no `]` and no newline |
| Incident.CleanConcat | app.py:44-46 | proof helper about concatenation: two strings free of commas, `]` and newlines concatenate to one that is free of them too |
| Incident.ExtractRender | app.py:44 | when no `[` precedes it, the regex matches exactly the rendered list |
| Incident.ItemsRender | app.py:46-56 | the rendered list yields five items that map back to the incident's fields |
| Incident.ParseRender | app.py:44-56 | the list format the model is asked for parses back to the incident that was written, as long as it is the first bracket in the answer and its fields are well formed |

`Orchestrator.EmergencyBot` states the following. Its `Progress` predicate
holds the conversation properties, and `SpokenSoFar` holds the speech log:

- The conversation alternates, starting with the caller, and has even
  length.
- Its caller texts are exactly the non-blank transcripts consumed.
- Every reply is the agent's answer to the history up to the reply.
- Only the last reply may contain the closing phrase. It contains it
  exactly when the call closed.
- When the call closes, the loop has stopped right after the transcript
  that drew the closing reply. That last transcript consumed is non-blank,
  and no later transcript is read.
- The speech log is the greeting, then one speech per transcript, then
  the closing line if the call closed.
- Exactly one report is saved when the call closes, and none otherwise.
  It holds the final conversation.

## Left out

Not modelled:

- **Audio hardware and recording files.** The input stream, the
  recordings folder, `sf.write` and `sf.read`, and the recording file
  name taken from the clock are not modelled. Capture is a finite
  sequence of frames. A transcription is the engine's answer for one
  capture.
- **Floating point.** Samples are integers in a fixed-point unit shared
  with the threshold, and the volume test is exact integer arithmetic.
- **Frame-count computation.** The float computation
  `int(max_silence_sec * samplerate / chunk)` (31 with the defaults) is
  replaced by the parameter `maxSilentChunks`.
- **Channel averaging** in `transcribe_audio` is floating-point numerics,
  and the clip is mono.
- **External services.** Whisper, gTTS, pygame playback, the Ollama calls
  and the system prompt texts are external services or data. They are
  replaced by:
  - the scripted engine answers;
  - the agent function;
  - the speech log.
- **Audio file cleanup.** Removing the synthesised audio file, including
  the `PermissionError` retry, is operating-system file locking.
- **File system and web server.** Directory creation, the file write,
  the hard-coded report path read in `get_incident`, and the
  FastAPI/CORS/uvicorn setup are plumbing. A report is returned as a
  value.
- **Unicode.** `strip`, `lower` and `title` are modelled over ASCII:
  - whitespace is characters 9-13 and 28-32;
  - case mapping covers only A-Z and a-z.

Deliberately weaker or limited contracts:

- Orchestrator.EmergencyBot: service failures are not modelled. In the
  source, an exception from the speech-to-text engine, the dialogue agent,
  speech synthesis or playback, or the retried audio-file removal
  (Assistant.py:26-40, 74, 103) propagates out of `emergency_bot`. The
  call then ends without the closing line and without a report. In the
  model every engine answer and every agent reply arrives.
- Capture.RecordAudioSilence: the stream must contain an endpoint.
  Without one, the source blocks forever on the input device.
- Orchestrator.EmergencyBot: the source listens until the agent closes
  the call. When the finite script runs out first, the model returns
  with `closed` false, and it has neither spoken the closing line nor
  saved a report.
- Report.FileNameInjective: holds only for years 1000-9999. strftime's
  padding of smaller years is not modelled.
- Report.ReportRoundTrip: holds only when no message contains a newline.
  `Report.MultilineContentIsAmbiguous` shows why that condition is
  needed.
- Incident.ParseRender: needs fields free of commas, `]` and newlines,
  counts free of colons, and no `[` before the list.
