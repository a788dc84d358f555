# Vosk real-time transcribers: the per-event decision logic

The repository holds four variants of one program. Each listens to the
microphone, feeds the audio to a Vosk recogniser, and appends the recognised
sentences ("finals") to `transcription.txt`. It skips a sentence that is
empty or that duplicates one of the last five accepted sentences. This project
models what each variant does with one recogniser outcome, and with a whole
session of outcomes, and proves what the file then holds. The variants differ
and are modelled one by one, each as a class whose methods update its fields
in place:

- `fasterVosk.py` (module `FasterVosk`) strips each final. It queues accepted
  finals in `transcription_buffer`. When an accepted final arrives more than
  two seconds after the last write, it appends the whole buffer to the file.
  On Ctrl+C it writes what is left; a stream error ends the session without
  that last write.
- `vosktests/autoDelTranscription.py` (module `AutoDelTranscription`) empties
  the file at start-up. It writes an accepted final straight away, but only if
  more than two seconds have passed since the last write. An accepted final
  that arrives sooner never reaches the file, yet it still enters the
  duplicate window.
- `vosktests/vosktest2.py` (module `VoskTest2`) behaves the same way but keeps
  what the file already held.
- `vosktests/vosktest.py` (module `VoskTest`) writes every accepted final at
  once. Its duplicate test is a fuzzy similarity ratio, which the model takes
  as a parameter `isSimilar`.

The shared pieces are modules of their own:

- `Text` holds ASCII `str.strip()`, `str.lower()`, `"\n".join(...)`, the file
  text `Lines` made of one line per entry, and `Select`, which keeps the
  flagged entries of a history.
- `Window` holds the duplicate window `Recent(accepted)`, the last five
  accepted texts, and the test `AnySimilar`.
- `TimeGate` holds the per-event rule of the two time-gated variants as a
  function `Step` on a value `History`, its fold `Session` over a sequence of
  blocks, and the invariant `Logged` that both classes keep.
- `Recognition` holds the recogniser's outcome for one audio block, which is a
  `Partial` or a `Final` text, and the time at which the callback sees it.
- `Scenarios` plays short concrete sessions against two of the transcribers.

Each variant also has a `Step` function, the state after one block as a
function of the state before it, and a `Session` function that folds `Step`
over a sequence of blocks. Each callback method is proved to move the state as
`Step` says. Each session method is proved to end in the state `Session`
gives, with a loop invariant over the blocks handled so far.

Each class keeps ghost histories beside its real fields: `accepted` (every
accepted final, in order), and also `written` (fasterVosk) or `persisted`, a
flag per accepted final (the time-gated variants). Its `Valid()` invariant
ties the real fields to these histories, as follows:

- The window is `Recent(accepted)`. So it holds at most five entries, oldest
  first, and no entry is judged similar to an older one.
- In fasterVosk, the written texts followed by the buffer are exactly the
  accepted texts, and the file is its initial content followed by the written
  texts, one per line.
- In autoDelTranscription and vosktest2, the file holds (after its initial
  content, if kept) exactly the accepted texts that passed the time gate. They
  are an ordered subsequence of the accepted texts.
- In vosktest, the file holds its initial content followed by every accepted
  text.

Two facts about the code shape the model:

- The two-second gate is checked only when a final is accepted. A partial or a
  rejected final never triggers a write.
- Only fasterVosk strips texts. The other three variants accept a final made
  only of whitespace, since it is not empty. vosktest writes it at once; the
  two time-gated variants write it when the gate passes.

## Model

| member | source | states |
|---|---|---|
| Text.StripStartSpec | fasterVosk.py:43 | removing leading whitespace drops a blank prefix and leaves a suffix that is empty or starts with a non-space |
| Text.StripEndSpec | fasterVosk.py:43 | removing trailing whitespace drops a blank suffix and leaves a prefix that is empty or ends with a non-space |
| Text.Strip | fasterVosk.py:43 | the stripped text is no longer than the raw text and, when not empty, starts and ends with a non-space |
| Text.StripBlank | fasterVosk.py:43-44 | the stripped text is empty exactly when the raw text is all whitespace, so such a final is rejected |
| Text.StrippedFixed | fasterVosk.py:43 | a non-empty text with no whitespace at either end is its own stripped form |
| Text.StripIdempotent | fasterVosk.py:43 | stripping a stripped text changes nothing |
| Text.AllStrippedAppend | fasterVosk.py:43-46 | appending a freshly stripped non-empty text keeps a history of stripped, non-empty texts |
| Text.LowerChar | fasterVosk.py:32 | the result is never an upper-case ASCII letter, and a character changes only if it is an upper-case letter, which becomes the lower-case letter at the same place in the alphabet |
| Text.Lower | fasterVosk.py:32 | lower-casing keeps the length |
| Text.LowerAt | fasterVosk.py:32 | each character of the lower-cased text is the lower-cased character at that position |
| Text.LowerIdempotent | fasterVosk.py:32 | lower-casing a lower-cased text changes nothing |
| Text.SameIgnoringCaseByChars | fasterVosk.py:30-32 | two texts are duplicates exactly when they have equal length and agree at every position once lower-cased |
| Text.JoinAppend | fasterVosk.py:68 | joining two non-empty lists of parts in one go equals joining each and putting one separator between them |
| Text.Lines | fasterVosk.py:68 | the file text of a list of lines is empty exactly when the list is empty |
| Text.JoinedLines | fasterVosk.py:68 | writing the parts joined by line feeds plus one line feed writes every part as its own line, in order |
| Text.LinesAppend | fasterVosk.py:64-69 | the lines of two consecutive writes concatenate |
| Text.AppendLine | vosktests/vosktest2.py:35-36 | after any earlier content, writing a text followed by a line feed adds exactly one line at the end and keeps the rest of the file |
| Text.Select | vosktests/autoDelTranscription.py:53-57 | the written texts are never more than the accepted texts |
| Text.SelectSnoc | vosktests/autoDelTranscription.py:53-57 | a newly accepted text extends the written texts exactly when its write flag is set |
| Window.Recent | fasterVosk.py:47-49 | the window holds at most five texts, and exactly five once five texts have been accepted |
| Window.RecentEntries | fasterVosk.py:47-49 | the window's entries are the newest accepted texts, oldest first |
| Window.RecentAfterAccept | fasterVosk.py:47-49 | appending the accepted text and popping the oldest entry when the length exceeds five gives the window of the longer history |
| Window.NewestIsLast | fasterVosk.py:47 | after an acceptance the newest text is the window's last entry |
| Window.OlderHistoryForgotten | vosktests/vosktest.py:43-45 | once five further texts have been accepted, older history no longer affects the window |
| Window.AnySimilar | fasterVosk.py:44 | the scan is true exactly when some window entry is judged similar to the text |
| Window.DistinctDropOldest | fasterVosk.py:48-49 | popping the oldest entry keeps the window free of similar pairs |
| Window.DistinctAfterAccept | fasterVosk.py:44-49 | accepting an admitted text keeps the window free of similar pairs |
| Window.AdmittedAfterEviction | vosktests/vosktest.py:39-45 | a non-empty text similar to none of the last five acceptances is admitted, whatever was accepted before them |
| Window.RejectedWhileRecent | fasterVosk.py:44-49 | a text similar to any of the last five accepted texts is rejected |
| FasterVosk.SessionExtends | fasterVosk.py:41-54 | over any session the accepted finals are only extended, the last write time never goes back, and the buffer stays a suffix of the accepted finals |
| FasterVosk.AcceptKeepsBuffered | fasterVosk.py:44-49 | queuing an admitted, stripped final keeps the invariant: the written finals and the buffer still make up the accepted finals, the window stays the last five, none equal ignoring case to an older one, and the file is untouched |
| FasterVosk.FlushKeepsBuffered | fasterVosk.py:64-69 | appending the buffer to the file one line per entry and emptying it keeps the invariant |
| FasterVosk.SpeechRecognizer.constructor | fasterVosk.py:9-16 | the window and buffer start empty, the last write time is the start time, and the file is untouched |
| FasterVosk.SpeechRecognizer.WriteTranscription | fasterVosk.py:64-69 | an empty buffer writes nothing; otherwise the buffered texts are appended one per line in order and the buffer is cleared, and the invariant is kept |
| FasterVosk.SpeechRecognizer.AudioCallback | fasterVosk.py:41-59 | a partial, or a final whose stripped text is empty or a case-insensitive duplicate of a window entry, changes nothing; otherwise the text joins the history, buffer and window, and the buffer is written, with the last write time set to now, exactly when more than two seconds have passed |
| FasterVosk.SpeechRecognizer.Accept | fasterVosk.py:44-54 | an admitted, stripped final joins the history, buffer and window; when more than two seconds have passed the buffer, this text included, is appended to the file one line per entry and emptied and the last write time becomes now, and otherwise the file and the last write time are unchanged |
| FasterVosk.SpeechRecognizer.Listen | fasterVosk.py:73-77 | after the stream has handed the callback a sequence of blocks, the accepted finals, the buffer and the last write time are those `Session` gives |
| FasterVosk.SpeechRecognizer.StartRecording | fasterVosk.py:71-82 | the accepted finals and the last write time are those `Session` gives, and they only grew; after Ctrl+C the buffer is empty and the file gained the earlier buffer and every final accepted in the session, in order; after a stream error the buffer is left as `Session` gives and the file followed by it holds every accepted final |
| TimeGate.SessionExtends | vosktests/autoDelTranscription.py:51-60 | over any session the accepted finals and their write flags are only extended, one flag per final, and the last write time never goes back |
| TimeGate.AcceptKeepsLogged | vosktests/vosktest2.py:31-40 | accepting an admitted final keeps the invariant: a written final adds one line to the file, an unwritten one leaves the file as it was, and the window stays the last five accepted finals, none equal ignoring case to an older one |
| AutoDelTranscription.SpeechRecognizer.constructor | vosktests/autoDelTranscription.py:9-21 | whatever the file held, it is empty after construction; the window is empty and the last write time is the start time |
| AutoDelTranscription.SpeechRecognizer.ClearTranscriptionFile | vosktests/autoDelTranscription.py:32-35 | the file is empty afterwards |
| AutoDelTranscription.SpeechRecognizer.AudioCallback | vosktests/autoDelTranscription.py:48-65 | the state moves as `TimeGate.Step` says; a partial, or an empty or case-insensitively duplicate final, changes nothing; otherwise the text enters the window, and it is appended as one line, with the last write time set to now, exactly when more than two seconds have passed |
| AutoDelTranscription.SpeechRecognizer.Accept | vosktests/autoDelTranscription.py:52-60 | an admitted final enters the history and the window, and it is appended as one line, with the last write time set to now, exactly when more than two seconds have passed; the file keeps holding exactly the written finals |
| AutoDelTranscription.SpeechRecognizer.StartRecording | vosktests/autoDelTranscription.py:70-80 | after a session the state is the one `TimeGate.Session` gives, the file holds exactly the accepted finals that passed the time gate, in order, and the last write time never went back |
| VoskTest2.RealTimeTranscriber.constructor | vosktests/vosktest2.py:17-20 | the window starts empty, the last write time is the start time, and the file is untouched |
| VoskTest2.RealTimeTranscriber.AudioCallback | vosktests/vosktest2.py:28-45 | the state moves as `TimeGate.Step` says; a partial, or an empty or case-insensitively duplicate final, changes nothing; otherwise the text enters the window, and it is appended as one line after the existing content, with the last write time set to now, exactly when more than two seconds have passed |
| VoskTest2.RealTimeTranscriber.Accept | vosktests/vosktest2.py:32-40 | an admitted final enters the history and the window, and it is appended as one line after the existing content, with the last write time set to now, exactly when more than two seconds have passed |
| VoskTest2.RealTimeTranscriber.Start | vosktests/vosktest2.py:54-62 | after a session the state is the one `TimeGate.Session` gives, and the file holds its earlier content followed by exactly the accepted finals that passed the time gate, in order |
| VoskTest.SessionExtends | vosktests/vosktest.py:39-45 | over any session the accepted finals are only extended, and only by non-empty finals |
| VoskTest.Script.constructor | vosktests/vosktest.py:20-23 | the window starts empty and the file is untouched |
| VoskTest.Script.AudioCallback | vosktests/vosktest.py:29-53 | the accepted finals move as `VoskTest.Step` says; a partial, or a final that is empty or similar to a window entry, changes nothing; otherwise the text is appended as one line at once and enters the window |
| VoskTest.Script.Run | vosktests/vosktest.py:55-62 | after a session the accepted finals are those `VoskTest.Session` gives, and the file holds its earlier content followed by every final accepted in the session, in order |
| Scenarios.HelloFilter | fasterVosk.py:30-32 | with "Hello" in the window, "hello" and "HELLO" are rejected and "world" is admitted |
| Scenarios.HelloReadmittedAfterFive | fasterVosk.py:44-49 | after five later acceptances that differ from "hello", "Hello" has left the window and "hello" is admitted again |
| Scenarios.SessionStrips | fasterVosk.py:43 | stripping "  Hello " gives "Hello" and leaves "hello" and "world" as they are |
| Scenarios.HelloWorldLines | fasterVosk.py:68 | the two lines "Hello" and "world" make the file text "Hello\nworld\n" |
| Scenarios.FirstWindow | fasterVosk.py:44-49 | "Hello" is admitted by an empty window and then makes up the whole window |
| Scenarios.BufferedSession | fasterVosk.py:41-69 | buffering " Hello " after one second, rejecting "hello", ignoring a partial and accepting "world" after three seconds leaves "Hello\nworld\n" in the file and an empty buffer |
| Scenarios.GatedSession | vosktests/autoDelTranscription.py:48-60 | after truncation, "Hello" within two seconds is not written yet still rejects "HELLO", and "world" after three seconds is written alone |

## Left out

- The `sounddevice` input stream, `sd.sleep`, and the numpy conversion of the audio block: these are device I/O. A session is a sequence of recogniser outcomes, one per block.
- Model loading and decoding by Vosk's `Model` and `KaldiRecognizer`: the recogniser is opaque, so its outcome for a block is an input event.
- JSON parsing of `Result()` and `PartialResult()`: an event carries the extracted text. A missing `"text"` key gives the empty text, as `.get("text", "")` does in fasterVosk.py. In the other variants it raises an exception that the callback catches, which changes nothing, as an empty final does.
- `time()`: the time the callback sees is a parameter (`now`, or a `Tick`'s field). No monotonic clock is assumed.
- Files: `transcription.txt` is a string field that writes extend and the autoDelTranscription constructor empties. Open modes, handles and I/O failures are not modelled.
- `difflib.SequenceMatcher` and its floating-point ratio above 0.8 in vosktest.py: library floating-point code, so similarity is an arbitrary function given to the `VoskTest.Script` constructor.
- Unicode in `str.strip()` and `str.lower()`: only ASCII whitespace (including 0x1C to 0x1F) and the ASCII letters A to Z are handled, because the Unicode tables are library data.
- The end of a session: a parameter `interrupted` of `FasterVosk.SpeechRecognizer.StartRecording` says whether it ended by Ctrl+C, which flushes the buffer, or by a stream error, which does not. In the other three variants both ways end the session without a write, so they are not told apart.
- `print` output, stderr diagnostics, `sys.exit` on a failed model load, the generic `except Exception` recovery, and the `__main__` usage blocks: these are diagnostics and start-up glue. They change none of the modelled state.
- The printing of partial results: a partial changes no modelled state.
