# Interview assistant: question pipeline and transcript files

This project models the two self-contained parts of a meeting and interview
assistant that transcribes audio, detects the interviewer's questions and
prepares answers for them:

- **The streaming question pipeline** (`realtime_processor.py`).
  - `QuestionDetector.is_question` decides whether a text is a question.
  - `QuestionDetector.extract_questions` splits a transcription into
    sentences and keeps the questions.
  - `RealtimeProcessor` holds the session state: the audio queue, the
    running transcript, the last 20 transcribed chunks and the questions
    detected so far. It processes one queued chunk per loop iteration.
- **The transcript file layout** (`transcription.py`).
  - `_save_transcript` writes a three-line header and a blank line in front
    of the text.
  - `load_transcript` drops those four lines again.
  - The transcript file name is derived from the audio file path.

The Dafny modules follow that structure:

| file | module | models |
|---|---|---|
| `text.dfy` | `Text` | the Python string operations the core relies on: `str.strip`, `str.lower`, `str.split`, `str.join`, `deque(maxlen=n)` contents |
| `question_detector.dfy` | `QuestionDetector` | `QUESTION_PATTERNS`, `re.search` with `\b`, `is_question`, `re.split(r'[.!?]+\|\n+')`, `extract_questions` |
| `realtime_processor.dfy` | `RealtimeProcessing` | the `RealtimeProcessor` class, one loop iteration, the answer-context choice and `get_statistics` |
| `transcript_file.dfy` | `TranscriptFile` | the saved file layout, header stripping, `os.path.basename`/`splitext`/`join` and the transcript path |

Pure code is modelled as functions, and its properties are proved as lemmas.
`RealtimeProcessor` is a class whose methods change its fields, with
`modifies` clauses:

- The audio queue is a `seq` of chunks. `add_audio_chunk` appends at the
  tail and a loop step removes the head.
- The recent-transcript deque is a `seq` that each push keeps to at most 20
  entries.
- The callbacks `on_transcript_update` and `on_question_detected`, and the
  start of each answer thread, are appended to an event log of type
  `Event`: `TranscriptUpdate`, `QuestionDetected` and `Dispatch`.
- The predicate `Consistent` ties the full transcript, the recent list and
  the detected questions to that log:
  - the full transcript is `" " + t` for every transcribed text `t`, in order;
  - the recent list holds the last 20 of those texts;
  - each detected question was announced and dispatched exactly once, in
    order.
- The predicate `Valid` adds that the transcribed texts are exactly the
  non-empty transcription results the loop has seen.

### Where the code and its description differ

The model follows the code:

- `extract_questions` keeps a piece only when its stripped length is
  greater than 10 (`len(sentence) > 10`). A sentence of exactly 10
  characters is dropped.
- `_update_transcript` rejects only the empty string. A whitespace-only
  text is appended to the transcript.
- Three of the six patterns end in a literal `\?`. Their wh-words, modal
  requests and yes/no openers can therefore only match text that already
  contains `?`, and the `?` test comes first. The rule in force is just
  "`?` or one of seven phrases".
- The sentence split removes every `?`, so no extracted sentence ever ends
  with one before `?` is added. A follow-up such as "How did you solve it?"
  counts only if it holds one of the seven phrases; the lemma
  `QuestionDetector.QuestionsDropsFiller` states this.
- `overlap` is stored and never read. `add_audio_chunk` enqueues whole
  buffers, and there is no chunk accumulator.

## Model

| member | source | states |
|---|---|---|
| QuestionDetector.IsQuestionRule | realtime_processor.py:17-56 | `is_question(t)` holds exactly when `t` contains `?` or one of the seven phrases "tell me about", "describe", "explain", "walk me through", "give me an example of", "share an experience", "talk about a time when" occurs in the lower-cased text between word boundaries (both directions) |
| QuestionDetector.MarkedPatternNeedsMark | realtime_processor.py:18-21 | a pattern ending in `\?` (wh-openers, modal requests, yes/no openers) matches only text that contains `?` |
| QuestionDetector.UnmarkedPatternsArePhrases | realtime_processor.py:19-23 | one of the three patterns without `\?` matches exactly when one of the seven phrases occurs with word boundaries |
| QuestionDetector.SearchWitness | realtime_processor.py:53 | the left-to-right scan of `re.search` succeeds exactly when the pattern matches at some position |
| QuestionDetector.PhraseOccursStripped | realtime_processor.py:45 | stripping surrounding whitespace does not change whether a phrase occurs with word boundaries |
| QuestionDetector.SplitSentencesBreakFree | realtime_processor.py:72 | no piece of `re.split(r'[.!?]+\|\n+', s)` contains `.`, `!`, `?` or a newline |
| QuestionDetector.SplitSentencesContent | realtime_processor.py:72 | the pieces of the split, concatenated, are the text with every separator character removed |
| QuestionDetector.SplitSentencesCons | realtime_processor.py:72 | a terminator after a separator-free first sentence ends it, and the rest is split on its own |
| QuestionDetector.ExtractQuestions | realtime_processor.py:59-90 | the loop that builds the question list returns exactly the questions given by the strip, filter and mark of every split piece, in order |
| QuestionDetector.QuestionsMember | realtime_processor.py:72-86 | `q` is extracted iff some split piece, stripped, is longer than 10 characters, passes `is_question` and equals `q` without its trailing `?` |
| QuestionDetector.QuestionShape | realtime_processor.py:72-86 | every extracted question is at least 12 characters long, ends with `?` and has no `.`, `!`, `?` or newline before that last character |
| QuestionDetector.QuestionsIdempotent | realtime_processor.py:72-86 | extracting from an extracted question gives back exactly that question |
| QuestionDetector.MarkedBreakFree | realtime_processor.py:84-85 | a stripped split piece never ends with `?`, so marking always appends one |
| QuestionDetector.QuestionsKeepsDuplicates | realtime_processor.py:76-86 | the same question asked twice in one text is extracted twice |
| QuestionDetector.QuestionsDropsFiller | realtime_processor.py:78-86 | a sentence that fails the length/question filter contributes nothing, even when it ended with `?` |
| QuestionDetector.QuestionsTwo | realtime_processor.py:72-86 | two terminated sentences are filtered independently and their questions come out in order |
| RealtimeProcessing.RealtimeProcessor.constructor | realtime_processor.py:98-128 | defaults `chunk_duration=10`, `overlap=2`; the queue, transcript, recent list, questions and log start empty, processing stopped |
| RealtimeProcessing.RealtimeProcessor.Start | realtime_processor.py:130-138 | afterwards processing is on; nothing else changes, whether or not it was already on |
| RealtimeProcessing.RealtimeProcessor.Stop | realtime_processor.py:140-145 | afterwards processing is off; nothing else changes |
| RealtimeProcessing.RealtimeProcessor.AddAudioChunk | realtime_processor.py:147-159 | the chunk with its sample rate and timestamp is appended at the tail of the queue; nothing else changes |
| RealtimeProcessing.RealtimeProcessor.UpdateTranscript | realtime_processor.py:236-257 | `""` changes nothing and emits nothing; any other text makes the full transcript `old + " " + text`, leaves the last min(n, 20) texts in the recent list, and emits one transcript update carrying the new full transcript; the state stays consistent with the log |
| RealtimeProcessing.RealtimeProcessor.HandleDetectedQuestion | realtime_processor.py:259-286 | a question already detected changes nothing and emits nothing; a new one is appended last, announced once and dispatched once |
| RealtimeProcessing.RealtimeProcessor.HandleAll | realtime_processor.py:188-189 | handling the questions in order leaves exactly `Record(old, qs)` detected and appends exactly the events `NewEvents(old, qs)` |
| RealtimeProcessing.RealtimeProcessor.ProcessNext | realtime_processor.py:165-199 | stopped or empty queue: nothing changes; otherwise the head chunk is removed, and an empty transcription changes nothing else, while a non-empty one updates the transcript and then handles each extracted question in order |
| RealtimeProcessing.PushBounded | realtime_processor.py:119 | appending to a full `deque(maxlen=cap)` drops the oldest entry: the result is the last `cap` entries of the deque with the new one appended |
| RealtimeProcessing.LastNSnoc | realtime_processor.py:247 | pushing onto the last 20 texts gives the last 20 of the extended history |
| RealtimeProcessing.RecordProperties | realtime_processor.py:266-270 | handling questions keeps `detected_questions` duplicate-free, only appends to it, and leaves in it exactly the old questions and the handled ones |
| RealtimeProcessing.NewEventsAnnounce | realtime_processor.py:267-286 | the events of one step announce and dispatch exactly the newly appended questions, in order, and report no transcript |
| RealtimeProcessing.DispatchOnce | realtime_processor.py:266-286 | in a valid state every detected question was announced and dispatched exactly once, and no other question was |
| RealtimeProcessing.ContextRule | realtime_processor.py:296-300 | the answer context is the full transcript when it is longer than 100 characters, and otherwise the last up-to-5 recent texts joined by `" "`; it is always a suffix of the full transcript |
| RealtimeProcessing.StatisticsCounts | realtime_processor.py:328-333 | `chunks_processed` is min(non-empty transcriptions, 20), so at most 20; `total_transcript_length` counts each text plus one space; `questions_detected` equals the number announced and dispatched; `queue_size` is the queue length |
| TranscriptFile.LoadSaved | transcription.py:132-157 | loading the content `_save_transcript` writes returns exactly the transcript text, provided the audio file name has no newline |
| TranscriptFile.StrftimeOneLine | transcription.py:134 | the `%Y-%m-%d %H:%M:%S` timestamp never contains a newline |
| TranscriptFile.SeparatorRecognised | transcription.py:135-156 | the written separator of 80 dashes passes the 20-dash test |
| TranscriptFile.SavedLines | transcription.py:133-136 | the four writes form the lines: name line, timestamp line, dashes, a blank line, then the text |
| TranscriptFile.LoadDropsFourLines | transcription.py:155-157 | with a recognised third line, the first four lines are dropped whatever the fourth holds, and the rest is returned unchanged |
| TranscriptFile.LoadFourLinesOnly | transcription.py:155-157 | content of exactly four lines with a recognised header loads as the empty string |
| TranscriptFile.LoadShortContent | transcription.py:155-158 | content of at most three lines (fewer than three newlines) is returned unchanged |
| TranscriptFile.LoadUnrecognised | transcription.py:155-158 | content whose third line does not start with 20 dashes is returned unchanged |
| TranscriptFile.SplitFourLines | transcription.py:155 | four newline-free lines and a rest split into those four lines followed by the lines of the rest |
| TranscriptFile.Basename | transcription.py:126 | `basename` is a `/`-free suffix of the path, preceded by `/` when shorter than the path |
| TranscriptFile.SplitextParts | transcription.py:127 | `splitext`'s parts rejoin to the path; the extension is empty or a dot followed by no further dot or `/`; the root is non-empty before an extension |
| TranscriptFile.SplitextCuts | transcription.py:127 | when the last component has a dot with another character before it, `splitext` cuts at the last dot |
| TranscriptFile.SplitextExample | transcription.py:127 | `splitext("rec/meeting.wav") == ("rec/meeting", ".wav")` and `splitext(".bashrc") == (".bashrc", "")` |
| TranscriptFile.SplitextNoDot | transcription.py:127 | a name without a dot, or whose only dot leads it, has no extension |
| TranscriptFile.TranscriptFileNameShape | transcription.py:126-128 | the derived file name ends in `_transcript.txt`, so it is at least 15 characters long, and it holds no `/` |
| TranscriptFile.TranscriptPathShape | transcription.py:126-129 | the path is the output directory, a `/` unless the directory ends with one, and the audio base name without extension followed by `_transcript.txt`; `basename` of the path returns that file name |
| Text.JoinSplit | transcription.py:155-157 | `"\n".join(s.split("\n")) == s` |
| Text.SplitCount | transcription.py:155 | `s.split(sep)` has one piece more than `s` has occurrences of `sep` |
| Text.StripSlice | realtime_processor.py:77 | `strip()` returns a slice of the text with only whitespace cut at both ends, and neither end of the result is whitespace |
| Text.StripIdempotent | realtime_processor.py:77 | stripping twice is stripping once |

## Left out

- Threads are not modelled. That covers the processing and answer threads,
  the blocking `queue.get(timeout=1)`, `join(timeout=5)` and `task_done`
  (realtime_processor.py:136-144, 168, 191, 281-286). One loop iteration
  is the method `ProcessNext`. Starting an answer thread is the event
  `Dispatch`.
- `_transcribe_chunk` (realtime_processor.py:203-234) is not modelled: it
  encodes WAV through soundfile and calls the Whisper API. Its already
  stripped result is the parameter of `ProcessNext`.
- `_generate_answer` is modelled only as far as its choice of context,
  `GenerationContext`. The call to `ai_assistant.quick_answer` is a foreign
  call. The latency is computed from `time.time()` with floating point.
  Neither is modelled, and neither is `on_answer_ready`.
- `time.time()` in `add_audio_chunk` returns a float. It is modelled as the
  integer parameter `timestamp`, which nothing in the core reads.
- Exceptions raised by callbacks and by the loop, and the printing and
  traceback logging around them, are not modelled. The event log records
  every notification, whether or not a callback is registered.
- `QUESTION_KEYWORDS` (realtime_processor.py:26-32) is never used by the
  code and is not modelled.
- Unicode is not modelled. `lower()`, `strip()`, `\w` and `\b` are modelled
  on ASCII:
  - word characters are letters, digits and `_`;
  - whitespace is space, 9-13 and 28-31.
- `os.path` follows POSIX: `/` is the only separator.
- `datetime.now()` is the parameter `generated`.
  - `%Y` is modelled as a year padded with zeros to four digits.
  - The other fields are padded to two digits, and no field range is
    checked.
- File opening, reading and writing are not modelled. The model works on the
  content string; Python's newline translation on text files is not
  modelled.
- TranscriptFile.LoadSaved: the round trip holds for the content string.
  Reading a file in text mode turns `"\r\n"` and a lone `"\r"` into `"\n"`.
  The program's save-then-load round trip therefore also needs no `\r` in
  the transcript text or in the audio file name, and the model does not
  state that condition.
- QuestionDetector.IsQuestionRule: there is no lemma for the concrete
  sentences of test_questions.py, such as lines 11, 13 and 27. Refuting
  seven phrases position by position over a literal of 60 to 85 characters
  is too costly to prove. The general rule covers them:
  - line 13 says "give an example of", not "give me an example of";
  - line 27 says "share an example", not "share an experience";
  - `QuestionsDropsFiller` states why "How did you solve it" on line 11 is
    dropped.
- Everything else in the repository is not part of this model:
  - app.py is UI transport;
  - audio_recorder.py records from audio devices;
  - ai_assistant.py wraps client library calls;
  - config.py loads settings from the environment;
  - meeting_recorder.py is a command-line interface;
  - transcription.py calls the transcription API and checks files.
