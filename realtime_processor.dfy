/** `RealtimeProcessor` of realtime_processor.py: the session state of the
    live pipeline (audio queue, transcript, recent chunks, detected
    questions) and one step of its processing loop. Callbacks and answer
    threads are recorded as an event log. */
module RealtimeProcessing {
  import opened Text
  import opened QuestionDetector

  /** One queued item: `{'audio', 'sample_rate', 'timestamp'}`. */
  datatype AudioChunk = AudioChunk(audio: seq<int>, sampleRate: int, timestamp: int)

  /** What the processor hands to the outside world, in order:
      `on_transcript_update(text, full_transcript)`,
      `on_question_detected(question)`, and the start of an answer
      thread for a question. */
  datatype Event =
    | TranscriptUpdate(text: string, fullTranscript: string)
    | QuestionDetected(question: string)
    | Dispatch(question: string)

  /** The dictionary `get_statistics` returns. */
  datatype Statistics = Statistics(
    totalTranscriptLength: nat,
    chunksProcessed: nat,
    questionsDetected: nat,
    queueSize: nat)

  /** `deque(maxlen=20)` */
  const RecentCapacity: nat := 20
  /** `list(self.recent_transcript)[-5:]` */
  const ContextEntries: nat := 5
  /** `len(self.full_transcript) > 100` */
  const ContextThreshold: nat := 100

  // ---------------------------------------------------------------------
  // The event log and what it determines

  /** The texts of the transcript updates in the log, in order. */
  function Transcribed(log: seq<Event>): seq<string>
    decreases |log|
  {
    if log == [] then []
    else
      var n := |log| - 1;
      Transcribed(log[..n]) + (if log[n].TranscriptUpdate? then [log[n].text] else [])
  }

  /** The questions announced to `on_question_detected`, in order. */
  function Announced(log: seq<Event>): seq<string>
    decreases |log|
  {
    if log == [] then []
    else
      var n := |log| - 1;
      Announced(log[..n]) + (if log[n].QuestionDetected? then [log[n].question] else [])
  }

  /** The questions an answer thread was started for, in order. */
  function Dispatched(log: seq<Event>): seq<string>
    decreases |log|
  {
    if log == [] then []
    else
      var n := |log| - 1;
      Dispatched(log[..n]) + (if log[n].Dispatch? then [log[n].question] else [])
  }

  /** The projections distribute over appending to the log. */
  lemma LogAppend(a: seq<Event>, b: seq<Event>)
    ensures Transcribed(a + b) == Transcribed(a) + Transcribed(b)
    ensures Announced(a + b) == Announced(a) + Announced(b)
    ensures Dispatched(a + b) == Dispatched(a) + Dispatched(b)
  {
    TranscribedAppend(a, b);
    AnnouncedAppend(a, b);
    DispatchedAppend(a, b);
  }

  lemma {:induction false} TranscribedAppend(a: seq<Event>, b: seq<Event>)
    ensures Transcribed(a + b) == Transcribed(a) + Transcribed(b)
    decreases |b|
  {
    if b == [] {
      assert a + b == a;
    } else {
      var n := |b| - 1;
      assert (a + b)[..|a| + n] == a + b[..n];
      TranscribedAppend(a, b[..n]);
    }
  }

  lemma {:induction false} AnnouncedAppend(a: seq<Event>, b: seq<Event>)
    ensures Announced(a + b) == Announced(a) + Announced(b)
    decreases |b|
  {
    if b == [] {
      assert a + b == a;
    } else {
      var n := |b| - 1;
      assert (a + b)[..|a| + n] == a + b[..n];
      AnnouncedAppend(a, b[..n]);
    }
  }

  lemma {:induction false} DispatchedAppend(a: seq<Event>, b: seq<Event>)
    ensures Dispatched(a + b) == Dispatched(a) + Dispatched(b)
    decreases |b|
  {
    if b == [] {
      assert a + b == a;
    } else {
      var n := |b| - 1;
      assert (a + b)[..|a| + n] == a + b[..n];
      DispatchedAppend(a, b[..n]);
    }
  }

  /** The full transcript after the texts `ts`: each one appended as `" " + text`. */
  function SpacedJoin(ts: seq<string>): string
    decreases |ts|
  {
    if ts == [] then "" else SpacedJoin(ts[..|ts| - 1]) + " " + ts[|ts| - 1]
  }

  /** The full transcript is a space followed by the texts joined with spaces. */
  lemma {:induction false} SpacedJoinIsJoin(ts: seq<string>)
    requires ts != []
    ensures SpacedJoin(ts) == " " + Join(ts, " ")
    decreases |ts|
  {
    var n := |ts| - 1;
    if n == 0 {
      assert ts[..0] == [];
    } else {
      var init := ts[..n];
      assert init + [ts[n]] == ts;
      assert SpacedJoin(ts) == SpacedJoin(init) + " " + ts[n];
      SpacedJoinIsJoin(init);
      JoinSnoc(init, " ", ts[n]);
      SeqAssoc(" ", Join(init, " ") + " ", ts[n]);
      SeqAssoc(" ", Join(init, " "), " ");
    }
  }

  /** Total length of the texts plus one separating space each. */
  function SpacedLength(ts: seq<string>): nat
    decreases |ts|
  {
    if ts == [] then 0 else SpacedLength(ts[..|ts| - 1]) + 1 + |ts[|ts| - 1]|
  }

  lemma {:induction false} SpacedJoinLength(ts: seq<string>)
    ensures |SpacedJoin(ts)| == SpacedLength(ts)
    decreases |ts|
  {
    if ts != [] {
      SpacedJoinLength(ts[..|ts| - 1]);
    }
  }

  /** `deque.append(x)` on a deque with `maxlen=cap`: when full, the
      oldest element is dropped, so what is left is the last `cap`
      elements of the deque with `x` appended. */
  function PushBounded(d: seq<string>, x: string, cap: nat): (r: seq<string>)
    requires 0 < cap && |d| <= cap
    ensures r == LastN(d + [x], cap)
  {
    if |d| < cap then d + [x] else d[1..] + [x]
  }

  /** Keeping the last `cap` of a history and pushing onto them keeps the
      last `cap` of the extended history. */
  lemma LastNSnoc(h: seq<string>, x: string, cap: nat)
    requires 0 < cap
    ensures LastN(LastN(h, cap) + [x], cap) == LastN(h + [x], cap)
  {
    if |h| >= cap {
      assert (h[|h| - cap..] + [x])[1..] == (h + [x])[|h| + 1 - cap..];
    }
  }

  // ---------------------------------------------------------------------
  // Question bookkeeping of one processing step

  /** `detected_questions` after handling `qs` in order, starting from
      `seen`: each question not yet present is appended. */
  function Record(seen: seq<string>, qs: seq<string>): seq<string>
    decreases |qs|
  {
    if qs == [] then seen
    else
      var n := |qs| - 1;
      var r := Record(seen, qs[..n]);
      if qs[n] in r then r else r + [qs[n]]
  }

  /** The events emitted while handling `qs` in order, starting from `seen`. */
  function NewEvents(seen: seq<string>, qs: seq<string>): seq<Event>
    decreases |qs|
  {
    if qs == [] then []
    else
      var n := |qs| - 1;
      NewEvents(seen, qs[..n]) +
        (if qs[n] in Record(seen, qs[..n]) then [] else AnnouncePair(qs[n]))
  }

  /** Handling the questions `qs[..i+1]` is handling `qs[..i]`, then `qs[i]`. */
  lemma RecordStep(seen: seq<string>, qs: seq<string>, i: nat)
    requires i < |qs|
    ensures Record(seen, qs[..i + 1]) ==
      if qs[i] in Record(seen, qs[..i]) then Record(seen, qs[..i]) else Record(seen, qs[..i]) + [qs[i]]
    ensures NewEvents(seen, qs[..i + 1]) == NewEvents(seen, qs[..i]) +
      (if qs[i] in Record(seen, qs[..i]) then [] else AnnouncePair(qs[i]))
  {
    assert qs[..i + 1][..i] == qs[..i];
  }

  /** Handling questions keeps the list duplicate-free, only ever appends,
      and ends up holding exactly the old questions and the handled ones. */
  lemma {:induction false} RecordProperties(seen: seq<string>, qs: seq<string>)
    requires NoDuplicates(seen)
    ensures NoDuplicates(Record(seen, qs))
    ensures |seen| <= |Record(seen, qs)| && Record(seen, qs)[..|seen|] == seen
    ensures forall x :: x in Record(seen, qs) <==> x in seen || x in qs
    decreases |qs|
  {
    if qs != [] {
      var n := |qs| - 1;
      RecordProperties(seen, qs[..n]);
      var r := Record(seen, qs[..n]);
      assert qs == qs[..n] + [qs[n]];
      if qs[n] !in r {
        assert (r + [qs[n]])[..|seen|] == r[..|seen|];
      }
    }
  }

  /** The events of a new question: the callback, then the answer thread. */
  function AnnouncePair(q: string): seq<Event> {
    [QuestionDetected(q), Dispatch(q)]
  }

  lemma AnnouncePairLog(q: string)
    ensures Transcribed(AnnouncePair(q)) == []
    ensures Announced(AnnouncePair(q)) == [q] && Dispatched(AnnouncePair(q)) == [q]
  {
    var first: seq<Event> := [QuestionDetected(q)];
    var second: seq<Event> := [Dispatch(q)];
    assert AnnouncePair(q) == first + second;
    SingleEvent(QuestionDetected(q));
    SingleEvent(Dispatch(q));
    LogAppend(first, second);
  }

  /** What a log of one event projects to. */
  lemma SingleEvent(e: Event)
    ensures Transcribed([e]) == if e.TranscriptUpdate? then [e.text] else []
    ensures Announced([e]) == if e.QuestionDetected? then [e.question] else []
    ensures Dispatched([e]) == if e.Dispatch? then [e.question] else []
  {
    assert [e][..0] == [];
  }

  /** The events of a step announce, and dispatch, exactly the questions
      the step appended, once each and in order. */
  lemma {:induction false} NewEventsAnnounce(seen: seq<string>, qs: seq<string>)
    ensures |seen| <= |Record(seen, qs)|
    ensures Announced(NewEvents(seen, qs)) == Record(seen, qs)[|seen|..]
    ensures Dispatched(NewEvents(seen, qs)) == Record(seen, qs)[|seen|..]
    ensures Transcribed(NewEvents(seen, qs)) == []
    decreases |qs|
  {
    if qs != [] {
      var n := |qs| - 1;
      NewEventsAnnounce(seen, qs[..n]);
      var r := Record(seen, qs[..n]);
      var e := NewEvents(seen, qs[..n]);
      if qs[n] !in r {
        LogAppend(e, AnnouncePair(qs[n]));
        AnnouncePairLog(qs[n]);
        assert (r + [qs[n]])[|seen|..] == r[|seen|..] + [qs[n]];
      } else {
        assert e + [] == e;
      }
    }
  }

  // ---------------------------------------------------------------------
  // The processor

  class RealtimeProcessor {
    /** Stored by the constructor; the processing loop never reads them. */
    const chunkDuration: int
    const overlap: int

    var audioQueue: seq<AudioChunk>
    var isProcessing: bool
    var fullTranscript: string
    var recentTranscript: seq<string>
    var detectedQuestions: seq<string>
    /** Everything delivered to callbacks or answer threads so far. */
    var events: seq<Event>
    /** Every transcription result the loop has seen, empty ones included. */
    ghost var chunkResults: seq<string>

    /** The state is what the event log says it is: the full transcript and
        the recent chunks come from the transcript updates, none of them
        empty, and every detected question was announced and dispatched
        once, in order. */
    ghost predicate Consistent()
      reads this
    {
      var ts := Transcribed(events);
      fullTranscript == SpacedJoin(ts) &&
      recentTranscript == LastN(ts, RecentCapacity) &&
      "" !in ts &&
      NoDuplicates(detectedQuestions) &&
      Announced(events) == detectedQuestions &&
      Dispatched(events) == detectedQuestions
    }

    /** Besides, the transcript updates are exactly the non-empty
        transcription results. */
    ghost predicate Valid()
      reads this
    {
      Consistent() && Transcribed(events) == NonEmpty(chunkResults)
    }

    /** `RealtimeProcessor(transcriber, ai_assistant, chunk_duration=10, overlap=2)` */
    constructor(chunkDuration: int := 10, overlap: int := 2)
      ensures this.chunkDuration == chunkDuration && this.overlap == overlap
      ensures audioQueue == [] && !isProcessing
      ensures fullTranscript == "" && recentTranscript == [] && detectedQuestions == []
      ensures events == [] && chunkResults == []
      ensures Valid()
    {
      this.chunkDuration := chunkDuration;
      this.overlap := overlap;
      audioQueue := [];
      isProcessing := false;
      fullTranscript := "";
      recentTranscript := [];
      detectedQuestions := [];
      events := [];
      chunkResults := [];
    }

    /** `start()`: a no-op when already processing; otherwise sets the flag
        (the thread it starts runs `ProcessNext` steps). */
    method Start()
      modifies this
      ensures isProcessing
      ensures audioQueue == old(audioQueue) && fullTranscript == old(fullTranscript)
      ensures recentTranscript == old(recentTranscript) && detectedQuestions == old(detectedQuestions)
      ensures events == old(events) && chunkResults == old(chunkResults)
    {
      if isProcessing {
        return;
      }
      isProcessing := true;
    }

    /** `stop()`: always clears the flag; nothing else changes. */
    method Stop()
      modifies this
      ensures !isProcessing
      ensures audioQueue == old(audioQueue) && fullTranscript == old(fullTranscript)
      ensures recentTranscript == old(recentTranscript) && detectedQuestions == old(detectedQuestions)
      ensures events == old(events) && chunkResults == old(chunkResults)
    {
      isProcessing := false;
    }

    /** `add_audio_chunk(audio_data, sample_rate)`; `time.time()` is the
        parameter `timestamp`. The chunk joins the tail of the queue. */
    method AddAudioChunk(audio: seq<int>, sampleRate: int, timestamp: int)
      modifies this
      ensures audioQueue == old(audioQueue) + [AudioChunk(audio, sampleRate, timestamp)]
      ensures isProcessing == old(isProcessing) && fullTranscript == old(fullTranscript)
      ensures recentTranscript == old(recentTranscript) && detectedQuestions == old(detectedQuestions)
      ensures events == old(events) && chunkResults == old(chunkResults)
    {
      audioQueue := audioQueue + [AudioChunk(audio, sampleRate, timestamp)];
    }

    /** `_update_transcript(text)`: the empty text changes nothing; any
        other text is appended to the full transcript after a space, pushed
        onto the bounded recent list and reported to the callback. */
    method UpdateTranscript(text: string)
      requires Consistent()
      modifies this
      ensures text == "" ==>
        fullTranscript == old(fullTranscript) && events == old(events) &&
        recentTranscript == old(recentTranscript)
      ensures text != "" ==>
        fullTranscript == old(fullTranscript) + " " + text &&
        recentTranscript == LastN(Transcribed(old(events)) + [text], RecentCapacity) &&
        events == old(events) + [TranscriptUpdate(text, fullTranscript)]
      ensures Transcribed(events) == Transcribed(old(events)) + (if text == "" then [] else [text])
      ensures audioQueue == old(audioQueue) && isProcessing == old(isProcessing)
      ensures detectedQuestions == old(detectedQuestions) && chunkResults == old(chunkResults)
      ensures Consistent()
    {
      if text == "" {
        assert Transcribed(events) + [] == Transcribed(events);
        return;
      }
      ghost var ts := Transcribed(events);
      recentTranscript := PushBounded(recentTranscript, text, RecentCapacity);
      LastNSnoc(ts, text, RecentCapacity);
      fullTranscript := fullTranscript + " " + text;
      LogAppend(events, [TranscriptUpdate(text, fullTranscript)]);
      assert [TranscriptUpdate(text, fullTranscript)][..0] == [];
      events := events + [TranscriptUpdate(text, fullTranscript)];
      assert Transcribed(events) == ts + [text];
      assert (ts + [text])[..|ts|] == ts;
    }

    /** `_handle_detected_question(question)`: a question already seen
        changes nothing; a new one is appended, announced and dispatched. */
    method HandleDetectedQuestion(question: string)
      requires Consistent()
      modifies this
      ensures question in old(detectedQuestions) ==>
        detectedQuestions == old(detectedQuestions) && events == old(events)
      ensures question !in old(detectedQuestions) ==>
        detectedQuestions == old(detectedQuestions) + [question] &&
        events == old(events) + AnnouncePair(question)
      ensures audioQueue == old(audioQueue) && isProcessing == old(isProcessing)
      ensures fullTranscript == old(fullTranscript) && recentTranscript == old(recentTranscript)
      ensures chunkResults == old(chunkResults)
      ensures Transcribed(events) == Transcribed(old(events))
      ensures Consistent()
    {
      if question in detectedQuestions {
        return;
      }
      LogAppend(events, AnnouncePair(question));
      AnnouncePairLog(question);
      NoDuplicatesSnoc(detectedQuestions, question);
      detectedQuestions := detectedQuestions + [question];
      events := events + AnnouncePair(question);
    }

    /** One iteration of `_process_loop` once `_transcribe_chunk` has
        returned `transcription` for the head of the queue. Nothing happens
        when the processor is stopped or the queue is empty (the
        `queue.Empty` path); otherwise the head is removed and, when the
        transcription is not empty, the transcript is updated and every
        question extracted from it is handled in order. */
    method ProcessNext(transcription: string)
      requires Valid()
      modifies this
      ensures !old(isProcessing) || old(audioQueue) == [] ==>
        audioQueue == old(audioQueue) && fullTranscript == old(fullTranscript) &&
        recentTranscript == old(recentTranscript) && detectedQuestions == old(detectedQuestions) &&
        events == old(events) && chunkResults == old(chunkResults)
      ensures old(isProcessing) && old(audioQueue) != [] ==>
        audioQueue == old(audioQueue)[1..] && chunkResults == old(chunkResults) + [transcription]
      ensures old(isProcessing) && old(audioQueue) != [] && transcription == "" ==>
        fullTranscript == old(fullTranscript) && recentTranscript == old(recentTranscript) &&
        detectedQuestions == old(detectedQuestions) && events == old(events)
      ensures old(isProcessing) && old(audioQueue) != [] && transcription != "" ==>
        fullTranscript == old(fullTranscript) + " " + transcription &&
        recentTranscript == LastN(Transcribed(old(events)) + [transcription], RecentCapacity) &&
        detectedQuestions == Record(old(detectedQuestions), Questions(transcription)) &&
        events == old(events) + [TranscriptUpdate(transcription, fullTranscript)] +
          NewEvents(old(detectedQuestions), Questions(transcription))
      ensures isProcessing == old(isProcessing)
      ensures Valid()
    {
      if !isProcessing || audioQueue == [] {
        return;
      }
      audioQueue := audioQueue[1..];
      NonEmptySnoc(chunkResults, transcription);
      chunkResults := chunkResults + [transcription];
      if transcription == "" {
        return;
      }
      UpdateTranscript(transcription);
      var questions := ExtractQuestions(transcription);
      HandleAll(questions);
    }

    /** `for question in questions: self._handle_detected_question(question)` */
    method HandleAll(questions: seq<string>)
      requires Consistent()
      modifies this
      ensures detectedQuestions == Record(old(detectedQuestions), questions)
      ensures events == old(events) + NewEvents(old(detectedQuestions), questions)
      ensures audioQueue == old(audioQueue) && isProcessing == old(isProcessing)
      ensures fullTranscript == old(fullTranscript) && recentTranscript == old(recentTranscript)
      ensures chunkResults == old(chunkResults)
      ensures Transcribed(events) == Transcribed(old(events))
      ensures Consistent()
    {
      for i := 0 to |questions|
        invariant Consistent()
        invariant detectedQuestions == Record(old(detectedQuestions), questions[..i])
        invariant events == old(events) + NewEvents(old(detectedQuestions), questions[..i])
        invariant audioQueue == old(audioQueue) && isProcessing == old(isProcessing)
        invariant fullTranscript == old(fullTranscript) && recentTranscript == old(recentTranscript)
        invariant chunkResults == old(chunkResults)
        invariant Transcribed(events) == Transcribed(old(events))
      {
        HandleStep(old(events), old(detectedQuestions), questions, i);
        HandleDetectedQuestion(questions[i]);
      }
      assert questions[..|questions|] == questions;
    }

    /** The context `_generate_answer` passes on: the full transcript
        once it is longer than 100 characters, otherwise the last (up to)
        five recent chunks joined with spaces. */
    function GenerationContext(): string
      reads this
    {
      if |fullTranscript| > ContextThreshold then fullTranscript
      else Join(LastN(recentTranscript, ContextEntries), " ")
    }

    /** `get_statistics()` */
    function GetStatistics(): Statistics
      reads this
    {
      Statistics(|fullTranscript|, |recentTranscript|, |detectedQuestions|, |audioQueue|)
    }
  }

  /** The non-empty strings of `s`, in order. */
  function NonEmpty(s: seq<string>): seq<string>
    decreases |s|
  {
    if s == [] then []
    else NonEmpty(s[..|s| - 1]) + (if s[|s| - 1] == "" then [] else [s[|s| - 1]])
  }

  lemma NonEmptySnoc(s: seq<string>, x: string)
    ensures NonEmpty(s + [x]) == NonEmpty(s) + (if x == "" then [] else [x])
  {
    assert (s + [x])[..|s|] == s;
  }

  /** Handling `qs[i]` after `qs[..i]` extends the question list and the log
      as handling `qs[..i+1]` does. */
  lemma HandleStep(log: seq<Event>, seen: seq<string>, qs: seq<string>, i: nat)
    requires i < |qs|
    ensures var r := Record(seen, qs[..i]);
      Record(seen, qs[..i + 1]) == (if qs[i] in r then r else r + [qs[i]]) &&
      log + NewEvents(seen, qs[..i + 1]) ==
        log + NewEvents(seen, qs[..i]) + (if qs[i] in r then [] else AnnouncePair(qs[i]))
  {
    RecordStep(seen, qs, i);
    var r := Record(seen, qs[..i]);
    SeqAssoc(log, NewEvents(seen, qs[..i]), if qs[i] in r then [] else AnnouncePair(qs[i]));
  }

  lemma SeqAssoc<T>(a: seq<T>, b: seq<T>, c: seq<T>)
    ensures a + b + c == a + (b + c)
  {
  }

  // ---------------------------------------------------------------------
  // Properties of a consistent processor state

  /** `get_statistics()`: `chunks_processed` is the length of the bounded
      recent list, so it never exceeds 20 and counts only non-empty
      transcriptions; the transcript length counts one space per chunk. */
  lemma StatisticsCounts(p: RealtimeProcessor)
    requires p.Valid()
    ensures p.GetStatistics().chunksProcessed <= RecentCapacity
    ensures p.GetStatistics().chunksProcessed ==
      if |NonEmpty(p.chunkResults)| <= RecentCapacity then |NonEmpty(p.chunkResults)| else RecentCapacity
    ensures p.GetStatistics().totalTranscriptLength == SpacedLength(NonEmpty(p.chunkResults))
    ensures p.GetStatistics().questionsDetected == |Announced(p.events)| == |Dispatched(p.events)|
    ensures p.GetStatistics().queueSize == |p.audioQueue|
  {
    SpacedJoinLength(Transcribed(p.events));
  }

  /** The answer context is the full transcript once that is longer than
      100 characters; otherwise it is the last five chunks joined by
      spaces, which is always a suffix of the full transcript, and is the
      whole transcript less its leading space when, besides, at most five
      chunks have arrived. */
  lemma ContextRule(p: RealtimeProcessor)
    requires p.Valid()
    ensures |p.fullTranscript| > ContextThreshold ==> p.GenerationContext() == p.fullTranscript
    ensures |p.fullTranscript| <= ContextThreshold ==>
      p.GenerationContext() == Join(LastN(Transcribed(p.events), ContextEntries), " ")
    ensures IsSuffix(p.GenerationContext(), p.fullTranscript)
    ensures |p.fullTranscript| <= ContextThreshold && 0 < |Transcribed(p.events)| <= ContextEntries ==>
      p.GenerationContext() == p.fullTranscript[1..]
  {
    var ts := Transcribed(p.events);
    LastNLastN(ts, RecentCapacity, ContextEntries);
    if ts == [] {
      assert p.fullTranscript == "";
    } else {
      SpacedJoinIsJoin(ts);
      var m := if |ts| <= ContextEntries then 0 else |ts| - ContextEntries;
      assert LastN(ts, ContextEntries) == ts[m..];
      JoinTailSuffix(ts, " ", m);
      var full := p.fullTranscript;
      var j := Join(ts, " ");
      assert full[1..] == j;
      assert full[|full| - |j|..] == j;
      if m == 0 {
        assert ts[0..] == ts;
      }
    }
  }

  /** Every detected question was announced exactly once and had exactly
      one answer thread started for it; nothing else was. */
  lemma DispatchOnce(p: RealtimeProcessor, q: string)
    requires p.Valid()
    ensures multiset(Dispatched(p.events))[q] == if q in p.detectedQuestions then 1 else 0
    ensures multiset(Announced(p.events))[q] == if q in p.detectedQuestions then 1 else 0
  {
    NoDuplicatesOnce(p.detectedQuestions, q);
  }
}
