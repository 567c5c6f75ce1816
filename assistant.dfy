/**
  The running assistant: the state shared by the audio callback, the capture
  loop in `main`, the Gemini worker and the speech worker, and one atomic step
  of each of them (chat.py:213-238, chat.py:403-461, chat.py:485-603,
  chat.py:648-779).

  Each thread's loop iteration is one method; the threads interleave these
  steps in any order. `queue.get(timeout=...)` on an empty queue, and the
  blocking `audio_q.get()`, are steps that change nothing.
*/
module Assistant {
  import opened Wrappers
  import opened Text
  import opened Session
  import opened Channel
  import opened Retry
  import opened Reply
  import opened Gemini
  import opened Capture

  /** The text queue after a request ended with `end`: drained on a quota error. */
  function TextAfter(items: seq<String>, end: LoopEnd): seq<String> {
    if end == QuotaHit then Flushed(items, FLUSH_DEFAULT) else items
  }

  /** The speech queue after a request ended with `end`: the reply is put, flushing the queue when full. */
  function SpeechAfter(items: seq<String>, end: LoopEnd): seq<String> {
    if end.Replied? then AfterPut(items, TTS_QUEUE_MAX, end.answer, TTS_QUEUE_MAX) else items
  }

  /**
    What the capture loop's actions change, besides the audio queue: the
    session, the transition clock, the end of the arming delay, the stop flag
    and the contents of the text and speech queues.
  */
  datatype CaptureView = CaptureView(session: SessionState, lastTransition: int, blockUntil: int,
                                     stop: bool, text: seq<String>, speech: seq<String>)

  /** A wake or sleep at `now`: the next epoch, a new cooldown and arming delay, and the token sent to the Gemini worker (chat.py:686-701, chat.py:715-728). */
  function Transitioned(v: CaptureView, toActive: bool, token: String, now: int): CaptureView {
    v.(session := SessionState(toActive, v.session.sessionId + 1), lastTransition := now,
       blockUntil := now + ARMING_DELAY_MS, text := AfterPut(v.text, TEXT_QUEUE_MAX, token, FLUSH_DEFAULT))
  }

  /** The exit phrase and the shutdown after the loop: `__EXIT__` to each worker if there is room, the stop flag, one more `__EXIT__` for speech. */
  function Stopped(v: CaptureView): CaptureView {
    v.(stop := true, text := PutIfRoom(v.text, TEXT_QUEUE_MAX, EXIT_TOKEN),
       speech := PutIfRoom(PutIfRoom(v.speech, TTS_QUEUE_MAX, EXIT_TOKEN), TTS_QUEUE_MAX, EXIT_TOKEN))
  }

  /** What acting on decision `d`, taken at time `now`, does. */
  function Effect(v: CaptureView, d: Action, now: int): CaptureView {
    match d
    case Idle => v
    case Exit => Stopped(v)
    case Wake => Transitioned(v, true, WAKE_TOKEN, now)
    case Sleep => Transitioned(v, false, SLEEP_TOKEN, now)
    case Dictate(t) => v.(text := AfterPut(v.text, TEXT_QUEUE_MAX, t, TEXT_QUEUE_MAX))
  }

  /** Only wake and sleep move to the next epoch, into the mode they name; nothing else touches the session. */
  lemma EffectOnSession(v: CaptureView, d: Action, now: int)
    ensures var r := Effect(v, d, now);
      (d == Wake || d == Sleep <==> r.session.sessionId == v.session.sessionId + 1)
      && (d == Wake || d == Sleep ==> r.session.active == (d == Wake) && r.lastTransition == now)
      && (d != Wake && d != Sleep ==> r.session == v.session && r.lastTransition == v.lastTransition)
  {
  }

  /** A wake or sleep makes every worker synchronised at an earlier epoch stale. */
  lemma TransitionMakesStale(v: CaptureView, d: Action, now: int, localId: nat)
    requires d == Wake || d == Sleep
    requires localId <= v.session.sessionId
    ensures Stale(Effect(v, d, now).session, localId)
  {
  }

  /** The stop flag is raised by the exit phrase and by nothing else. */
  lemma StopOnlyOnExit(v: CaptureView, d: Action, now: int)
    requires !v.stop
    ensures Effect(v, d, now).stop <==> d == Exit
  {
  }

  /**
    The queues stay within their bounds, and a wake or sleep token or
    dictated text enters the text queue as its newest item. A later put may
    still discard it (`DictationOnFullQueueDropsTokens`).
  */
  lemma {:induction false} EffectKeepsQueues(v: CaptureView, d: Action, now: int)
    requires |v.text| <= TEXT_QUEUE_MAX && |v.speech| <= TTS_QUEUE_MAX
    ensures var r := Effect(v, d, now);
      |r.text| <= TEXT_QUEUE_MAX && |r.speech| <= TTS_QUEUE_MAX
      && (d == Wake ==> r.text[|r.text| - 1] == WAKE_TOKEN)
      && (d == Sleep ==> r.text[|r.text| - 1] == SLEEP_TOKEN)
      && (d.Dictate? ==> r.text[|r.text| - 1] == d.text)
      && (d != Exit ==> r.speech == v.speech)
  {
    match d
    case Idle =>
    case Exit =>
    case Wake =>
      AfterPutBounded(v.text, TEXT_QUEUE_MAX, WAKE_TOKEN, FLUSH_DEFAULT);
      AfterPutKeepsNewest(v.text, TEXT_QUEUE_MAX, WAKE_TOKEN, FLUSH_DEFAULT);
    case Sleep =>
      AfterPutBounded(v.text, TEXT_QUEUE_MAX, SLEEP_TOKEN, FLUSH_DEFAULT);
      AfterPutKeepsNewest(v.text, TEXT_QUEUE_MAX, SLEEP_TOKEN, FLUSH_DEFAULT);
    case Dictate(t) =>
      AfterPutBounded(v.text, TEXT_QUEUE_MAX, t, TEXT_QUEUE_MAX);
      AfterPutKeepsNewest(v.text, TEXT_QUEUE_MAX, t, TEXT_QUEUE_MAX);
  }

  /**
    Dictated text put on a full text queue flushes everything queued before it,
    wake and sleep tokens included, so the Gemini worker never sees them.
  */
  lemma DictationOnFullQueueDropsTokens(v: CaptureView, t: String, now: int)
    requires |v.text| == TEXT_QUEUE_MAX
    ensures Effect(v, Dictate(t), now).text == [t]
  {
    AfterPutOnFullReplaces(v.text, TEXT_QUEUE_MAX, t, TEXT_QUEUE_MAX);
  }

  /** A block of raw microphone samples. */
  type Audio = seq<bv8>

  class Assistant {
    /** `session_state`, written only by the capture loop. */
    var session: SessionState
    /** The capture loop's `last_transition` and `dictation_block_until`. */
    var lastTransition: int
    var dictationBlockUntil: int
    /** `stop_evt` and `tts_busy_evt`. */
    var stopEvt: bool
    var ttsBusy: bool
    /** The capture loop has left its `while`. */
    var captureDone: bool

    const audioQ: BoundedQueue<Audio>
    const textQ: BoundedQueue<String>
    const ttsQ: BoundedQueue<String>

    /** The Gemini worker's `chat`, as the number of the conversation `make_chat` opened, and its `local_session_id`. */
    var chat: Option<nat>
    /** How many conversations `make_chat` has opened. */
    var conversations: nat
    var localSessionId: nat
    var geminiDone: bool

    /** The text the speech worker is playing, between taking it and the `finally` that clears the busy flag. */
    var speaking: Option<String>
    var ttsDone: bool

    ghost predicate Valid()
      reads this`session, this`localSessionId, this`chat, this`conversations
      reads this`ttsBusy, this`speaking, this`stopEvt, this`captureDone
      reads audioQ, textQ, ttsQ
    {
      QueuesValid() && WorkerValid() && ChatValid() && SpeechValid() && StopValid()
    }

    /** The three queues are distinct, with the sizes of chat.py:228-230. */
    ghost predicate QueuesValid()
      reads audioQ, textQ, ttsQ
    {
      audioQ.Valid() && textQ.Valid() && ttsQ.Valid() && textQ != ttsQ
      && audioQ.cap == AUDIO_QUEUE_MAX && textQ.cap == TEXT_QUEUE_MAX && ttsQ.cap == TTS_QUEUE_MAX
    }

    /** The Gemini worker never runs ahead of the session: it only ever copies the epoch, which only grows. */
    ghost predicate WorkerValid()
      reads this`session, this`localSessionId
    {
      localSessionId <= session.sessionId
    }

    /** The open conversation is one `make_chat` has already returned, so each new one is fresh. */
    ghost predicate ChatValid()
      reads this`chat, this`conversations
    {
      chat.Some? ==> chat.value < conversations
    }

    /** The busy flag is set exactly while a text is being spoken. */
    ghost predicate SpeechValid()
      reads this`ttsBusy, this`speaking
    {
      ttsBusy == speaking.Some?
    }

    /** The stop flag is set exactly when the capture loop has ended. */
    ghost predicate StopValid()
      reads this`stopEvt, this`captureDone
    {
      stopEvt == captureDone
    }

    /** The state before the threads start (chat.py:213-230, chat.py:648-649). */
    constructor ()
      ensures Valid() && fresh(audioQ) && fresh(textQ) && fresh(ttsQ)
      ensures session == SessionState(false, 0) && lastTransition == 0 && dictationBlockUntil == 0
      ensures audioQ.items == [] && textQ.items == [] && ttsQ.items == []
      ensures !stopEvt && !ttsBusy && !captureDone && !geminiDone && !ttsDone
      ensures chat == None && conversations == 0 && localSessionId == 0 && speaking == None
    {
      session := SessionState(false, 0);
      lastTransition := 0;
      dictationBlockUntil := 0;
      stopEvt := false;
      ttsBusy := false;
      captureDone := false;
      audioQ := new BoundedQueue(AUDIO_QUEUE_MAX);
      textQ := new BoundedQueue(TEXT_QUEUE_MAX);
      ttsQ := new BoundedQueue(TTS_QUEUE_MAX);
      chat := None;
      conversations := 0;
      localSessionId := 0;
      geminiDone := false;
      speaking := None;
      ttsDone := false;
    }

    /** `audio_callback`: the new block is dropped when the audio queue is full. */
    method AudioCallback(block: Audio)
      requires Valid()
      modifies audioQ
      ensures Valid()
      ensures audioQ.items == PutIfRoom(old(audioQ.items), AUDIO_QUEUE_MAX, block)
      ensures |old(audioQ.items)| == AUDIO_QUEUE_MAX ==> audioQ.items == old(audioQ.items)
    {
      var _ := audioQ.PutNowait(block);
    }


    /** What the capture loop's actions change, as a value. */
    ghost function View(): CaptureView
      reads this`session, this`lastTransition, this`dictationBlockUntil, this`stopEvt, textQ, ttsQ
    {
      CaptureView(session, lastTransition, dictationBlockUntil, stopEvt, textQ.items, ttsQ.items)
    }

    /** A wake or sleep transition at time `now`, into the next epoch; the audio queue is drained (chat.py:686-701, chat.py:715-728). */
    method Transition(toActive: bool, token: String, now: int)
      requires Valid()
      modifies this`session, this`lastTransition, this`dictationBlockUntil, audioQ, textQ
      ensures Valid()
      ensures View() == Transitioned(old(View()), toActive, token, now)
      ensures audioQ.items == []
    {
      session := SessionState(toActive, session.sessionId + 1);
      lastTransition := now;
      dictationBlockUntil := now + ARMING_DELAY_MS;
      var _ := textQ.PutFlushingOnFull(token, FLUSH_DEFAULT);
      audioQ.Flush(FLUSH_DEFAULT);
      FlushedEmpties(old(audioQ.items), FLUSH_DEFAULT);
    }

    /**
      The exit phrase (chat.py:676-681, chat.py:707-713) and the shutdown after
      the loop (chat.py:771-775): `__EXIT__` to both workers if there is room,
      the stop flag, and one more `__EXIT__` to the speech worker.
    */
    method Shutdown()
      requires Valid() && !captureDone
      modifies this`stopEvt, this`captureDone, textQ, ttsQ
      ensures Valid() && captureDone
      ensures View() == Stopped(old(View()))
    {
      var _ := textQ.PutNowait(EXIT_TOKEN);
      var _ := ttsQ.PutNowait(EXIT_TOKEN);
      stopEvt := true;
      captureDone := true;
      var _ := ttsQ.PutNowait(EXIT_TOKEN);
    }

    /** Acting on the decision `d` taken at time `now` (chat.py:671-765). */
    method Act(d: Action, now: int)
      requires Valid() && !captureDone
      modifies this`session, this`lastTransition, this`dictationBlockUntil, this`stopEvt, this`captureDone, audioQ, textQ, ttsQ
      ensures Valid()
      ensures View() == Effect(old(View()), d, now)
      ensures audioQ.items == if d == Wake || d == Sleep then [] else old(audioQ.items)
    {
      match d {
        case Idle =>
        case Exit =>
          Shutdown();
        case Wake =>
          Transition(true, WAKE_TOKEN, now);
        case Sleep =>
          Transition(false, SLEEP_TOKEN, now);
        case Dictate(text) =>
          var _ := textQ.PutFlushingOnFull(text, TEXT_QUEUE_MAX);
      }
    }

    /**
      One iteration of the capture loop (chat.py:660-765): take an audio block,
      decide with `Decide` what the recognisers' results `h` ask for, and act.
      `a` is the decision, `None` while the audio queue is empty.
    */
    method CaptureStep(h: Heard) returns (a: Option<Action>)
      requires Valid() && !captureDone
      modifies this`session, this`lastTransition, this`dictationBlockUntil, this`stopEvt, this`captureDone, audioQ, textQ, ttsQ
      ensures Valid()
      ensures old(audioQ.items) == [] ==> a == None && View() == old(View()) && audioQ.items == []
      ensures old(audioQ.items) != [] ==>
        a == Some(Decide(old(session.active), old(lastTransition), old(dictationBlockUntil), old(ttsBusy), h))
        && View() == Effect(old(View()), a.value, h.now)
        && audioQ.items == if a == Some(Wake) || a == Some(Sleep) then [] else old(audioQ.items)[1..]
    {
      var block := audioQ.GetNowait();
      if block == None {
        return None;
      }
      var d := Decide(session.active, lastTransition, dictationBlockUntil, ttsBusy, h);
      a := Some(d);
      Act(d, h.now);
    }

    /** `tts_q.put_nowait("__STOP__")`, flushing the speech queue when it is full (chat.py:534-540). */
    method SendStop()
      requires Valid()
      modifies ttsQ
      ensures Valid()
      ensures ttsQ.items == AfterPut(old(ttsQ.items), TTS_QUEUE_MAX, STOP_TOKEN, TTS_QUEUE_MAX)
    {
      var _ := ttsQ.PutFlushingOnFull(STOP_TOKEN, TTS_QUEUE_MAX);
    }

    /**
      The attempt loop of a worker synchronised at epoch `localId`, and what its
      end does to the queues (chat.py:560-603): a reply goes to the speech
      queue, flushing it when full; a quota error drains the text queue; every
      other end leaves both alone.
    */
    method Request(env: seq<AttemptEnv>, localId: nat) returns (delays: seq<nat>, end: LoopEnd)
      requires QueuesValid() && |env| == RETRY_MAX + 1
      modifies textQ, ttsQ
      ensures QueuesValid() && Ran(env, localId, delays, end)
      ensures textQ.items == TextAfter(old(textQ.items), end)
      ensures ttsQ.items == SpeechAfter(old(ttsQ.items), end)
    {
      delays, end := SendLoop(env, localId);
      match end {
        case Replied(answer) =>
          var _ := ttsQ.PutFlushingOnFull(answer, TTS_QUEUE_MAX);
        case QuotaHit =>
          textQ.Flush(FLUSH_DEFAULT);
        case _ =>
      }
    }

    /**
      A user text taken from the text queue (chat.py:545-603): synchronise with
      the session, drop the text while asleep or when blank, open a conversation
      if none is open, and run the attempt loop. `userText` is the item after
      `strip()`, which changes no state, so the caller applies it. `end` is how
      the request ended, `None` when none was made; `delays` are the backoff
      sleeps it took.
    */
    method Converse(userText: String, env: seq<AttemptEnv>) returns (delays: seq<nat>, end: Option<LoopEnd>)
      requires QueuesValid() && WorkerValid() && ChatValid() && |env| == RETRY_MAX + 1
      modifies this`chat, this`conversations, this`localSessionId, textQ, ttsQ
      ensures QueuesValid() && WorkerValid() && ChatValid()
      ensures localSessionId == session.sessionId
      ensures !session.active ==> chat == None && conversations == old(conversations)
      ensures session.active ==>
        chat == (if userText != [] && old(chat) == None then Some(old(conversations)) else old(chat))
        && conversations == old(conversations) + (if userText != [] && old(chat) == None then 1 else 0)
      ensures end.Some? <==> session.active && userText != []
      ensures end.None? ==> delays == [] && textQ.items == old(textQ.items) && ttsQ.items == old(ttsQ.items)
      ensures end.Some? ==>
        chat.Some? && (old(chat).Some? ==> chat == old(chat))
        && Ran(env, localSessionId, delays, end.value)
        && textQ.items == TextAfter(old(textQ.items), end.value)
        && ttsQ.items == SpeechAfter(old(ttsQ.items), end.value)
    {
      delays, end := [], None;
      localSessionId := session.sessionId;
      if !session.active {
        chat := None;
        return;
      }
      if userText == [] {
        return;
      }
      var e;
      delays, e := OpenAndRequest(env);
      end := Some(e);
    }

    /** Open a conversation if none is open (chat.py:552-553), then make the request (chat.py:555-603). */
    method OpenAndRequest(env: seq<AttemptEnv>) returns (delays: seq<nat>, end: LoopEnd)
      requires QueuesValid() && ChatValid() && |env| == RETRY_MAX + 1
      modifies this`chat, this`conversations, textQ, ttsQ
      ensures QueuesValid() && ChatValid()
      ensures chat == (if old(chat) == None then Some(old(conversations)) else old(chat))
      ensures conversations == old(conversations) + (if old(chat) == None then 1 else 0)
      ensures Ran(env, localSessionId, delays, end)
      ensures textQ.items == TextAfter(old(textQ.items), end)
      ensures ttsQ.items == SpeechAfter(old(ttsQ.items), end)
    {
      if chat == None {
        OpenChat();
      }
      delays, end := Request(env, localSessionId);
    }

    /** `make_chat()`: the next conversation, never opened before. */
    method OpenChat()
      modifies this`chat, this`conversations
      ensures chat == Some(old(conversations)) && conversations == old(conversations) + 1 && ChatValid()
    {
      chat := Some(conversations);
      conversations := conversations + 1;
    }

    /**
      One iteration of the Gemini worker (chat.py:514-603): take an item from
      the text queue; `__WAKE__` opens a fresh conversation at the current epoch,
      `__SLEEP__` drops the conversation and the queued texts, both stop the
      speech; `__EXIT__` ends the worker; any other item is a user text.
    */
    method GeminiStep(env: seq<AttemptEnv>) returns (delays: seq<nat>, end: Option<LoopEnd>)
      requires Valid() && !geminiDone && |env| == RETRY_MAX + 1
      modifies this`chat, this`conversations, this`localSessionId, this`geminiDone, textQ, ttsQ
      ensures Valid()
      ensures old(stopEvt) ==>
        geminiDone && end == None && chat == old(chat) && conversations == old(conversations)
        && localSessionId == old(localSessionId) && textQ.items == old(textQ.items) && ttsQ.items == old(ttsQ.items)
      ensures !old(stopEvt) && old(textQ.items) == [] ==>
        end == None && chat == old(chat) && conversations == old(conversations) && localSessionId == old(localSessionId)
        && !geminiDone && textQ.items == [] && ttsQ.items == old(ttsQ.items)
      ensures !old(stopEvt) && old(textQ.items) != [] ==>
        var item := old(textQ.items)[0];
        (item == WAKE_TOKEN ==>
          end == None && !geminiDone && localSessionId == session.sessionId
          && chat == Some(old(conversations)) && conversations == old(conversations) + 1
          && (old(chat).Some? ==> old(chat).value < chat.value)
          && textQ.items == old(textQ.items)[1..]
          && ttsQ.items == AfterPut(old(ttsQ.items), TTS_QUEUE_MAX, STOP_TOKEN, TTS_QUEUE_MAX))
        && (item == SLEEP_TOKEN ==>
          end == None && !geminiDone && chat == None && conversations == old(conversations)
          && localSessionId == old(localSessionId) && textQ.items == []
          && ttsQ.items == AfterPut(old(ttsQ.items), TTS_QUEUE_MAX, STOP_TOKEN, TTS_QUEUE_MAX))
        && (item == EXIT_TOKEN ==>
          end == None && geminiDone && chat == old(chat) && conversations == old(conversations)
          && localSessionId == old(localSessionId) && textQ.items == old(textQ.items)[1..] && ttsQ.items == old(ttsQ.items))
        && (item != WAKE_TOKEN && item != SLEEP_TOKEN && item != EXIT_TOKEN ==>
          !geminiDone && localSessionId == session.sessionId
          && (!session.active ==> chat == None && conversations == old(conversations))
          && (session.active ==>
            chat == (if Strip(item) != [] && old(chat) == None then Some(old(conversations)) else old(chat))
            && conversations == old(conversations) + (if Strip(item) != [] && old(chat) == None then 1 else 0))
          && (end.Some? <==> session.active && Strip(item) != [])
          && (end.None? ==> textQ.items == old(textQ.items)[1..] && ttsQ.items == old(ttsQ.items))
          && (end.Some? ==>
            chat.Some? && (old(chat).Some? ==> chat == old(chat))
            && Ran(env, localSessionId, delays, end.value)
            && textQ.items == TextAfter(old(textQ.items)[1..], end.value)
            && ttsQ.items == SpeechAfter(old(ttsQ.items), end.value)))
    {
      delays, end := [], None;
      if stopEvt {
        geminiDone := true;
        return;
      }
      var got := textQ.GetNowait();
      if got == None {
        return;
      }
      delays, end := GeminiHandle(got.value, env);
    }

    /** What the Gemini worker does with an item it has taken from the text queue (chat.py:520-603). */
    method GeminiHandle(item: String, env: seq<AttemptEnv>) returns (delays: seq<nat>, end: Option<LoopEnd>)
      requires Valid() && !geminiDone && |env| == RETRY_MAX + 1
      modifies this`chat, this`conversations, this`localSessionId, this`geminiDone, textQ, ttsQ
      ensures Valid()
      ensures item == WAKE_TOKEN ==>
        end == None && !geminiDone && localSessionId == session.sessionId
        && chat == Some(old(conversations)) && conversations == old(conversations) + 1
        && (old(chat).Some? ==> old(chat).value < chat.value)
        && textQ.items == old(textQ.items)
        && ttsQ.items == AfterPut(old(ttsQ.items), TTS_QUEUE_MAX, STOP_TOKEN, TTS_QUEUE_MAX)
      ensures item == SLEEP_TOKEN ==>
        end == None && !geminiDone && chat == None && conversations == old(conversations)
        && localSessionId == old(localSessionId) && textQ.items == []
        && ttsQ.items == AfterPut(old(ttsQ.items), TTS_QUEUE_MAX, STOP_TOKEN, TTS_QUEUE_MAX)
      ensures item == EXIT_TOKEN ==>
        end == None && geminiDone && chat == old(chat) && conversations == old(conversations)
        && localSessionId == old(localSessionId) && textQ.items == old(textQ.items) && ttsQ.items == old(ttsQ.items)
      ensures item != WAKE_TOKEN && item != SLEEP_TOKEN && item != EXIT_TOKEN ==>
        !geminiDone && localSessionId == session.sessionId
        && (!session.active ==> chat == None && conversations == old(conversations))
        && (session.active ==>
          chat == (if Strip(item) != [] && old(chat) == None then Some(old(conversations)) else old(chat))
          && conversations == old(conversations) + (if Strip(item) != [] && old(chat) == None then 1 else 0))
        && (end.Some? <==> session.active && Strip(item) != [])
        && (end.None? ==> textQ.items == old(textQ.items) && ttsQ.items == old(ttsQ.items))
        && (end.Some? ==>
          chat.Some? && (old(chat).Some? ==> chat == old(chat))
          && Ran(env, localSessionId, delays, end.value)
          && textQ.items == TextAfter(old(textQ.items), end.value)
          && ttsQ.items == SpeechAfter(old(ttsQ.items), end.value))
    {
      delays, end := [], None;
      if item == WAKE_TOKEN {
        localSessionId := session.sessionId;
        OpenChat();
        SendStop();
      } else if item == SLEEP_TOKEN {
        chat := None;
        textQ.Flush(FLUSH_DEFAULT);
        FlushedEmpties(old(textQ.items), FLUSH_DEFAULT);
        SendStop();
      } else if item == EXIT_TOKEN {
        geminiDone := true;
      } else {
        delays, end := Converse(Strip(item), env);
      }
    }

    /**
      One iteration of the speech worker up to the start of playback
      (chat.py:424-447): take an item; `__EXIT__` ends the worker, `__STOP__`
      empties the speech queue and clears the busy flag, a blank text is
      skipped, any other text sets the busy flag and starts playing.
    */
    method TtsTake()
      requires Valid() && !ttsDone && speaking == None
      modifies this`ttsBusy, this`speaking, this`ttsDone, ttsQ
      ensures Valid()
      ensures old(stopEvt) ==> ttsDone && speaking == None && ttsQ.items == old(ttsQ.items)
      ensures !old(stopEvt) && old(ttsQ.items) == [] ==> !ttsDone && speaking == None && ttsQ.items == []
      ensures !old(stopEvt) && old(ttsQ.items) != [] ==>
        var item := old(ttsQ.items)[0];
        (item == EXIT_TOKEN ==> ttsDone && speaking == None && ttsQ.items == old(ttsQ.items)[1..])
        && (item == STOP_TOKEN ==> !ttsDone && speaking == None && ttsQ.items == [])
        && (item != EXIT_TOKEN && item != STOP_TOKEN ==>
          !ttsDone && ttsQ.items == old(ttsQ.items)[1..]
          && speaking == (if Strip(item) == [] then None else Some(Strip(item))))
    {
      if stopEvt {
        ttsDone := true;
        return;
      }
      var got := ttsQ.GetNowait();
      if got == None {
        return;
      }
      TtsHandle(got.value);
    }

    /** What the speech worker does with an item it has taken (chat.py:424-447). */
    method TtsHandle(item: String)
      requires QueuesValid() && SpeechValid() && !ttsDone && speaking == None
      modifies this`ttsBusy, this`speaking, this`ttsDone, ttsQ
      ensures QueuesValid() && SpeechValid()
      ensures item == EXIT_TOKEN ==> ttsDone && speaking == None && ttsQ.items == old(ttsQ.items)
      ensures item == STOP_TOKEN ==> !ttsDone && speaking == None && ttsQ.items == []
      ensures item != EXIT_TOKEN && item != STOP_TOKEN ==>
        !ttsDone && ttsQ.items == old(ttsQ.items) && speaking == (if Strip(item) == [] then None else Some(Strip(item)))
    {
      if item == EXIT_TOKEN {
        ttsDone := true;
      } else if item == STOP_TOKEN {
        StopSpeech();
      } else {
        StartSpeaking(Strip(item));
      }
    }

    /** `__STOP__`: the speech queue is emptied and the busy flag cleared (chat.py:427-439). */
    method StopSpeech()
      requires QueuesValid() && SpeechValid() && speaking == None
      modifies this`ttsBusy, ttsQ
      ensures QueuesValid() && SpeechValid() && ttsQ.items == [] && !ttsBusy
    {
      ttsQ.Flush(TTS_QUEUE_MAX);
      FlushedEmpties(old(ttsQ.items), TTS_QUEUE_MAX);
      ttsBusy := false;
    }

    /** `text = (item or "").strip()`: a blank text is skipped, any other sets the busy flag and starts playing (chat.py:441-445). */
    method StartSpeaking(text: String)
      requires SpeechValid() && speaking == None
      modifies this`ttsBusy, this`speaking
      ensures SpeechValid() && speaking == (if text == [] then None else Some(text))
    {
      if text != [] {
        ttsBusy := true;
        speaking := Some(text);
      }
    }

    /**
      The end of playback (chat.py:448-461): `said` is what the engine is given,
      the text after `clean_for_tts`, unless that leaves nothing; the `finally`
      clears the busy flag whether or not the engine failed.
    */
    method TtsFinish() returns (said: Option<String>)
      requires Valid() && speaking.Some?
      modifies this`ttsBusy, this`speaking
      ensures Valid() && ttsDone == old(ttsDone)
      ensures speaking == None && !ttsBusy
      ensures said == Utterance(old(speaking.value))
    {
      said := Utterance(speaking.value);
      ttsBusy := false;
      speaking := None;
    }
  }
}
