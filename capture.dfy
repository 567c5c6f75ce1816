/**
  The decision taken by one iteration of the capture loop in `main`
  (chat.py:660-765) for one audio frame: end the program, wake, sleep, forward
  dictated text to the Gemini worker, or nothing.

  The recognisers are foreign: for each frame the model is given what they
  returned, `None` when `AcceptWaveform` did not complete an utterance and
  otherwise the raw `"text"` field of the result (`""` when it is missing).
  Times are integer milliseconds of the monotonic clock.
*/
module Capture {
  import opened Wrappers
  import opened Text
  import opened Phrase

  /** `COOLDOWN_SEC` (0.8 s) and `ARMING_DELAY_SEC` (0.35 s) in milliseconds. */
  const COOLDOWN_MS: int := 800
  const ARMING_DELAY_MS: int := 350

  /**
    What one iteration learns from outside: the clock at chat.py:668, the
    results of the wake, sleep and dictation recognisers for the frame, and the
    clock read again at chat.py:736.
  */
  datatype Heard = Heard(now: int, wake: Option<String>, sleep: Option<String>, later: int, dict: Option<String>)

  /** What the iteration does. */
  datatype Action = Idle | Exit | Wake | Sleep | Dictate(text: String)

  /** A command recogniser's result is considered: it has non-empty text and the cooldown since the last transition is over. */
  predicate CommandReady(result: Option<String>, now: int, lastTransition: int) {
    result.Some? && Strip(result.value) != [] && now - lastTransition >= COOLDOWN_MS
  }

  /** Dictated text the loop drops because its normalisation starts with one of the three command phrases. */
  predicate CommandLike(text: String) {
    var nt := Norm(text);
    StartsWith(nt, WAKE_PHRASE) || StartsWith(nt, SLEEP_PHRASE) || StartsWith(nt, EXIT_PHRASE)
  }

  /** The dictation part of an awake iteration (chat.py:735-765). */
  function Dictation(blockUntil: int, busy: bool, h: Heard): Action {
    if h.later < blockUntil then Idle
    else if busy then Idle
    else if h.dict.None? then Idle
    else
      var text := Strip(h.dict.value);
      if text == [] || CommandLike(text) then Idle else Dictate(text)
  }

  /**
    What a command recogniser's result asks for (chat.py:671-733): `Exit` for
    the exit phrase, tested first; `act` for the mode's own `phrase`; nothing
    when the text is empty, the cooldown is running or neither phrase begins it.
  */
  function Command(result: Option<String>, now: int, lastTransition: int, phrase: String, act: Action): Action {
    if !CommandReady(result, now, lastTransition) then Idle
    else
      var txt := Strip(result.value);
      if StartsWith(txt, EXIT_PHRASE) then Exit
      else if StartsWith(txt, phrase) then act
      else Idle
  }

  /**
    One iteration, given the session flag read under the lock, the time of the
    last transition, the end of the arming delay and the speech-busy flag.
    Asleep, only the wake recogniser is consulted; awake, the sleep recogniser,
    and when it asks for nothing the dictation recogniser.
  */
  function Decide(active: bool, lastTransition: int, blockUntil: int, busy: bool, h: Heard): Action {
    if !active then Command(h.wake, h.now, lastTransition, WAKE_PHRASE, Wake)
    else
      var c := Command(h.sleep, h.now, lastTransition, SLEEP_PHRASE, Sleep);
      if c != Idle then c else Dictation(blockUntil, busy, h)
  }

  /**
    Wake happens only while asleep and sleep only while awake; the wake
    recogniser is not consulted while awake, so there is no re-activation.
  */
  lemma TransitionsFollowMode(active: bool, last: int, blockUntil: int, busy: bool, h: Heard)
    ensures Decide(active, last, blockUntil, busy, h) == Wake ==> !active
    ensures Decide(active, last, blockUntil, busy, h) == Sleep ==> active
  {
  }

  /**
    Every command needs non-empty text from the recogniser of the current mode
    and the cooldown to be over; wake and sleep need their own phrase at the
    start of that text, and fire only when the exit phrase does not begin it.
  */
  lemma CommandsNeedCooldown(active: bool, last: int, blockUntil: int, busy: bool, h: Heard)
    ensures var a := Decide(active, last, blockUntil, busy, h);
      a == Wake || a == Sleep || a == Exit ==>
        var r := if active then h.sleep else h.wake;
        r.Some? && Strip(r.value) != [] && h.now - last >= COOLDOWN_MS
        && (a == Exit <==> StartsWith(Strip(r.value), EXIT_PHRASE))
        && (a == Wake ==> StartsWith(Strip(r.value), WAKE_PHRASE))
        && (a == Sleep ==> StartsWith(Strip(r.value), SLEEP_PHRASE))
  {
  }

  /** The exit phrase is tested first: heard by the recogniser of the current mode once the cooldown is over, it ends the program whatever else holds. */
  lemma ExitTestedFirst(active: bool, last: int, blockUntil: int, busy: bool, h: Heard)
    requires var r := if active then h.sleep else h.wake;
      CommandReady(r, h.now, last) && StartsWith(Strip(r.value), EXIT_PHRASE)
    ensures Decide(active, last, blockUntil, busy, h) == Exit
  {
  }

  /** Within the cooldown after a transition no command fires; an awake loop may still take dictation. */
  lemma CooldownBlocksCommands(active: bool, last: int, blockUntil: int, busy: bool, h: Heard)
    requires h.now - last < COOLDOWN_MS
    ensures Decide(active, last, blockUntil, busy, h) == if active then Dictation(blockUntil, busy, h) else Idle
  {
  }

  /**
    Dictation is forwarded only when every gate is open: the session is
    awake, the sleep recogniser asked for no exit or sleep on this frame, the
    arming delay is over, no speech is playing, and the dictation recogniser
    returned non-empty text whose normalisation starts with no command phrase.
    What is forwarded is that raw text, stripped but not normalised.
  */
  lemma DictationGated(active: bool, last: int, blockUntil: int, busy: bool, h: Heard, t: String)
    requires Decide(active, last, blockUntil, busy, h) == Dictate(t)
    ensures active && Command(h.sleep, h.now, last, SLEEP_PHRASE, Sleep) == Idle
    ensures h.later >= blockUntil && !busy
    ensures h.dict.Some? && t == Strip(h.dict.value) && t != []
    ensures !CommandLike(t)
  {
    DecideDictates(active, last, blockUntil, busy, h, t);
    DictationOpen(blockUntil, busy, h, t);
  }

  lemma DecideDictates(active: bool, last: int, blockUntil: int, busy: bool, h: Heard, t: String)
    requires Decide(active, last, blockUntil, busy, h) == Dictate(t)
    ensures active && Command(h.sleep, h.now, last, SLEEP_PHRASE, Sleep) == Idle
    ensures Dictation(blockUntil, busy, h) == Dictate(t)
  {
  }

  lemma DictationOpen(blockUntil: int, busy: bool, h: Heard, t: String)
    requires Dictation(blockUntil, busy, h) == Dictate(t)
    ensures h.later >= blockUntil && !busy
    ensures h.dict.Some? && t == Strip(h.dict.value) && t != []
    ensures !CommandLike(t)
  {
  }

  /** Dictated text starts with no command phrase, whether normalised or not. */
  lemma DictatedTextIsNoCommand(active: bool, last: int, blockUntil: int, busy: bool, h: Heard, t: String)
    requires Decide(active, last, blockUntil, busy, h) == Dictate(t)
    ensures !StartsWith(t, WAKE_PHRASE) && !StartsWith(t, SLEEP_PHRASE) && !StartsWith(t, EXIT_PHRASE)
  {
    assert !CommandLike(t) by {
      DictationGated(active, last, blockUntil, busy, h, t);
    }
    CommandLikeOnRawText(t);
  }

  /** The loop's second normalisation changes nothing: dictated text is command-like exactly when the raw text starts with a phrase. */
  lemma CommandLikeOnRawText(t: String)
    ensures CommandLike(t) <==> StartsWith(t, WAKE_PHRASE) || StartsWith(t, SLEEP_PHRASE) || StartsWith(t, EXIT_PHRASE)
  {
    var nt := Norm(t);
    assert StartsWith(nt, WAKE_PHRASE) == StartsWith(t, WAKE_PHRASE) by {
      StartsWithNormalised(t, WAKE_PHRASE);
    }
    assert StartsWith(nt, SLEEP_PHRASE) == StartsWith(t, SLEEP_PHRASE) by {
      StartsWithNormalised(t, SLEEP_PHRASE);
    }
    assert StartsWith(nt, EXIT_PHRASE) == StartsWith(t, EXIT_PHRASE) by {
      StartsWithNormalised(t, EXIT_PHRASE);
    }
  }

  /** Conversely, with every gate open the text is forwarded. */
  lemma DictationWhenGatesOpen(last: int, blockUntil: int, h: Heard)
    requires Command(h.sleep, h.now, last, SLEEP_PHRASE, Sleep) == Idle
    requires h.later >= blockUntil
    requires h.dict.Some? && Strip(h.dict.value) != []
    requires !StartsWith(Strip(h.dict.value), WAKE_PHRASE) && !StartsWith(Strip(h.dict.value), SLEEP_PHRASE)
    requires !StartsWith(Strip(h.dict.value), EXIT_PHRASE)
    ensures Decide(true, last, blockUntil, false, h) == Dictate(Strip(h.dict.value))
  {
    var t := Strip(h.dict.value);
    assert !CommandLike(t) by {
      CommandLikeOnRawText(t);
    }
    assert Dictation(blockUntil, false, h) == Dictate(t);
  }

  /** While speech is playing nothing is dictated, so the assistant does not hear itself. */
  lemma NoDictationWhileSpeaking(active: bool, last: int, blockUntil: int, h: Heard)
    ensures !Decide(active, last, blockUntil, true, h).Dictate?
  {
  }
}
