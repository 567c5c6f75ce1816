/**
  The state the threads share (chat.py:213-222): the session flag and epoch,
  and the control tokens they pass through the text and speech queues.
*/
module Session {
  import opened Text

  /** `SessionState`: whether the assistant is awake, and the epoch bumped by every wake and sleep. */
  datatype SessionState = SessionState(active: bool, sessionId: nat)

  /** A snapshot no longer belongs to the session a worker synchronised with at epoch `localId`. */
  predicate Stale(s: SessionState, localId: nat) {
    s.sessionId != localId || !s.active
  }

  const WAKE_TOKEN: String := "__WAKE__"
  const SLEEP_TOKEN: String := "__SLEEP__"
  const EXIT_TOKEN: String := "__EXIT__"
  const STOP_TOKEN: String := "__STOP__"

  const AUDIO_QUEUE_MAX: nat := 120
  const TEXT_QUEUE_MAX: nat := 10
  const TTS_QUEUE_MAX: nat := 10
  /** The default `max_items` of `flush_queue`. */
  const FLUSH_DEFAULT: nat := 200
}
