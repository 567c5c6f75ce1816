# Wake-word voice assistant: the control layer, in Dafny

`chat.py` is a German voice assistant. The microphone feeds an audio queue.
The capture loop in `main` has three speech recognisers, and which of them
is fed a block depends on the session:
- while no session is active, only the wake recogniser is fed. Its wake
  phrase ("hallo michaela") activates a session, and its exit phrase
  ("kill switch aktivieren") stops the program;
- while a session is active, the sleep recogniser is fed. Its sleep phrase
  ("danke michaela") ends the session, and the exit phrase stops the program;
- while a session is active, the dictation recogniser is fed only once the
  arming delay is over and no speech is playing. Its text goes to a Gemini
  worker thread.

The worker sends the text to a chat model, with bounded retries and a
repair request for answers that are too short. It hands the reply to a
speech worker thread. Every wake and sleep bumps a session epoch. The
Gemini worker copies the epoch when it takes a text. It drops the text
when no session is active at that moment. It compares its copy with the
shared epoch before each attempt and before queueing the reply, so it
drops replies whose session ended during the request. A text queued in
an earlier session is not compared with anything: it is answered in the
session that is current when the worker takes it. A `__SLEEP__` token
empties the text queue, and with it any `__WAKE__` queued behind it. The
speech worker never consults the epoch.

This project models that control layer.

Pure helpers:
- `Phrase`: `norm_text` and `starts_with_phrase`, over the Python string
  operations of `Text`;
- `Retry`: `should_retry`, the quota test and the backoff sleeps;
- `Reply`: `extract_gemini_text`, `clean_for_tts` and `_is_riff_wav`.

Stateful parts:
- `Channel`: the bounded queues as a class, with `flush_queue` and the
  three put disciplines;
- `Gemini`: the worker's attempt loop;
- `Capture`: the capture loop's decision for one audio block;
- `Assistant`: a class that holds all the shared state. It has one method
  per atomic step of each thread: the audio callback, a capture-loop
  iteration, a Gemini-worker iteration, and the two halves of a
  speech-worker iteration.

The threads interleave these steps in any order.

What the foreign calls return is given as parameters:
- the recognisers' results (`Heard`);
- per attempt: the Gemini responses or exceptions, the session snapshots
  the worker reads, the stop flag and the backoff jitter (`AttemptEnv`).

Times are integer milliseconds.

Two behaviours of the source follow directly from the model.

A wake or sleep token is not always delivered. The capture loop puts it as
the newest item of the text queue (`Assistant.EffectKeepsQueues`), but two
later events can discard it before the Gemini worker takes it:
- dictated text put on a full text queue flushes all ten queued items,
  tokens included (`Assistant.DictationOnFullQueueDropsTokens`);
- a quota error makes the Gemini worker drain the text queue
  (`Assistant.Assistant.Request`).

The worker then keeps its old conversation and puts no `__STOP__`.

Stale replies can still be spoken. When the Gemini worker takes a wake or
sleep token, it puts `__STOP__` on the speech queue behind any replies
already queued: `Assistant.Assistant.SendStop` puts it with `AfterPut`,
which appends when there is room (`Channel.AfterPutWithRoomAppends`). The
speech worker drains the queue only when it reaches the token.
`Assistant.Assistant.TtsTake` starts playing the stripped head item,
whatever the session holds, so stale replies queued before the token are
still spoken. Playback runs on the same thread, so `__STOP__` cannot
interrupt a text being spoken.

## Model

| member | source | states |
|---|---|---|
| Text.Strip | chat.py:673 | `str.strip()`: the result is a slice of the input, starting where the leading whitespace ends, with no whitespace at either end |
| Text.StripDropsOnlyWhitespace | chat.py:673 | `str.strip()` removes only whitespace: everything before and after the slice it returns is whitespace, and an empty result means the input was all whitespace |
| Text.LowerStr | chat.py:134 | `str.lower()`: same length, each character lower-cased, no upper-case letter left |
| Phrase.Collapse | chat.py:135-144 | the character loop of `norm_text`: alphanumerics kept, a blank for the first whitespace of each run, every other character dropped; never longer than its input |
| Phrase.Norm | chat.py:133-145 | the value of `norm_text`: lower-casing, then that loop, then `strip()` |
| Phrase.NormText | chat.py:133-145 | the loop returns exactly `Norm(s)` (lower-case, alphanumerics kept, one blank per whitespace run, other characters dropped, trimmed) |
| Phrase.NormShape | chat.py:133-145 | every result of `norm_text` holds only lower-case alphanumerics and single inner blanks, with none at the ends |
| Phrase.NormIdempotent | chat.py:133-145 | `norm_text(norm_text(s)) == norm_text(s)` |
| Phrase.NormDeletesPunctuation | chat.py:138-144 | a character that is neither alphanumeric nor whitespace is dropped without leaving a blank |
| Phrase.StartsWith | chat.py:147-150 | `starts_with_phrase`: the words of the normalised text begin with the words of the phrase, which is split but not normalised |
| Phrase.StartsWithNormalised | chat.py:748-753 | normalising the text before `starts_with_phrase` changes nothing, so the second `norm_text` in the dictation filter is harmless |
| Phrase.EmptyPhraseMatches | chat.py:147-150 | a phrase with no words matches every text |
| Phrase.TrailingWordsIgnored | chat.py:147-150 | a phrase in normal form, followed by a blank and any further text, still matches |
| Phrase.StartsWithWhenWordsExtend | chat.py:147-150 | a text whose normalised words extend the phrase's words matches |
| Phrase.NoMatchWhenLastWordDiffers | chat.py:147-150 | a text whose words differ from the phrase's in its last word does not match |
| Phrase.TruncatedWakeDoesNotMatch | chat.py:147-150 | "hallo micha" is not the wake phrase |
| Phrase.WakeWithTrailingWords | chat.py:147-150 | the wake phrase followed by a question wakes the assistant |
| Phrase.UpperCasePhraseNeverMatches | chat.py:147-150 | only the text is normalised, so a phrase holding an upper-case letter matches nothing |
| Phrase.CapitalisedWakeNeverMatches | chat.py:147-150 | "Hallo Michaela" as the phrase would match no text |
| Channel.PutIfRoom | chat.py:757-764 | a `put_nowait` whose `Full` is ignored: appends when the queue has room, otherwise leaves it unchanged |
| Channel.AfterPut | chat.py:757-764 | the flush-and-retry put: a plain append when there is room, otherwise `flush_queue(q, maxItems)` and one more put that is dropped if the queue is still full |
| Channel.Flushed | chat.py:163-168 | `flush_queue` never makes a queue longer |
| Channel.FlushedDropsOldest | chat.py:163-168 | `flush_queue(q, n)` drops exactly the `min(len(q), n)` oldest items and keeps the rest in order |
| Channel.FlushedEmpties | chat.py:163-168 | a flush whose limit reaches the queue's length empties it |
| Channel.AfterPutBounded | chat.py:758-765 | put, flush when full, put again: the queue stays within its capacity |
| Channel.AfterPutKeepsNewest | chat.py:691-695 | after that put the new item is in the queue, as its newest item |
| Channel.AfterPutOnFullReplaces | chat.py:534-540 | on a full queue, with a flush limit at least the capacity, the new item replaces everything |
| Channel.AfterPutWithRoomAppends | chat.py:758-759 | with room, the put appends and keeps the older items in order |
| Channel.BoundedQueue.PutNowait | chat.py:232-238 | `put_nowait` whose `Full` is ignored: appends when there is room, and reports whether it did |
| Channel.BoundedQueue.GetNowait | chat.py:165-168 | takes the oldest item, or reports an empty queue and changes nothing |
| Channel.BoundedQueue.Flush | chat.py:163-168 | the loop leaves exactly `Flushed(old items, maxItems)` |
| Channel.BoundedQueue.PutFlushingOnFull | chat.py:758-765 | the queue becomes `AfterPut(old items, cap, x, maxItems)` |
| Retry.QuotaExhausted | chat.py:173-175 | `_looks_like_quota_exhausted`: the lower-cased message contains `resource_exhausted`, or both `quota` and `exceed`, or `has been exhausted` |
| Retry.QuotaError | chat.py:181-182 | a 429 error whose message names an exhausted quota; `should_retry` and the worker (chat.py:591-592) both test this first |
| Retry.ShouldRetry | chat.py:177-191 | `should_retry`: false for a quota error, otherwise true for 429/500/502/503/504, for a class name containing "timeout" or "connection", or for "overloaded" in the message |
| Retry.QuotaNotRetried | chat.py:177-183 | a 429 whose message shows an exhausted quota is never retried, whatever its class name or message says |
| Retry.ServerErrorRetried | chat.py:185-186 | 500, 502, 503 and 504 are retried whatever the message says |
| Retry.ResourceExhaustedNotRetried | chat.py:173-183 | a 429 whose message contains the API code `RESOURCE_EXHAUSTED` anywhere is not retried, since the test lower-cases the message |
| Retry.TimeoutRetried | chat.py:187-188 | a class name containing "Timeout", such as `ReadTimeout`, makes an error retryable unless it is a 429 quota error |
| Retry.BackoffMs | chat.py:193-196 | the sleep is at most the 8000 ms cap, at least `min(8000, 600 * 2^attempt)` and at most `600 * 2^attempt + 250` ms |
| Retry.BackoffMonotone | chat.py:193-196 | with the same jitter, a later attempt never sleeps less |
| Retry.BackoffCapped | chat.py:193-196 | from attempt index 4 on, the sleep is the 8 s cap whatever the jitter |
| Retry.TotalBackoffBounded | chat.py:597-600 | the at most `RETRY_MAX` (5) sleeps of one request, each from `backoff_sleep` at chat.py:193-196, add up to at most 18 s |
| Reply.GeminiText | chat.py:467-481 | the value of `extract_gemini_text`: the non-empty part texts of all candidates joined in order, else `resp.text`, else `""` |
| Reply.ExtractText | chat.py:467-481 | the loops return `GeminiText(resp)`: the non-empty part texts of all candidates joined in order, or `resp.text`, or `""` |
| Reply.JoinEmptyIff | chat.py:474-477 | the joined chunks are empty exactly when there are no chunks, so the fallback is taken only when no part had text |
| Reply.GeminiTextFallback | chat.py:476-481 | with no text part, the result is `resp.text` or `""` |
| Reply.EmptyPartsIgnored | chat.py:473-475 | parts without text, empty text included, contribute nothing |
| Reply.RemoveFences | chat.py:200 | the non-greedy fence regex: each block from a fence to the next fence is removed, and a fence with no closing one is kept; never longer than its input |
| Reply.SquashSpaces | chat.py:206 | each run of whitespace becomes one blank |
| Reply.CleanForTts | chat.py:198-208 | `clean_for_tts`: fences removed, then backticks, `*` and `#`, then whitespace squashed and stripped |
| Reply.CleanShape | chat.py:198-208 | `clean_for_tts` leaves no backtick, `*` or `#`, and whitespace only as single inner blanks |
| Reply.UtteranceSpeakable | chat.py:373-376 | neither speech engine (chat.py:358-361 and chat.py:373-376) is ever given empty text, nor text with markup or stray whitespace |
| Reply.CleanIdempotent | chat.py:198-208 | `clean_for_tts` is idempotent |
| Reply.FencedBlockRemoved | chat.py:200 | a fenced block at the start is removed entirely, code included, whenever the code holds no fence of its own; inline backticks in it are removed with it |
| Reply.IsRiffWav | chat.py:285-286 | `_is_riff_wav`: longer than 12 bytes, `RIFF` at bytes 0-3 and `WAVE` at bytes 8-11 |
| Reply.BareHeaderRejected | chat.py:285-286 | a bare 12-byte RIFF/WAVE header with nothing after it is not a WAV |
| Reply.RiffWavPrefixClosed | chat.py:285-286 | appending data to a recognised WAV keeps it recognised |
| Gemini.Ask | chat.py:563-570 | one attempt's `try` block: the exception of the first request, or its stripped answer, repaired once by a second request when shorter than ten characters and kept only if the repair is not shorter |
| Gemini.Iterate | chat.py:556-603 | one pass of the attempt loop: abandoned on the stop flag, outdated when the session is stale before the request or after the answer, a quota error ends it, a retryable error before the last attempt continues, any other error fails, a non-empty answer is the reply |
| Gemini.AskOnce | chat.py:563-572 | the request, `extract_gemini_text(...).strip()` and the repair request produce `Ask(e)` |
| Gemini.RepairOnlyWhenTooShort | chat.py:566-570 | an answer of ten characters or more is kept, whatever the repair request would have returned |
| Gemini.KeptAnswerNotShorter | chat.py:566-570 | the kept answer is the first or the repaired one, and never shorter than the first |
| Gemini.AttemptOnce | chat.py:557-603 | one pass of the attempt loop: `Iterate(e, localId, attempt)`, with both epoch checks, the quota short-circuit and the retry test |
| Gemini.RepliesAreCurrent | chat.py:557-590 | a reply is passed on only if the session was active at the worker's epoch both before the request and after the answer, and the reply is not empty |
| Gemini.QuotaNeverRetried | chat.py:592-596 | a quota error ends the request in any attempt without a retry |
| Gemini.ContinueOnlyOnRetryable | chat.py:597-600 | the loop goes round again only after a retryable non-quota error before the last attempt |
| Gemini.StopEndsLoop | chat.py:556 | once the stop flag is seen, no further attempt is made and nothing is replied |
| Gemini.SendLoop | chat.py:555-603 | the loop's sleeps and end satisfy `Ran`: every earlier attempt asked for a retry after exactly its backoff, and the last attempt ended the loop. At most `RETRY_MAX` retries and at most 18 s of sleep |
| Gemini.RanDeterministic | chat.py:555-603 | what the worker observes fixes the sleeps and the end of a request |
| Capture.Command | chat.py:671-733 | what a command recogniser asks for: nothing without non-empty text and the cooldown, then exit when the exit phrase begins the text, then the mode's own command |
| Capture.Dictation | chat.py:735-765 | the dictation gates in order: arming delay, speech busy, a final result, non-empty stripped text starting with no command phrase |
| Capture.Decide | chat.py:662-765 | one iteration: asleep, only the wake recogniser decides; awake, the sleep recogniser, and when it asks for nothing the dictation recogniser |
| Capture.TransitionsFollowMode | chat.py:671-733 | a wake happens only while asleep and a sleep only while awake |
| Capture.CommandsNeedCooldown | chat.py:671-733 | every command needs non-empty text from the current mode's recogniser and the 800 ms cooldown. Exit is chosen exactly when the exit phrase begins the text; wake and sleep need their own phrase |
| Capture.ExitTestedFirst | chat.py:704-716 | the exit phrase wins over everything once the cooldown is over |
| Capture.CooldownBlocksCommands | chat.py:704-737 | within the cooldown no command fires; awake, dictation may still happen |
| Capture.DictationGated | chat.py:735-759 | dictated text is forwarded only when awake, with no command on this block, the arming delay over, no speech playing, and stripped non-empty text that starts with no command phrase |
| Capture.DictatedTextIsNoCommand | chat.py:748-754 | forwarded text starts with none of the three phrases |
| Capture.DictationWhenGatesOpen | chat.py:735-759 | conversely, with every gate open the stripped text is forwarded |
| Capture.NoDictationWhileSpeaking | chat.py:740-741 | while speech is playing nothing is dictated |
| Assistant.Effect | chat.py:671-775 | what each decision does to the session, the clocks, the stop flag and the text and speech queues: nothing for idle, the shutdown puts for exit, the next epoch and a token for wake and sleep, a flush-and-retry put for dictation |
| Assistant.EffectOnSession | chat.py:684-721 | only wake and sleep move to the next epoch, into the mode they name, and reset the cooldown; nothing else touches the session |
| Assistant.TransitionMakesStale | chat.py:557-560 | after a wake or sleep, every worker synchronised at an earlier epoch is stale |
| Assistant.StopOnlyOnExit | chat.py:661-770 | the stop flag is raised by the exit phrase and nothing else |
| Assistant.EffectKeepsQueues | chat.py:691-765 | the text and speech queues stay within 10 items. A wake or sleep token, or dictated text, enters the text queue as its newest item. Only the exit touches the speech queue |
| Assistant.DictationOnFullQueueDropsTokens | chat.py:758-761 | dictated text put on a full text queue leaves only itself: the flush discards every earlier item, wake and sleep tokens included |
| Assistant.Assistant.constructor | chat.py:213-230 | asleep at epoch 0, empty queues of sizes 120, 10 and 10, no flags set |
| Assistant.Assistant.AudioCallback | chat.py:232-238 | a block is queued when there is room and dropped when the audio queue is full |
| Assistant.Assistant.Transition | chat.py:716-732 | the sleep branch, and the wake branch at chat.py:684-700: next epoch, new cooldown and arming delay, token put with flush-and-retry, audio queue drained |
| Assistant.Assistant.Shutdown | chat.py:707-774 | `__EXIT__` to each worker if there is room, the stop flag, one more `__EXIT__` for speech |
| Assistant.Assistant.Act | chat.py:671-765 | acting on a decision changes the shared state exactly as `Effect` says, keeping the invariant |
| Assistant.Assistant.CaptureStep | chat.py:662-765 | with an audio block, the decision is `Decide` on the state read under the lock and the state becomes `Effect` of it; without one, nothing changes |
| Assistant.Assistant.SendStop | chat.py:534-540 | `__STOP__` is put on the speech queue, flushing it when full |
| Assistant.Assistant.OpenChat | chat.py:494-503 | `make_chat()`: the worker holds the next conversation, never opened before, and the count grows by one |
| Assistant.Assistant.OpenAndRequest | chat.py:552-603 | opens a conversation when none is held, then the request ends as `Ran` says, with the text and speech queues as `Request` leaves them |
| Assistant.Assistant.Request | chat.py:555-603 | the request ends as `Ran` says. A reply goes to the speech queue, a quota error drains the text queue, and every other end leaves both queues alone |
| Assistant.Assistant.Converse | chat.py:505-603 | the worker copies the epoch. Asleep, it drops the conversation. A request is made exactly when awake with non-blank stripped text. It keeps an open conversation, or opens the next fresh one and counts it. A blank text leaves the conversation alone |
| Assistant.Assistant.GeminiHandle | chat.py:520-603 | per item taken: `__WAKE__` opens a fresh conversation at the current epoch and puts `__STOP__`; `__SLEEP__` drops the conversation, empties the text queue and puts `__STOP__`; `__EXIT__` ends the worker; other text is stripped and given to `Converse` |
| Assistant.Assistant.GeminiStep | chat.py:514-603 | `__WAKE__` opens a fresh conversation at the current epoch and stops speech. `__SLEEP__` drops the conversation, empties the text queue and stops speech. `__EXIT__` ends the worker; other items go to `Converse`. Every branch states the new conversation, conversation count and epoch copy. An open conversation is always one already counted, so a new one never equals the old. The worker's epoch never passes the session's |
| Assistant.Assistant.StopSpeech | chat.py:427-439 | `__STOP__`: the speech queue is empty and the busy flag cleared |
| Assistant.Assistant.StartSpeaking | chat.py:441-445 | a blank text is skipped; other text sets the busy flag and is the text being played |
| Assistant.Assistant.TtsHandle | chat.py:424-447 | per item taken: `__EXIT__` ends the worker, `__STOP__` empties the speech queue, other items are played stripped unless blank |
| Assistant.Assistant.TtsTake | chat.py:418-444 | `__EXIT__` ends the worker and `__STOP__` empties the speech queue and clears the busy flag. A blank text is skipped; other text sets the busy flag and starts playing it stripped |
| Assistant.Assistant.TtsFinish | chat.py:444-461 | the engine is given `clean_for_tts` of the text (chat.py:358-361, chat.py:373-376) unless that is empty, and the busy flag is cleared either way |

## Left out

- Audio I/O, the Vosk recognisers, the Gemini client, edge-tts, pyttsx3 and
  `sounddevice` are foreign. Their results are parameters (`Heard`,
  `AttemptEnv`), and what is played is returned as `said`.
- Threads and locks: each thread's step is one atomic method, and the
  interleavings are whatever order a caller chooses. The capture step reads
  the session once under `state_lock`. The Gemini worker takes the lock
  once in `sync_session` and twice per attempt: before the request and
  before the reply is queued. The model reads `session` once, at
  synchronisation. The snapshots of each attempt come from `AttemptEnv`,
  because the capture thread may change the session while the worker waits
  for Gemini.
- Time: floating-point seconds become integer milliseconds (cooldown 800,
  arming delay 350, backoff 600 * 2^k capped at 8000, jitter 0..250).
  `random.uniform` becomes a given jitter.
- Character classes: `isalnum`, `isspace` and `lower` follow Python on
  ASCII only. Other code points, German umlauts among them, count as
  neither alphanumeric nor whitespace and have no case.
- Assistant.Assistant.Shutdown: `text_q.put("__EXIT__")` blocks while the
  text queue is full. The model puts the token only when there is room.
- Gemini.SendLoop: the user text and the conversation history sent to
  the model are not modelled. The chat is a conversation number, and the
  responses are given per attempt in `env`, one entry for each of the
  `RETRY_MAX + 1` possible attempts.
- The sentence splitting of `tts_speak_pyttsx3`, the 14-sentence limit,
  the 0.12 s pause, and the WAV/MP3 playback of edge-tts are not modelled.
  `_is_riff_wav` is modelled on its own.
- The `sd.stop()` and `engine.stop()` calls on `__STOP__` are not
  modelled; they cannot interrupt playback, which runs on the same thread.
- The missing-API-key exit, `KeyboardInterrupt`, device selection, voice
  selection and the `join` timeouts are not modelled.
- The `print` calls and the disabled-TTS configuration are not modelled.
- Reply.RemoveFences: `re.S` and the non-greedy `.*?` are modelled as
  removing each fence up to the next fence, scanning left to right.
