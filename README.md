# Shared utilities of the transcript extractor, modelled in Dafny

The Streamlit app `streamlit_app.py` fetches YouTube transcripts. Before its
retrieval code, it defines a few shared utilities. This project models those
utilities and proves what they promise:

- `urlopen_with_headers`, the HTTP fetch with retries. It makes up to
  `retries` attempts and returns the bytes of the first success. It treats an
  error as transient when its lower-cased text holds one of six markers
  (`429`, `too many requests`, `temporarily`, `timed out`, `403`,
  `unavailable`). A transient error leads to a backoff sleep and the next
  attempt. Any other error stops the loop. It then re-raises the last error.
- `_log`, the logger returned by `make_logger`. Each call appends one
  time-stamped line to the session log and keeps the newest 200 lines.
- `get_whisper_model`, a lazy singleton. It builds the speech model on the
  first call whose build succeeds, and returns that same handle on every later
  call. A build that raises stores nothing, so the next call builds again.
- `build_common_headers`, the browser-like header map. The caller's
  User-Agent is used when truthy; otherwise one of three built-in agents is.

Files:

- `wrappers.dfy`: `Option`.
- `text.dfy`: ASCII lower-casing and the substring test.
- `fetch.dfy`: two modules. `Fetch` holds the marker test, the retry loop
  (`UrlopenWithHeaders`) and its specification (`ExpectedResult`,
  `ExpectedTrace`). `RetryPolicy` holds the lemmas about that specification.
- `headers.dfy`, `session_log.dfy`, `whisper.dfy`: the other three utilities.

How the model stands in for the outside world:

- The network is a function `network: nat -> Outcome`. Attempt `k` (0-based)
  sees `network(k)`: either `Ok(bytes)` or `Err(message)`, where the message
  is `str(e)` of the exception.
- The loop returns a `FetchResult` and a trace of `Attempt(k)` and `Backoff(k)`
  events. A `Backoff(k)` event is the sleep after the failed attempt `k`.
- With `retries <= 0`, no attempt is made and the code executes `raise None`.
  Python turns that into a `TypeError`. The model's result for this case is
  `RaisedNone`.
- `random.choice` of the User-Agent is the index parameter `pick`.
- The clock of `_log` is the string parameter `now`.
- The model constructor `WhisperModel(...)` is the abstract function `load`.
  It is applied to the number of builds run before this one, then to the
  three arguments. The build number plays the part that the attempt index
  plays for `network`: a build that failed can work on a later call with the
  same arguments, as after a failed download. `load` gives `None` when the
  constructor raises. `GetWhisperModel` then returns `None`, which stands for
  the exception leaving `get_whisper_model`. The slot's `builds` field counts
  the builds run; it is part of the model, not a variable of the source.

The code sleeps after EVERY transient failure, including the one on the last
attempt. It then leaves the loop and raises. The model follows the code:
`TransientBacksOffOnce` proves a backoff even when no attempt remains.

## Model

| member | source | states |
|---|---|---|
| `Text.LowerSpec` | streamlit_app.py:70 | the lower-cased message has the same length, maps each character by itself and holds no ASCII capital |
| `Text.ContainsFromMeaning` | streamlit_app.py:72 | the left-to-right search for `sub` from index `from` succeeds exactly when `sub` occurs at some index at or after `from` |
| `Text.ContainsMeaning` | streamlit_app.py:72 | `sub in s` holds exactly when `sub` occurs in `s` at some index |
| `Fetch.AnyMarkerMeaning` | streamlit_app.py:72 | `any(x in msg for x in markers)` holds exactly when some marker occurs in the message |
| `Fetch.TransientMeaning` | streamlit_app.py:70-72 | an error is transient iff its lower-cased text contains one of the six markers |
| `Fetch.TransientIgnoresCase` | streamlit_app.py:70 | lower-casing the message first does not change the verdict |
| `Fetch.MarkerMakesTransient` | streamlit_app.py:70-72 | a message holding any marker, written in any letter case, anywhere in it, is transient |
| `Fetch.ThrottlingCodesAreTransient` | streamlit_app.py:72 | `HTTP Error 429: …` and `HTTP Error 403: …` are transient whatever the reason phrase |
| `Fetch.ServiceUnavailableIsTransient` | streamlit_app.py:70-72 | `HTTP Error <code>: Service Unavailable` is transient for every code (case is ignored) |
| `Fetch.TimedOutIsTransient` | streamlit_app.py:72 | a `<urlopen error …timed out…>` error is transient |
| `Fetch.WithoutMarkerCharsNotTransient` | streamlit_app.py:70-72 | a message without any of the characters 2, 3, m, v (either case) is never transient, since every marker holds one of them |
| `Fetch.NotFoundIsNotTransient` | streamlit_app.py:72 | `HTTP Error 404: Not Found` is not transient, so it is not retried |
| `Fetch.FirstStop` | streamlit_app.py:59-77 | the first attempt at or after `from` that succeeds or fails non-transiently, or `retries` when all remaining attempts fail transiently |
| `Fetch.UrlopenWithHeaders` | streamlit_app.py:57-78 | the loop's result and trace are exactly the expected result and trace determined by the first stopping attempt |
| `RetryPolicy.TraceShape` | streamlit_app.py:59-76 | attempt k is event 2k, its backoff is event 2k+1, and a backoff follows only a transient error |
| `RetryPolicy.AttemptsAtMostRetries` | streamlit_app.py:58-59 | at most `retries` attempts are made, and none when `retries <= 0` |
| `RetryPolicy.SuccessEndsLoop` | streamlit_app.py:64-67 | when attempt k is reached and succeeds, its bytes are returned and no later attempt is made |
| `RetryPolicy.PermanentErrorEndsLoop` | streamlit_app.py:72-78 | a non-transient error at attempt k is raised at once: no backoff for it, no later attempt |
| `RetryPolicy.TransientBacksOffOnce` | streamlit_app.py:72-76 | a transient error at attempt k gets exactly one `Backoff(k)`, followed by attempt k+1, or by the end of the loop when k was the last attempt |
| `RetryPolicy.EndsWithLastAttempt` | streamlit_app.py:64-78 | with `retries >= 1`, the call ends with the outcome of the last attempt made: its bytes, or its error re-raised; never `raise None` |
| `RetryPolicy.AllTransientRaisesLast` | streamlit_app.py:69-78 | when every attempt fails transiently, the error from the last attempt is raised after `retries` backoffs |
| `RetryPolicy.NoAttemptRaisesNone` | streamlit_app.py:58-59 | with `retries <= 0` nothing is fetched and `raise None` is reached |
| `Headers.BuildCommonHeaders` | streamlit_app.py:44-55 | exactly five headers; the User-Agent is the caller's when truthy, else one of the three built-in agents; the other four are fixed |
| `Headers.OnlyUserAgentVaries` | streamlit_app.py:44-55 | any two header maps agree on everything but the User-Agent |
| `Headers.CallerAgentIsDeterministic` | streamlit_app.py:46 | a truthy caller agent makes the map independent of the random choice |
| `Headers.EmptyAgentIsNoAgent` | streamlit_app.py:46 | an empty agent string is treated exactly like `None` |
| `SessionLog.Appended` | streamlit_app.py:86-88 | after one `_log` call the buffer has at most 200 lines, ends with the new entry, and is the last ≤200 lines of old buffer + new entry, in order |
| `SessionLog.TailConcat` | streamlit_app.py:88 | trimming to the newest 200 before appending keeps the same lines as trimming only at the end |
| `SessionLog.EntriesOf` | streamlit_app.py:85-87 | one `"[now] msg"` entry per logged message, in order |
| `SessionLog.Session.constructor` | streamlit_app.py:82 | a new session has no `_log_lines` entry |
| `SessionLog.Session.MakeLogger` | streamlit_app.py:81-83 | `make_logger` creates an empty log only when none exists and keeps an existing one |
| `SessionLog.Session.Log` | streamlit_app.py:84-88 | `_log` replaces the log by the newest 200 lines of old log + new entry |
| `SessionLog.LogMany` | streamlit_app.py:84-88 | after any number of `_log` calls on a new session, the log is the newest 200 entries of all calls, in order |
| `Whisper.ModelSlot.constructor` | streamlit_app.py:37 | the slot starts empty |
| `Whisper.ModelSlot.GetWhisperModel` | streamlit_app.py:39-42 | builds the model only when the slot is empty, from that call's arguments and build number; a build that raises leaves the slot empty, so the next call builds again; otherwise returns the held handle unchanged and runs no build; at most one build ever succeeds (stated by `Valid()`) |
| `Whisper.FirstCallWins` | streamlit_app.py:39-42 | the first call runs build 0 from its own arguments; the second call returns the handle built by the first, even with different arguments; if the first build raised, the second call runs build 1 from its own arguments |
| `Whisper.RetryAfterFailedBuild` | streamlit_app.py:39-42 | with a build that fails once and then works, the first call with the default arguments raises and the second, with the same arguments, returns the model |
| `Whisper.HeldStays` | streamlit_app.py:40-42 | once a model is held, every later call returns that same model, whatever arguments it passes |
| `Whisper.HeldIsFirstSuccess` | streamlit_app.py:40-42 | after a sequence of calls a model is held iff the build of some call i, run as build number i, succeeds; the held model is the first successful build |
| `Whisper.HeldIffSomeSuccess` | streamlit_app.py:40-41 | a model is held after a sequence of calls iff the build of some call i, run as build number i, succeeds |
| `Whisper.HeldIsFirst` | streamlit_app.py:40-42 | a build that succeeds while the slot is empty gives the model every later call returns |
| `Whisper.BuildsWhileEmpty` | streamlit_app.py:40-41 | while no model is held, every call has run a build, so the number of builds equals the number of calls |
| `Whisper.ManyCalls` | streamlit_app.py:39-42 | call i of a sequence on a new slot returns what the slot holds after the first i+1 calls |

## Left out

- Real network I/O is not modelled, because it is foreign I/O. This covers
  `urllib.request.build_opener`, `opener.open`, `resp.read`, the `timeout`
  and `headers` arguments, and the SSL override at line 31. Attempt outcomes
  are the `network` parameter instead. So is the order in which line 62 sends
  the headers: a Dafny `map` has no order, while `list(headers.items())`
  keeps the dict's insertion order.
- Fetch.UrlopenWithHeaders: does not model the sleep length
  `2 ** attempt + random.uniform(0.5, 1.5)`, because it uses floats and
  randomness. Only the fact that a sleep follows attempt `k` is recorded.
- Fetch.UrlopenWithHeaders: does not model the optional `logger` (lines 63,
  66, 71, 74). The trace holds only the attempt starts (`Attempt(k)`, line 63)
  and the backoffs (`Backoff(k)`, line 74). The "OK" and "fail" lines follow
  from the outcome of the attempt, and no message text is modelled.
- Fetch.UrlopenWithHeaders: does not model a logger that raises. The model
  assumes the logger never raises. In the source, a raise at line 66 would
  discard the bytes already read and count the attempt as failed. A raise at
  line 71 or 74 would escape the loop.
- Text.Lower: only ASCII letters are lower-cased. Python's `str.lower()` maps
  all of Unicode. This does not change the marker test. Only two non-ASCII
  characters lower-case to something holding an ASCII letter: U+212A becomes
  `k`, and U+0130 becomes `i` followed by a combining dot. No marker contains
  `k`, and no marker can match across the combining dot.
- `Fetch.FetchResult`: `Raised(message)` keeps only `str(e)` of the last
  exception. Its class and attributes are not modelled, so a caller cannot
  read `HTTPError.code` or tell a `URLError` from another exception. The
  retry test at lines 70-72 reads nothing but that text.
- `RaisedNone` stands for the `TypeError` that `raise None` causes. The
  exception's own text is not modelled.
- `area.write` (line 89) is not modelled, because it is UI output.
  `time.strftime` is not modelled, because it is a clock; the timestamp is the
  `now` parameter. Other `st.session_state` keys are not modelled.
- `WhisperModel` is not modelled, because it comes from a third-party library.
  Its construction is the abstract `load`. The defaults `"small"`, `"cpu"` and
  `"int8"` are Python default arguments. They are not separate members.
- `TranscriptExtractionError` (lines 33-34) is not modelled, because it is an
  exception class with no behaviour.
- `YOUTUBE_URL_RE` (lines 93-94) is not modelled, because its pattern is cut
  short in the source.
- The transcript parsers, strategies, orchestrator, cache and subtitle
  normalizer are not part of this model. Their code is not among the lines
  modelled.
