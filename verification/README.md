# DABRIS request core in Dafny

DABRIS is a small Flask service: a user uploads a CSV file, asks a question
in plain language, a Gemini model writes a pandas snippet, the server runs
it and returns what it printed. This project models the control layer of
`app.py` around those calls:

- the **API-key pool**: `GOOGLE_API_KEYS` is split on commas and every
  piece stripped, startup fails when the variable is unset or empty, and an
  `itertools.cycle` over the pool hands out the next key on every
  `configure_gemini()` call (module `Keys`, on top of the Python string
  operations in module `Text`);
- the **retry loop** of `analyze_query`: at most `2 * len(API_KEYS)`
  attempts; a `ResourceExhausted` rotates the key and retries, or re-raises
  on the last attempt; a `FailedPrecondition` retries on the same key after
  a pause; any other `Exception` leaves the loop at once; a successful run
  answers with the stripped captured output or the no-output sentinel
  (module `Controller`);
- the **request decisions** around it: the 400 replies of `handle_upload`
  and `analyze_query`, the mapping of a final error to the user message
  (the generic high-demand text exactly when the lower-cased error contains
  `quota`), and the whole `/analyze` request as one function (module
  `Handlers`).

Generating code and running it are not modelled: each attempt is an
abstract `Outcome` (`Success(output)`, `QuotaExhausted(msg)`,
`RateLimited(msg)`, `OtherError(msg)` for any other `Exception`), and a request is driven by a
sequence of such outcomes, one per possible attempt. The file system is the
set of paths that exist; the CSV read is an optional error message. Every
model is a pure function over immutable values; the key rotor is a value
that a request receives and returns.

When no attempt stops the loop (the last attempt is rate limited and every
earlier one is a rate limit or an exhausted quota), `analyze_query` falls
off the end of the loop and returns `None`; the model keeps that as its own
reply, `NoView`, and leaves what Flask makes of it out.

Three consequences of the loop's code are worth stating plainly. The
budget is `2 * len(API_KEYS)` attempts. An `Exception` other than
`ResourceExhausted` or `FailedPrecondition` is re-raised to the outer
handler at once, without a retry and without a key rotation. A
`FailedPrecondition` uses up an attempt but does not rotate the key.

Files: `wrappers.dfy` (Option, Result), `text.dfy`, `keys.dfy`,
`controller.dfy`, `handlers.dfy`.

## Model

| member | source | states |
|---|---|---|
| Text.Strip | app.py:25 | `str.strip()`: the result is a slice of the input with only white space (Python's `isspace` set) cut from both ends, it neither starts nor ends with white space, and it is empty exactly when the input is all white space |
| Text.StripOfPadded | app.py:25 | stripping is determined by the trimmed core: any white-space padding around a core without outer white space strips back to that core |
| Text.StripIdempotent | app.py:25 | stripping twice equals stripping once |
| Text.StripKeepsOnly | app.py:25 | stripping never introduces a character that was not in the input |
| Text.Split | app.py:25 | `str.split(',')`: always at least one piece, one more than the number of commas, no piece holds a comma, and joining the pieces with commas gives back the input |
| Text.SplitJoin | app.py:25 | the other half of the round trip: splitting a comma-join of comma-free pieces returns exactly those pieces, empty ones included |
| Text.Lower | app.py:146 | `str.lower()` on ASCII letters: same length, each character lowered in place, no upper-case ASCII letter left |
| Text.Contains | app.py:146 | `needle in haystack` is true exactly when the needle occurs at some index of the haystack |
| Keys.ParseKeys | app.py:21-25 | an unset or empty variable fails with the startup error; otherwise the pool has one key per comma-separated piece (commas + 1, so never empty), in order, each key being the stripped piece, without commas or outer white space |
| Keys.StripAll | app.py:25 | the list comprehension keeps every piece, in order, each replaced by its stripped form |
| Keys.BlankVariableGivesOneEmptyKey | app.py:22-25 | every non-empty variable holding only white space passes the startup check and yields a pool with one empty key |
| Keys.Configure | app.py:28-32 | one `configure_gemini()` hands the client the key under the cursor and moves the cursor one place on, from the last key back to the first, without changing the pool |
| Keys.RoundRobin | app.py:26-32 | call `j` from a rotor at position `p` configures the key at `(p + j) mod N`, and after `k` calls the cursor stands at `(p + k) mod N` |
| Keys.FullCycle | app.py:26-32 | N consecutive calls read every position of the pool exactly once and leave the rotor as they found it, and call N+1 hands out the same key as the first |
| Keys.Startup | app.py:21-35 | startup fails exactly when parsing fails; otherwise the first `configure_gemini()` has put the first key in the client and the cursor on the second (the first again for a one-key pool) |
| Keys.StartupRoundRobin | app.py:26-35 | counting the startup call as call 1, call `m` configures the key at position `(m - 1) mod N` |
| Controller.AnswerText | app.py:130-132 | the answer is the stripped output, or the no-output sentinel when the output is only white space; it is never empty |
| Controller.Drive | app.py:114-141 | from any attempt on: never more than the budget of attempts, a missing verdict only after the last attempt, rotations equal to the number of QuotaExhausted outcomes consumed, and the rotor advanced by exactly that many calls |
| Controller.Control | app.py:114-141 | one request's loop makes at most 2N attempts, rotates once per QuotaExhausted among the attempts it made, and keeps the pool |
| Controller.DriveContinues | app.py:134-141 | an attempt that does not stop the loop passes on to the next attempt, with one rotation after an exhausted quota and none after a rate limit |
| Controller.DriveNeverStops | app.py:115-141 | when no attempt stops the loop (only rate limits, and exhausted quotas before the last attempt), it makes every attempt and returns nothing |
| Controller.DriveStopsAt | app.py:115-141 | the loop ends right after the first attempt that is a Success, an OtherError or a QuotaExhausted on the last attempt, with that attempt's verdict: the stripped answer or the re-raised error |
| Controller.ControlByFirstStop | app.py:115-141 | for a whole request: the loop returns nothing if and only if no attempt stops it; otherwise the attempt count is the first stopping attempt plus one and the verdict is that attempt's |
| Controller.ControlCursor | app.py:134-136 | the rotor a request leaves behind is `(start + rotations) mod N` |
| Controller.AllRateLimited | app.py:139-141 | when every attempt is rate limited the loop makes 2N attempts, returns nothing, and rotates no key |
| Controller.AllQuotaExhausted | app.py:134-138 | when every attempt hits an exhausted quota the loop rotates 2N times, which returns the cursor to its start, and re-raises the last attempt's error |
| Controller.OtherErrorNotRetried | app.py:115-133 | another error on the first attempt is re-raised at once after one attempt, with no rotation |
| Controller.RunAttempts | app.py:114-141 | the loop written as `for attempt in range(max_retries)` computes exactly the recursive model's result |
| Handlers.CheckUpload | app.py:54-59 | an upload without a `csvFile` part or with an empty file name is rejected with 400 and its own message; every other upload goes on under its file name |
| Handlers.Precheck | app.py:84-89 | before any model call, a missing or vanished file is rejected with 400 first, then an empty or absent query; nothing else is rejected |
| Handlers.UserMessage | app.py:143-148 | the final error becomes the high-demand text if and only if its lower-cased form contains `quota`; otherwise the error is embedded between the fixed prefix and suffix |
| Handlers.EmbeddedErrorRecoverable | app.py:145 | the embedded form loses nothing: the raw error is the message minus the fixed prefix and suffix |
| Handlers.QuotaInAnyCase | app.py:146-147 | any error containing "quota" in any mix of upper and lower case gets the high-demand text |
| Handlers.Analyze | app.py:84-148 | a request is answered 400 exactly when a pre-check fails, and then with no model call and the rotor untouched; a read error is reported as a user message after no call; otherwise the request makes the loop's attempts and rotations, replies 200 with the answer or the user message of the re-raised error, and returns no view exactly when the loop returns nothing |
| Handlers.EmptyQueryRejected | app.py:87-89 | an empty query is rejected with 400 without calling the model |
| Handlers.QuotaEverywhere | app.py:114-148 | a request whose every attempt hits an exhausted quota makes 2N attempts, leaves the cursor where it found it, and shows the high-demand text exactly when the last error mentions `quota` |
| Handlers.PrintedAnswer | app.py:121-132 | code that prints `42` and a newline yields the answer `42` after one attempt and no rotation |

## Left out

- `static/js/script.js`: browser UI only (DOM updates, fetch calls, theme toggle, contact form).
- Flask routing, `render_template`, `jsonify` and the session object: only the status codes and messages the handlers choose are modelled; `session.clear()` in the index route is not.
- What Flask does with a view that returns `None` (the `NoView` reply): framework behaviour outside app.py.
- The rest of `handle_upload` (app.py:61-77): the uuid file name, `file.save`, recording the path in the session, `pd.read_csv` and the shape reply or the 500 error are I/O and pandas calls.
- The prompt text (app.py:96-112): a fixed template around an opaque data preview; nothing in the control flow depends on it.
- `genai.GenerativeModel`, `generate_content` and `exec` of the generated code: calls into a remote service and arbitrary code, replaced by the abstract `Outcome` of each attempt.
- `time.sleep(5)` and all logging: timing is not modelled, so the rate-limit pause is a plain retry.
- Upload directory creation (app.py:39-41): file-system set-up.
- Concurrency: `key_iterator` is shared by all requests without a lock; the model runs one request at a time and passes the rotor from request to request.
- Handlers.Analyze: covers only outcomes the handlers catch. Generated code run by `exec` may call `exit()`, `quit()` or `sys.exit()`, which raise `SystemExit`; an interrupt raises `KeyboardInterrupt`. Neither is an `Exception`, so neither `except` clause of `analyze_query` catches it and the request gets no `{'response': ...}` reply. The model has no outcome for these.
- Text.Lower: only ASCII letters are lowered, not Python's full Unicode case mapping.
- The `query` field: a JSON `query` that is not a string (a number, a list) and a body that is not JSON at all are not modelled; the query is either absent or a string.
