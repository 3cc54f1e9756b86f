# Langflow request middleware, modelled in Dafny

This project models the two request interceptors of Langflow's backend,
`src/backend/base/langflow/middleware.py`, and proves properties of both.

- **Content-size guard** (`ContentSizeLimitMiddleware`). An HTTP request's
  body arrives as a stream of messages on the ASGI receive channel. The guard
  counts the body bytes of every `http.request` message. It raises
  `MaxFileSizeException` (status 413) as soon as the running total is
  strictly more than `max_file_size_upload * 1024 * 1024`. The limit is read
  from the settings on every call. When the limit is `None`, or the message is
  not a body message, the message passes through and nothing is counted. A
  connection whose scope is not `http` gets the original receive channel.
  The model is the class `ContentSize.ReceiveWrapper`. Its `received`
  field is the closure's counter and its ghost `calls` is the history of calls.
  It keeps `received == CountedTotal(calls)` as its invariant. `Step` is the
  specification of one call. `Run` is the specification of a whole stream read
  through one wrapper, up to the first error, and the method
  `ContentSize.ReadThrough`, which makes the calls on a fresh wrapper in a
  loop, is proved to produce exactly `Run(0, calls)`.
- **Origin gate** (`OriginValidationMiddleware`). The gate reads a
  comma-separated allow-list once, when it is built. Each piece is stripped
  and empty pieces are dropped. An empty list switches the gate off. Paths
  starting with `/health`, `/docs` or `/openapi.json` are never checked. For
  every other request, the origin is the `Origin` header when it is present
  and non-empty, and the `Referer` header otherwise (or `""`). The request is
  forwarded only if that origin is non-empty and starts with some allow-list
  entry. Otherwise the gate answers 401 with `{"detail": "Direct access not
  allowed"}`. The model is `OriginGate`, pure functions returning a
  `Decision` (`Forward` or `Reject401`). `StrOps` models the Python string
  operations it relies on: `split(",")`, `strip()` with Python's whitespace
  set (found, as CPython does, by locating the first and last characters
  kept), and `startswith`.

The match is a plain string-prefix test, not a comparison of origins.
`OriginGate.LookalikeHostForwarded` shows this: with `https://example.com`
allowed, `https://example.com.evil.net` is forwarded. The model keeps the
code's plain prefix test; the source does not say whether look-alike hosts
are meant to pass (its docstring speaks of an origin being "in" the list).

Python's `or` also treats a present but empty `Origin` as missing, so the
code falls back to `Referer` in that case too. The model follows the code
(`OriginGate.EmptyOriginIsMissing`).

The configuration inputs become parameters: the upload limit is
`limitMb: Option<int>` on every call, and the `ALLOWED_ORIGINS` string is
`env`. The limit is an `int` because the setting is a Python integer with no
lower bound.

## Model

| member | source | states |
|---|---|---|
| `ContentSize.BodyLen` | src/backend/base/langflow/middleware.py:42 | `len(message.get("body", b""))`: the body's length, 0 when the message has no body |
| `ContentSize.Counted` | src/backend/base/langflow/middleware.py:40 | a call is counted exactly when its message is `http.request` and the limit read on that call is set |
| `ContentSize.Exceeds` | src/backend/base/langflow/middleware.py:44 | the strict test `received > limit * 1024 * 1024`: a total exactly at the limit passes |
| `ContentSize.CountedTotal` | src/backend/base/langflow/middleware.py:43 | the value of `received` after a run of calls: the sum of the counted lengths, in call order; `ReceiveWrapper.Valid` keeps the counter equal to it and `CountedTotalConcat` proves it additive |
| `ContentSize.CountedLen` | src/backend/base/langflow/middleware.py:40-43 | a call adds nothing unless it is an `http.request` message under a set limit; then it adds the body length (0 when the body is missing) |
| `ContentSize.Step` | src/backend/base/langflow/middleware.py:36-52 | one call: the counter grows by the counted length; an uncounted call returns the message and leaves the counter alone; a counted call raises exactly when the new total is strictly over `limit * 1024 * 1024`, and otherwise returns the message unchanged; the error carries the limit and the total |
| `ContentSize.ReceiveWrapper.constructor` | src/backend/base/langflow/middleware.py:33-34 | a fresh wrapper's counter is 0 and it has seen no calls |
| `ContentSize.ReceiveWrapper.Receive` | src/backend/base/langflow/middleware.py:36-52 | the counter stays the sum of the counted body lengths of all calls so far; the result and new counter are those of `Step`; uncounted calls pass unchanged and leave the counter untouched; counted calls raise if and only if the total exceeds the limit |
| `ContentSize.Run` | src/backend/base/langflow/middleware.py:36-54 | the application's sequence of reads through one wrapper, stopping at the first raise; characterised by `RunFirstTrip` and implemented by `ReadThrough` |
| `ContentSize.ReadThrough` | src/backend/base/langflow/middleware.py:36-54 | a loop that builds a fresh wrapper and calls `Receive` once per message, stopping at the first error, yields exactly `Run(0, calls)`: every message unchanged, or the error at the first call that raises |
| `ContentSize.Serve` | src/backend/base/langflow/middleware.py:56-62 | a non-`http` scope gets every message unchanged with nothing counted; an `http` scope reads through a wrapper whose counter starts at 0 |
| `ContentSize.CountedTotalConcat` | src/backend/base/langflow/middleware.py:43 | the counted total of two runs of calls is the sum of their totals |
| `ContentSize.PrefixTotalBelow` | src/backend/base/langflow/middleware.py:43 | the counted total of the first k calls never exceeds that of all calls |
| `ContentSize.PrefixTotalShift` | src/backend/base/langflow/middleware.py:43 | the total of the first k + 2 calls is the first call's length plus the total of the next k + 1 |
| `ContentSize.FirstCallTrips` | src/backend/base/langflow/middleware.py:42-44 | the first call trips exactly when its step raises |
| `ContentSize.RunAfterPass` | src/backend/base/langflow/middleware.py:36-54 | when the first call passes, the first-trip property of the remaining calls carries over to the whole stream |
| `ContentSize.TripsAtShift` | src/backend/base/langflow/middleware.py:38-44 | moving the first call's length into the starting count leaves the trip-at-index condition of the later calls unchanged |
| `ContentSize.RunFirstTrip` | src/backend/base/langflow/middleware.py:36-54 | a stream is delivered in full and unchanged if and only if no call trips; otherwise the error comes at the first call that trips, carrying that call's limit and the total counted up to and including it |
| `ContentSize.UnlimitedNeverAborts` | src/backend/base/langflow/middleware.py:40-41 | with no limit on any call, every message is delivered unchanged, whatever the sizes |
| `ContentSize.WithinLimitDelivered` | src/backend/base/langflow/middleware.py:44-52 | under one fixed limit, a body whose counted size is at most the limit (equality included) is delivered unchanged, however it is chunked |
| `ContentSize.OverLimitAborted` | src/backend/base/langflow/middleware.py:44-51 | under one fixed non-negative limit, a body whose counted size is over the limit is cut off with the error |
| `ContentSize.RunPrefixAborted` | src/backend/base/langflow/middleware.py:51 | once the error is raised, later messages do not change the outcome |
| `ContentSize.NonHttpScopeUntouched` | src/backend/base/langflow/middleware.py:57-59 | a non-`http` scope sees all its messages unchanged |
| `ContentSize.ThreeChunksOfFourHundredKb` | src/backend/base/langflow/middleware.py:42-51 | limit 1 MB and three 400 KB chunks: the first two pass and the third raises with a total of 1,228,800 bytes |
| `StrOps.IsSpace` | src/backend/base/langflow/middleware.py:72 | the characters Python's `str.isspace` accepts, which are those `strip()` removes |
| `StrOps.Strip` | src/backend/base/langflow/middleware.py:72 | `origin.strip()`: the part between the first and last non-whitespace characters; characterised by `StripIsTrimmedFactor` |
| `StrOps.IsPrefix` | src/backend/base/langflow/middleware.py:88 | `s.startswith(p)`: `s` begins with the characters of `p`, in order (the empty prefix always matches); used again at line 109 |
| `StrOps.SpacesFromSpec` | src/backend/base/langflow/middleware.py:72 | the leading run counted from an index is all whitespace and stops at the first other character |
| `StrOps.SpacesBeforeSpec` | src/backend/base/langflow/middleware.py:72 | the trailing run counted back from an index is all whitespace and stops at the first other character |
| `StrOps.StripIsTrimmedFactor` | src/backend/base/langflow/middleware.py:72 | `strip` keeps a contiguous piece of its input with no whitespace at either end, and drops only whitespace on both sides |
| `StrOps.StripKeepsOnlyOwnChars` | src/backend/base/langflow/middleware.py:72 | `strip` adds no characters |
| `StrOps.StripIdempotent` | src/backend/base/langflow/middleware.py:72 | stripping twice equals stripping once |
| `StrOps.StripEmptyIff` | src/backend/base/langflow/middleware.py:72 | the stripped form is empty if and only if the string is all whitespace |
| `StrOps.Split` | src/backend/base/langflow/middleware.py:72 | `split(",")` always gives at least one piece |
| `StrOps.SplitPiecesLackSep` | src/backend/base/langflow/middleware.py:72 | no piece of a split holds the separator |
| `StrOps.SplitNoSep` | src/backend/base/langflow/middleware.py:72 | a string without the separator splits into itself alone |
| `StrOps.SplitConcat` | src/backend/base/langflow/middleware.py:72 | splitting `a + sep + b` gives the pieces of `a` followed by the pieces of `b` |
| `StrOps.SplitJoin` | src/backend/base/langflow/middleware.py:72 | splitting the join of separator-free pieces gives back the pieces |
| `StrOps.JoinSplit` | src/backend/base/langflow/middleware.py:72 | joining the pieces of a split gives back the string |
| `OriginGate.CleanPiece` | src/backend/base/langflow/middleware.py:72 | one piece of the comprehension: its stripped form when that is non-empty, nothing otherwise |
| `OriginGate.CleanPieces` | src/backend/base/langflow/middleware.py:72 | the comprehension's filter over all pieces, in order; it never yields more entries than pieces |
| `OriginGate.CleanPieceIsClean` | src/backend/base/langflow/middleware.py:72 | what one piece contributes is non-empty and equal to its own stripped form |
| `OriginGate.CleanPiecesAreClean` | src/backend/base/langflow/middleware.py:72 | every kept entry is non-empty and equal to its own stripped form |
| `OriginGate.CleanPiecesConcat` | src/backend/base/langflow/middleware.py:72 | cleaning two runs of pieces gives the entries of the first, then those of the second |
| `OriginGate.CleanPiecesNoComma` | src/backend/base/langflow/middleware.py:72 | cleaning comma-free pieces yields comma-free entries |
| `OriginGate.ParseAllowList` | src/backend/base/langflow/middleware.py:71-72 | every allow-list entry is non-empty, equal to its own stripped form, and holds no comma |
| `OriginGate.ParseAllowListConcat` | src/backend/base/langflow/middleware.py:72 | the entries of `a,b` are those of `a` followed by those of `b`, in input order |
| `OriginGate.ParseAllowListPiece` | src/backend/base/langflow/middleware.py:72 | a comma-free string yields its stripped form, or nothing when that is empty |
| `OriginGate.CleanPiecesEmptyIff` | src/backend/base/langflow/middleware.py:72 | nothing survives cleaning if and only if every piece is whitespace |
| `OriginGate.JoinAllSpaceIff` | src/backend/base/langflow/middleware.py:72 | the joined string holds only commas and whitespace if and only if every piece does |
| `OriginGate.ParseAllowListEmptyIff` | src/backend/base/langflow/middleware.py:71-72 | the allow-list is empty if and only if the string holds only commas and whitespace, so an empty or all-blank setting gives an empty list |
| `OriginGate.NewGate` | src/backend/base/langflow/middleware.py:68-80 | the built gate has the three fixed bypass paths and clean entries, and is disabled exactly when the setting holds only commas and whitespace |
| `OriginGate.AnyPrefix` | src/backend/base/langflow/middleware.py:88 | true exactly when some listed prefix is a prefix of the string |
| `OriginGate.ChooseOrigin` | src/backend/base/langflow/middleware.py:92 | the `Origin` header when present and non-empty, else the `Referer` header, else `""` |
| `OriginGate.IsOriginAllowed` | src/backend/base/langflow/middleware.py:105-109 | false for `""`; otherwise true exactly when some allow-list entry is a prefix of the origin |
| `OriginGate.Dispatch` | src/backend/base/langflow/middleware.py:82-103 | an empty allow-list forwards every request; an exempt path is forwarded; the only other answer is the 401 with the fixed detail |
| `OriginGate.DispatchForwardIff` | src/backend/base/langflow/middleware.py:82-109 | a request is forwarded if and only if the gate is off, the path is exempt, or the chosen origin is non-empty and starts with an entry; otherwise it gets the fixed 401 |
| `OriginGate.NoHeadersRejected` | src/backend/base/langflow/middleware.py:92-100 | with the gate on and a checked path, a request with neither header gets the 401 |
| `OriginGate.EmptyOriginIsMissing` | src/backend/base/langflow/middleware.py:92 | an empty `Origin` header is decided exactly as a missing one |
| `OriginGate.HealthBypassesCheck` | src/backend/base/langflow/middleware.py:75-89 | `/health` is forwarded even from a foreign origin |
| `OriginGate.PrefixOfAllowedForwarded` | src/backend/base/langflow/middleware.py:105-109 | `https://example.com/app` is forwarded when `https://example.com` is allowed |
| `OriginGate.OtherOriginRejected` | src/backend/base/langflow/middleware.py:95-100 | `https://evil.com` on `/api/x` gets the 401 |
| `OriginGate.LookalikeHostForwarded` | src/backend/base/langflow/middleware.py:109 | `https://example.com.evil.net` is forwarded when `https://example.com` is allowed |

## Left out

- The ASGI plumbing is not modelled: awaiting `receive()`, calling the wrapped app, `BaseHTTPMiddleware` and `call_next`. It is framework concurrency. A forwarded request is the decision `Forward`, and the application reading its body is the sequence of calls given to `ReadThrough` (or `Run`).
- The settings service and `os.getenv("ALLOWED_ORIGINS", "")` are external configuration. Both values are parameters.
- The text of the 413 message, `round(received / (1024 * 1024), 3)`, is not modelled because it is floating-point formatting. `TooLarge` carries the limit and the exact byte total instead.
- The `logger` calls are not modelled because they are output only.
- The construction of `HTTPException`/`JSONResponse` is library code and is not modelled. The 401 body appears as `Reject401(detail)`. Headers are `Option<string>` values, so Starlette's case-insensitive header lookup is not modelled.
- Python strings are modelled as sequences of Unicode scalar values (Dafny's `char`). A Python `str` can also hold lone surrogates (for example from `os.getenv` decoding undecodable bytes with `surrogateescape`); such strings are outside the model. Python does not count a surrogate as whitespace, so `strip()` and the prefix test would treat one like any other character. `strip()` uses Python's whitespace set, listed by code point in `StrOps.IsSpace`.
- `ContentSize.OverLimitAborted` assumes a non-negative limit. With a negative limit, a body made only of non-body messages has a counted total of 0 and nothing raises.
