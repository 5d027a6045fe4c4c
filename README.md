# VPSMonit metrics pipeline in Dafny

VPSMonit shows live host metrics in a mobile client. A small Node.js collector
(`server/server.js`) answers `GET /realtime` with a Server-Sent Events stream. Every
second it reads five metric sources (CPU load, memory, uptime, filesystems, network
interfaces), projects them into one snapshot and writes the snapshot as one `data:`
event. The client holds its current `EventSource` connection in a React context provider
(`VPSMonit/context/ApiContext.tsx`) and exposes `data / loading / error / refresh` to its
screens. The screens format values with the helpers in `reactNative/lib/utils.ts`.

This project models those three pieces and proves properties of them:

- `types.dfy` (module `Types`): the snapshot and context records of
  `reactNative/types/index.ts`, plus `Option`, `Result`, a string-or-number `Field`,
  and `JsNumber` for JavaScript division results (finite, NaN, +Infinity).
- `utils.dfy` (module `Utils`): the formatting helpers. `formatBytes` is a method with the
  source's `while` loop. The others are functions. Decimal rendering has a reader as its
  inverse, and `formatUptime` has a parser as its inverse.
- `eventstream.dfy` (module `EventStream`): how a receiver reads a `text/event-stream`
  body, after the HTML Living Standard, section 9.2.6 "Interpreting an event stream". It is
  the independent reference the collector's frames are checked against.
- `server.dfy` (module `Server`): the projection, the frame, the HTTP response, and one
  request's handler as a class. The handler's events are the request itself, an interval
  tick, the completion of one collection, and the request's close.
- `apicontext.dfy` (module `ApiContext`): the provider as a class, with one method per
  event (setup, refresh, message, transport error, re-render) and the connections it opens.

Numbers are exact `real`s or `nat`s. `JSON.stringify`, `JSON.parse`, `parseFloat` and
`toFixed(2)` are function parameters (`encode`, `decode`, `parseFloat`, `toFixed2`). The
metric sources become `Sources` values handed to `Handler.Settle`.

What the code does, and the model with it:

- Each request gets its own interval (server/server.js:62). There is no shared broadcaster.
- A tick starts a new collection even while an earlier one is still running (server/server.js:21-28, 62). Collections overlap and may complete in any order.
- A failed collection writes nothing (server/server.js:56-58). No earlier values are sent in its place.
- The client never reconnects. A transport error closes the connection (VPSMonit/context/ApiContext.tsx:53-58). A parse failure sets `error` and ends loading; it neither closes nor reopens the connection (VPSMonit/context/ApiContext.tsx:45-50).

Two modelling choices follow from the code:

- A collection that started before the request closed can still write its frame after the close. `Handler.Close` records a ceiling on how many frames can still follow.
- React state read by `setupEventSource` is the value from the render that created it. The provider keeps that value (`renderedEventSource`) apart from the latest connection (`eventSource`).

## Model

| member | source | states |
|---|---|---|
| `Utils.UptimeParts` | reactNative/lib/utils.ts:23-26 | hours in [0,23] and minutes in [0,59]; days·86400 + hours·3600 + minutes·60 ≤ seconds < that + 60; days·1440 + hours·60 + minutes is the whole number of minutes; days > 0 exactly when seconds ≥ 86400 |
| `Utils.FormatUptime` | reactNative/lib/utils.ts:28-31 | the text has a day part ('d') exactly when the uptime is at least one day |
| `Utils.ParseFormatUptime` | reactNative/lib/utils.ts:23-32 | reading the rendered text back gives exactly the days, hours and minutes of the uptime |
| `Utils.FormatUptimeSameMinute` | reactNative/lib/utils.ts:23-32 | two uptimes render the same text if and only if they fall in the same whole minute |
| `Utils.FormatUptimeExample` | reactNative/lib/utils.ts:23-32 | 3661 seconds render as "1h 1m" |
| `Utils.ReadShowNat` | reactNative/lib/utils.ts:29-31 | the decimal numbers printed into the uptime text read back as the same numbers |
| `Utils.FormatNetworkStatus` | reactNative/lib/utils.ts:38-40 | "Yes" exactly for internal interfaces, "No" exactly for the others |
| `Utils.CapitalizeFirstLetter` | reactNative/lib/utils.ts:42-44 | same length; "" maps to ""; index 0 is upper-cased (ASCII letters); every later character is unchanged |
| `Utils.CapitalizeIdempotent` | reactNative/lib/utils.ts:42-44 | capitalising twice is capitalising once |
| `Utils.TruncateString` | reactNative/lib/utils.ts:46-49 | unchanged when it fits; otherwise the first maxLength characters then "...", length maxLength + 3 |
| `Utils.TruncateIdempotent` | reactNative/lib/utils.ts:46-49 | truncating a truncated string with the same bound changes nothing |
| `Utils.FormatBytes` | reactNative/lib/utils.ts:13-21 | the loop stops at unit index i ≤ 4 with 1024^i ≤ bytes (unless i = 0) and bytes < 1024^(i+1) (unless i = 4, TB); the value is bytes / 1024^i, below 1024 unless the unit is TB; the unit is sizes[i] |
| `Utils.ByteUnitIndexIsLeast` | reactNative/lib/utils.ts:16-19 | at every unit before the chosen one the scaled value is still at least 1024, so the loop stops at the least such index |
| `Utils.ByteUnitIndexUnique` | reactNative/lib/utils.ts:14-19 | that unit index is unique |
| `Utils.BytesToSpeed` | reactNative/lib/utils.ts:51-56 | B/s iff rate < 1024, KB/s iff in [1024, 1024²), MB/s iff in [1024², 1024³), GB/s iff ≥ 1024³; the value is the rate over the unit's power of 1024 |
| `Utils.SpeedAgreesWithFormatBytes` | reactNative/lib/utils.ts:51-56 | bytesToSpeed chooses formatBytes's unit, capped at GB, and scales the same way |
| `Utils.ReplaceFirst` | reactNative/lib/utils.ts:8 | `replace('%', '')` changes nothing when there is no '%'; otherwise the result is the text before the first '%' followed by the text after it, with the order kept |
| `Utils.ParsePercentage` | reactNative/lib/utils.ts:5-11 | a number comes back unchanged; a string is parsed without its first '%', and an unparsable one gives 0 |
| `Utils.ParsePercentageTrailingSign` | reactNative/lib/utils.ts:8 | "<numeral>%" parses as the numeral |
| `Server.CpuLoads` | server/server.js:31 | one load per core, same length and order as `cpus`, entry k is `cpus[k].load` |
| `Server.ProjectDisks` | server/server.js:38-45 | same length and order as the filesystem list; `fs`→`filesystem`, `use`→`capacity`; size, used, available and mount copied unchanged |
| `Server.ProjectNets` | server/server.js:46-51 | same length and order as the interface list; iface, ip4, mac and internal copied |
| `Server.UsedPercent` | server/server.js:35 | computed from active memory (value·total = active·100); in [0,100] when active ≤ total and total > 0; NaN for 0/0 and Infinity for x/0 |
| `Server.UsedPercentFromActive` | server/server.js:33-35 | free 2000, total 8000, active 4000 gives 50, not the 75 that total − free would give |
| `Server.Project` | server/server.js:30-52 | the snapshot holds the projected lists, free and total verbatim, the rendered usedPercent and the uptime |
| `Server.Frame` | server/server.js:54 | "data: ", then the payload, then the blank-line terminator |
| `Server.FramesOf` | server/server.js:54 | one frame per snapshot written, in order, each the frame of that snapshot's encoding |
| `Server.ReadOneFrame` | server/server.js:54 | a receiver given one frame dispatches exactly one message carrying the payload |
| `Server.ReadFrames` | server/server.js:54 | a receiver of a run of frames dispatches the payloads, one per frame, in order |
| `Server.ReceiverReadsSent` | server/server.js:54-62 | a receiver of everything a handler wrote reads the encodings of the snapshots sent, in order |
| `Server.Handler.constructor` | server/server.js:6-72 | CORS "Access-Control-Allow-Origin: *" on both branches; "/realtime" gets status 200, the event-stream headers and an interval; any other URL gets 404 and body "Not Found", and no stream |
| `Server.Handler.Tick` | server/server.js:21-28 | a tick starts a collection only while the interval is active; a tick writes nothing and leaves the close-time ceiling as it was |
| `Server.Handler.Settle` | server/server.js:29-58 | a successful collection writes exactly the frame of the projected snapshot; a failed one writes nothing; the interval's state, the close-time ceiling and the response's headers, status and ended flag are untouched |
| `Server.Handler.Close` | server/server.js:65-67 | the interval is cleared; from then on ticks start nothing, and at most the collections already running write frames |
| `ApiContext.ParseFailure` | VPSMonit/context/ApiContext.tsx:46-48 | a thrown `Error` is kept; anything else becomes "Failed to parse data" |
| `ApiContext.ApiProvider.constructor` | VPSMonit/context/ApiContext.tsx:23-26 | data = null, loading = true, error = null, no connection |
| `ApiContext.ApiProvider.SetupEventSource` | VPSMonit/context/ApiContext.tsx:28-61 | closes the connection its render saw, sets loading and clears error, keeps data, and stores a new open connection as current; if that render saw the latest connection, every older connection stays closed |
| `ApiContext.ApiProvider.Refresh` | VPSMonit/context/ApiContext.tsx:76-78 | exactly the effect of setupEventSource |
| `ApiContext.ApiProvider.OnMessage` | VPSMonit/context/ApiContext.tsx:40-51 | a decoded payload replaces data and keeps error; a decode failure sets error and keeps data; loading ends either way |
| `ApiContext.ApiProvider.OnError` | VPSMonit/context/ApiContext.tsx:53-58 | error becomes "Connection error", loading ends, data is kept, that connection is closed, and no new connection is opened |
| `ApiContext.AtMostOneOpen` | VPSMonit/context/ApiContext.tsx:30-32 | while every older connection is closed, the only open connection is the current one |
| `ApiContext.DoubleRefreshAsWritten` | VPSMonit/context/ApiContext.tsx:30-35 | mount, render, refresh, refresh: two connections end up open |
| `ApiContext.ApiProvider.SetupEventSourceLatest` | VPSMonit/context/ApiContext.tsx:30-32 | closing the latest connection keeps every older one closed after any sequence of events |
| `ApiContext.DoubleRefreshLatest` | VPSMonit/context/ApiContext.tsx:30-35 | mount, render, refresh, refresh with the corrected setup: only the last connection is open |

## Findings

| source | as written | input that shows it | evidently intended | confidence | as-written member | corrected member |
|---|---|---|---|---|---|---|
| VPSMonit/context/ApiContext.tsx:30-32 | `setupEventSource` closes the `eventSource` state value of the render that created it | two calls of `refresh` with no re-render between them (mount, render, refresh, refresh) | close the connection opened last, so that at most one connection stays open ("Close existing connection if any") | not executed; medium: it depends on two refreshes landing before React re-renders | `ApiContext.DoubleRefreshAsWritten` | `ApiContext.ApiProvider.SetupEventSourceLatest` |

## Left out

- `toFixed(2)` rendering (usedPercent, formatBytes, bytesToSpeed) is not modelled. It is a parameter (`toFixed2`) or omitted, because it is floating-point formatting. `formatPercentage` is only that rendering, so it is left out.
- `parseFloat` in parsePercentage is a parameter that returns None for NaN. Number parsing is not modelled.
- JavaScript numbers are modelled as exact reals and naturals. IEEE-754 rounding, NaN inputs and negative byte counts in the memory readings are not modelled.
- `Utils.FormatUptime`: seconds are whole and non-negative (`nat`). Fractional or negative inputs to `Math.floor` and `%` are not modelled.
- `Utils.CapitalizeFirstLetter`: upper-cases ASCII letters only. Unicode case mapping (which can change a string's length) is not modelled, and neither are UTF-16 code units.
- `Utils.TruncateString`: `maxLength` is a natural number. `slice` with a negative bound is not modelled. Lengths and slices count Unicode scalar values (Dafny `char`s), not the UTF-16 code units of JavaScript's `length` and `slice`. The two differ only on text outside the Basic Multilingual Plane: for "😀" and maxLength 1 the source returns a lone high surrogate followed by "...", while the model returns "😀" unchanged.
- `JSON.stringify` and `JSON.parse` are the opaque parameters `encode` and `decode`. The receiver lemmas assume encodings contain no line feed, as `JSON.stringify` without indentation guarantees.
- The `systeminformation` calls and `Promise.all` are not modelled. They are foreign, concurrent library calls. A collection's outcome is the `Option<Sources>` given to `Settle`, and there is no interleaving inside one collection.
- The 1000 ms interval cadence is not modelled. Ticks are discrete events.
- `console.log` and `console.error`, `server.listen` and the port are not modelled. They are I/O.
- HTTP header names are compared case-sensitively. Node's behaviour for a write to a closed response is not modelled: the model records the chunk.
- `EventStream`: CR and CRLF line endings, the byte-order mark, the `event`, `id` and `retry` fields, and the browser's own reconnection are not modelled. The collector never sends them, and the client closes on error.
- React context, hooks and rendering are not modelled beyond the render-captured `eventSource` value. The `useEffect` unmount cleanup (ApiContext.tsx:64-73) is left out; it reads the mount-time value.
- `reactNative/constants/Config.ts` holds only constants. The endpoint is the constructor parameter `endpoint`.
- `reactNative/lib/axiosInstance.ts` is an HTTP client wrapper and is not part of this model.
