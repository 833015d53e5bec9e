# zerr stack cache and error algebra, modelled in Dafny

This project models the core of the Go library `zerr` as pure Dafny functions, with
proofs about them. The centre is the deduplicating cache of captured call stacks
(`getOrCreateStack`). It works in these steps:

- capture the program counters into a pooled buffer, growing the buffer once if needed;
- fold the frames into a 64-bit fingerprint;
- look the fingerprint up in a hash-chained map of weak references;
- on a miss, re-check under the write lock, drop dead references and append a new entry.

Formatting of a captured stack is lazy and happens once. Around the cache sit the
immutable `*Error` builders (`New`, `Wrap`, `With`, `Stack`, `Error()`, `Format`), the
structured-log field walk (`logFields`, `LogValue`, `Log`) and panic recovery
(`Defer`, `convertPanicToError`).

Modules, leaf first:

- `Wrappers` (wrappers.dfy): `Option`, used for nil pointers and nil errors.
- `Frames` (frames.dfy): `uintptr` as integers modulo 2^64, `stackMatches`, and the
  fingerprint fold together with its closed form.
- `Capture` (capture.dfy): the buffer pool and the capture with one growth step.
  `runtime.Callers` is an oracle: the call stack is a parameter.
- `StackCache` (stackcache.dfy): the cache as an explicit state value and its invariant.
  Get-or-create is a pure function. The read-lock and write-lock loops are methods proved
  to compute it.
- `StackFormat` (stackformat.dfy): symbolisation and the once-gated formatting.
  `runtime.CallersFrames` is an oracle: a function from frames to resolved frames.
- `Errors` (errors.dfy): the error value and its builders.
- `Logging` (logging.dfy): the bounded chain walk and the attribute lists.
- `Panics` (panics.dfy): panic classification and `Defer`.

How the concurrent parts are represented:

- **Weak pointers.** A weak pointer is an entry id. `Cache.live` is the set of ids the
  collector has not reclaimed. `Collect` shrinks it.
- **The race window.** The gap between the read phase and the write phase is a second
  cache state, `race`. It may be any valid state that `MayInterfere` allows from the
  first. In that relation, entries keep their frames, formatted text stays, ids are never
  reused, and dead entries do not come back. The relation itself lets another goroutine
  store any text behind an entry's once-gate. Facts about formatted text therefore assume
  that every text stored, by this caller or by others, is the symbolisation of its entry's
  frames (`StackFormat.WellFormatted`). `StackFormat.CaptureKeepsWellFormatted` shows that
  capture itself never breaks this.
- **`sync.Once`.** The once-gate is the `formatted` option of an entry.
- **The pool.** The pool is a list of idle buffer capacities.

Because Dafny values are immutable, a fresh entry always owns its own copy of the frames.

## Model

| member | source | states |
|---|---|---|
| `Frames.StackMatches` | stack.go:126-136 | the answer is true exactly when the two frame sequences are equal (same length, equal at every index) |
| `Frames.Fingerprint` | stack.go:41-45 | a definition (the fold `h*31 + pc` from 17, wrapping at 2^64); `Frames.FingerprintClosedForm` states its closed form and `Frames.HashFrames` that the loop computes it |
| `Frames.HashFrames` | stack.go:41-45 | the hashing loop computes the fingerprint, which equals (17·31^n + Σ pcs[i]·31^(n-1-i)) mod 2^64 |
| `Frames.FoldClosedForm` | stack.go:42-45 | the fold `h*31 + pc` in wrapping 64-bit arithmetic equals the exact polynomial reduced once modulo 2^64, from any accumulator |
| `Frames.FingerprintClosedForm` | stack.go:41-45 | the fingerprint of n frames is (17·31^n + Σ pcs[i]·31^(n-1-i)) mod 2^64, a polynomial in the frames taken once modulo 2^64 |
| `Frames.FingerprintOrderSensitive` | stack.go:41-45 | swapping two frames changes the fingerprint |
| `Frames.FingerprintsCollide` | stack.go:41-45 | distinct sequences can share a fingerprint ([0,31] and [1,0]), so a fingerprint alone never proves equality |
| `Capture.Acquire` | zerr.go:34-40 | the pool hands out an idle buffer, or a fresh 128-slot one when none is idle; buffers never hold fewer than 128 slots |
| `Capture.Release` | stack.go:119-120 | the released buffer goes back into the pool with its capacity |
| `Capture.Callers` | stack.go:30 | the oracle writes the first min(depth, buffer length) frames of the stack |
| `Capture.CaptureFrames` | stack.go:26-39 | the buffer grows to twice its length exactly when the first capture fills it; the result is a prefix of the stack no longer than the buffer used; a stack shorter than twice the buffer is captured whole |
| `StackCache.EmptyCacheValid` | stack.go:14-17 | the empty cache that the program starts with satisfies the cache invariant, so the invariant has a base case |
| `StackCache.Collect` | stack.go:55-57 | a collection pass makes references dead without breaking the invariant; it is a legal interference |
| `StackCache.FirstLiveMatch` | stack.go:54-66 | the scan returns a live entry of the chain with exactly the given frames, and no earlier reference in the chain is such an entry; it returns nothing exactly when the chain holds no such live entry |
| `StackCache.Compact` | stack.go:84-96 | a definition (the chain with dead references dropped); `StackCache.CompactKeepsLiveInOrder` characterises it |
| `StackCache.CompactKeepsLiveInOrder` | stack.go:84-99 | compaction leaves exactly the live references of the chain, each as often as before, in their original relative order |
| `StackCache.CompactKeepsNoDuplicates` | stack.go:87-96 | compacting a chain without live duplicates leaves a chain without live duplicates |
| `StackCache.CompactionKeepsValid` | stack.go:84-100 | rewriting one bucket with its compacted chain keeps the whole cache invariant |
| `StackCache.InsertKeepsValid` | stack.go:102-114 | appending a fresh entry after a rescan found no live match keeps the invariant, deduplication included |
| `StackCache.KeepWinner` | stack.go:102-110 | losing the race returns the live winner, stores the compacted bucket, and touches no other bucket, entry or liveness |
| `StackCache.InsertFresh` | stack.go:72-76 | the fresh entry has a new id and a copy of the frames; it is live and appended at the end of the compacted bucket; no other bucket changes |
| `StackCache.WritePhase` | stack.go:78-114 | under the write lock, a fresh entry is inserted exactly when no live entry holds the frames; otherwise the winner is returned |
| `StackCache.GetOrCreate` | stack.go:47-122 | keeps the invariant; the result is the only live entry holding exactly the captured frames; the fast path is taken exactly when such an entry already existed and changes nothing |
| `StackCache.ValidUnique` | stack.go:79-114 | in a valid cache two live entries with the same frames are the same entry |
| `StackCache.RepeatedCaptureShares` | stack.go:50-66 | capturing the same stack again, with the first entry still alive, takes the fast path and returns the same entry |
| `StackCache.DistinctStacksDistinctEntries` | stack.go:54-114 | two different stacks get two different live entries, both in the same bucket when their fingerprints collide |
| `StackCache.ScanChain` | stack.go:54-67 | the read-lock loop returns exactly what the chain scan specifies |
| `StackCache.RescanChain` | stack.go:84-96 | the write-lock loop computes both the compacted chain and the first live match |
| `StackCache.WriteLocked` | stack.go:78-114 | the write-lock code as written computes the write phase |
| `StackCache.CaptureStack` | stack.go:21-123 | the whole call keeps the invariant and returns a live entry whose frames are a prefix of the call stack; it releases exactly one buffer for the one acquired |
| `StackCache.GetOrCreateStack` | stack.go:21-123 | the code as written computes the call; a stack shorter than 256 frames is never truncated; one buffer comes back on every path, and pool buffers keep at least 128 slots |
| `StackFormat.FrameLine` | stack.go:150 | every trace line starts with a newline |
| `StackFormat.ResolvedLines` | stack.go:146-154 | the resolution loop writes at least one line, each starting with a newline |
| `StackFormat.FormatStackTrace` | stack.go:140-157 | the text is empty exactly when there are no frames, so a non-empty stored text always means the stack is formatted |
| `StackFormat.LazyFormat` | stack.go:166-171 | the first call stores the formatted text; later calls return the stored text and change nothing; no other entry changes |
| `StackFormat.FormattingKeepsCacheValid` | stack.go:166-169 | filling in the formatted text keeps the cache invariant and is a legal interference |
| `StackFormat.GetOrCreateKeepsWellFormatted` | stack.go:47-122 | get-or-create stores no formatted text of its own: if every stored text was a symbolisation before the call and in the other goroutines' state, it still is after |
| `StackFormat.CaptureKeepsWellFormatted` | stack.go:21-123 | the same for the whole capture, buffer handling included |
| `StackFormat.FormatStack` | zerr.go:174-189 | a definition (the stored text, or the frames resolved afresh without storing them); `StackFormat.FormatStackAgreesWithStackTrace` relates it to `StackTrace` |
| `StackFormat.FormatStackAgreesWithStackTrace` | zerr.go:174-189 | for a non-empty stack `formatStack` prints the same text as `StackTrace`, whether or not the text is stored yet |
| `Errors.Text` | zerr.go:137-146 | a definition of `Error()`; the ensures of `Errors.New`, `Errors.Wrap` and `Errors.NestedWrapText` characterise it, and every builder is proved to keep it |
| `Errors.Unwrap` | zerr.go:149-151 | a definition, also used as the `unwrap` helper of log.go:49-54 for foreign errors; it returns a strictly smaller error, and `Errors.Wrap` proves it returns the wrapped cause |
| `Errors.New` | zerr.go:43-47 | the text is the message verbatim (also when empty), with no cause, stack or metadata |
| `Errors.Wrap` | zerr.go:51-68 | nil stays nil; otherwise the cause is exactly `err`, with no stack or metadata; the text is the cause's text or `message: cause` |
| `Errors.NestedWrapText` | zerr.go:137-146 | nested wraps join with ": " |
| `Errors.ErrorWith` | zerr.go:107-121 | appends exactly one pair after a copy of the old metadata; message, cause, stack and text are unchanged |
| `Errors.ErrorWithStack` | zerr.go:124-134 | message, cause, metadata and text are carried over; the stack becomes a live cache entry |
| `Errors.With` | zerr.go:73-86 | nil stays nil; the text never changes; a foreign error is first wrapped with an empty message |
| `Errors.Stack` | zerr.go:91-104 | nil stays nil and captures nothing; the text never changes; a foreign error is first wrapped with an empty message |
| `Errors.StackTrace` | stack.go:161-172 | "" without a stack; otherwise the stored text; when every stored text is a symbolisation of its frames, that text is the symbolisation and is empty exactly when there are no frames |
| `Errors.StackTraceOnce` | stack.go:166-171 | a second call returns the first call's text and leaves the store as the first call left it |
| `Errors.Format` | zerr.go:154-171 | `%s` and `%v` write the text; `%+v` writes the text and then the stack text only when there is a stack; `%q` writes the quoted text |
| `Logging.StoredStackText` | log.go:36 | an absent or never-formatted stack reads as "", so logging never triggers formatting |
| `Logging.NodeFields` | log.go:29-39 | a `*Error` gives its metadata in insertion order, then "stacktrace" only when already formatted; other errors give nothing |
| `Logging.LogFields` | log.go:15-46 | a definition (the bounded walk with `unwrap` as the step); `Logging.WalkIsBoundedChain`, `Logging.ShortChainsLogFully` and `Logging.LogIsTextAndChainFields` characterise it |
| `Logging.WalkIsBoundedChain` | log.go:15-46 | the walk gives the fields of at most the first 100 nodes, outermost first, then the depth marker exactly when the chain goes on |
| `Logging.SelfLoopStops` | log.go:17-26 | a chain that points back to itself still ends after 100 visits, with the depth marker last |
| `Logging.ShortChainsLogFully` | log.go:21-43 | a chain of at most 100 nodes is logged completely, without the marker |
| `Logging.PlainErrorHasNoFields` | log.go:49-54 | a plain error without `Unwrap` yields no fields |
| `Logging.LogValue` | log.go:57-80 | "msg", then the metadata in order, then "stacktrace" if formatted, then "cause" if present; the length is 1 + metadata + [stack] + [cause] |
| `Logging.Log` | log.go:10-12 | a definition (message and fields handed to the logger); `Logging.LogIsTextAndChainFields` characterises it for every error, and `Logging.LogNewWith` works one case out |
| `Logging.LogIsTextAndChainFields` | log.go:10-46 | for every error, the message is `Error()` and the fields are those of the first 100 errors of the chain, led by the error's own, then the depth marker exactly when the chain goes on |
| `Logging.LogNewWith` | log.go:10-12 | logging `New(m).With(k, v)` gives message `m` and the single attribute `k` |
| `Panics.ConvertPanicToError` | defer.go:17-39 | a `*Error` comes back unchanged with no capture; an error becomes the cause of "panic recovered"; a string becomes the message; any other value becomes a `*Error` cause carrying its text; new errors get a live stack |
| `Panics.Defer` | defer.go:9-14 | the handler is called exactly once with the converted value when a panic was recovered, and never otherwise |

## Left out

- Frame capture and symbolisation (`runtime.Callers`, `runtime.CallersFrames`) are oracles. The capture takes the call stack as a parameter, after the skipped frames. The skip counts (`skip+1`, 2, 3) are not modelled.
- Real weak pointers and the collector (`weak.Make`, `Value`) are modelled as the `live` set. Which objects the collector reclaims is a parameter of `Collect` or part of `race`.
- `sync.RWMutex`, `sync.Once` and `sync.Pool` are not modelled as concurrency primitives. The lock phases are sequential steps with an arbitrary allowed change in between. The pool is a LIFO list; the real `sync.Pool` may also drop idle buffers.
- Several data races are outside the sequential model. The fast path iterates a chain after `RUnlock` while compaction may rewrite the same backing array in place (stack.go:50-55, 87-91). `formatStack` (zerr.go:175), `logFields` (log.go:36) and `LogValue` (log.go:70) read `formatted` without the once-gate, which races with a concurrent `StackTrace` filling it in. The model reads whatever the store holds at that moment.
- The interference between lock phases may store any text behind a once-gate. Stack-text facts are proved only under `StackFormat.WellFormatted`, that is, when every stored text is the symbolisation of its entry's frames.
- `Logging.LogFields`: `Errors.Err` is an inductive datatype, so an error chain in the model is always finite and acyclic. The cyclic chains that the depth limit at log.go:17-26 guards against are covered only by the generic `Logging.Walk` (`Logging.SelfLoopStops`), not by `LogFields` itself.
- `Logging.Log` takes a non-nil error. `Log(ctx, logger, nil)` panics in Go, because it calls `Error()` on a nil interface (log.go:11), and that panic is not modelled.
- String printing beyond the `Error()` and stack concatenation is not modelled. `%q` output is the marker `Quoted(text)`. `slog` handler encoding and JSON are not modelled. `unique.Handle` keys are plain strings. Values of type `any` are known only by their `%v` text.
- `Log`'s context and logger are not modelled: the model returns the record that `ErrorContext` would receive.
- `recover()` is not modelled: its result is a parameter of `Defer`. A typed nil `*Error` passed to `panic` is not distinguished from other values.
- Package-level `With` and `Stack` have a final `return wrapped` branch (zerr.go:85, zerr.go:103). It cannot be reached, because `Wrap` of a non-nil error is always a `*Error`, so the model leaves it out.
- `formatStack` on an entry with no frames prints the line of the zero frame, "\n:0 ", while `StackTrace` returns "". The model keeps this as written (`StackFormat.FormatStackAgreesWithStackTrace`).
- `Frames.FingerprintOrderSensitive`: the fold is shown to be order-sensitive on one witness, not for every permutation; with wrap-around arithmetic, some permutations do collide.
- `example/main.go` (a demo program) and `zerr_bench_test.go` (benchmarks) are not part of this model.
