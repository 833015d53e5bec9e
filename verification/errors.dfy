/** The error value of zerr.go: an immutable record of message, cause, stack handle and
    metadata, its builders (`New`, `Wrap`, `With`, `Stack` and the `*Error` methods) and
    its text (`Error()`, `Format`, `StackTrace`). */
module Errors {
  import opened Wrappers
  import opened Frames
  import opened Capture
  import opened StackCache
  import opened StackFormat

  /** An `any` value, known by its `%v` rendering. */
  datatype Value = Value(text: string)

  /** A `metaPair`; the interned key handle is modelled by the plain key string. */
  datatype MetaPair = MetaPair(key: string, value: Value)

  /** A non-nil Go `error`: either a `*Error`, or a value of some other error type, known
      by its `Error()` text and what its `Unwrap()` returns (`None` when it has no `Unwrap`
      method or returns nil). */
  datatype Err =
    | Error(message: string, cause: Option<Err>, stack: Option<EntryId>, metadata: seq<MetaPair>)
    | Foreign(text: string, next: Option<Err>)

  /** `Error()`: the message alone without a cause, the cause's text alone when the message
      is empty, and `message + ": " + cause` otherwise. */
  function Text(e: Err): string {
    match e
    case Foreign(text, _) => text
    case Error(message, cause, _, _) =>
      if cause.None? then message
      else if message == "" then Text(cause.value)
      else message + ": " + Text(cause.value)
  }

  /** `Unwrap()` of a `*Error`, and the `unwrap` helper of the log walk for any error. */
  function Unwrap(e: Err): (r: Option<Err>)
    ensures r.Some? ==> r.value < e
  {
    match e
    case Error(_, cause, _, _) => cause
    case Foreign(_, next) => next
  }

  /** `New(message)`: a bare error whose text is the message verbatim. */
  function New(message: string): (r: Err)
    ensures r.Error? && r.message == message
    ensures Text(r) == message
    ensures Unwrap(r).None? && r.stack.None? && r.metadata == []
  {
    Error(message, None, None, [])
  }

  /** `Wrap(err, message)`: nil stays nil; otherwise a new error whose cause is `err`,
      without stack or metadata. */
  function Wrap(err: Option<Err>, message: string): (r: Option<Err>)
    ensures r.None? <==> err.None?
    ensures r.Some? ==> && r.value.Error? && r.value.message == message
                        && Unwrap(r.value) == err
                        && r.value.stack.None? && r.value.metadata == []
    ensures r.Some? ==> Text(r.value) == if message == "" then Text(err.value) else message + ": " + Text(err.value)
  {
    match err
    case None => None
    case Some(e) => Some(Error(message, Some(e), None, []))
  }

  /** Nested wraps join their messages with ": ". */
  lemma NestedWrapText(inner: Err, outer: string, middle: string)
    requires outer != "" && middle != ""
    ensures Text(Wrap(Wrap(Some(inner), middle), outer).value) == outer + ": " + middle + ": " + Text(inner)
  {
  }

  /** `(*Error).With(key, value)`: a new error with the pair appended to a copy of the
      metadata; message, cause and stack are carried over and the text does not change. */
  function ErrorWith(e: Err, key: string, value: Value): (r: Err)
    requires e.Error?
    ensures r.Error?
    ensures r.message == e.message && r.cause == e.cause && r.stack == e.stack
    ensures |r.metadata| == |e.metadata| + 1
    ensures r.metadata[..|e.metadata|] == e.metadata
    ensures r.metadata[|e.metadata|] == MetaPair(key, value)
    ensures Text(r) == Text(e)
  {
    e.(metadata := e.metadata + [MetaPair(key, value)])
  }

  /** `(*Error).WithStack()`: a new error holding a stack entry for the current call stack;
      message, cause and metadata are carried over. */
  function ErrorWithStack(e: Err, rt: Runtime, site: CallSite): (r: (Err, Runtime))
    requires e.Error?
    requires Valid(rt.cache) && Valid(site.race) && MayInterfere(rt.cache, site.race)
    ensures r.0.Error?
    ensures r.0.message == e.message && r.0.cause == e.cause && r.0.metadata == e.metadata
    ensures Text(r.0) == Text(e)
    ensures r.0.stack.Some? && r.0.stack.value in r.1.cache.live && r.0.stack.value in r.1.cache.store
    ensures Valid(r.1.cache) && MayInterfere(rt.cache, r.1.cache)
  {
    var captured := CaptureStack(rt, site);
    (e.(stack := Some(captured.0)), captured.1)
  }

  /** Package-level `With`: nil stays nil; a `*Error` gets the pair directly; any other error
      is first wrapped with an empty message. The text never changes. */
  function With(err: Option<Err>, key: string, value: Value): (r: Option<Err>)
    ensures r.None? <==> err.None?
    ensures r.Some? ==> && r.value.Error?
                        && Text(r.value) == Text(err.value)
                        && |r.value.metadata| > 0
                        && r.value.metadata[|r.value.metadata| - 1] == MetaPair(key, value)
    ensures r.Some? && err.value.Foreign? ==>
      r.value.message == "" && Unwrap(r.value) == err && r.value.metadata == [MetaPair(key, value)]
  {
    match err
    case None => None
    case Some(e) =>
      if e.Error? then Some(ErrorWith(e, key, value))
      else Some(ErrorWith(Wrap(err, "").value, key, value))
  }

  /** Package-level `Stack`: nil stays nil; a `*Error` gets a stack directly; any other error
      is first wrapped with an empty message. The text never changes. */
  function Stack(err: Option<Err>, rt: Runtime, site: CallSite): (r: (Option<Err>, Runtime))
    requires Valid(rt.cache) && Valid(site.race) && MayInterfere(rt.cache, site.race)
    ensures r.0.None? <==> err.None?
    ensures err.None? ==> r.1 == rt
    ensures r.0.Some? ==> && r.0.value.Error? && Text(r.0.value) == Text(err.value)
                          && r.0.value.stack.Some? && r.0.value.stack.value in r.1.cache.live
    ensures r.0.Some? && err.value.Foreign? ==> r.0.value.message == "" && Unwrap(r.0.value) == err
    ensures Valid(r.1.cache) && MayInterfere(rt.cache, r.1.cache)
  {
    match err
    case None => (None, rt)
    case Some(e) =>
      var z := if e.Error? then e else Wrap(err, "").value;
      var s := ErrorWithStack(z, rt, site);
      (Some(s.0), s.1)
  }

  /** `(*Error).StackTrace()`: "" without a stack; otherwise the once-gated text of the
      entry, stored on the first call. Caching is invisible: the text is always the
      symbolisation of the entry's frames, empty exactly when there are none. */
  function StackTrace(e: Err, store: map<EntryId, Entry>, symbolize: seq<Word> -> seq<Frame>)
    : (r: (string, map<EntryId, Entry>))
    requires e.Error? && (e.stack.Some? ==> e.stack.value in store)
    ensures e.stack.None? ==> r == ("", store)
    ensures r.1.Keys == store.Keys
    ensures e.stack.Some? ==> r.1[e.stack.value].formatted == Some(r.0)
    ensures WellFormatted(store, symbolize) ==> WellFormatted(r.1, symbolize)
    ensures WellFormatted(store, symbolize) && e.stack.Some? ==>
      && r.0 == FormatStackTrace(store[e.stack.value].pc, symbolize)
      && (r.0 == "" <==> |store[e.stack.value].pc| == 0)
  {
    match e.stack
    case None => ("", store)
    case Some(id) => LazyFormat(store, id, symbolize)
  }

  /** Repeated `StackTrace` calls return the first call's text and change nothing more. */
  lemma StackTraceOnce(e: Err, store: map<EntryId, Entry>, symbolize: seq<Word> -> seq<Frame>)
    requires e.Error? && (e.stack.Some? ==> e.stack.value in store)
    ensures var first := StackTrace(e, store, symbolize);
            StackTrace(e, first.1, symbolize) == first
  {
    if e.stack.Some? {
      LazyFormatIdempotent(store, e.stack.value, symbolize);
    }
  }

  /** The verbs `Format` distinguishes. */
  datatype Verb = VerbV | VerbS | VerbQ | VerbOther

  /** What `Format` writes: plain text (`Fprint`) or text quoted as Go source (`%q`). */
  datatype Piece = Raw(text: string) | Quoted(text: string)

  /** `(*Error).Format`: `%s` and plain `%v` write the text; `%+v` writes the text and then,
      when there is a stack, the stack text (never storing it); `%q` writes the text quoted;
      any other verb writes nothing. */
  function Format(e: Err, verb: Verb, plus: bool, store: map<EntryId, Entry>, symbolize: seq<Word> -> seq<Frame>)
    : (r: seq<Piece>)
    requires e.Error? && (e.stack.Some? ==> e.stack.value in store)
    ensures verb == VerbS || (verb == VerbV && !plus) ==> r == [Raw(Text(e))]
    ensures verb == VerbV && plus ==>
      && |r| == (if e.stack.Some? then 2 else 1)
      && r[0] == Raw(Text(e))
      && (e.stack.Some? && WellFormatted(store, symbolize) && |store[e.stack.value].pc| > 0 ==>
            r[1] == Raw(FormatStackTrace(store[e.stack.value].pc, symbolize)))
    ensures verb == VerbQ ==> r == [Quoted(Text(e))]
    ensures verb == VerbOther ==> r == []
  {
    match verb
    case VerbV =>
      if plus then
        [Raw(Text(e))] + (if e.stack.Some? then
          var entry := store[e.stack.value];
          FormatStackAgreesWithStackTrace(entry, symbolize);
          [Raw(FormatStack(entry, symbolize))]
        else [])
      else [Raw(Text(e))]
    case VerbS => [Raw(Text(e))]
    case VerbQ => [Quoted(Text(e))]
    case VerbOther => []
  }
}
