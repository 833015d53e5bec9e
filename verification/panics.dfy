/** Panic recovery (defer.go): `Defer` calls its handler only when a panic was recovered,
    and `convertPanicToError` turns the recovered value into a `*Error`. The `recover()`
    call itself is a parameter: the value it returned, or `None` when there was no panic. */
module Panics {
  import opened Wrappers
  import opened StackCache
  import opened Errors

  /** A non-nil value passed to `panic`: an error (a `*Error` or another error type), a
      string, or any other value. */
  datatype Recovered = PanicError(err: Err) | PanicString(s: string) | PanicValue(v: Value)

  const PanicMessage: string := "panic recovered"

  /** `convertPanicToError`, a four-way case split on the recovered value:
      a `*Error` is returned as it is, without capturing a stack; another error becomes the
      cause of a "panic recovered" error; a string becomes the message; anything else becomes
      a `*Error` carrying its `%v` text, itself the cause of a "panic recovered" error.
      The three new errors carry a freshly captured stack and no metadata. */
  function ConvertPanicToError(r: Recovered, rt: Runtime, site: CallSite): (res: (Err, Runtime))
    requires Valid(rt.cache) && Valid(site.race) && MayInterfere(rt.cache, site.race)
    ensures res.0.Error?
    ensures Valid(res.1.cache) && MayInterfere(rt.cache, res.1.cache)
    ensures r.PanicError? && r.err.Error? ==> res == (r.err, rt)
    ensures !(r.PanicError? && r.err.Error?) ==>
      && res.0.stack.Some? && res.0.stack.value in res.1.cache.live
      && res.0.metadata == []
    ensures r.PanicError? && r.err.Foreign? ==>
      && res.0.message == PanicMessage && res.0.cause == Some(r.err)
      && Text(res.0) == PanicMessage + ": " + Text(r.err)
    ensures r.PanicString? ==> res.0.message == r.s && res.0.cause.None? && Text(res.0) == r.s
    ensures r.PanicValue? ==>
      && res.0.message == PanicMessage && res.0.cause == Some(New(r.v.text))
      && Text(res.0) == PanicMessage + ": " + r.v.text
  {
    match r
    case PanicError(e) =>
      if e.Error? then (e, rt)
      else
        var captured := CaptureStack(rt, site);
        (Error(PanicMessage, Some(e), Some(captured.0), []), captured.1)
    case PanicString(s) =>
      var captured := CaptureStack(rt, site);
      (Error(s, None, Some(captured.0), []), captured.1)
    case PanicValue(v) =>
      var captured := CaptureStack(rt, site);
      (Error(PanicMessage, Some(New(v.text)), Some(captured.0), []), captured.1)
  }

  /** `Defer(handler)`: the errors the handler is called with, in order: exactly one, the
      converted panic value, when `recover()` returned non-nil; none otherwise. */
  function Defer(recovered: Option<Recovered>, rt: Runtime, site: CallSite): (r: (seq<Err>, Runtime))
    requires Valid(rt.cache) && Valid(site.race) && MayInterfere(rt.cache, site.race)
    ensures |r.0| == if recovered.Some? then 1 else 0
    ensures recovered.None? ==> r.1 == rt
    ensures recovered.Some? ==> (r.0[0], r.1) == ConvertPanicToError(recovered.value, rt, site)
  {
    match recovered
    case None => ([], rt)
    case Some(v) =>
      var converted := ConvertPanicToError(v, rt, site);
      ([converted.0], converted.1)
  }
}
