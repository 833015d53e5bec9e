/** Structured logging of errors (log.go): the bounded walk down an error chain collecting
    fields, `LogValue`'s attribute list and the `Log` helper. Attributes are plain
    (key, value) pairs; handler encoding is outside the model. */
module Logging {
  import opened Wrappers
  import opened StackCache
  import opened StackFormat
  import opened Errors

  /** The value of a log attribute: `slog.String`, `slog.Any` of a value, or of an error. */
  datatype AttrValue = StringValue(s: string) | AnyValue(v: Value) | ErrorValue(e: Err)

  datatype Attr = Attr(key: string, value: AttrValue)

  /** The walk visits at most this many chain nodes. */
  const MaxDepth: nat := 100

  /** The field appended when the walk stops at the depth limit. */
  const DepthExceeded: Attr := Attr("zerr.error", StringValue("max recursion depth exceeded"))

  function MetaAttr(m: MetaPair): Attr {
    Attr(m.key, AnyValue(m.value))
  }

  /** The `formatted` text of a stack handle as the log code reads it, without running the
      once-gate: "" when there is no stack or it was never formatted. */
  function StoredStackText(stack: Option<EntryId>, store: map<EntryId, Entry>): (text: string)
    ensures stack.None? ==> text == ""
    ensures stack.Some? && stack.value in store && store[stack.value].formatted.None? ==> text == ""
  {
    if stack.Some? && stack.value in store then Formatted(store[stack.value]) else ""
  }

  /** The fields one node of the chain contributes: a `*Error` gives its metadata in
      insertion order, then "stacktrace" when its stack is already formatted to a non-empty
      text; any other error gives nothing. */
  function NodeFields(e: Err, store: map<EntryId, Entry>): (r: seq<Attr>)
    ensures e.Foreign? ==> r == []
    ensures e.Error? ==>
      && |r| == |e.metadata| + (if StoredStackText(e.stack, store) != "" then 1 else 0)
      && (forall i :: 0 <= i < |e.metadata| ==> r[i] == MetaAttr(e.metadata[i]))
      && (StoredStackText(e.stack, store) != "" ==>
            r[|e.metadata|] == Attr("stacktrace", StringValue(StoredStackText(e.stack, store))))
  {
    match e
    case Foreign(_, _) => []
    case Error(_, _, stack, metadata) =>
      var text := StoredStackText(stack, store);
      seq(|metadata|, i requires 0 <= i < |metadata| => MetaAttr(metadata[i]))
        + (if text != "" then [Attr("stacktrace", StringValue(text))] else [])
  }

  /** The loop of `logFields` over any chain, acyclic or not: `next` is `unwrap`, `fields`
      what a node contributes, `depth` the number of nodes already visited. */
  function Walk<N>(node: Option<N>, next: N -> Option<N>, fields: N -> seq<Attr>, depth: nat): seq<Attr>
    requires depth <= MaxDepth
    decreases MaxDepth - depth
  {
    match node
    case None => []
    case Some(n) =>
      if depth >= MaxDepth then [DepthExceeded]
      else fields(n) + Walk(next(n), next, fields, depth + 1)
  }

  /** The first `k` nodes of the chain from `node` (fewer when it ends sooner). */
  function Chain<N>(node: Option<N>, next: N -> Option<N>, k: nat): (nodes: seq<N>)
    ensures |nodes| <= k
    decreases k
  {
    if k == 0 || node.None? then [] else [node.value] + Chain(next(node.value), next, k - 1)
  }

  /** The node reached after `k` steps down the chain, if the chain is that long. */
  function NodeAfter<N>(node: Option<N>, next: N -> Option<N>, k: nat): Option<N>
    decreases k
  {
    if k == 0 || node.None? then node else NodeAfter(next(node.value), next, k - 1)
  }

  function Flatten<N>(nodes: seq<N>, fields: N -> seq<Attr>): seq<Attr>
    decreases |nodes|
  {
    if |nodes| == 0 then [] else fields(nodes[0]) + Flatten(nodes[1..], fields)
  }

  /** What the walk produces: the fields of the first (at most) `MaxDepth - depth` nodes,
      outermost first, then the depth marker exactly when the chain goes on beyond them. */
  lemma {:induction false} WalkIsBoundedChain<N>(node: Option<N>, next: N -> Option<N>, fields: N -> seq<Attr>, depth: nat)
    requires depth <= MaxDepth
    ensures Walk(node, next, fields, depth) ==
      Flatten(Chain(node, next, MaxDepth - depth), fields)
        + (if NodeAfter(node, next, MaxDepth - depth).Some? then [DepthExceeded] else [])
    decreases MaxDepth - depth
  {
    if node.Some? && depth < MaxDepth {
      var n := node.value;
      WalkIsBoundedChain(next(n), next, fields, depth + 1);
      var rest := Chain(next(n), next, MaxDepth - depth - 1);
      assert Chain(node, next, MaxDepth - depth) == [n] + rest;
      assert ([n] + rest)[1..] == rest;
    }
  }

  /** A chain that loops back on itself still ends: after `MaxDepth` visits of the same node
      the walk writes the depth marker and stops. */
  lemma {:induction false} SelfLoopStops<N>(n: N, next: N -> Option<N>, fields: N -> seq<Attr>, depth: nat)
    requires depth <= MaxDepth
    requires next(n) == Some(n)
    ensures |Walk(Some(n), next, fields, depth)| == (MaxDepth - depth) * |fields(n)| + 1
    ensures Walk(Some(n), next, fields, depth)[|Walk(Some(n), next, fields, depth)| - 1] == DepthExceeded
    decreases MaxDepth - depth
  {
    if depth < MaxDepth {
      SelfLoopStops(n, next, fields, depth + 1);
      var k := MaxDepth - depth - 1;
      assert (MaxDepth - depth) * |fields(n)| == |fields(n)| + k * |fields(n)|;
    }
  }

  /** `logFields(err)`: the bounded walk from `err` with `unwrap` as the step. */
  function LogFields(err: Option<Err>, store: map<EntryId, Entry>): seq<Attr> {
    Walk(err, Unwrap, (e: Err) => NodeFields(e, store), 0)
  }

  /** An error chain of at most `MaxDepth` nodes is logged completely, with no marker. */
  lemma ShortChainsLogFully(err: Option<Err>, store: map<EntryId, Entry>)
    requires NodeAfter(err, Unwrap, MaxDepth).None?
    ensures LogFields(err, store) == Flatten(Chain(err, Unwrap, MaxDepth), (e: Err) => NodeFields(e, store))
  {
    WalkIsBoundedChain(err, Unwrap, (e: Err) => NodeFields(e, store), 0);
  }

  /** A foreign error without `Unwrap` yields no fields at all. */
  lemma PlainErrorHasNoFields(text: string, store: map<EntryId, Entry>)
    ensures LogFields(Some(Foreign(text, None)), store) == []
  {
  }

  /** `(*Error).LogValue()`: "msg", then the metadata in insertion order, then "stacktrace"
      when the stack is present and already formatted, then "cause" when there is one. */
  function LogValue(e: Err, store: map<EntryId, Entry>): (r: seq<Attr>)
    requires e.Error?
    ensures |r| == 1 + |e.metadata| + (if StoredStackText(e.stack, store) != "" then 1 else 0)
                     + (if e.cause.Some? then 1 else 0)
    ensures r[0] == Attr("msg", StringValue(e.message))
    ensures forall i :: 0 <= i < |e.metadata| ==> r[1 + i] == MetaAttr(e.metadata[i])
    ensures StoredStackText(e.stack, store) != "" ==>
      r[1 + |e.metadata|] == Attr("stacktrace", StringValue(StoredStackText(e.stack, store)))
    ensures e.cause.Some? ==> r[|r| - 1] == Attr("cause", ErrorValue(e.cause.value))
  {
    [Attr("msg", StringValue(e.message))]
      + NodeFields(e, store)
      + (if e.cause.Some? then [Attr("cause", ErrorValue(e.cause.value))] else [])
  }

  /** A log record: its message and its attributes. */
  datatype Record = Record(message: string, attrs: seq<Attr>)

  /** `Log(ctx, logger, err)`: one record at error level whose message is `err.Error()` and
      whose attributes are `logFields(err)`. */
  function Log(err: Err, store: map<EntryId, Entry>): Record {
    Record(Text(err), LogFields(Some(err), store))
  }

  /** What `Log` hands the logger for any error: the message is `Error()`, and the fields
      are those of the first `MaxDepth` errors of the chain, outermost first and led by the
      error's own, then the depth marker exactly when the chain goes on. */
  lemma LogIsTextAndChainFields(err: Err, store: map<EntryId, Entry>)
    ensures Log(err, store).message == Text(err)
    ensures Log(err, store).attrs ==
      Flatten(Chain(Some(err), Unwrap, MaxDepth), (e: Err) => NodeFields(e, store))
        + (if NodeAfter(Some(err), Unwrap, MaxDepth).Some? then [DepthExceeded] else [])
    ensures NodeFields(err, store) <= Log(err, store).attrs
  {
    var f := (e: Err) => NodeFields(e, store);
    WalkIsBoundedChain(Some(err), Unwrap, f, 0);
    var rest := Chain(Unwrap(err), Unwrap, MaxDepth - 1);
    assert Chain(Some(err), Unwrap, MaxDepth) == [err] + rest;
    assert ([err] + rest)[1..] == rest;
  }

  /** Logging `New(m).With(k, v)` gives the message `m` and the single field `k`. */
  lemma LogNewWith(message: string, key: string, value: Value, store: map<EntryId, Entry>)
    ensures Log(ErrorWith(New(message), key, value), store) == Record(message, [Attr(key, AnyValue(value))])
  {
    var e := ErrorWith(New(message), key, value);
    assert NodeFields(e, store) == [Attr(key, AnyValue(value))];
  }
}
