/** Symbolisation and lazy formatting of cached stacks (stack.go `formatStackTrace`,
    `(*Error).StackTrace`; zerr.go `formatStack`). `runtime.CallersFrames` is an oracle
    from a frame sequence to the resolved frames; the once-gate is the `formatted` option
    of an entry. */
module StackFormat {
  import opened Wrappers
  import opened Frames
  import opened Capture
  import opened StackCache

  /** A resolved `runtime.Frame`: source file, line and function name. */
  datatype Frame = Frame(file: string, line: int, func: string)

  /** The frame `Frames.Next` returns when there is none left: all fields zero. */
  const ZeroFrame: Frame := Frame("", 0, "")

  function DigitChar(d: nat): char
    requires d < 10
  {
    (48 + d) as char
  }

  /** `%d` of a natural number. */
  function NatDigits(n: nat): string
    decreases n
  {
    if n < 10 then [DigitChar(n)] else NatDigits(n / 10) + [DigitChar(n % 10)]
  }

  /** `%d` of an integer. */
  function Decimal(n: int): string {
    if n < 0 then "-" + NatDigits(-n) else NatDigits(n)
  }

  /** One line of a trace, `"\n%s:%d %s"` of file, line and function. */
  function FrameLine(f: Frame): (line: string)
    ensures |line| > 0 && line[0] == '\n'
  {
    "\n" + f.file + ":" + Decimal(f.line) + " " + f.func
  }

  function Concat(parts: seq<string>): string
    decreases |parts|
  {
    if |parts| == 0 then "" else parts[0] + Concat(parts[1..])
  }

  /** The resolution loop `for { frame, more := frames.Next(); write; if !more { break } }`:
      one line per resolved frame; when the symboliser yields no frame at all, the loop
      still writes the line of the zero frame once. */
  function ResolvedLines(pc: seq<Word>, symbolize: seq<Word> -> seq<Frame>): (lines: seq<string>)
    ensures |lines| > 0
    ensures forall i :: 0 <= i < |lines| ==> |lines[i]| > 0 && lines[i][0] == '\n'
  {
    var frames := symbolize(pc);
    if |frames| == 0 then [FrameLine(ZeroFrame)]
    else seq(|frames|, i requires 0 <= i < |frames| => FrameLine(frames[i]))
  }

  /** The text of a non-empty list of lines that each start a new line is itself
      non-empty and starts a new line. */
  lemma ConcatStartsWithNewline(lines: seq<string>)
    requires |lines| > 0
    requires forall i :: 0 <= i < |lines| ==> |lines[i]| > 0 && lines[i][0] == '\n'
    ensures |Concat(lines)| > 0 && Concat(lines)[0] == '\n'
  {
    assert Concat(lines) == lines[0] + Concat(lines[1..]);
  }

  /** `formatStackTrace`: no text for an empty frame sequence; otherwise the resolved lines,
      which is never empty, so a non-empty `formatted` field always means "formatted". */
  function FormatStackTrace(pc: seq<Word>, symbolize: seq<Word> -> seq<Frame>): (text: string)
    ensures text == "" <==> |pc| == 0
    ensures |pc| > 0 ==> text[0] == '\n'
  {
    if |pc| == 0 then ""
    else
      var lines := ResolvedLines(pc, symbolize);
      ConcatStartsWithNewline(lines);
      Concat(lines)
  }

  /** The `formatted` field as Go sees it: empty until the once-gate has run. */
  function Formatted(e: Entry): string {
    e.formatted.GetOr("")
  }

  /** Every text behind a once-gate is the symbolisation of its entry's frames. */
  ghost predicate WellFormatted(store: map<EntryId, Entry>, symbolize: seq<Word> -> seq<Frame>) {
    forall id :: id in store && store[id].formatted.Some? ==>
      store[id].formatted.value == FormatStackTrace(store[id].pc, symbolize)
  }

  /** The entry-level part of `(*Error).StackTrace`: run the once-gate (format and store on
      the first call only) and return the stored text. */
  function LazyFormat(store: map<EntryId, Entry>, id: EntryId, symbolize: seq<Word> -> seq<Frame>)
    : (r: (string, map<EntryId, Entry>))
    requires id in store
    ensures r.1.Keys == store.Keys
    ensures forall x :: x in store && x != id ==> r.1[x] == store[x]
    ensures r.1[id].pc == store[id].pc
    ensures r.1[id].formatted == Some(r.0)
    ensures store[id].formatted.Some? ==> r.0 == store[id].formatted.value && r.1 == store
    ensures store[id].formatted.None? ==> r.0 == FormatStackTrace(store[id].pc, symbolize)
    ensures WellFormatted(store, symbolize) ==>
      WellFormatted(r.1, symbolize) && r.0 == FormatStackTrace(store[id].pc, symbolize)
  {
    var e := store[id];
    match e.formatted
    case Some(text) => (text, store)
    case None =>
      var text := FormatStackTrace(e.pc, symbolize);
      (text, store[id := e.(formatted := Some(text))])
  }

  /** Once formatted, always the same text: a second call returns what the first returned
      and changes nothing. */
  lemma LazyFormatIdempotent(store: map<EntryId, Entry>, id: EntryId, symbolize: seq<Word> -> seq<Frame>)
    requires id in store
    ensures var first := LazyFormat(store, id, symbolize);
            LazyFormat(first.1, id, symbolize) == first
  {
  }

  /** Formatting only fills in text: the cache invariant still holds, and the change is one
      any other goroutine may observe. */
  lemma FormattingKeepsCacheValid(c: Cache, id: EntryId, symbolize: seq<Word> -> seq<Frame>)
    requires Valid(c) && id in c.store
    ensures Valid(c.(store := LazyFormat(c.store, id, symbolize).1))
    ensures MayInterfere(c, c.(store := LazyFormat(c.store, id, symbolize).1))
  {
    var c' := c.(store := LazyFormat(c.store, id, symbolize).1);
    assert Resolves(c') by {
      forall h, x | h in c'.buckets && x in c'.buckets[h]
        ensures x in c'.store && Fingerprint(c'.store[x].pc) == h
      {
        assert x in c.buckets[h];
      }
    }
    assert Reachable(c') by {
      forall x | x in c'.live
        ensures x in Bucket(c', Fingerprint(c'.store[x].pc))
      {
        assert x in Bucket(c, Fingerprint(c.store[x].pc));
      }
    }
    assert Deduplicated(c') by {
      forall h | h in c'.buckets
        ensures NoLiveDuplicates(c'.buckets[h], c'.store, c'.live)
      {
        var ch := c.buckets[h];
        assert NoLiveDuplicates(ch, c.store, c.live);
        forall i, j | 0 <= i < j < |ch| && ch[i] in c'.live && ch[j] in c'.live
          ensures ch[i] in c'.store && ch[j] in c'.store && c'.store[ch[i]].pc != c'.store[ch[j]].pc
        {
        }
      }
    }
  }

  /** Get-or-create never writes a formatted text of its own: a fresh entry starts with
      the gate unset, and every other entry comes from the state before the call or from
      the state other goroutines left. So if every text already stored in those two states
      is a symbolisation, so is every text after the call. */
  lemma GetOrCreateKeepsWellFormatted(c: Cache, race: Cache, pcs: seq<Word>, symbolize: seq<Word> -> seq<Frame>)
    requires Valid(c) && Valid(race) && MayInterfere(c, race)
    requires WellFormatted(c.store, symbolize) && WellFormatted(race.store, symbolize)
    ensures WellFormatted(GetOrCreate(c, race, pcs).cache.store, symbolize)
  {
  }

  /** The whole capture keeps every stored text a symbolisation of its frames, given the
      same of the state other goroutines leave between the lock phases. */
  lemma CaptureKeepsWellFormatted(rt: Runtime, site: CallSite, symbolize: seq<Word> -> seq<Frame>)
    requires Valid(rt.cache) && Valid(site.race) && MayInterfere(rt.cache, site.race)
    requires WellFormatted(rt.cache.store, symbolize) && WellFormatted(site.race.store, symbolize)
    ensures WellFormatted(CaptureStack(rt, site).1.cache.store, symbolize)
  {
    GetOrCreateKeepsWellFormatted(rt.cache, site.race, CaptureFrames(site.stack, Acquire(rt.pool).capacity).pcs, symbolize);
  }

  /** `formatStack` of the `%+v` verb: the stored text when it is non-empty, otherwise the
      frames resolved afresh, and nothing stored. */
  function FormatStack(e: Entry, symbolize: seq<Word> -> seq<Frame>): string {
    if Formatted(e) != "" then Formatted(e) else Concat(ResolvedLines(e.pc, symbolize))
  }

  /** `%+v` and `StackTrace` agree on every non-empty stack, formatted or not; on an empty
      stack `%+v` writes the zero frame's line "\n:0 " where `StackTrace` returns "". */
  lemma FormatStackAgreesWithStackTrace(e: Entry, symbolize: seq<Word> -> seq<Frame>)
    ensures (e.formatted.None? || e.formatted == Some(FormatStackTrace(e.pc, symbolize))) && |e.pc| > 0 ==>
      FormatStack(e, symbolize) == FormatStackTrace(e.pc, symbolize)
    ensures |e.pc| == 0 && |symbolize(e.pc)| == 0 && Formatted(e) == "" ==> FormatStack(e, symbolize) == "\n:0 "
  {
    if |e.pc| == 0 && |symbolize(e.pc)| == 0 {
      assert NatDigits(0) == "0";
      assert FrameLine(ZeroFrame) == "\n:0 ";
      assert Concat([FrameLine(ZeroFrame)]) == FrameLine(ZeroFrame) + Concat([]);
    }
  }
}
