/** Frame capture into a pooled scratch buffer (stack.go, `getOrCreateStack` lines 22-39)
    and the buffer pool itself (zerr.go, `pcPool`). `runtime.Callers` is an oracle: the
    call stack it would walk is a parameter, and a call writes as many of its frames as
    fit into the buffer. */
module Capture {
  import opened Frames

  /** Length of a buffer the pool creates when it has none to hand out. */
  const InitialBufferLength: nat := 128

  /** The idle buffers of the pool, by capacity (their contents are dead data). */
  datatype Pool = Pool(free: seq<nat>)

  /** Every buffer in the pool can hold at least the initial 128 frames. */
  ghost predicate PoolValid(pool: Pool) {
    forall i :: 0 <= i < |pool.free| ==> pool.free[i] >= InitialBufferLength
  }

  datatype Acquired = Acquired(capacity: nat, rest: Pool)

  /** `pcPool.Get()`: hands out an idle buffer, or a new 128-slot buffer when none is idle. */
  function Acquire(pool: Pool): (r: Acquired)
    ensures PoolValid(pool) ==> PoolValid(r.rest) && r.capacity >= InitialBufferLength
    ensures |pool.free| == 0 ==> r == Acquired(InitialBufferLength, pool)
    ensures |pool.free| > 0 ==> |r.rest.free| + 1 == |pool.free|
                                && multiset(r.rest.free) + multiset{r.capacity} == multiset(pool.free)
  {
    if |pool.free| == 0 then Acquired(InitialBufferLength, pool)
    else
      var last := |pool.free| - 1;
      assert pool.free == pool.free[..last] + [pool.free[last]];
      Acquired(pool.free[last], Pool(pool.free[..last]))
  }

  /** `pcPool.Put(pcsPtr)`: the buffer becomes idle again, keeping its capacity. */
  function Release(pool: Pool, capacity: nat): (r: Pool)
    ensures multiset(r.free) == multiset(pool.free) + multiset{capacity}
    ensures PoolValid(pool) && capacity >= InitialBufferLength ==> PoolValid(r)
  {
    Pool(pool.free + [capacity])
  }

  /** `runtime.Callers(skip+1, buf)` with `|buf| == length`: the first
      `min(|stack|, length)` frames of the stack, in order. */
  function Callers(stack: seq<Word>, length: nat): (pcs: seq<Word>)
    ensures |pcs| <= length
    ensures |pcs| == length || pcs == stack
    ensures pcs <= stack
  {
    if |stack| <= length then stack else stack[..length]
  }

  /** The outcome of a capture: the trimmed frames and the length of the buffer that
      holds them (the buffer that goes back to the pool). */
  datatype Captured = Captured(pcs: seq<Word>, bufferLength: nat)

  /** Capture with one growth step: the buffer is used at its full capacity; when the
      first capture fills it exactly, a buffer of twice the length is made and the capture
      repeated once; the result is trimmed to the number of frames written. */
  function CaptureFrames(stack: seq<Word>, capacity: nat): (r: Captured)
    ensures |r.pcs| <= r.bufferLength
    ensures r.pcs <= stack
    ensures |r.pcs| == r.bufferLength || r.pcs == stack
    ensures r.bufferLength == (if |stack| >= capacity then 2 * capacity else capacity)
    ensures |stack| < 2 * capacity ==> r.pcs == stack
    ensures |stack| > 2 * capacity ==> |r.pcs| == 2 * capacity
  {
    var first := Callers(stack, capacity);
    if |first| == capacity then
      Captured(Callers(stack, 2 * capacity), 2 * capacity)
    else
      Captured(first, capacity)
  }
}
