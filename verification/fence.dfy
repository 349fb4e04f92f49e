/** The CPU/GPU fence protocol. The GPU is replaced by a counter: the CPU
    signals increasing values after each submission and the GPU reports the
    last value it has reached. */
module Fences {

  /** `current` is the last value the CPU has signalled (mCurrentFence);
      `completed` is the last value the GPU queue has reached. */
  datatype Timeline = Timeline(current: nat, completed: nat)
  {
    /** The GPU never gets ahead of the work it was given. */
    predicate Valid()
    {
      completed <= current
    }
  }

  /** GetCompletedValue: the progress `gpu` reported by the queue. A fence
      never runs backwards and never passes the last signalled value, so an
      arbitrary report is read within those two bounds. */
  function Observe(tl: Timeline, gpu: nat): (r: Timeline)
    requires tl.Valid()
    ensures r.Valid() && r.current == tl.current
    ensures tl.completed <= r.completed
    ensures tl.completed <= gpu <= tl.current ==> r.completed == gpu
  {
    var seen := if gpu < tl.completed then tl.completed else if gpu > tl.current then tl.current else gpu;
    tl.(completed := seen)
  }

  /** A slot stamped with `fence` may be rewritten: it was never submitted,
      or the GPU has finished the submission that used it. */
  predicate Released(tl: Timeline, fence: nat)
  {
    fence == 0 || fence <= tl.completed
  }

  /** The wait at the top of Update: when the slot is still in flight, the
      CPU blocks on an event that fires once the GPU reaches `fence`. The
      wait returns at the earliest such moment. */
  function AwaitFence(tl: Timeline, fence: nat): (r: Timeline)
    requires tl.Valid() && fence <= tl.current
    ensures r.Valid() && r.current == tl.current
    ensures Released(r, fence)
    ensures tl.completed <= r.completed
    ensures Released(tl, fence) ==> r == tl
    ensures !Released(tl, fence) ==> r.completed == fence
  {
    if fence != 0 && tl.completed < fence then tl.(completed := fence) else tl
  }

  /** `++mCurrentFence` followed by Signal: the new value is above every
      value signalled before, and the GPU has not reached it yet. */
  function Signal(tl: Timeline): (r: Timeline)
    requires tl.Valid()
    ensures r.Valid()
    ensures r.current > tl.current && r.current > 0
    ensures r.current == tl.current + 1
    ensures r.completed == tl.completed && r.completed < r.current
  {
    tl.(current := tl.current + 1)
  }

  /** FlushCommandQueue: signal a new value and block until the GPU has
      reached it, so that no submission is left in flight. */
  function Flush(tl: Timeline): (r: Timeline)
    requires tl.Valid()
    ensures r.Valid()
    ensures r.current == tl.current + 1 && r.completed == r.current
    ensures forall fence: nat :: fence <= r.current ==> Released(r, fence)
  {
    var signalled := Signal(tl);
    AwaitFence(signalled, signalled.current)
  }

  /** n flushes in a row. Each one signals a fresh value and waits for it,
      so after at least one the queue is idle at the last value signalled;
      zero flushes leave the timeline alone. */
  function Flushes(tl: Timeline, n: nat): (r: Timeline)
    requires tl.Valid()
    ensures r.Valid()
    ensures r.current == tl.current + n
    ensures n > 0 ==> r.completed == r.current
    ensures n == 0 ==> r == tl
    ensures n > 0 ==> forall fence: nat :: fence <= r.current ==> Released(r, fence)
    decreases n
  {
    if n == 0 then tl else Flush(Flushes(tl, n - 1))
  }
}
