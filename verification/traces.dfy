/** Properties of the frame loop over runs of many ticks: the rotation of
    the slot index, the dirty countdowns, the fence stamps and the wait
    protocol, and the propagation of a static change into every slot. */
module Traces {
  import opened FrameBuffers
  import opened Fences
  import opened Scene
  import opened UpdatePasses
  import opened Renderer

  /** The state after the first t ticks of a run fed with `inputs`. */
  function StateAt(s: State, inputs: seq<TickInput>, t: nat): (r: State)
    requires Inv(s) && t <= |inputs|
    ensures Inv(r)
    ensures |r.items| == |s.items| && |r.materials| == |s.materials|
    decreases t, 0
  {
    if t == 0 then s else After(s, inputs, t - 1)
  }

  /** The state after tick t of the run. */
  function After(s: State, inputs: seq<TickInput>, t: nat): (r: State)
    requires Inv(s) && t < |inputs|
    ensures Inv(r)
    ensures |r.items| == |s.items| && |r.materials| == |s.materials|
    decreases t, 1
  {
    Tick(StateAt(s, inputs, t), inputs[t])
  }

  /** Tick t takes the state before it to the state after it. */
  lemma StateStep(s: State, inputs: seq<TickInput>, t: nat)
    requires Inv(s) && t < |inputs|
    ensures StateAt(s, inputs, t + 1) == Tick(StateAt(s, inputs, t), inputs[t])
  {
  }

  /** The same step, read from the state after it. */
  lemma StepBack(s: State, inputs: seq<TickInput>, t: nat)
    requires Inv(s) && 0 < t <= |inputs|
    ensures StateAt(s, inputs, t) == Tick(StateAt(s, inputs, t - 1), inputs[t - 1])
  {
  }

  /** The application loop: one Update and one Draw per input. */
  method Run(s: State, inputs: seq<TickInput>) returns (final: State)
    requires Inv(s)
    ensures Inv(final) && final == StateAt(s, inputs, |inputs|)
  {
    final := s;
    var i := 0;
    while i < |inputs|
      invariant 0 <= i <= |inputs|
      invariant final == StateAt(s, inputs, i)
    {
      StateStep(s, inputs, i);
      final := Tick(final, inputs[i]);
      i := i + 1;
    }
  }

  /** A tick depends only on the inputs up to it: extending the input
      sequence does not change the states already reached. */
  lemma StateAtPrefix(s: State, inputs: seq<TickInput>, more: seq<TickInput>, t: nat)
    requires Inv(s) && t <= |inputs|
    ensures StateAt(s, inputs + more, t) == StateAt(s, inputs, t)
    decreases t
  {
    if t > 0 {
      StateAtPrefix(s, inputs, more, t - 1);
      StepBack(s, inputs, t);
      StepBack(s, inputs + more, t);
      assert (inputs + more)[t - 1] == inputs[t - 1];
    }
  }

  /** The state reached from st by the ticks `rest`, taken front first. */
  function Final(st: State, rest: seq<TickInput>): (r: State)
    requires Inv(st)
    ensures Inv(r) && |r.items| == |st.items| && |r.materials| == |st.materials|
    decreases |rest|
  {
    if |rest| == 0 then st else Final(Tick(st, rest[0]), rest[1..])
  }

  /** Final takes the first tick, then the remaining ones. */
  lemma FinalStep(st: State, rest: seq<TickInput>)
    requires Inv(st) && |rest| > 0
    ensures Final(st, rest) == Final(Tick(st, rest[0]), rest[1..])
  {
  }

  /** A run read from tick t0 on: the state after tick t is the state at t0
      run through the inputs between them. */
  lemma {:induction false} StateAtFinal(s: State, inputs: seq<TickInput>, t0: nat, t: nat)
    requires Inv(s) && t0 <= t <= |inputs|
    ensures StateAt(s, inputs, t) == Final(StateAt(s, inputs, t0), inputs[t0..t])
    decreases t - t0
  {
    if t0 < t {
      var rest := inputs[t0..t];
      assert rest[0] == inputs[t0] && rest[1..] == inputs[t0 + 1..t];
      StateStep(s, inputs, t0);
      FinalStep(StateAt(s, inputs, t0), rest);
      StateAtFinal(s, inputs, t0 + 1, t);
    }
  }

  // ---------------------------------------------------------------------
  // What each tick of a run did
  // ---------------------------------------------------------------------

  /** The slot tick t selected and wrote into. */
  function SlotUsed(s: State, inputs: seq<TickInput>, t: nat): (k: nat)
    requires Inv(s) && t < |inputs|
    ensures k < NumFrameBuffers
  {
    StateAt(s, inputs, t + 1).current
  }

  /** The fence the slot carried when tick t selected it: the value the tick
      waited for. */
  function WaitedOn(s: State, inputs: seq<TickInput>, t: nat): nat
    requires Inv(s) && t < |inputs|
  {
    StateAt(s, inputs, t).frameBuffers[SlotUsed(s, inputs, t)].fence
  }

  /** The progress of the GPU when tick t wrote into its slot. Draw does not
      change it, so it is the value after the tick. */
  function CompletedAt(s: State, inputs: seq<TickInput>, t: nat): nat
    requires Inv(s) && t < |inputs|
  {
    StateAt(s, inputs, t + 1).fence.completed
  }

  /** The fence value tick t stamped on its slot. */
  function StampOf(s: State, inputs: seq<TickInput>, t: nat): nat
    requires Inv(s) && t < |inputs|
  {
    StateAt(s, inputs, t + 1).frameBuffers[SlotUsed(s, inputs, t)].fence
  }

  // ---------------------------------------------------------------------
  // Rotation
  // ---------------------------------------------------------------------

  /** The slot index n ticks after index c. */
  function SlotAfter(c: nat, n: nat): (r: nat)
    requires c < NumFrameBuffers
    ensures r < NumFrameBuffers
  {
    if n == 0 then c else NextIndex(SlotAfter(c, n - 1))
  }

  /** Going round the pool is counting modulo its depth. */
  lemma {:induction false} SlotAfterIsModular(c: nat, n: nat)
    requires c < NumFrameBuffers
    ensures SlotAfter(c, n) == (c + n) % NumFrameBuffers
  {
    if n > 0 {
      SlotAfterIsModular(c, n - 1);
    }
  }

  /** N ticks bring the index back to where it was. */
  lemma SlotAfterPeriod(c: nat, n: nat)
    requires c < NumFrameBuffers
    ensures SlotAfter(c, n + NumFrameBuffers) == SlotAfter(c, n)
  {
    SlotAfterIsModular(c, n);
    SlotAfterIsModular(c, n + NumFrameBuffers);
  }

  /** Fewer than N ticks apart, the index differs. */
  lemma {:induction false} SlotAfterDistinct(c: nat, a: nat, b: nat)
    requires c < NumFrameBuffers && a < b < a + NumFrameBuffers
    ensures SlotAfter(c, a) != SlotAfter(c, b)
  {
    SlotAfterIsModular(c, a);
    SlotAfterIsModular(c, b);
  }

  /** After t ticks the index has moved t places round the pool. */
  lemma Rotation(s: State, inputs: seq<TickInput>, t: nat)
    requires Inv(s) && t <= |inputs|
    ensures StateAt(s, inputs, t).current == SlotAfter(s.current, t)
    decreases t
  {
    if t > 0 {
      Rotation(s, inputs, t - 1);
      StepBack(s, inputs, t);
    }
  }

  /** Tick t uses the slot t + 1 places after the starting index. */
  lemma SlotAt(s: State, inputs: seq<TickInput>, t: nat)
    requires Inv(s) && t < |inputs|
    ensures SlotUsed(s, inputs, t) == SlotAfter(s.current, t + 1)
  {
    Rotation(s, inputs, t + 1);
  }

  /** The tick, among the next N, at which the loop started at slot c uses
      slot k. */
  function FirstVisit(c: nat, k: nat): (t: nat)
    requires c < NumFrameBuffers && k < NumFrameBuffers
    ensures t < NumFrameBuffers
  {
    if c < k then k - c - 1 else k + NumFrameBuffers - c - 1
  }

  /** Within N consecutive ticks each slot is used at exactly one tick. */
  lemma VisitUnique(c: nat, k: nat, t: nat)
    requires c < NumFrameBuffers && k < NumFrameBuffers && t < NumFrameBuffers
    ensures SlotAfter(c, t + 1) == k <==> t == FirstVisit(c, k)
  {
    SlotAfterIsModular(c, t + 1);
  }

  // ---------------------------------------------------------------------
  // Countdowns
  // ---------------------------------------------------------------------

  /** A countdown after n ticks: it drops by one per tick and stops at 0. */
  function CountdownAfter(count: int, n: nat): (r: int)
    ensures r >= 0 && (count >= 0 ==> r <= count)
    ensures r > 0 <==> n < count
  {
    if count > n then count - n else 0
  }

  /** After t ticks a static item's countdown has dropped by t, stopping at
      0, and a moving item is as it was. */
  lemma ItemAt(s: State, inputs: seq<TickInput>, t: nat, j: nat)
    requires Inv(s) && t <= |inputs| && j < |s.items|
    ensures var item := s.items[j];
            StateAt(s, inputs, t).items[j]
              == if item.isStatic then item.(numFrameBufferFill := CountdownAfter(item.numFrameBufferFill, t)) else item
    decreases t
  {
    assert ItemCountdownInRange(s.items, j);
    if t > 0 {
      ItemAt(s, inputs, t - 1, j);
      StepBack(s, inputs, t);
    }
  }

  /** After t ticks a material's dirty count has dropped by t, stopping at 0. */
  lemma MaterialAt(s: State, inputs: seq<TickInput>, t: nat, m: nat)
    requires Inv(s) && t <= |inputs| && m < |s.materials|
    ensures var mat := s.materials[m];
            StateAt(s, inputs, t).materials[m] == mat.(numFramesDirty := CountdownAfter(mat.numFramesDirty, t))
    decreases t
  {
    assert MaterialCountdownInRange(s.materials, m);
    if t > 0 {
      MaterialAt(s, inputs, t - 1, m);
      StepBack(s, inputs, t);
    }
  }

  /** Tick t writes object record j into the slot it uses: item j is due
      when the object pass reaches it. */
  predicate ObjectWritten(s: State, inputs: seq<TickInput>, t: nat, j: nat)
    requires Inv(s) && t < |inputs|
  {
    j < |s.items| && ItemDue(StateAt(s, inputs, t).items[j])
  }

  /** Tick t writes material record m into the slot it uses: material m is
      dirty when the material pass reaches it. */
  predicate MaterialWritten(s: State, inputs: seq<TickInput>, t: nat, m: nat)
    requires Inv(s) && t < |inputs|
  {
    m < |s.materials| && MaterialDue(StateAt(s, inputs, t).materials[m])
  }

  /** What ObjectWritten means for the pool: when it holds, object record j
      of the slot tick t used holds the item's record after the tick;
      otherwise that record is as it was before the tick. */
  lemma ObjectWriteLands(s: State, inputs: seq<TickInput>, t: nat, j: nat)
    requires Inv(s) && t < |inputs|
    ensures var k := SlotUsed(s, inputs, t);
            var pre := StateAt(s, inputs, t);
            var before := pre.frameBuffers[k].objects.records;
            var after := StateAt(s, inputs, t + 1).frameBuffers[k].objects.records;
            if ObjectWritten(s, inputs, t, j) then
              j in after && after[j] == ObjectRecord(pre.items, j, pre.materials, inputs[t].time)
            else
              (j in after <==> j in before) && (j in before ==> after[j] == before[j])
  {
    StateStep(s, inputs, t);
    TickObjectRecord(StateAt(s, inputs, t), inputs[t], j);
  }

  /** The same for material record m and MaterialWritten. */
  lemma MaterialWriteLands(s: State, inputs: seq<TickInput>, t: nat, m: nat)
    requires Inv(s) && t < |inputs|
    ensures var k := SlotUsed(s, inputs, t);
            var pre := StateAt(s, inputs, t);
            var before := pre.frameBuffers[k].materials.records;
            var after := StateAt(s, inputs, t + 1).frameBuffers[k].materials.records;
            if MaterialWritten(s, inputs, t, m) then
              m in after && after[m] == MaterialRecord(pre.materials[m])
            else
              (m in after <==> m in before) && (m in before ==> after[m] == before[m])
  {
    StateStep(s, inputs, t);
    TickMaterialRecord(StateAt(s, inputs, t), inputs[t], m);
  }

  /** Tick t writes object record j exactly when item j moves or its
      countdown, as it stood when the run started, exceeds t. */
  lemma ItemWrittenAt(s: State, inputs: seq<TickInput>, t: nat, j: nat)
    requires Inv(s) && t < |inputs|
    ensures ObjectWritten(s, inputs, t, j) <==> j < |s.items| && (!s.items[j].isStatic || t < s.items[j].numFrameBufferFill)
  {
    if j < |s.items| {
      ItemAt(s, inputs, t, j);
    }
  }

  /** Tick t writes material record m exactly when the material's dirty
      count, as it stood when the run started, exceeds t. */
  lemma MaterialWrittenAt(s: State, inputs: seq<TickInput>, t: nat, m: nat)
    requires Inv(s) && t < |inputs|
    ensures MaterialWritten(s, inputs, t, m) <==> m < |s.materials| && t < s.materials[m].numFramesDirty
  {
    if m < |s.materials| {
      MaterialAt(s, inputs, t, m);
    }
  }

  /** The ticks of the run at which object record j was written into slot k. */
  function ObjectWriteTicks(s: State, inputs: seq<TickInput>, k: nat, j: nat): set<nat>
    requires Inv(s)
  {
    set t: nat | t < |inputs| && SlotUsed(s, inputs, t) == k && ObjectWritten(s, inputs, t, j)
  }

  /** The ticks of the run at which material record m was written into slot k. */
  function MaterialWriteTicks(s: State, inputs: seq<TickInput>, k: nat, m: nat): set<nat>
    requires Inv(s)
  {
    set t: nat | t < |inputs| && SlotUsed(s, inputs, t) == k && MaterialWritten(s, inputs, t, m)
  }

  /** A moving item is written on every tick. */
  lemma MovingItemAlwaysWritten(s: State, inputs: seq<TickInput>, j: nat)
    requires Inv(s) && j < |s.items| && !s.items[j].isStatic
    ensures forall t :: 0 <= t < |inputs| ==> ObjectWritten(s, inputs, t, j)
  {
    forall t | 0 <= t < |inputs|
      ensures ObjectWritten(s, inputs, t, j)
    {
      ItemWrittenAt(s, inputs, t, j);
    }
  }

  /** A static item whose countdown is spent is written nowhere. */
  lemma SettledItemNeverWritten(s: State, inputs: seq<TickInput>, j: nat)
    requires Inv(s) && j < |s.items| && s.items[j].isStatic && s.items[j].numFrameBufferFill == 0
    ensures forall t :: 0 <= t < |inputs| ==> !ObjectWritten(s, inputs, t, j)
  {
    forall t | 0 <= t < |inputs|
      ensures !ObjectWritten(s, inputs, t, j)
    {
      ItemWrittenAt(s, inputs, t, j);
    }
  }

  /** Propagation of a static item: starting from a full countdown, its
      record goes into each slot at exactly one tick among the first N, and
      into no slot after that. */
  lemma StaticItemWrittenOncePerSlot(s: State, inputs: seq<TickInput>, j: nat, k: nat)
    requires Inv(s) && j < |s.items| && k < NumFrameBuffers
    requires s.items[j].isStatic && s.items[j].numFrameBufferFill == NumFrameBuffers
    ensures ObjectWriteTicks(s, inputs, k, j)
              == if FirstVisit(s.current, k) < |inputs| then {FirstVisit(s.current, k)} else {}
    ensures |inputs| >= NumFrameBuffers ==> |ObjectWriteTicks(s, inputs, k, j)| == 1
    ensures forall t :: NumFrameBuffers <= t < |inputs| ==> !ObjectWritten(s, inputs, t, j)
  {
    var v := FirstVisit(s.current, k);
    forall t: nat
      ensures t in ObjectWriteTicks(s, inputs, k, j) <==> t < |inputs| && t == v
    {
      if t < |inputs| {
        ItemWrittenAt(s, inputs, t, j);
        SlotAt(s, inputs, t);
        if t < NumFrameBuffers {
          VisitUnique(s.current, k, t);
        }
      }
    }
    forall t | NumFrameBuffers <= t < |inputs|
      ensures !ObjectWritten(s, inputs, t, j)
    {
      ItemWrittenAt(s, inputs, t, j);
    }
  }

  /** The same exactly-once propagation for a material marked dirty for N
      frames. */
  lemma DirtyMaterialWrittenOncePerSlot(s: State, inputs: seq<TickInput>, m: nat, k: nat)
    requires Inv(s) && m < |s.materials| && k < NumFrameBuffers
    requires s.materials[m].numFramesDirty == NumFrameBuffers
    ensures MaterialWriteTicks(s, inputs, k, m)
              == if FirstVisit(s.current, k) < |inputs| then {FirstVisit(s.current, k)} else {}
    ensures |inputs| >= NumFrameBuffers ==> |MaterialWriteTicks(s, inputs, k, m)| == 1
    ensures forall t :: NumFrameBuffers <= t < |inputs| ==> !MaterialWritten(s, inputs, t, m)
  {
    var v := FirstVisit(s.current, k);
    forall t: nat
      ensures t in MaterialWriteTicks(s, inputs, k, m) <==> t < |inputs| && t == v
    {
      if t < |inputs| {
        MaterialWrittenAt(s, inputs, t, m);
        SlotAt(s, inputs, t);
        if t < NumFrameBuffers {
          VisitUnique(s.current, k, t);
        }
      }
    }
    forall t | NumFrameBuffers <= t < |inputs|
      ensures !MaterialWritten(s, inputs, t, m)
    {
      MaterialWrittenAt(s, inputs, t, m);
    }
  }

  // ---------------------------------------------------------------------
  // Fences
  // ---------------------------------------------------------------------

  /** The fence value after t ticks: one fresh value per tick, counting up
      from the fence the run started with. */
  lemma FenceAt(s: State, inputs: seq<TickInput>, t: nat)
    requires Inv(s) && t <= |inputs|
    ensures StateAt(s, inputs, t).fence.current == s.fence.current + t
    decreases t
  {
    if t > 0 {
      FenceAt(s, inputs, t - 1);
      StepBack(s, inputs, t);
    }
  }

  /** What one tick does to the fences: slot k's fence never decreases, a
      slot the tick does not use keeps its fence, the slot it uses gets the
      fresh fence value, and the tick wrote into that slot only once the GPU
      had completed the fence it carried. */
  lemma FenceStep(s: State, inputs: seq<TickInput>, t: nat, k: nat)
    requires Inv(s) && t < |inputs| && k < NumFrameBuffers
    ensures var before := StateAt(s, inputs, t).frameBuffers;
            var after := StateAt(s, inputs, t + 1).frameBuffers;
            && before[k].fence <= after[k].fence
            && (SlotUsed(s, inputs, t) != k ==> after[k].fence == before[k].fence)
            && StampOf(s, inputs, t) == StateAt(s, inputs, t + 1).fence.current
            && (WaitedOn(s, inputs, t) == 0 || WaitedOn(s, inputs, t) <= CompletedAt(s, inputs, t))
  {
    StateStep(s, inputs, t);
  }

  /** The stamp of tick t: the starting fence plus t + 1. */
  lemma StampAt(s: State, inputs: seq<TickInput>, t: nat)
    requires Inv(s) && t < |inputs|
    ensures StampOf(s, inputs, t) == s.fence.current + t + 1
  {
    FenceStep(s, inputs, t, 0);
    FenceAt(s, inputs, t + 1);
  }

  /** Stamps are fresh and strictly increase along a run. */
  lemma StampsIncrease(s: State, inputs: seq<TickInput>, t: nat, t': nat)
    requires Inv(s) && t < t' < |inputs|
    ensures s.fence.current < StampOf(s, inputs, t) < StampOf(s, inputs, t')
  {
    StampAt(s, inputs, t);
    StampAt(s, inputs, t');
  }

  /** When a slot was last used: never yet, or at a given tick. */
  datatype Use = Never | At(tick: nat)

  /** The last of the first t ticks that used slot k, the loop having
      started at slot c. */
  function LastUse(c: nat, k: nat, t: nat): (r: Use)
    requires c < NumFrameBuffers
    ensures r.At? ==> r.tick < t && SlotAfter(c, r.tick + 1) == k
    ensures forall u :: 0 < u <= t && SlotAfter(c, u) == k ==> r.At? && u <= r.tick + 1
  {
    if t == 0 then Never
    else if SlotAfter(c, t) == k then At(t - 1)
    else LastUse(c, k, t - 1)
  }

  /** The fence slot k carries after t ticks, in closed form: the stamp of
      the last tick that used it, or the fence it had when the run started. */
  function FenceAfter(s: State, k: nat, t: nat): nat
    requires Inv(s) && k < NumFrameBuffers
  {
    match LastUse(s.current, k, t)
    case Never => s.frameBuffers[k].fence
    case At(u) => s.fence.current + u + 1
  }

  /** The closed form one tick later: the tick's stamp if it used slot k,
      the same fence otherwise. */
  lemma FenceAfterStep(s: State, k: nat, t: nat)
    requires Inv(s) && k < NumFrameBuffers
    ensures FenceAfter(s, k, t + 1) == if SlotAfter(s.current, t + 1) == k then s.fence.current + t + 1 else FenceAfter(s, k, t)
  {
  }

  /** A state reached after t ticks, read in closed form: its slot index
      has moved t places, its fence value has gone up by t, and slot k
      carries the fence of its last use. */
  predicate FenceClosed(s: State, st: State, k: nat, t: nat)
    requires Inv(s) && Inv(st) && k < NumFrameBuffers
  {
    && st.current == SlotAfter(s.current, t)
    && st.fence.current == s.fence.current + t
    && st.frameBuffers[k].fence == FenceAfter(s, k, t)
  }

  /** One tick keeps the closed form. */
  lemma TickKeepsFenceClosed(s: State, st: State, input: TickInput, k: nat, t: nat)
    requires Inv(s) && Inv(st) && k < NumFrameBuffers
    requires FenceClosed(s, st, k, t)
    ensures FenceClosed(s, Tick(st, input), k, t + 1)
  {
    FenceAfterStep(s, k, t);
  }

  /** Slot k's fence after t ticks is given by the closed form. */
  lemma SlotFenceAt(s: State, inputs: seq<TickInput>, t: nat, k: nat)
    requires Inv(s) && t <= |inputs| && k < NumFrameBuffers
    ensures StateAt(s, inputs, t).frameBuffers[k].fence == FenceAfter(s, k, t)
  {
    var st := s;
    var i := 0;
    while i < t
      invariant 0 <= i <= t && st == StateAt(s, inputs, i)
      invariant Inv(st) && FenceClosed(s, st, k, i)
    {
      StateStep(s, inputs, i);
      TickKeepsFenceClosed(s, st, inputs[i], k, i);
      st := Tick(st, inputs[i]);
      i := i + 1;
    }
  }

  /** The closed form never decreases: a later last use has a later stamp,
      and every stamp is above the fences the pool started with. */
  lemma FenceAfterMonotone(s: State, k: nat, t0: nat, t: nat)
    requires Inv(s) && k < NumFrameBuffers && t0 <= t
    ensures FenceAfter(s, k, t0) <= FenceAfter(s, k, t)
  {
    assert s.frameBuffers[k].fence <= s.fence.current;
    var r0 := LastUse(s.current, k, t0);
    if r0.At? {
      assert 0 < r0.tick + 1 <= t && SlotAfter(s.current, r0.tick + 1) == k;
    }
  }

  /** A slot's fence never decreases over a run. */
  lemma FenceMonotone(s: State, inputs: seq<TickInput>, t0: nat, t: nat, k: nat)
    requires Inv(s) && t0 <= t <= |inputs| && k < NumFrameBuffers
    ensures StateAt(s, inputs, t0).frameBuffers[k].fence <= StateAt(s, inputs, t).frameBuffers[k].fence
  {
    SlotFenceAt(s, inputs, t0, k);
    SlotFenceAt(s, inputs, t, k);
    FenceAfterMonotone(s, k, t0, t);
  }

  /** The slot tick t uses was last used N ticks earlier, or never during
      the first N ticks. */
  lemma LastUseOfNextSlot(c: nat, t: nat)
    requires c < NumFrameBuffers
    ensures LastUse(c, SlotAfter(c, t + 1), t)
              == if t < NumFrameBuffers then Never else At(t - NumFrameBuffers)
  {
    var r := LastUse(c, SlotAfter(c, t + 1), t);
    if NumFrameBuffers <= t {
      SlotAfterPeriod(c, t - NumFrameBuffers + 1);
    }
    if r.At? && (t < NumFrameBuffers || r.tick != t - NumFrameBuffers) {
      SlotAfterDistinct(c, r.tick + 1, t + 1);
    }
  }

  /** A tick waits on the closed-form fence of the slot it uses. */
  lemma WaitsOnFenceAfter(s: State, inputs: seq<TickInput>, t: nat)
    requires Inv(s) && t < |inputs|
    ensures SlotUsed(s, inputs, t) == SlotAfter(s.current, t + 1)
    ensures WaitedOn(s, inputs, t) == FenceAfter(s, SlotAfter(s.current, t + 1), t)
  {
    SlotAt(s, inputs, t);
    SlotFenceAt(s, inputs, t, SlotAfter(s.current, t + 1));
  }

  /** Whenever a run writes into a slot, the GPU has completed at least the
      fence that slot carried when the run started. */
  lemma RunReleases(s: State, inputs: seq<TickInput>, t: nat)
    requires Inv(s) && t < |inputs|
    ensures s.frameBuffers[SlotUsed(s, inputs, t)].fence <= CompletedAt(s, inputs, t)
  {
    var k := SlotUsed(s, inputs, t);
    FenceMonotone(s, inputs, 0, t, k);
    FenceStep(s, inputs, t, k);
  }

  /** No slot is reused before its fence completes: whenever a tick writes
      into a slot, the GPU has completed every earlier submission that used
      the same slot. */
  lemma NoPrematureReuse(s: State, inputs: seq<TickInput>, t: nat, t': nat)
    requires Inv(s) && t < t' < |inputs|
    requires SlotUsed(s, inputs, t) == SlotUsed(s, inputs, t')
    ensures StampOf(s, inputs, t) <= CompletedAt(s, inputs, t')
  {
    SlotAt(s, inputs, t);
    StampAt(s, inputs, t);
    WaitsOnFenceAfter(s, inputs, t');
    FenceStep(s, inputs, t', 0);
  }

  /** The fence a tick waits on: for the first N ticks, the one the slot
      carried at the start; afterwards, the stamp given N ticks earlier, when
      the same slot was last used. */
  lemma WaitTarget(s: State, inputs: seq<TickInput>, t: nat)
    requires Inv(s) && t < |inputs|
    ensures WaitedOn(s, inputs, t)
              == if t < NumFrameBuffers then s.frameBuffers[SlotUsed(s, inputs, t)].fence
                 else StampOf(s, inputs, t - NumFrameBuffers)
  {
    WaitsOnFenceAfter(s, inputs, t);
    LastUseOfNextSlot(s.current, t);
    if NumFrameBuffers <= t {
      StampAt(s, inputs, t - NumFrameBuffers);
    }
  }

  // ---------------------------------------------------------------------
  // Record contents
  // ---------------------------------------------------------------------

  /** The record a static item writes: its own matrices and, the scene being
      well formed, its material's index. */
  function StaticRecord(item: RenderItem): ObjectConstants
  {
    ObjectConstants(item.world, item.texTransform, item.mat)
  }

  /** Slot k holds `rec` as object record j. */
  predicate HoldsObject(s: State, k: nat, j: nat, rec: ObjectConstants)
  {
    k < |s.frameBuffers| && j in s.frameBuffers[k].objects.records && s.frameBuffers[k].objects.records[j] == rec
  }

  /** A tick never replaces a static item's record by anything else, and
      writes it into the slot it uses while the countdown is positive. */
  lemma TickStaticRecord(s: State, input: TickInput, j: nat, k: nat)
    requires Inv(s) && j < |s.items| && s.items[j].isStatic && k < NumFrameBuffers
    ensures var s' := Tick(s, input);
            && StaticRecord(s'.items[j]) == StaticRecord(s.items[j])
            && (HoldsObject(s, k, j, StaticRecord(s.items[j])) ==> HoldsObject(s', k, j, StaticRecord(s.items[j])))
            && (s.items[j].numFrameBufferFill > 0 ==> HoldsObject(s', s'.current, j, StaticRecord(s.items[j])))
  {
    TickObjectRecord(s, input, j);
  }

  /** Any ticks keep a static item's record in a slot that holds it. */
  lemma {:induction false} FinalKeepsStatic(st: State, rest: seq<TickInput>, j: nat, k: nat, rec: ObjectConstants)
    requires Inv(st) && j < |st.items| && st.items[j].isStatic && StaticRecord(st.items[j]) == rec
    requires HoldsObject(st, k, j, rec)
    ensures HoldsObject(Final(st, rest), k, j, rec)
    decreases |rest|
  {
    if |rest| > 0 {
      TickStaticRecord(st, rest[0], j, k);
      FinalKeepsStatic(Tick(st, rest[0]), rest[1..], j, k, rec);
    }
  }

  /** A run keeps a static item's record wherever it already is. */
  lemma RunKeepsStaticRecord(s: State, inputs: seq<TickInput>, t0: nat, t: nat, j: nat, k: nat)
    requires Inv(s) && t0 <= t <= |inputs| && j < |s.items| && s.items[j].isStatic
    requires HoldsObject(StateAt(s, inputs, t0), k, j, StaticRecord(s.items[j]))
    ensures HoldsObject(StateAt(s, inputs, t), k, j, StaticRecord(s.items[j]))
  {
    ItemAt(s, inputs, t0, j);
    StateAtFinal(s, inputs, t0, t);
    FinalKeepsStatic(StateAt(s, inputs, t0), inputs[t0..t], j, k, StaticRecord(s.items[j]));
  }

  /** The first tick that uses slot k finds a full static countdown still
      positive, so it writes the item's record into the slot. */
  lemma FirstVisitWrites(s: State, inputs: seq<TickInput>, j: nat, k: nat)
    requires Inv(s) && j < |s.items| && k < NumFrameBuffers
    requires s.items[j].isStatic && s.items[j].numFrameBufferFill == NumFrameBuffers
    requires |inputs| >= NumFrameBuffers
    ensures HoldsObject(StateAt(s, inputs, FirstVisit(s.current, k) + 1), k, j, StaticRecord(s.items[j]))
  {
    var v := FirstVisit(s.current, k);
    SlotAt(s, inputs, v);
    VisitUnique(s.current, k, v);
    ItemAt(s, inputs, v, j);
    TickStaticRecord(StateAt(s, inputs, v), inputs[v], j, k);
    StateStep(s, inputs, v);
  }

  /** Propagation completeness: N ticks after a static item's countdown was
      full, every slot of the pool holds the item's current record, so no
      slot is left with stale data. */
  lemma StaticItemReachesEverySlot(s: State, inputs: seq<TickInput>, j: nat, k: nat)
    requires Inv(s) && j < |s.items| && k < NumFrameBuffers
    requires s.items[j].isStatic && s.items[j].numFrameBufferFill == NumFrameBuffers
    requires |inputs| >= NumFrameBuffers
    ensures HoldsObject(StateAt(s, inputs, |inputs|), k, j, StaticRecord(s.items[j]))
  {
    FirstVisitWrites(s, inputs, j, k);
    RunKeepsStaticRecord(s, inputs, FirstVisit(s.current, k) + 1, |inputs|, j, k);
  }

  /** Slot k holds `rec` as material record m. */
  predicate HoldsMaterial(s: State, k: nat, m: nat, rec: MaterialParameter)
  {
    k < |s.frameBuffers| && m in s.frameBuffers[k].materials.records && s.frameBuffers[k].materials.records[m] == rec
  }

  /** A tick never replaces a material's record by anything else, and writes
      it into the slot it uses while the material is dirty. */
  lemma TickMaterialKept(s: State, input: TickInput, m: nat, k: nat)
    requires Inv(s) && m < |s.materials| && k < NumFrameBuffers
    ensures var s' := Tick(s, input);
            && MaterialRecord(s'.materials[m]) == MaterialRecord(s.materials[m])
            && (HoldsMaterial(s, k, m, MaterialRecord(s.materials[m])) ==> HoldsMaterial(s', k, m, MaterialRecord(s.materials[m])))
            && (s.materials[m].numFramesDirty > 0 ==> HoldsMaterial(s', s'.current, m, MaterialRecord(s.materials[m])))
  {
    TickMaterialRecord(s, input, m);
  }

  /** Any ticks keep a material's record in a slot that holds it. */
  lemma {:induction false} FinalKeepsMaterial(st: State, rest: seq<TickInput>, m: nat, k: nat, rec: MaterialParameter)
    requires Inv(st) && m < |st.materials| && MaterialRecord(st.materials[m]) == rec
    requires HoldsMaterial(st, k, m, rec)
    ensures HoldsMaterial(Final(st, rest), k, m, rec)
    decreases |rest|
  {
    if |rest| > 0 {
      TickMaterialKept(st, rest[0], m, k);
      FinalKeepsMaterial(Tick(st, rest[0]), rest[1..], m, k, rec);
    }
  }

  /** A run keeps a material's record wherever it already is. */
  lemma RunKeepsMaterialRecord(s: State, inputs: seq<TickInput>, t0: nat, t: nat, m: nat, k: nat)
    requires Inv(s) && t0 <= t <= |inputs| && m < |s.materials|
    requires HoldsMaterial(StateAt(s, inputs, t0), k, m, MaterialRecord(s.materials[m]))
    ensures HoldsMaterial(StateAt(s, inputs, t), k, m, MaterialRecord(s.materials[m]))
  {
    MaterialAt(s, inputs, t0, m);
    StateAtFinal(s, inputs, t0, t);
    FinalKeepsMaterial(StateAt(s, inputs, t0), inputs[t0..t], m, k, MaterialRecord(s.materials[m]));
  }

  /** The first tick that uses slot k finds a material dirty for N frames
      still dirty, so it writes the material's record into the slot. */
  lemma FirstVisitWritesMaterial(s: State, inputs: seq<TickInput>, m: nat, k: nat)
    requires Inv(s) && m < |s.materials| && k < NumFrameBuffers
    requires s.materials[m].numFramesDirty == NumFrameBuffers
    requires |inputs| >= NumFrameBuffers
    ensures HoldsMaterial(StateAt(s, inputs, FirstVisit(s.current, k) + 1), k, m, MaterialRecord(s.materials[m]))
  {
    var v := FirstVisit(s.current, k);
    SlotAt(s, inputs, v);
    VisitUnique(s.current, k, v);
    MaterialAt(s, inputs, v, m);
    TickMaterialKept(StateAt(s, inputs, v), inputs[v], m, k);
    StateStep(s, inputs, v);
  }

  /** Propagation completeness for materials: N ticks after a material was
      marked dirty for N frames, every slot of the pool holds its record. */
  lemma DirtyMaterialReachesEverySlot(s: State, inputs: seq<TickInput>, m: nat, k: nat)
    requires Inv(s) && m < |s.materials| && k < NumFrameBuffers
    requires s.materials[m].numFramesDirty == NumFrameBuffers
    requires |inputs| >= NumFrameBuffers
    ensures HoldsMaterial(StateAt(s, inputs, |inputs|), k, m, MaterialRecord(s.materials[m]))
  {
    FirstVisitWritesMaterial(s, inputs, m, k);
    RunKeepsMaterialRecord(s, inputs, FirstVisit(s.current, k) + 1, |inputs|, m, k);
  }

  // ---------------------------------------------------------------------
  // The application's own start-up
  // ---------------------------------------------------------------------

  /** From the start-up state tick t uses slot (t + 1) mod N: the slots
      are used in the order 1, 2, 0, 1, 2, 0, ... */
  lemma StartupSlotOrder(items: seq<RenderItem>, materials: seq<Material>, flushed: nat, inputs: seq<TickInput>, t: nat)
    requires WellFormed(items, materials) && t < |inputs|
    ensures SlotUsed(Init(items, materials, flushed), inputs, t) == (t + 1) % NumFrameBuffers
  {
    SlotAt(Init(items, materials, flushed), inputs, t);
    SlotAfterIsModular(0, t + 1);
  }

  /** From the start-up state the first N ticks never wait (every slot is
      still unsubmitted), and each later tick waits on exactly the stamp of
      the tick N earlier. */
  lemma StartupWaits(items: seq<RenderItem>, materials: seq<Material>, flushed: nat, inputs: seq<TickInput>, t: nat)
    requires WellFormed(items, materials) && t < |inputs|
    ensures var s := Init(items, materials, flushed);
            WaitedOn(s, inputs, t) == if t < NumFrameBuffers then 0 else StampOf(s, inputs, t - NumFrameBuffers)
  {
    WaitTarget(Init(items, materials, flushed), inputs, t);
  }

  /** In the solar-system scene the ground plane reaches each of the three
      slots exactly once and is never written again, while every planet is
      written on every tick. */
  lemma SolarSystemPropagation(framesDirty: int, flushed: nat, inputs: seq<TickInput>)
    requires 0 <= framesDirty <= NumFrameBuffers && |inputs| >= NumFrameBuffers
    ensures var s := Init(SolarItems(), SolarMaterials(framesDirty), flushed);
            && (forall k :: 0 <= k < NumFrameBuffers ==> |ObjectWriteTicks(s, inputs, k, 0)| == 1)
            && (forall t :: NumFrameBuffers <= t < |inputs| ==> !ObjectWritten(s, inputs, t, 0))
            && (forall t, j :: 0 <= t < |inputs| && 1 <= j < 7 ==> ObjectWritten(s, inputs, t, j))
  {
    SolarSceneWellFormed(framesDirty);
    var s := Init(SolarItems(), SolarMaterials(framesDirty), flushed);
    forall k | 0 <= k < NumFrameBuffers
      ensures |ObjectWriteTicks(s, inputs, k, 0)| == 1
    {
      StaticItemWrittenOncePerSlot(s, inputs, 0, k);
    }
    StaticItemWrittenOncePerSlot(s, inputs, 0, 0);
    forall t, j | 0 <= t < |inputs| && 1 <= j < 7
      ensures ObjectWritten(s, inputs, t, j)
    {
      ItemWrittenAt(s, inputs, t, j);
    }
  }
}
