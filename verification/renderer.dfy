/** The frame loop of the renderer as a state machine: the circular pool of
    frame buffers, the rotation and wait in Update, the update passes into
    the selected slot, and the fence stamping at the end of Draw. */
module Renderer {
  import opened FrameBuffers
  import opened Fences
  import opened Scene
  import opened UpdatePasses

  /** The renderer's state between calls: the pool, the index of the slot in
      use, the fence, and the scene the passes read and count down. */
  datatype State = State(
    frameBuffers: seq<FrameBuffer>,
    current: nat,
    fence: Timeline,
    items: seq<RenderItem>,
    materials: seq<Material>)

  /** What the environment supplies for one tick: the GPU progress seen when
      the slot is selected, the accumulated animation time, the camera, and
      the total running time. */
  datatype TickInput = TickInput(gpu: nat, time: int, camera: Matrix, totalTime: int)

  /** The slots own pairwise disjoint device objects. */
  predicate DisjointSlots(pool: seq<FrameBuffer>)
  {
    forall k, k' :: 0 <= k < k' < |pool| ==> pool[k].Handles() !! pool[k'].Handles()
  }

  /** Every slot has the shape SetFrameBuffers gives it. */
  predicate PoolShaped(pool: seq<FrameBuffer>, objectCount: nat, materialCount: nat)
  {
    forall k :: 0 <= k < |pool| ==> pool[k].Shaped(1, objectCount, materialCount)
  }

  /** The invariant of the frame loop. */
  predicate Inv(s: State)
  {
    && |s.frameBuffers| == NumFrameBuffers
    && s.current < NumFrameBuffers
    && s.fence.Valid()
    && WellFormed(s.items, s.materials)
    && PoolShaped(s.frameBuffers, |s.items|, |s.materials|)
    && (forall k :: 0 <= k < |s.frameBuffers| ==> s.frameBuffers[k].fence <= s.fence.current)
  }

  // ---------------------------------------------------------------------
  // Pool construction
  // ---------------------------------------------------------------------

  /** The pool SetFrameBuffers builds: slot k is constructed from the k-th
      block of fresh device objects, with one common record, one object
      record per render item and one material record per material. */
  function InitialPool(objectCount: nat, materialCount: nat): (pool: seq<FrameBuffer>)
    ensures |pool| == NumFrameBuffers
    ensures PoolShaped(pool, objectCount, materialCount)
    ensures DisjointSlots(pool)
    ensures forall k :: 0 <= k < |pool| ==> pool[k].fence == 0
    ensures forall k :: 0 <= k < |pool| ==>
      pool[k].common.records == map[] && pool[k].objects.records == map[] && pool[k].materials.records == map[]
  {
    seq(NumFrameBuffers, k requires 0 <= k < NumFrameBuffers =>
      NewFrameBuffer(k * HandlesPerFrameBuffer, 1, objectCount, materialCount))
  }

  /** SetFrameBuffers as the source writes it: one constructor call per slot,
      appended in order. */
  method SetFrameBuffers(objectCount: nat, materialCount: nat) returns (pool: seq<FrameBuffer>)
    ensures pool == InitialPool(objectCount, materialCount)
  {
    pool := [];
    var i := 0;
    while i < NumFrameBuffers
      invariant 0 <= i <= NumFrameBuffers
      invariant pool == InitialPool(objectCount, materialCount)[..i]
    {
      pool := pool + [NewFrameBuffer(i * HandlesPerFrameBuffer, 1, objectCount, materialCount)];
      i := i + 1;
    }
  }

  /** The state when the frame loop starts: the pool is fresh, the slot
      index is 0, and the initial command-queue flush has left the fence
      with every signalled value completed. */
  function Init(items: seq<RenderItem>, materials: seq<Material>, flushed: nat): (s: State)
    requires WellFormed(items, materials)
    ensures Inv(s)
    ensures s.current == 0 && s.fence == Timeline(flushed, flushed)
    ensures forall k :: 0 <= k < |s.frameBuffers| ==> s.frameBuffers[k].fence == 0
    ensures s.items == items && s.materials == materials
  {
    State(InitialPool(|items|, |materials|), 0, Timeline(flushed, flushed), items, materials)
  }

  // ---------------------------------------------------------------------
  // Update and Draw
  // ---------------------------------------------------------------------

  /** The slot index after `c`, going round the pool. */
  function NextIndex(c: nat): (r: nat)
    requires c < NumFrameBuffers
    ensures r < NumFrameBuffers
    ensures r == if c + 1 == NumFrameBuffers then 0 else c + 1
  {
    (c + 1) % NumFrameBuffers
  }

  /** The three update passes into one slot. They may only run once the GPU
      is done with the slot. */
  function Refresh(fb: FrameBuffer, tl: Timeline, items: seq<RenderItem>, materials: seq<Material>, input: TickInput)
    : (r: (FrameBuffer, seq<RenderItem>, seq<Material>))
    requires Released(tl, fb.fence)
    requires WellFormed(items, materials) && fb.Shaped(1, |items|, |materials|)
    ensures r.0.Shaped(1, |items|, |materials|)
    ensures r.0.fence == fb.fence && r.0.Handles() == fb.Handles()
    ensures WellFormed(r.1, r.2) && |r.1| == |items| && |r.2| == |materials|
    ensures forall j :: 0 <= j < |items| ==> r.1[j] == ItemAfterPass(items[j])
    ensures forall m :: 0 <= m < |materials| ==> r.2[m] == MaterialAfterPass(materials[m])
  {
    var (objects, items') := ObjectPass(fb.objects, items, materials, input.time);
    var (mats, materials') := MaterialPass(fb.materials, materials);
    var common := CommonPass(fb.common, input.camera, input.totalTime);
    PassesKeepWellFormed(items, materials, items', materials');
    (fb.(objects := objects, materials := mats, common := common), items', materials')
  }

  /** Update: advance to the next slot, wait until the GPU has finished with
      it, then run the passes into that slot only. */
  function Update(s: State, input: TickInput): (r: State)
    requires Inv(s)
    ensures Inv(r)
    ensures r.current == NextIndex(s.current)
    ensures Released(r.fence, r.frameBuffers[r.current].fence)
    ensures r.frameBuffers[r.current].fence == s.frameBuffers[r.current].fence
    ensures forall k :: 0 <= k < NumFrameBuffers && k != r.current ==> r.frameBuffers[k] == s.frameBuffers[k]
    ensures r.fence.current == s.fence.current && s.fence.completed <= r.fence.completed
    ensures |r.items| == |s.items| && |r.materials| == |s.materials|
    ensures forall j :: 0 <= j < |s.items| ==> r.items[j] == ItemAfterPass(s.items[j])
    ensures forall m :: 0 <= m < |s.materials| ==> r.materials[m] == MaterialAfterPass(s.materials[m])
  {
    var idx := NextIndex(s.current);
    var fb := s.frameBuffers[idx];
    var tl := AwaitFence(Observe(s.fence, input.gpu), fb.fence);
    var (fb', items', materials') := Refresh(fb, tl, s.items, s.materials, input);
    State(s.frameBuffers[idx := fb'], idx, tl, items', materials')
  }

  /** The end of Draw: the slot just recorded is stamped with a fresh fence
      value, which is then signalled on the queue. */
  function Draw(s: State): (r: State)
    requires Inv(s)
    ensures Inv(r)
    ensures r.current == s.current && r.items == s.items && r.materials == s.materials
    ensures r.frameBuffers[s.current].fence != 0
    ensures forall k :: 0 <= k < NumFrameBuffers ==> s.frameBuffers[k].fence < r.frameBuffers[s.current].fence
    ensures r.frameBuffers[s.current] == s.frameBuffers[s.current].(fence := r.frameBuffers[s.current].fence)
    ensures forall k :: 0 <= k < NumFrameBuffers && k != s.current ==> r.frameBuffers[k] == s.frameBuffers[k]
    ensures r.fence.current == r.frameBuffers[s.current].fence && r.fence.completed == s.fence.completed
  {
    var tl := Signal(s.fence);
    var fb := s.frameBuffers[s.current].(fence := tl.current);
    s.(frameBuffers := s.frameBuffers[s.current := fb], fence := tl)
  }

  /** One iteration of the application loop: Update, then Draw. The tick
      moves to the next slot, writes into it only once the GPU has completed
      the fence the slot carried, and stamps it with a fresh fence value;
      the other slots are left as they were. */
  function Tick(s: State, input: TickInput): (r: State)
    requires Inv(s)
    ensures Inv(r)
    ensures r.current == NextIndex(s.current)
    ensures Released(r.fence, s.frameBuffers[r.current].fence)
    ensures s.fence.completed <= r.fence.completed
    ensures r.fence.current == s.fence.current + 1 && r.frameBuffers[r.current].fence == r.fence.current
    ensures forall k :: 0 <= k < NumFrameBuffers && k != r.current ==> r.frameBuffers[k] == s.frameBuffers[k]
    ensures |r.items| == |s.items| && forall j :: 0 <= j < |s.items| ==> r.items[j] == ItemAfterPass(s.items[j])
    ensures |r.materials| == |s.materials| && forall m :: 0 <= m < |s.materials| ==> r.materials[m] == MaterialAfterPass(s.materials[m])
  {
    Draw(Update(s, input))
  }

  /** OnResize: the framework's D3DApp::OnResize flushes the command queue
      before it recreates the swap chain, and may flush again afterwards;
      `extraFlushes` is the number of flushes beyond the first. Each flush
      consumes a fence value outside Draw. Afterwards no slot is in flight,
      so the next Update never waits; the pool, the slot index and the
      scene are untouched. */
  function Resize(s: State, extraFlushes: nat): (r: State)
    requires Inv(s)
    ensures Inv(r)
    ensures r.fence.current == s.fence.current + 1 + extraFlushes
    ensures r.fence.completed == r.fence.current
    ensures r.frameBuffers == s.frameBuffers && r.current == s.current
    ensures r.items == s.items && r.materials == s.materials
    ensures forall k :: 0 <= k < |r.frameBuffers| ==> Released(r.fence, r.frameBuffers[k].fence)
  {
    s.(fence := Flushes(s.fence, 1 + extraFlushes))
  }

  // ---------------------------------------------------------------------
  // What one tick leaves in the slot it used
  // ---------------------------------------------------------------------

  /** Object record j of the slot a tick used: written with the item's record
      when the item was due, otherwise exactly as before. */
  lemma TickObjectRecord(s: State, input: TickInput, j: nat)
    requires Inv(s)
    ensures var s' := Tick(s, input);
            var before := s.frameBuffers[s'.current].objects.records;
            var after := s'.frameBuffers[s'.current].objects.records;
            if j < |s.items| && ItemDue(s.items[j]) then
              j in after && after[j] == ObjectRecord(s.items, j, s.materials, input.time)
            else
              (j in after <==> j in before) && (j in before ==> after[j] == before[j])
  {
    var k := NextIndex(s.current);
    ObjectPassRecords(s.frameBuffers[k].objects, s.items, s.materials, input.time, j);
  }

  /** Material record m of the slot a tick used: written with the material's
      record when it was dirty, otherwise exactly as before. */
  lemma TickMaterialRecord(s: State, input: TickInput, m: nat)
    requires Inv(s)
    ensures var s' := Tick(s, input);
            var before := s.frameBuffers[s'.current].materials.records;
            var after := s'.frameBuffers[s'.current].materials.records;
            if m < |s.materials| && MaterialDue(s.materials[m]) then
              m in after && after[m] == MaterialRecord(s.materials[m])
            else
              (m in after <==> m in before) && (m in before ==> after[m] == before[m])
  {
    var k := NextIndex(s.current);
    MaterialPassRecords(s.frameBuffers[k].materials, s.materials, m);
  }

  /** Every tick writes the common record, at index 0, of the slot it used. */
  lemma TickCommonRecord(s: State, input: TickInput)
    requires Inv(s)
    ensures var s' := Tick(s, input);
            var after := s'.frameBuffers[s'.current].common.records;
            0 in after && after[0] == CommonConstants(input.camera, input.totalTime)
  {
  }
}
