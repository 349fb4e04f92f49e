# Frame-buffer rotation in the DX12 solar-system demo, in Dafny

This project models the frame loop of the DX12 solar-system renderer. It
covers three parts:

- the circular pool of `gNumFrameBuffers = 3` frame buffers and the CPU/GPU
  fence protocol that guards their reuse;
- the per-item and per-material dirty countdowns that propagate a change into
  every frame buffer;
- the shape of a frame buffer: one command allocator, three fixed-capacity
  upload regions, and a `Fence` that starts at 0.

The GPU is replaced by a fence counter, and upload buffers by maps from record
index to opaque records. Matrices and floats are opaque values
(`Matrix(tag)`, or `Orbit(local, body, time)` for a planet's world matrix).

Modules, one per file:

| file | module | what it holds |
|---|---|---|
| `frame_buffer.dfy` | `FrameBuffers` | the record types, an upload `Region` with `Write` (CopyData), and `FrameBuffer` with its constructor |
| `fence.dfy` | `Fences` | the fence `Timeline` (last signalled value, last completed value), the observation of GPU progress, the wait in `Update`, `Signal`, and the full queue flush |
| `scene.dfy` | `Scene` | `RenderItem`, `Material`, the count of moving items, scene well-formedness, and the solar-system scene built by `SetMaterials` and `SetRenderingItems` |
| `update_passes.dfy` | `UpdatePasses` | `UpdateObjectCBs`, `UpdateMaterialBuffer` and `UpdateCommonCB`, each as a reference definition and, for the two loops, as a method proved equal to it |
| `renderer.dfy` | `Renderer` | the renderer state, `SetFrameBuffers`, `Update`, the end of `Draw`, `Tick` (one Update followed by one Draw), and the flush on a window resize |
| `traces.dfy` | `Traces` | runs of many ticks and the properties over them |

A run is given by a start state and a sequence of `TickInput`s. Each input
carries what the environment supplies for one tick:

- the GPU progress observed;
- the accumulated animation time;
- the camera;
- the total time.

`StateAt(s, inputs, t)` is the state after `t` ticks. Per-tick observables are
read off consecutive states:

- the slot used;
- the fence waited on;
- the completed value;
- the stamp given.

## Model

| member | source | states |
|---|---|---|
| `FrameBuffers.NewRegion` | FrameBuffer.cpp:9-11 | a new upload region has the requested capacity and constant-buffer flag and holds no records |
| `FrameBuffers.Region.Write` | SolarSystem.cpp:437 | `CopyData` stores the record at the given index below the capacity and leaves every other index, and the region's identity, as they were |
| `FrameBuffers.NewFrameBuffer` | FrameBuffer.cpp:3-12 | a new slot has fence 0, each region has the capacity given by its count argument, the common and object regions are constant buffers and the material region is not, and the slot owns exactly four device objects from its own fresh range |
| `Fences.Observe` | SolarSystem.cpp:267 | the completed value read from the GPU never runs backwards and never passes the last signalled value; a report inside those bounds is taken as it is |
| `Fences.Released` | SolarSystem.cpp:267 | a slot may be rewritten without waiting exactly when its fence is 0 (never submitted) or the GPU has completed it |
| `Fences.AwaitFence` | SolarSystem.cpp:267-273 | after the wait the slot's fence is 0 or completed; when it already was, nothing changes; otherwise the wait returns exactly when the GPU reaches that fence |
| `Fences.Signal` | SolarSystem.cpp:336-338 | `++mCurrentFence` gives a value above every earlier one, hence non-zero, that the GPU has not reached yet |
| `Fences.Flush` | SolarSystem.cpp:243 | `FlushCommandQueue` signals one value past the last and returns only once the GPU has completed it, so every fence signalled so far is released |
| `Fences.Flushes` | SolarSystem.cpp:250-252 | n flushes in a row move the fence n values on; after at least one the GPU has completed the last value and every fence signalled so far is released, and zero flushes change nothing |
| `Scene.NewRenderItem` | SolarSystem.cpp:36-40 | a render item's countdown starts at the pool depth N |
| `Scene.SolarMaterials` | SolarSystem.cpp:839-904 | seven materials, material m with record index m and texture index m, each with the same initial dirty count; the plane's and the gas giant's shading constants are equal and every other pair differs |
| `Scene.SolarItem` | SolarSystem.cpp:906-1020 | item 0 is the static ground plane with the identity world matrix and its 4x4 texture tiling; item j > 0 moves, is scaled by the radius of body j - 1 and has the identity texture transform; item j has record index j, uses material j and starts its countdown at N |
| `Scene.SolarItems` | SolarSystem.cpp:906-1020 | the ground plane is item 0 and static; the sun and five planets are moving, exactly as many as the six-entry `solarFamily` table (SolarSystem.cpp:134); item j has record index j and uses material j; every countdown starts at N |
| `Scene.SolarSceneWellFormed` | SolarSystem.cpp:839-1020 | every record index in the solar scene is below the count its region is sized to, no more items move than `solarFamily` has entries, and every countdown lies in [0, N] |
| `UpdatePasses.ItemDue` | SolarSystem.cpp:406-428 | the object pass writes an item's record when the item moves, or when it is static and its countdown is positive |
| `UpdatePasses.ItemAfterPass` | SolarSystem.cpp:426-438 | the object pass changes nothing about an item but a static item's countdown, which drops by one exactly when the item is written and otherwise stays, never going below 0 |
| `UpdatePasses.ObjectRecord` | SolarSystem.cpp:406-437 | the object record carries the item's texture transform and the `MatCBIndex` of the item's material; a static item's world matrix is copied, as its shader-layout transpose, which the model keeps opaque; a moving item's world matrix is derived from its own matrix and a `solarFamily` entry that lies within the six-entry table |
| `UpdatePasses.MaterialDue` | SolarSystem.cpp:451 | the material pass writes a material's record when its dirty count is positive |
| `UpdatePasses.MaterialAfterPass` | SolarSystem.cpp:451-464 | the material pass changes nothing about a material but its dirty count, which drops by one exactly when the material is written and otherwise stays, never going below 0 |
| `UpdatePasses.MaterialRecord` | SolarSystem.cpp:453-460 | the material record carries the material's shading constants, and its `DiffuseMapIndex` is the material's `DiffuseSrvHeapIndex` |
| `UpdatePasses.ObjectRegionAfter` | SolarSystem.cpp:404-441 | a prefix of the object loop keeps the region's identity and capacity and never writes beyond the capacity |
| `UpdatePasses.ObjectRegionRecords` | SolarSystem.cpp:404-441 | after the first n items, record i holds the record of item i exactly when item i is among them and due (moving, or static with a positive countdown); every other record is as before |
| `UpdatePasses.ObjectPass` | SolarSystem.cpp:396-442 | the object pass keeps the region's identity and capacity; every static item with a positive countdown drops it by one and every other item is unchanged |
| `UpdatePasses.ObjectPassRecords` | SolarSystem.cpp:404-441 | the pass writes exactly the due items' records, each at its own index, and leaves every other record as it was |
| `UpdatePasses.MovingItemBody` | SolarSystem.cpp:404-413 | the body counter `i` at a moving item is below the number of moving items, so in a well-formed scene the read of `solarFamily[i]` stays within the table |
| `UpdatePasses.MovingCountFlags` | SolarSystem.cpp:404-438 | the passes change no item's static flag, so the number of moving items, and with it the body-table bound, is kept |
| `UpdatePasses.MovingCountSnoc` | SolarSystem.cpp:406-413 | the running body counter goes up by one for each moving item and stays for a static one |
| `UpdatePasses.UpdateObjectCBs` | SolarSystem.cpp:396-442 | the source's loop, with its branches and its running body counter, computes exactly the reference object pass |
| `UpdatePasses.MaterialRegionAfter` | SolarSystem.cpp:448-466 | a prefix of the material loop keeps the region's identity and capacity and never writes beyond the capacity |
| `UpdatePasses.MaterialRegionRecords` | SolarSystem.cpp:448-466 | after the first n materials, record i holds the record of material i exactly when it is among them and dirty; every other record is as before |
| `UpdatePasses.MaterialPass` | SolarSystem.cpp:444-467 | the material pass keeps the region's identity and capacity; a dirty material's count drops by one and a clean one is unchanged |
| `UpdatePasses.MaterialPassRecords` | SolarSystem.cpp:448-466 | the pass writes exactly the dirty materials' records, each at its position in the list, and leaves every other record as it was; `UpdateMaterialBuffer` requires every material's `MatCBIndex` to be its position, so that is where the source writes |
| `UpdatePasses.UpdateMaterialBuffer` | SolarSystem.cpp:444-467 | the source's loop computes exactly the reference material pass |
| `UpdatePasses.PassesKeepWellFormed` | SolarSystem.cpp:428-464 | the countdowns never go negative and never rise, so a pass keeps a well-formed scene well formed |
| `UpdatePasses.CommonPass` | SolarSystem.cpp:502-503 | the common record is written at index 0 on every tick, and the region's other indices neither gain nor lose records |
| `Renderer.InitialPool` | SolarSystem.cpp:830-837 | the pool has N slots, each sized to one common record, one object record per item and one material record per material, all with fence 0 and no records, and no two slots share a device object |
| `Renderer.SetFrameBuffers` | SolarSystem.cpp:830-837 | appending one constructed slot per iteration builds exactly that pool |
| `Renderer.Init` | SolarSystem.cpp:105 | the frame loop starts at slot index 0 with the fence fully completed, and the loop invariant holds |
| `Renderer.NextIndex` | SolarSystem.cpp:263 | the next slot index stays in [0, N) and wraps from N-1 to 0 |
| `Renderer.Refresh` | SolarSystem.cpp:275-277 | the three passes run only on a released slot; they keep the slot's shape, fence and device objects and keep the scene well formed |
| `Renderer.Update` | SolarSystem.cpp:258-278 | Update moves to the next slot, leaves it released, writes into no other slot, and does not signal |
| `Renderer.Draw` | SolarSystem.cpp:336-338 | Draw stamps the current slot with a value above every fence in the pool, leaves the other slots untouched, and signals exactly that value |
| `Renderer.Tick` | SolarSystem.cpp:258-338 | one Update plus Draw keeps the invariant, writes only into the next slot after the GPU released it, stamps it with the next fence value, and counts down every item and material once |
| `Renderer.Resize` | SolarSystem.cpp:250-252 | a window resize flushes the queue at least once: it moves the fence on outside `Draw`, by one value per flush, and completes it, so every slot is released; the pool, slot index and scene are untouched |
| `Renderer.TickObjectRecord` | SolarSystem.cpp:404-441 | in the slot a tick uses, object record j is written with item j's record when the item is due, and is untouched otherwise |
| `Renderer.TickMaterialRecord` | SolarSystem.cpp:448-466 | in the slot a tick uses, material record m is written when the material is dirty, and is untouched otherwise |
| `Renderer.TickCommonRecord` | SolarSystem.cpp:502-503 | every tick writes the common record at index 0 of the slot it uses |
| `Traces.StateAt` | SolarSystem.cpp:258-338 | the loop invariant holds after any number of ticks, and the scene keeps its size |
| `Traces.Run` | SolarSystem.cpp:258-338 | the application loop, one Update and one Draw per input, ends in the state after all the ticks |
| `Traces.StateAtPrefix` | SolarSystem.cpp:258-278 | a tick depends only on the inputs up to it |
| `Traces.Final` | SolarSystem.cpp:258-338 | running any inputs from a state that satisfies the loop invariant keeps it, and keeps the scene's size |
| `Traces.StateAtFinal` | SolarSystem.cpp:258-338 | the state after tick t of a run is the state at any earlier tick t0 run through the inputs between them |
| `Traces.SlotUsed` | SolarSystem.cpp:263-264 | the slot a tick writes into is always in [0, N) |
| `Traces.SlotAfter` | SolarSystem.cpp:263 | the index n ticks on stays in [0, N) |
| `Traces.SlotAfterIsModular` | SolarSystem.cpp:263 | the index after n ticks is the starting index plus n, modulo N |
| `Traces.SlotAfterPeriod` | SolarSystem.cpp:263 | after N ticks the index is back where it was |
| `Traces.SlotAfterDistinct` | SolarSystem.cpp:263 | two ticks fewer than N apart use different slots |
| `Traces.Rotation` | SolarSystem.cpp:263 | after t ticks of a run the index has moved t places round the pool |
| `Traces.SlotAt` | SolarSystem.cpp:263-264 | tick t of a run uses the slot t + 1 places after the starting index |
| `Traces.FirstVisit` | SolarSystem.cpp:263 | the first visit to a slot falls within the first N ticks |
| `Traces.VisitUnique` | SolarSystem.cpp:263 | within N consecutive ticks each slot is used at exactly one tick |
| `Traces.CountdownAfter` | SolarSystem.cpp:428-438 | a countdown after n ticks is never negative, never above where it started, and positive exactly while fewer than its start value of ticks have passed |
| `Traces.ItemAt` | SolarSystem.cpp:426-440 | after t ticks a static item's countdown has dropped by t, stopping at 0, and a moving item is unchanged |
| `Traces.MaterialAt` | SolarSystem.cpp:451-464 | after t ticks a material's dirty count has dropped by t, stopping at 0, and nothing else about it has changed |
| `Traces.ObjectWriteLands` | SolarSystem.cpp:404-441 | when tick t's object pass finds item j due, object record j of the slot the tick used holds the item's record afterwards; otherwise that record is as it was |
| `Traces.MaterialWriteLands` | SolarSystem.cpp:448-466 | when tick t's material pass finds material m dirty, material record m of the slot the tick used holds its record afterwards; otherwise that record is as it was |
| `Traces.ItemWrittenAt` | SolarSystem.cpp:404-441 | tick t writes object record j if and only if item j moves, or is static with a starting countdown above t |
| `Traces.MaterialWrittenAt` | SolarSystem.cpp:448-466 | tick t writes material record m if and only if the material's starting dirty count is above t |
| `Traces.MovingItemAlwaysWritten` | SolarSystem.cpp:406-425 | a moving item is written on every tick, whatever its counter |
| `Traces.SettledItemNeverWritten` | SolarSystem.cpp:428 | a static item whose countdown is 0 is never written |
| `Traces.StaticItemWrittenOncePerSlot` | SolarSystem.cpp:428-438 | a static item starting at N is written into each slot at exactly one tick, the slot's first visit, and nowhere after the first N ticks |
| `Traces.DirtyMaterialWrittenOncePerSlot` | SolarSystem.cpp:451-464 | a material dirty for N frames is written into each slot at exactly one tick, and nowhere after the first N ticks |
| `Traces.FenceAt` | SolarSystem.cpp:336 | after t ticks the fence value has gone up by exactly t |
| `Traces.FenceStep` | SolarSystem.cpp:267-338 | a tick never lowers a slot's fence and leaves unused slots alone; its stamp is the new fence value; and it wrote only once the fence it waited on was 0 or completed |
| `Traces.StampAt` | SolarSystem.cpp:336 | the stamp of tick t is the starting fence plus t + 1 |
| `Traces.StampsIncrease` | SolarSystem.cpp:336 | stamps are above the starting fence and strictly increase along a run |
| `Traces.LastUse` | SolarSystem.cpp:263 | the last of the first t ticks that used a slot: it did use the slot, and no later tick among them did |
| `Traces.TickKeepsFenceClosed` | SolarSystem.cpp:263-336 | one tick moves the index and the fence one step on and keeps each slot's fence equal to the stamp of the last tick that used it, or the starting fence if none did |
| `Traces.SlotFenceAt` | SolarSystem.cpp:263-336 | each slot's fence after t ticks is the stamp of the last tick that used it, or its starting fence if none did |
| `Traces.FenceAfterMonotone` | SolarSystem.cpp:263-336 | the fence a slot got from its last use never decreases as the run grows longer |
| `Traces.FenceMonotone` | SolarSystem.cpp:336 | a slot's fence never decreases over a run |
| `Traces.LastUseOfNextSlot` | SolarSystem.cpp:263 | the slot a tick uses was last used N ticks earlier, or not at all during the first N ticks |
| `Traces.WaitsOnFenceAfter` | SolarSystem.cpp:263-267 | the fence a tick waits on is the one its slot got from its last use |
| `Traces.RunReleases` | SolarSystem.cpp:267-277 | whenever a run writes into a slot, the GPU has completed at least the fence the slot carried at the start |
| `Traces.NoPrematureReuse` | SolarSystem.cpp:267-277 | no slot is reused before its fence completes: when a tick writes into a slot, every earlier stamp on that slot is completed |
| `Traces.WaitTarget` | SolarSystem.cpp:263-273 | a tick waits on the slot's starting fence during the first N ticks, and on the stamp of the tick N earlier after that |
| `Traces.TickStaticRecord` | SolarSystem.cpp:426-440 | a tick never replaces a static item's record with a different one, and writes it into the slot it uses while the countdown is positive |
| `Traces.FinalKeepsStatic` | SolarSystem.cpp:426-440 | any ticks keep a static item's record in every slot that holds it |
| `Traces.RunKeepsStaticRecord` | SolarSystem.cpp:426-440 | a run keeps a static item's record in every slot that holds it |
| `Traces.FirstVisitWrites` | SolarSystem.cpp:428-438 | the first tick that uses a slot writes a static item with a full countdown into it |
| `Traces.StaticItemReachesEverySlot` | SolarSystem.cpp:428-438 | N ticks after a static item's countdown was full, every slot holds the item's current record |
| `Traces.TickMaterialKept` | SolarSystem.cpp:448-466 | a tick never replaces a material's record with a different one, and writes it into the slot it uses while the material is dirty |
| `Traces.FinalKeepsMaterial` | SolarSystem.cpp:448-466 | any ticks keep a material's record in every slot that holds it |
| `Traces.RunKeepsMaterialRecord` | SolarSystem.cpp:448-466 | a run keeps a material's record in every slot that holds it |
| `Traces.FirstVisitWritesMaterial` | SolarSystem.cpp:451-464 | the first tick that uses a slot writes a material dirty for N frames into it |
| `Traces.DirtyMaterialReachesEverySlot` | SolarSystem.cpp:451-464 | N ticks after a material was marked dirty for N frames, every slot holds the material's record |
| `Traces.StartupSlotOrder` | SolarSystem.cpp:105 | from start-up, tick t uses slot (t + 1) mod N, giving the order 1, 2, 0, 1, ... |
| `Traces.StartupWaits` | SolarSystem.cpp:267 | from start-up the first N ticks find unsubmitted slots, and every later tick waits on exactly the stamp of the tick N earlier |
| `Traces.SolarSystemPropagation` | SolarSystem.cpp:906-1020 | in the solar scene the ground plane reaches each slot exactly once and is never written after the first N ticks, while the sun and planets are written on every tick |

## Left out

- Direct3D work is not modelled: command recording, barriers, `Present`, root signature, descriptor heaps, pipeline states, shaders, samplers and textures. `Draw` is modelled from the point where the slot is stamped and the fence signalled.
- The Win32 event wait is not modelled as OS concurrency. It becomes a step in which the completed value advances to exactly the slot's fence, the earliest moment the event can fire.
- The GPU is an input. Each tick supplies the completed value the queue reports, and it is clamped between the previous completed value and the last signalled fence.
- Matrix and float arithmetic is not modelled. Matrices, the orbit transform, camera, lighting and timing values are opaque payloads, and `TotalTime` and the accumulated animation time are integers.
- The `CelestialBody` rates are folded into the opaque orbit matrix, which is indexed by the running body counter.
- `UINT64` fence wrap-around is not modelled; fence values are unbounded naturals.
- `UploadBuffer.h` is not part of this model. `CopyData` is a map update at an index that must lie below the region's capacity. Every write site in the model discharges that requirement from scene well-formedness, as the source relies on.
- The material list is a `std::unordered_map` keyed by name in the source. Here it is a sequence indexed by `MatCBIndex`. Each material writes only its own index, so iteration order does not affect the result.
- An item's material pointer is an index into the material sequence.
- The initial `NumFramesDirty` of a material is set in a header that is not part of this model. It is a parameter in [0, N].
- The flush before the loop starts (`FlushCommandQueue` during initialisation) is a parameter: the fence value it leaves, fully completed.
- `Traces.FenceAt` and `Traces.StampAt` describe runs of ticks without a window resize. A resize flushes the queue (`Renderer.Resize`) and moves the fence on outside `Draw`; runs that interleave resizes with ticks are not modelled.
- `Renderer.Resize`: `D3DApp::OnResize`, which `SolarSystem::OnResize` calls first, is not part of this model. The model assumes only that it flushes the queue at least once, with `FlushCommandQueue` as modelled by `Fences.Flush`, and does nothing else to the fence, the pool or the scene. How many further flushes it performs is the parameter `extraFlushes`, so the exact fence value after a resize is stated in terms of that parameter.
- Input handling, camera movement, mesh generation, geometry upload and destruction are not modelled.
- The source keeps no per-tick log. What a tick did (slot used, fence waited on, completed value, stamp) is read off the states before and after it.
- `UpdatePasses.ObjectRecord`: for a moving item the world matrix is stated only as an opaque function of the item's matrix, its position among the moving items and the time. The floating-point orbit formula is not reproduced.
- `UpdatePasses.ObjectRecord` and `UpdatePasses.MaterialRecord`: the records hold transposed matrices (`XMMatrixTranspose` at SolarSystem.cpp:420-421, 433-434 and 459). The model identifies an opaque matrix with its transpose, so a record's matrix is stated equal to the item's or material's matrix, not to its transpose.
