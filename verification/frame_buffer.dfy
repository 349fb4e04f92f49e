/** The per-frame resources of the renderer: the record layouts that the
    shaders read, the upload regions that hold them, and the frame buffer
    slot that bundles one region per record kind with a fence value.

    Floating-point payloads (matrices, colours, light constants) are kept
    opaque: only the integer linkage fields are modelled as numbers. */
module FrameBuffers {

  /** An opaque floating-point payload (a 4x4 matrix or a block of shading
      constants). `Orbit` stands for the world matrix that is recomputed
      every tick for a moving body from its local matrix, the body's
      parameter index and the accumulated time. */
  datatype Matrix = Matrix(tag: int) | Orbit(local: Matrix, body: nat, time: int)

  /** Per-object record; `materialIndex` selects the material record. */
  datatype ObjectConstants = ObjectConstants(world: Matrix, texTransform: Matrix, materialIndex: nat)

  /** Per-frame record shared by every draw (camera, timing, lights). */
  datatype CommonConstants = CommonConstants(camera: Matrix, totalTime: int)

  /** Per-material record; `diffuseMapIndex` selects the texture descriptor. */
  datatype MaterialParameter = MaterialParameter(shading: Matrix, diffuseMapIndex: nat)

  /** An upload buffer: a device allocation (`handle`) of `capacity` records,
      laid out either as a constant buffer or as a structured buffer, and the
      records the CPU has written into it so far. */
  datatype Region<T> = Region(handle: nat, capacity: nat, isConstantBuffer: bool, records: map<nat, T>)
  {
    /** Only indices below the capacity ever hold a record. */
    predicate Valid()
    {
      forall i :: i in records ==> i < capacity
    }

    /** CopyData: overwrite the record at `index`, leaving every other record
        as it was. Writing outside the capacity is undefined behaviour in the
        upload buffer, so it is a precondition here. */
    function Write(index: nat, value: T): (r: Region<T>)
      requires Valid() && index < capacity
      ensures r.Valid()
      ensures r.handle == handle && r.capacity == capacity && r.isConstantBuffer == isConstantBuffer
      ensures index in r.records && r.records[index] == value
      ensures forall i :: i != index ==> (i in r.records <==> i in records)
      ensures forall i :: i != index && i in records ==> r.records[i] == records[i]
    {
      this.(records := records[index := value])
    }
  }

  /** A fresh upload buffer of `count` records: nothing has been written yet. */
  function NewRegion<T>(handle: nat, count: nat, isConstantBuffer: bool): (r: Region<T>)
    ensures r.Valid() && r.records == map[]
    ensures r.handle == handle && r.capacity == count && r.isConstantBuffer == isConstantBuffer
  {
    Region(handle, count, isConstantBuffer, map[])
  }

  /** Number of device objects one frame buffer allocates: one command
      allocator and three upload regions. */
  const HandlesPerFrameBuffer: nat := 4

  /** One slot of the circular pool: a command allocator, the common,
      object and material regions, and the fence value of the last
      submission that used the slot (0 when it was never submitted). */
  datatype FrameBuffer = FrameBuffer(
    cmdListAlloc: nat,
    common: Region<CommonConstants>,
    objects: Region<ObjectConstants>,
    materials: Region<MaterialParameter>,
    fence: nat)
  {
    predicate Valid()
    {
      common.Valid() && objects.Valid() && materials.Valid()
    }

    /** The device objects this slot owns. */
    function Handles(): set<nat>
    {
      {cmdListAlloc, common.handle, objects.handle, materials.handle}
    }

    /** The slot has the capacities it was constructed with. */
    predicate Shaped(commonCount: nat, objectCount: nat, materialCount: nat)
    {
      && Valid()
      && common.capacity == commonCount
      && objects.capacity == objectCount
      && materials.capacity == materialCount
    }
  }

  /** The FrameBuffer constructor. The device hands out fresh objects; here
      they are numbered consecutively from `firstHandle`. */
  function NewFrameBuffer(firstHandle: nat, commonCount: nat, objectCount: nat, materialCount: nat): (fb: FrameBuffer)
    ensures fb.fence == 0
    ensures fb.Shaped(commonCount, objectCount, materialCount)
    ensures fb.common.records == map[] && fb.objects.records == map[] && fb.materials.records == map[]
    ensures fb.common.isConstantBuffer && fb.objects.isConstantBuffer && !fb.materials.isConstantBuffer
    ensures forall h :: h in fb.Handles() <==> firstHandle <= h < firstHandle + HandlesPerFrameBuffer
  {
    FrameBuffer(
      firstHandle,
      NewRegion(firstHandle + 1, commonCount, true),
      NewRegion(firstHandle + 2, objectCount, true),
      NewRegion(firstHandle + 3, materialCount, false),
      0)
  }
}
