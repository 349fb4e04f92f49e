/** The render items and materials the per-frame passes read, with their
    dirty countdowns, and the solar-system scene the application builds. */
module Scene {
  import opened FrameBuffers

  /** gNumFrameBuffers: the depth of the circular pool of frame buffers. */
  const NumFrameBuffers: nat := 3

  /** Size of the `solarFamily` table of celestial bodies: the i-th moving
      render item reads entry i, so at most this many items may move. */
  const NumBodies: nat := 6

  /** A render item. `mat` refers to the item's material by its position in
      the material list; `numFrameBufferFill` counts the frame buffers a
      static item still has to be copied into. */
  datatype RenderItem = RenderItem(
    world: Matrix,
    texTransform: Matrix,
    isStatic: bool,
    numFrameBufferFill: int,
    objCBIndex: nat,
    mat: nat)

  /** A material. `numFramesDirty` counts the frame buffers its record still
      has to be copied into. */
  datatype Material = Material(
    matCBIndex: nat,
    diffuseSrvHeapIndex: nat,
    shading: Matrix,
    numFramesDirty: int)

  /** A render item as default-constructed and then filled in by the scene
      set-up: its countdown starts at the pool depth. */
  function NewRenderItem(world: Matrix, texTransform: Matrix, isStatic: bool, objCBIndex: nat, mat: nat): (r: RenderItem)
    ensures r.numFrameBufferFill == NumFrameBuffers
    ensures r.isStatic == isStatic && r.objCBIndex == objCBIndex && r.mat == mat
    ensures r.world == world && r.texTransform == texTransform
  {
    RenderItem(world, texTransform, isStatic, NumFrameBuffers, objCBIndex, mat)
  }

  /** Number of moving items in `items`: the position of the next moving
      item's parameters in the table of celestial bodies. */
  function MovingCount(items: seq<RenderItem>): (n: nat)
    ensures n <= |items|
  {
    if |items| == 0 then 0
    else MovingCount(items[..|items| - 1]) + (if items[|items| - 1].isStatic then 0 else 1)
  }

  /** What the object pass relies on: the item at position j writes object
      record j and refers to an existing material, and no more items move
      than there are celestial bodies. */
  predicate ItemsLinked(items: seq<RenderItem>, materials: seq<Material>)
  {
    && (forall j :: 0 <= j < |items| ==> items[j].objCBIndex == j && items[j].mat < |materials|)
    && MovingCount(items) <= NumBodies
  }

  /** What the material pass relies on: the material at position m writes
      material record m. */
  predicate MaterialsIndexed(materials: seq<Material>)
  {
    forall m :: 0 <= m < |materials| ==> materials[m].matCBIndex == m
  }

  /** The countdown of item j lies within the pool depth. */
  predicate ItemCountdownInRange(items: seq<RenderItem>, j: int)
    requires 0 <= j < |items|
  {
    0 <= items[j].numFrameBufferFill <= NumFrameBuffers
  }

  /** The countdown of material m lies within the pool depth. */
  predicate MaterialCountdownInRange(materials: seq<Material>, m: int)
    requires 0 <= m < |materials|
  {
    0 <= materials[m].numFramesDirty <= NumFrameBuffers
  }

  /** Every countdown lies within the pool depth. */
  predicate CountdownsInRange(items: seq<RenderItem>, materials: seq<Material>)
  {
    && (forall j :: 0 <= j < |items| ==> ItemCountdownInRange(items, j))
    && (forall m :: 0 <= m < |materials| ==> MaterialCountdownInRange(materials, m))
  }

  /** Indices are assigned 0..count-1 in order, so they address exactly the
      regions sized to the item and material counts; there are no more
      moving items than celestial bodies; and the countdowns are in range. */
  predicate WellFormed(items: seq<RenderItem>, materials: seq<Material>)
  {
    ItemsLinked(items, materials) && MaterialsIndexed(materials) && CountdownsInRange(items, materials)
  }

  /** A list whose first item is static and whose other items all move has
      one moving item fewer than items. */
  lemma {:induction false} MovingCountStaticHead(items: seq<RenderItem>)
    requires |items| > 0 && items[0].isStatic
    requires forall j :: 1 <= j < |items| ==> !items[j].isStatic
    ensures MovingCount(items) == |items| - 1
    decreases |items|
  {
    if |items| > 1 {
      var front := items[..|items| - 1];
      assert front[0] == items[0];
      MovingCountStaticHead(front);
    } else {
      assert items[..0] == [];
    }
  }

  // ---------------------------------------------------------------------
  // The solar-system scene
  // ---------------------------------------------------------------------

  /** The matrices the scene set-up stores, as opaque values tagged so that
      equal matrices in the source get equal tags. The identity is also
      XMMatrixScaling(1, 1, 1). */
  const Identity: Matrix := Matrix(0)

  /** XMMatrixScaling(4, 4, 1), the ground plane's texture tiling. */
  const PlaneTexScale: Matrix := Matrix(1)

  /** XMMatrixScaling(r, r, r) for a radius r given in tenths. */
  function Scaling(tenths: nat): (m: Matrix)
    ensures tenths == 10 <==> m == Identity
  {
    if tenths == 10 then Identity else Matrix(1000 + tenths)
  }

  /** The radius of each celestial body, in tenths, in `solarFamily` order:
      sun, Mercury, Venus, Earth, Mars, Jupiter. */
  const BodyRadii: seq<nat> := [100, 2, 7, 7, 4, 40]

  /** The shading constants of each material in SetMaterials order: the tens
      digit is the Fresnel coefficient in hundredths, the units digit the
      roughness in tenths. Materials with equal constants get equal tags (the
      plane and the gas giant do); all share the same diffuse albedo and
      material transform. */
  const ShadingTags: seq<int> := [23, 21, 34, 42, 22, 32, 23]

  /** SetMaterials: seven materials, each writing the record and reading the
      texture descriptor of its own index. The initial dirty count is set
      outside the scene code and is taken as a parameter. */
  function SolarMaterials(framesDirty: int): (ms: seq<Material>)
    requires 0 <= framesDirty <= NumFrameBuffers
    ensures |ms| == 7
    ensures MaterialsIndexed(ms)
    ensures forall m :: 0 <= m < |ms| ==> ms[m].diffuseSrvHeapIndex == m && ms[m].numFramesDirty == framesDirty
    ensures ms[0].shading == ms[6].shading
    ensures forall m, m' :: 0 <= m < m' < |ms| && ms[m].shading == ms[m'].shading ==> m == 0 && m' == 6
  {
    seq(7, m requires 0 <= m < 7 => Material(m, m, Matrix(ShadingTags[m]), framesDirty))
  }

  /** Item j of SetRenderingItems: the ground plane (static, material 0)
      first, then the sun and five planets (moving), item j using material
      j. */
  function SolarItem(j: nat): (item: RenderItem)
    requires j < 7
    ensures item.isStatic <==> j == 0
    ensures item.mat == j && item.objCBIndex == j && item.numFrameBufferFill == NumFrameBuffers
    ensures j == 0 ==> item.world == Identity && item.texTransform == PlaneTexScale
    ensures j > 0 ==> item.world == Scaling(BodyRadii[j - 1]) && item.texTransform == Identity
  {
    if j == 0 then NewRenderItem(Identity, PlaneTexScale, true, 0, 0)
    else NewRenderItem(Scaling(BodyRadii[j - 1]), Identity, false, j, j)
  }

  /** SetRenderingItems: seven items, of which exactly the six after the
      plane move, one per celestial body. */
  function SolarItems(): (items: seq<RenderItem>)
    ensures |items| == 7
    ensures forall j :: 0 <= j < |items| ==> items[j].objCBIndex == j
    ensures items[0].isStatic
    ensures forall j :: 1 <= j < |items| ==> !items[j].isStatic
    ensures forall j :: 0 <= j < |items| ==> items[j].mat == j && items[j].numFrameBufferFill == NumFrameBuffers
    ensures items[0].world == Identity && items[0].texTransform == PlaneTexScale
    ensures forall j :: 1 <= j < |items| ==> items[j].world == Scaling(BodyRadii[j - 1]) && items[j].texTransform == Identity
    ensures MovingCount(items) == NumBodies
  {
    var items := seq(7, j requires 0 <= j < 7 => SolarItem(j));
    assert forall j :: 0 <= j < |items| ==> items[j] == SolarItem(j);
    MovingCountStaticHead(items);
    items
  }

  /** The scene the application renders is well formed: in particular its
      six moving items exactly fill the table of celestial bodies. */
  lemma SolarSceneWellFormed(framesDirty: int)
    requires 0 <= framesDirty <= NumFrameBuffers
    ensures WellFormed(SolarItems(), SolarMaterials(framesDirty))
  {
  }
}
