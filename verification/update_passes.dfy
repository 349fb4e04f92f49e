/** The per-tick update passes that fill the selected frame buffer's
    regions: UpdateObjectCBs, UpdateMaterialBuffer and UpdateCommonCB.

    Each pass has a reference definition (`ObjectPass`, `MaterialPass`,
    `CommonPass`) describing what the slot and the scene look like
    afterwards. The region written by the first n iterations of a loop is a
    recursive function (`ObjectRegionAfter`, `MaterialRegionAfter`) whose
    meaning, record index by record index, is proved by induction; the loops
    over items and materials are written as methods proved to compute exactly
    the reference. */
module UpdatePasses {
  import opened FrameBuffers
  import opened Scene

  // ---------------------------------------------------------------------
  // Render items
  // ---------------------------------------------------------------------

  /** Whether UpdateObjectCBs writes this item's record on this tick: moving
      items always, static items only while their countdown is positive. */
  predicate ItemDue(item: RenderItem)
  {
    !item.isStatic || item.numFrameBufferFill > 0
  }

  /** The item as UpdateObjectCBs leaves it. A static item's countdown drops
      exactly when its record is written. */
  function ItemAfterPass(item: RenderItem): (r: RenderItem)
    ensures r.world == item.world && r.texTransform == item.texTransform && r.mat == item.mat
    ensures r.isStatic == item.isStatic && r.objCBIndex == item.objCBIndex
    ensures item.isStatic ==> (ItemDue(item) <==> r.numFrameBufferFill < item.numFrameBufferFill)
    ensures item.isStatic && item.numFrameBufferFill > 0 ==> r.numFrameBufferFill == item.numFrameBufferFill - 1
    ensures !(item.isStatic && item.numFrameBufferFill > 0) ==> r == item
    ensures item.numFrameBufferFill >= 0 ==> 0 <= r.numFrameBufferFill <= item.numFrameBufferFill
  {
    if item.isStatic && item.numFrameBufferFill > 0 then
      item.(numFrameBufferFill := item.numFrameBufferFill - 1)
    else
      item
  }

  lemma MovingCountSnoc(items: seq<RenderItem>, k: nat)
    requires k < |items|
    ensures MovingCount(items[..k + 1]) == MovingCount(items[..k]) + (if items[k].isStatic then 0 else 1)
  {
    assert items[..k + 1][..k] == items[..k];
  }

  /** A prefix has no more moving items than the whole list. */
  lemma {:induction false} MovingCountPrefix(items: seq<RenderItem>, i: nat)
    requires i <= |items|
    ensures MovingCount(items[..i]) <= MovingCount(items)
    decreases |items| - i
  {
    if i < |items| {
      MovingCountPrefix(items, i + 1);
      MovingCountSnoc(items, i);
    } else {
      assert items[..i] == items;
    }
  }

  /** The body-table position the loop reaches at a moving item is below the
      number of moving items, hence within the table. */
  lemma MovingItemBody(items: seq<RenderItem>, j: nat)
    requires j < |items| && !items[j].isStatic
    ensures MovingCount(items[..j]) < MovingCount(items)
  {
    MovingCountSnoc(items, j);
    MovingCountPrefix(items, j + 1);
  }

  /** Lists with the same static flags have the same number of moving items. */
  lemma {:induction false} MovingCountFlags(items: seq<RenderItem>, items': seq<RenderItem>)
    requires |items'| == |items| && forall j :: 0 <= j < |items| ==> items'[j].isStatic == items[j].isStatic
    ensures MovingCount(items') == MovingCount(items)
    decreases |items|
  {
    if |items| > 0 {
      MovingCountFlags(items[..|items| - 1], items'[..|items'| - 1]);
    }
  }

  /** The record UpdateObjectCBs writes for item j: a moving item's world
      matrix is recomputed from its body parameters and the time, a static
      item's is copied; the material index is the one of the item's material. */
  function ObjectRecord(items: seq<RenderItem>, j: nat, materials: seq<Material>, time: int): (r: ObjectConstants)
    requires ItemsLinked(items, materials) && j < |items|
    ensures r.materialIndex == materials[items[j].mat].matCBIndex
    ensures r.texTransform == items[j].texTransform
    ensures items[j].isStatic ==> r.world == items[j].world
    ensures !items[j].isStatic ==> r.world.Orbit? && r.world.local == items[j].world && r.world.body < NumBodies
  {
    var item := items[j];
    if item.isStatic then
      ObjectConstants(item.world, item.texTransform, materials[item.mat].matCBIndex)
    else
      MovingItemBody(items, j);
      ObjectConstants(Orbit(item.world, MovingCount(items[..j]), time), item.texTransform, materials[item.mat].matCBIndex)
  }

  /** The object region after the first n iterations of the loop in
      UpdateObjectCBs: each due item among them has written its record. */
  function ObjectRegionAfter(region: Region<ObjectConstants>, items: seq<RenderItem>, materials: seq<Material>, time: int, n: nat)
    : (r: Region<ObjectConstants>)
    requires region.Valid() && |items| <= region.capacity && ItemsLinked(items, materials) && n <= |items|
    ensures r.Valid() && r == region.(records := r.records)
    decreases n
  {
    if n == 0 then region
    else
      var before := ObjectRegionAfter(region, items, materials, time, n - 1);
      if ItemDue(items[n - 1]) then before.Write(n - 1, ObjectRecord(items, n - 1, materials, time)) else before
  }

  /** What the first n iterations do to one record index: the due item with
      that index, if it is among them, has its record written, and every
      other index keeps its record. */
  lemma {:induction false} ObjectRegionRecords(region: Region<ObjectConstants>, items: seq<RenderItem>, materials: seq<Material>,
                                               time: int, n: nat, i: nat)
    requires region.Valid() && |items| <= region.capacity && ItemsLinked(items, materials) && n <= |items|
    ensures var r := ObjectRegionAfter(region, items, materials, time, n);
            if i < n && ItemDue(items[i]) then
              i in r.records && r.records[i] == ObjectRecord(items, i, materials, time)
            else
              (i in r.records <==> i in region.records) && (i in region.records ==> r.records[i] == region.records[i])
    decreases n
  {
    if n > 0 {
      ObjectRegionRecords(region, items, materials, time, n - 1, i);
    }
  }

  /** UpdateObjectCBs, as a whole: the region after every item has had its
      turn, and each static item that was written spends one unit of its
      countdown. */
  function ObjectPass(region: Region<ObjectConstants>, items: seq<RenderItem>, materials: seq<Material>, time: int)
    : (r: (Region<ObjectConstants>, seq<RenderItem>))
    requires region.Valid() && |items| <= region.capacity && ItemsLinked(items, materials)
    ensures r.0.Valid()
    ensures r.0.handle == region.handle && r.0.capacity == region.capacity && r.0.isConstantBuffer == region.isConstantBuffer
    ensures |r.1| == |items|
    ensures forall j :: 0 <= j < |items| ==> r.1[j] == ItemAfterPass(items[j])
  {
    (ObjectRegionAfter(region, items, materials, time, |items|),
     seq(|items|, j requires 0 <= j < |items| => ItemAfterPass(items[j])))
  }

  /** What ObjectPass does to one record index: the due item with that index
      has its record written, and every other index keeps its record. */
  lemma ObjectPassRecords(region: Region<ObjectConstants>, items: seq<RenderItem>, materials: seq<Material>, time: int, i: nat)
    requires region.Valid() && |items| <= region.capacity && ItemsLinked(items, materials)
    ensures var r := ObjectPass(region, items, materials, time).0;
            if i < |items| && ItemDue(items[i]) then
              i in r.records && r.records[i] == ObjectRecord(items, i, materials, time)
            else
              (i in r.records <==> i in region.records) && (i in region.records ==> r.records[i] == region.records[i])
  {
    ObjectRegionRecords(region, items, materials, time, |items|, i);
  }

  /** UpdateObjectCBs as the source writes it: one loop over the items with
      a running count of moving bodies, writing at each item's ObjCBIndex. */
  method UpdateObjectCBs(region: Region<ObjectConstants>, items: seq<RenderItem>, materials: seq<Material>, time: int)
    returns (region': Region<ObjectConstants>, items': seq<RenderItem>)
    requires region.Valid() && |items| <= region.capacity && ItemsLinked(items, materials)
    ensures (region', items') == ObjectPass(region, items, materials, time)
  {
    region' := region;
    items' := items;
    var body: nat := 0;
    var k := 0;
    while k < |items|
      invariant 0 <= k <= |items|
      invariant body == MovingCount(items[..k])
      invariant |items'| == |items|
      invariant forall j :: 0 <= j < k ==> items'[j] == ItemAfterPass(items[j])
      invariant forall j :: k <= j < |items| ==> items'[j] == items[j]
      invariant region' == ObjectRegionAfter(region, items, materials, time, k)
    {
      MovingCountSnoc(items, k);
      var item := items[k];
      if !item.isStatic {
        var world := Orbit(item.world, body, time);
        body := body + 1;
        region' := region'.Write(item.objCBIndex, ObjectConstants(world, item.texTransform, materials[item.mat].matCBIndex));
      } else if item.numFrameBufferFill > 0 {
        region' := region'.Write(item.objCBIndex, ObjectConstants(item.world, item.texTransform, materials[item.mat].matCBIndex));
        items' := items'[k := item.(numFrameBufferFill := item.numFrameBufferFill - 1)];
      }
      k := k + 1;
    }
    assert items' == ObjectPass(region, items, materials, time).1;
  }

  // ---------------------------------------------------------------------
  // Materials
  // ---------------------------------------------------------------------

  /** Whether UpdateMaterialBuffer writes this material's record. */
  predicate MaterialDue(mat: Material)
  {
    mat.numFramesDirty > 0
  }

  /** The material as UpdateMaterialBuffer leaves it: its countdown drops
      exactly when its record is written. */
  function MaterialAfterPass(mat: Material): (r: Material)
    ensures r.matCBIndex == mat.matCBIndex && r.diffuseSrvHeapIndex == mat.diffuseSrvHeapIndex && r.shading == mat.shading
    ensures MaterialDue(mat) <==> r.numFramesDirty < mat.numFramesDirty
    ensures mat.numFramesDirty > 0 ==> r.numFramesDirty == mat.numFramesDirty - 1
    ensures mat.numFramesDirty <= 0 ==> r == mat
    ensures mat.numFramesDirty >= 0 ==> 0 <= r.numFramesDirty <= mat.numFramesDirty
  {
    if mat.numFramesDirty > 0 then mat.(numFramesDirty := mat.numFramesDirty - 1) else mat
  }

  /** The record UpdateMaterialBuffer writes for a material: its shading
      constants and the descriptor index of its diffuse texture. */
  function MaterialRecord(mat: Material): (r: MaterialParameter)
    ensures r.diffuseMapIndex == mat.diffuseSrvHeapIndex && r.shading == mat.shading
  {
    MaterialParameter(mat.shading, mat.diffuseSrvHeapIndex)
  }

  /** The material region after the first n iterations of the loop in
      UpdateMaterialBuffer: each dirty material among them has written its
      record. */
  function MaterialRegionAfter(region: Region<MaterialParameter>, materials: seq<Material>, n: nat): (r: Region<MaterialParameter>)
    requires region.Valid() && |materials| <= region.capacity && n <= |materials|
    ensures r.Valid() && r == region.(records := r.records)
    decreases n
  {
    if n == 0 then region
    else
      var before := MaterialRegionAfter(region, materials, n - 1);
      if MaterialDue(materials[n - 1]) then before.Write(n - 1, MaterialRecord(materials[n - 1])) else before
  }

  /** What the first n iterations do to one record index: the dirty material
      with that index, if it is among them, has its record written, and every
      other index keeps its record. */
  lemma {:induction false} MaterialRegionRecords(region: Region<MaterialParameter>, materials: seq<Material>, n: nat, i: nat)
    requires region.Valid() && |materials| <= region.capacity && n <= |materials|
    ensures var r := MaterialRegionAfter(region, materials, n);
            if i < n && MaterialDue(materials[i]) then
              i in r.records && r.records[i] == MaterialRecord(materials[i])
            else
              (i in r.records <==> i in region.records) && (i in region.records ==> r.records[i] == region.records[i])
    decreases n
  {
    if n > 0 {
      MaterialRegionRecords(region, materials, n - 1, i);
    }
  }

  /** UpdateMaterialBuffer, as a whole: the region after every material has
      had its turn, and each dirty material spends one unit of its count. */
  function MaterialPass(region: Region<MaterialParameter>, materials: seq<Material>)
    : (r: (Region<MaterialParameter>, seq<Material>))
    requires region.Valid() && |materials| <= region.capacity
    ensures r.0.Valid()
    ensures r.0.handle == region.handle && r.0.capacity == region.capacity && r.0.isConstantBuffer == region.isConstantBuffer
    ensures |r.1| == |materials|
    ensures forall m :: 0 <= m < |materials| ==> r.1[m] == MaterialAfterPass(materials[m])
  {
    (MaterialRegionAfter(region, materials, |materials|),
     seq(|materials|, m requires 0 <= m < |materials| => MaterialAfterPass(materials[m])))
  }

  /** What MaterialPass does to one record index: a dirty material's record
      is written, every other record is kept. */
  lemma MaterialPassRecords(region: Region<MaterialParameter>, materials: seq<Material>, i: nat)
    requires region.Valid() && |materials| <= region.capacity
    ensures var r := MaterialPass(region, materials).0;
            if i < |materials| && MaterialDue(materials[i]) then
              i in r.records && r.records[i] == MaterialRecord(materials[i])
            else
              (i in r.records <==> i in region.records) && (i in region.records ==> r.records[i] == region.records[i])
  {
    MaterialRegionRecords(region, materials, |materials|, i);
  }

  /** UpdateMaterialBuffer as the source writes it: one loop over the
      materials, writing at each material's MatCBIndex. */
  method UpdateMaterialBuffer(region: Region<MaterialParameter>, materials: seq<Material>)
    returns (region': Region<MaterialParameter>, materials': seq<Material>)
    requires region.Valid() && |materials| <= region.capacity && MaterialsIndexed(materials)
    ensures (region', materials') == MaterialPass(region, materials)
  {
    region' := region;
    materials' := materials;
    var k := 0;
    while k < |materials|
      invariant 0 <= k <= |materials|
      invariant |materials'| == |materials|
      invariant forall m :: 0 <= m < k ==> materials'[m] == MaterialAfterPass(materials[m])
      invariant forall m :: k <= m < |materials| ==> materials'[m] == materials[m]
      invariant region' == MaterialRegionAfter(region, materials, k)
    {
      var mat := materials[k];
      if mat.numFramesDirty > 0 {
        region' := region'.Write(mat.matCBIndex, MaterialParameter(mat.shading, mat.diffuseSrvHeapIndex));
        materials' := materials'[k := mat.(numFramesDirty := mat.numFramesDirty - 1)];
      }
      k := k + 1;
    }
    assert materials' == MaterialPass(region, materials).1;
  }

  // ---------------------------------------------------------------------
  // Scene well-formedness across the passes
  // ---------------------------------------------------------------------

  /** The countdowns never leave [0, N]: a pass keeps a well-formed scene
      well formed. */
  lemma PassesKeepWellFormed(items: seq<RenderItem>, materials: seq<Material>, items': seq<RenderItem>, materials': seq<Material>)
    requires WellFormed(items, materials)
    requires |items'| == |items| && forall j :: 0 <= j < |items| ==> items'[j] == ItemAfterPass(items[j])
    requires |materials'| == |materials| && forall m :: 0 <= m < |materials| ==> materials'[m] == MaterialAfterPass(materials[m])
    ensures WellFormed(items', materials')
  {
    MovingCountFlags(items, items');
    forall j | 0 <= j < |items'|
      ensures ItemCountdownInRange(items', j)
    {
      assert ItemCountdownInRange(items, j);
    }
    forall m | 0 <= m < |materials'|
      ensures MaterialCountdownInRange(materials', m)
    {
      assert MaterialCountdownInRange(materials, m);
    }
  }

  // ---------------------------------------------------------------------
  // Common record
  // ---------------------------------------------------------------------

  /** UpdateCommonCB: the camera and timing record is written at index 0 on
      every tick; the common region holds nothing else. */
  function CommonPass(region: Region<CommonConstants>, camera: Matrix, totalTime: int): (r: Region<CommonConstants>)
    requires region.Valid() && 1 <= region.capacity
    ensures r.Valid()
    ensures r.handle == region.handle && r.capacity == region.capacity && r.isConstantBuffer == region.isConstantBuffer
    ensures 0 in r.records && r.records[0] == CommonConstants(camera, totalTime)
    ensures forall i :: i != 0 ==> (i in r.records <==> i in region.records)
  {
    region.Write(0, CommonConstants(camera, totalTime))
  }
}
