/** `TestFabricFixture`: the list of physical chip ids the fabric test runs
    on, and the map from chip id to the device handle the runtime opened. */
module FabricFixture {
  import opened Common

  /** Only the distinction between a TG (Galaxy) cluster and any other
      cluster matters to the harness. */
  datatype ClusterType = TG | OtherCluster

  /** An `IDevice*` handed out by the runtime; opaque to the harness. */
  datatype DeviceHandle = DeviceHandle(address: nat)

  datatype Fixture = Fixture(
    physicalChipIds: seq<ChipId>,
    devicesMap: map<ChipId, DeviceHandle>)

  /** On a TG cluster the first four physical chip ids are the gateway
      chips, so enumeration starts at 4. */
  function ChipIdOffset(cluster: ClusterType): nat {
    if cluster == TG then 4 else 0
  }

  predicate StrictlyIncreasing(ids: seq<ChipId>) {
    forall a, b :: 0 <= a < b < |ids| ==> ids[a] < ids[b]
  }

  /** The chip-id part of `setup_devices`: the id list is resized to the
      number of available devices and filled by `std::iota` from the
      cluster's offset. The device map is left as it was. */
  method SetupDevices(f: Fixture, cluster: ClusterType, numDevices: u64) returns (f': Fixture)
    ensures |f'.physicalChipIds| == numDevices
    ensures forall k :: 0 <= k < numDevices ==> f'.physicalChipIds[k] == ChipIdOffset(cluster) + k
    ensures StrictlyIncreasing(f'.physicalChipIds)
    ensures forall c :: c in f'.physicalChipIds <==> ChipIdOffset(cluster) <= c < ChipIdOffset(cluster) + numDevices
    ensures f'.devicesMap == f.devicesMap
  {
    var offset := ChipIdOffset(cluster);
    var ids: seq<ChipId> := [];
    var next: ChipId := offset;
    while |ids| < numDevices
      invariant |ids| <= numDevices
      invariant next == offset + |ids|
      invariant forall k :: 0 <= k < |ids| ==> ids[k] == offset + k
    {
      ids := ids + [next];
      next := next + 1;
    }
    forall c | offset <= c < offset + numDevices
      ensures c in ids
    {
      assert ids[c - offset] == c;
    }
    f' := f.(physicalChipIds := ids);
  }

  /** `get_device_handle`: the handle of a known chip, an error for any chip
      the runtime did not open. */
  function GetDeviceHandle(f: Fixture, physicalChipId: ChipId): (r: Result<DeviceHandle>)
    ensures r.Ok? <==> physicalChipId in f.devicesMap
    ensures r.Ok? ==> r.value == f.devicesMap[physicalChipId]
    ensures r.Err? ==> r.error == UnknownDeviceChip(physicalChipId)
  {
    if physicalChipId !in f.devicesMap then Err(UnknownDeviceChip(physicalChipId))
    else Ok(f.devicesMap[physicalChipId])
  }
}
