/** `TestContext` of the fabric routing test: the physical meshes, the
    fixture, the chip ids the test may use, one test device per opened chip,
    and the validation of a declared traffic case. */
module TestContext {
  import opened Common
  import opened WorkerSetup
  import PhysicalMeshes
  import FabricFixture

  /** A chip the test drives, with the runtime handle of its device. */
  datatype TestDevice = TestDevice(chipId: ChipId, handle: FabricFixture.DeviceHandle)

  datatype Context = Context(
    meshes: PhysicalMeshes.Meshes,
    fixture: FabricFixture.Fixture,
    availablePhysicalChipIds: seq<ChipId>,
    testDevices: map<ChipId, TestDevice>)

  ghost function Elems(ids: seq<ChipId>): set<ChipId> {
    set c | c in ids
  }

  /** `init` on a freshly constructed context: the meshes of every user mesh
      id are generated, the fixture enumerates the chip ids, and those ids
      become the available ones. No device is open yet. */
  method Init(cp: PhysicalMeshes.ControlPlane, cluster: FabricFixture.ClusterType, numDevices: u64)
    returns (ctx: Context)
    ensures PhysicalMeshes.Wf(ctx.meshes) && ctx.meshes.controlPlane == cp
    ensures forall mesh :: mesh in ctx.meshes.physicalChipView <==> mesh in cp.userPhysicalMeshIds
    ensures ctx.availablePhysicalChipIds == ctx.fixture.physicalChipIds
    ensures |ctx.availablePhysicalChipIds| == numDevices
    ensures forall k :: 0 <= k < numDevices ==>
              ctx.availablePhysicalChipIds[k] == FabricFixture.ChipIdOffset(cluster) + k
    ensures ctx.fixture.devicesMap == map[] && ctx.testDevices == map[]
  {
    var meshes := PhysicalMeshes.SetupPhysicalMeshes(cp);
    var fixture := FabricFixture.SetupDevices(FabricFixture.Fixture([], map[]), cluster, numDevices);
    ctx := Context(meshes, fixture, fixture.physicalChipIds, map[]);
  }

  /** `open_devices`: the runtime's device map (`created`, the result of
      `CreateDevices`) is installed in the fixture, then every available
      chip id is looked up in turn and, if not yet present, entered as a
      test device. The first id without a handle aborts with its error. */
  method OpenDevices(ctx: Context, created: map<ChipId, FabricFixture.DeviceHandle>) returns (r: Result<Context>)
    ensures r.Ok? <==> forall c :: c in ctx.availablePhysicalChipIds ==> c in created
    ensures r.Err? ==>
              exists k :: && 0 <= k < |ctx.availablePhysicalChipIds|
                          && ctx.availablePhysicalChipIds[k] !in created
                          && (forall k' :: 0 <= k' < k ==> ctx.availablePhysicalChipIds[k'] in created)
                          && r.error == UnknownDeviceChip(ctx.availablePhysicalChipIds[k])
    ensures r.Ok? ==>
              && r.value.meshes == ctx.meshes
              && r.value.availablePhysicalChipIds == ctx.availablePhysicalChipIds
              && r.value.fixture == ctx.fixture.(devicesMap := created)
              && r.value.testDevices.Keys == ctx.testDevices.Keys + Elems(ctx.availablePhysicalChipIds)
              && (forall c :: c in ctx.testDevices ==> r.value.testDevices[c] == ctx.testDevices[c])
              && (forall c :: c in ctx.availablePhysicalChipIds && c !in ctx.testDevices ==>
                    r.value.testDevices[c] == TestDevice(c, created[c]))
  {
    var ids := ctx.availablePhysicalChipIds;
    var fixture := ctx.fixture.(devicesMap := created);
    var devices := ctx.testDevices;
    var k := 0;
    while k < |ids|
      invariant 0 <= k <= |ids|
      invariant forall k' :: 0 <= k' < k ==> ids[k'] in created
      invariant devices.Keys == ctx.testDevices.Keys + Elems(ids[..k])
      invariant forall c :: c in ctx.testDevices ==> devices[c] == ctx.testDevices[c]
      invariant forall c :: c in ids[..k] && c !in ctx.testDevices ==> devices[c] == TestDevice(c, created[c])
    {
      var chipId := ids[k];
      var handle := FabricFixture.GetDeviceHandle(fixture, chipId);
      if handle.Err? {
        return Err(handle.error);
      }
      if chipId !in devices {
        devices := devices[chipId := TestDevice(chipId, handle.value)];
      }
      assert ids[..k + 1] == ids[..k] + [chipId];
      k := k + 1;
    }
    assert ids[..k] == ids;
    r := Ok(ctx.(fixture := fixture, testDevices := devices));
  }

  /** What `handle_traffic_config` settles before its TODOs: the source's
      test device, the destination list, the (never filled) hop map and the
      sender descriptor with its data config copied in. */
  datatype TrafficResolution = TrafficResolution(
    testDevice: TestDevice,
    dstPhysChipIds: seq<ChipId>,
    numHops: map<RoutingDirection, u32>,
    senderConfig: TrafficSenderConfig)

  /** `handle_traffic_config`. The sender descriptor is default-initialised:
      its scalar fields are indeterminate, so they are taken from `uninit`;
      its hop map is default-constructed, hence empty. */
  function HandleTrafficConfig(ctx: Context, cfg: TrafficConfig, uninit: TrafficSenderConfig)
    : (r: Result<TrafficResolution>)
    ensures cfg.srcPhysChipId !in ctx.testDevices ==> r == Err(UnknownSrcChip(cfg.srcPhysChipId))
    ensures cfg.srcPhysChipId in ctx.testDevices && cfg.dstPhysChipIds.None? && cfg.numHops.None? ==>
              r == Err(NoDestinationOrHops)
    ensures cfg.srcPhysChipId in ctx.testDevices && cfg.dstPhysChipIds.Some? && cfg.numHops.Some? ==>
              r == Err(BothDestinationAndHops)
    ensures r.Ok? <==> cfg.srcPhysChipId in ctx.testDevices && (cfg.dstPhysChipIds.Some? != cfg.numHops.Some?)
    ensures r.Ok? ==>
              && r.value.testDevice == ctx.testDevices[cfg.srcPhysChipId]
              && (cfg.dstPhysChipIds.Some? ==> r.value.dstPhysChipIds == cfg.dstPhysChipIds.value)
              && (cfg.numHops.Some? ==> r.value.dstPhysChipIds == [])
              && r.value.numHops == map[]
              && r.value.senderConfig.dataConfig == cfg.dataConfig
              && r.value.senderConfig.numHops == map[]
              && r.value.senderConfig.dstPhysChipId == uninit.dstPhysChipId
              && r.value.senderConfig.targetAddress == uninit.targetAddress
              && r.value.senderConfig.receiverNocXyEncoding == uninit.receiverNocXyEncoding
  {
    if cfg.srcPhysChipId !in ctx.testDevices then Err(UnknownSrcChip(cfg.srcPhysChipId))
    else
      var testDevice := ctx.testDevices[cfg.srcPhysChipId];
      if cfg.dstPhysChipIds.None? && cfg.numHops.None? then Err(NoDestinationOrHops)
      else if cfg.dstPhysChipIds.Some? && cfg.numHops.Some? then Err(BothDestinationAndHops)
      else
        var dst := if cfg.dstPhysChipIds.Some? then cfg.dstPhysChipIds.value else [];
        var sender := uninit.(dataConfig := cfg.dataConfig, numHops := map[]);
        Ok(TrafficResolution(testDevice, dst, map[], sender))
  }

  /** The start of the test's `main`: `init`, then `open_devices`. Setup
      succeeds exactly when the runtime opened every enumerated chip id, and
      then each of them, and nothing else, has a test device. */
  method InitThenOpen(cp: PhysicalMeshes.ControlPlane, cluster: FabricFixture.ClusterType, numDevices: u64,
                      created: map<ChipId, FabricFixture.DeviceHandle>)
    returns (r: Result<Context>)
    ensures r.Ok? <==> forall c :: FabricFixture.ChipIdOffset(cluster) <= c < FabricFixture.ChipIdOffset(cluster) + numDevices ==>
                           c in created
    ensures r.Err? ==> r.error.UnknownDeviceChip?
    ensures r.Ok? ==>
              && PhysicalMeshes.Wf(r.value.meshes)
              && (forall c :: c in r.value.testDevices <==>
                    FabricFixture.ChipIdOffset(cluster) <= c < FabricFixture.ChipIdOffset(cluster) + numDevices)
              && forall c :: c in r.value.testDevices ==> c in created && r.value.testDevices[c] == TestDevice(c, created[c])
  {
    var ctx := Init(cp, cluster, numDevices);
    var offset := FabricFixture.ChipIdOffset(cluster);
    assert forall c :: c in ctx.availablePhysicalChipIds <==> offset <= c < offset + numDevices by {
      forall c | offset <= c < offset + numDevices
        ensures c in ctx.availablePhysicalChipIds
      {
        assert ctx.availablePhysicalChipIds[c - offset] == c;
      }
    }
    r := OpenDevices(ctx, created);
    if r.Ok? {
      assert forall c :: c in r.value.testDevices <==> c in ctx.availablePhysicalChipIds;
    }
  }
}
