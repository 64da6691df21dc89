/** The traffic description records of the fabric routing test: what a test
    case declares, and the sender/receiver descriptors derived from it. */
module WorkerSetup {
  import opened Common

  /** Chip-level send type (unicast, multicast, ...). The enumeration is
      declared in a header outside this model; only identity matters here. */
  datatype ChipSendType = ChipSendType(code: nat)

  /** NoC-level send type (write, atomic increment, ...), opaque likewise. */
  datatype NocSendType = NocSendType(code: nat)

  /** The compass directions a hop count can be given for on a 2-D mesh. */
  datatype RoutingDirection = N | E | S | W

  /** A logical core coordinate on a chip. */
  datatype CoreCoord = CoreCoord(x: u64, y: u64)

  /** Payload shape; both counts are `size_t`, so unsigned. */
  datatype TrafficDataConfig = TrafficDataConfig(
    chipSendType: ChipSendType,
    nocSendType: NocSendType,
    numPackets: u64,
    payloadSizeBytes: u64)

  /** A declared traffic case. The destination list and the hop map are two
      independent optionals: the type admits all four combinations, and only
      `TestContext.HandleTrafficConfig` rejects the two invalid ones. */
  datatype TrafficConfig = TrafficConfig(
    dataConfig: TrafficDataConfig,
    srcPhysChipId: ChipId,
    dstPhysChipIds: Option<seq<ChipId>>,
    numHops: Option<map<RoutingDirection, u32>>,
    srcLogicalCore: Option<CoreCoord>,
    dstLogicalCore: Option<CoreCoord>,
    senderKernelSrc: Option<string>,
    receiverKernelSrc: Option<string>)

  /** A sender descriptor: exactly one destination chip, and a hop count
      (unsigned) per direction. */
  datatype TrafficSenderConfig = TrafficSenderConfig(
    dataConfig: TrafficDataConfig,
    dstPhysChipId: ChipId,
    numHops: map<RoutingDirection, u32>,
    targetAddress: u64,
    receiverNocXyEncoding: u32)

  /** A receiver descriptor, tied to its sender only by `senderId`. */
  datatype TrafficReceiverConfig = TrafficReceiverConfig(
    dataConfig: TrafficDataConfig,
    senderId: u32,
    targetAddress: u64)
}
