/** The state the partition table is reduced to before anything is booted. */
module BootTypes {
  import opened Words

  const FACTORY_INDEX: int := -1
  const TEST_APP_INDEX: int := -2
  const MAX_OTA_SLOTS: nat := 16

  datatype PartitionPos = PartitionPos(offset: u32, size: u32)

  const NO_PARTITION: PartitionPos := PartitionPos(0, 0)

  datatype BootTable = BootTable(
    factory: PartitionPos,
    test: PartitionPos,
    ota: seq<PartitionPos>,
    otaInfo: PartitionPos,
    appCount: nat)
  {
    predicate Valid() {
      |ota| == MAX_OTA_SLOTS && appCount <= MAX_OTA_SLOTS
    }
  }
}
