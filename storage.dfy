/** The persistence gateway (nodemcu/poot_lock/storage.h) seen abstractly: the three records
    the firmware keeps in its state file. Each field holds the last value saved, so a load
    after a restart returns it. The file system and JSON encoding are not modelled. */
module Storage {
  import opened U32
  import opened Encoding

  /** A remembered signature and its request timestamp. */
  datatype ReplayRecord = ReplayRecord(ts: u32, sig: seq<byte>)

  class Store {
    var clockAnchor: u32
    var cloudCooldownUntil: u32
    var replay: seq<ReplayRecord>

    /** A device whose state file is empty: every record reads as its default. */
    constructor()
      ensures clockAnchor == 0 && cloudCooldownUntil == 0 && replay == []
    {
      clockAnchor, cloudCooldownUntil, replay := 0, 0, [];
    }

    method SaveClockAnchor(epochSec: u32)
      modifies this
      ensures clockAnchor == epochSec
      ensures cloudCooldownUntil == old(cloudCooldownUntil) && replay == old(replay)
    {
      clockAnchor := epochSec;
    }

    method SaveCloudCooldownUntil(epochSec: u32)
      modifies this
      ensures cloudCooldownUntil == epochSec
      ensures clockAnchor == old(clockAnchor) && replay == old(replay)
    {
      cloudCooldownUntil := epochSec;
    }

    method SaveReplayRecords(records: seq<ReplayRecord>)
      modifies this
      ensures replay == records
      ensures clockAnchor == old(clockAnchor) && cloudCooldownUntil == old(cloudCooldownUntil)
    {
      replay := records;
    }

    /** `loadReplayRecords(records, count, maxCount)`: at most `maxCount` records, in the
        order they were saved. */
    method LoadReplayRecords(maxCount: nat) returns (records: seq<ReplayRecord>)
      ensures records == if |replay| <= maxCount then replay else replay[..maxCount]
    {
      records := if |replay| <= maxCount then replay else replay[..maxCount];
    }
  }
}
