/**
 * The global state behind request-body storage (common/disk_cache_config.go): the configuration, the usage
 * counters and the cache directory.
 */
module DiskCacheConfig {
  import opened Common

  type Bytes = seq<byte>

  datatype Config = Config(enabled: bool, thresholdMB: int, maxSizeMB: int) {
    function Threshold(): int { thresholdMB * 0x10_0000 }

    function MaxBytes(): int { maxSizeMB * 0x10_0000 }
  }

  /** A megabyte is 2^20 bytes. */
  lemma MegabytesMean(config: Config)
    ensures config.Threshold() == config.thresholdMB * 1048576 && config.MaxBytes() == config.maxSizeMB * 1048576
  {
  }

  /** The usage counters. */
  datatype Counters = Counters(
    files: int, diskBytes: int, buffers: int, memoryBytes: int, diskHits: int, memoryHits: int)

  function AddDisk(c: Counters, size: int): Counters {
    c.(files := c.files + 1, diskBytes := c.diskBytes + size)
  }

  /** Counters of the disk side never stay below zero. */
  function DropDisk(c: Counters, size: int): Counters {
    c.(files := if c.files - 1 < 0 then 0 else c.files - 1,
       diskBytes := if c.diskBytes - size < 0 then 0 else c.diskBytes - size)
  }

  function AddMemory(c: Counters, size: int): Counters {
    c.(buffers := c.buffers + 1, memoryBytes := c.memoryBytes + size)
  }

  function DropMemory(c: Counters, size: int): Counters {
    c.(buffers := c.buffers - 1, memoryBytes := c.memoryBytes - size)
  }

  /** The package variables of the disk cache, and the files in its directory by path. */
  class DiskCache {
    const config: Config
    var counters: Counters
    var files: map<nat, Bytes>

    constructor (config: Config)
      ensures this.config == config && counters == Counters(0, 0, 0, 0, 0, 0) && files == map[]
    {
      this.config := config;
      counters := Counters(0, 0, 0, 0, 0, 0);
      files := map[];
    }

    method IncrementDiskFiles(size: int)
      modifies this`counters
      ensures counters == AddDisk(old(counters), size)
    {
      counters := counters.(files := counters.files + 1);
      counters := counters.(diskBytes := counters.diskBytes + size);
    }

    method DecrementDiskFiles(size: int)
      modifies this`counters
      ensures counters == DropDisk(old(counters), size)
    {
      counters := counters.(files := counters.files - 1);
      if counters.files < 0 {
        counters := counters.(files := 0);
      }
      counters := counters.(diskBytes := counters.diskBytes - size);
      if counters.diskBytes < 0 {
        counters := counters.(diskBytes := 0);
      }
    }

    method IncrementMemoryBuffers(size: int)
      modifies this`counters
      ensures counters == AddMemory(old(counters), size)
    {
      counters := counters.(buffers := counters.buffers + 1);
      counters := counters.(memoryBytes := counters.memoryBytes + size);
    }

    method DecrementMemoryBuffers(size: int)
      modifies this`counters
      ensures counters == DropMemory(old(counters), size)
    {
      counters := counters.(buffers := counters.buffers - 1);
      counters := counters.(memoryBytes := counters.memoryBytes - size);
    }

    predicate IsDiskCacheAvailable(requestSize: int)
      reads this
    {
      config.enabled && counters.diskBytes + requestSize <= config.MaxBytes()
    }
  }
}
