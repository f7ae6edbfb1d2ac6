/** The options record of the files cache (FilesCacheOptions): validating setters for
    the size limit and the compaction percentage, and the lazily filled storage
    directory. Durations are ticks. */
module FilesCacheOptionsModel {
  import opened Wrappers
  import opened CacheTypes

  class FilesCacheOptions {
    /** `None` until the storage directory is set or first computed. */
    var storageDir: Option<string>
    var sizeLimit: Option<nat>
    var compactionPercentage: Percentage
    var expirationScanFrequency: int

    /** The defaults: no size limit, compaction by 5 per cent, a scan at most once a minute. */
    constructor()
      ensures storageDir.None? && sizeLimit.None?
      ensures compactionPercentage == 0.05
      ensures expirationScanFrequency == TicksPerMinute
    {
      storageDir := None;
      sizeLimit := None;
      compactionPercentage := 0.05;
      expirationScanFrequency := TicksPerMinute;
    }

    /** Rejects a negative limit and keeps the old one; null and non-negative limits are stored. */
    method SetSizeLimit(v: Option<int>) returns (o: Outcome<Error>)
      modifies this
      ensures o.Fail? <==> v.Some? && v.value < 0
      ensures o.Fail? ==> o.error == ArgumentOutOfRange && sizeLimit == old(sizeLimit)
      ensures o.Pass? ==> sizeLimit == if v.Some? then Some(v.value as nat) else None
      ensures storageDir == old(storageDir) && compactionPercentage == old(compactionPercentage)
      ensures expirationScanFrequency == old(expirationScanFrequency)
    {
      if v.Some? && v.value < 0 {
        return Fail(ArgumentOutOfRange);
      }
      sizeLimit := if v.Some? then Some(v.value as nat) else None;
      o := Pass;
    }

    /** Accepts exactly the percentages in [0, 1]; any other value is rejected and the old one kept. */
    method SetCompactionPercentage(v: real) returns (o: Outcome<Error>)
      modifies this
      ensures o.Pass? <==> 0.0 <= v <= 1.0
      ensures o.Fail? ==> o.error == ArgumentOutOfRange && compactionPercentage == old(compactionPercentage)
      ensures o.Pass? ==> compactionPercentage == v
      ensures storageDir == old(storageDir) && sizeLimit == old(sizeLimit)
      ensures expirationScanFrequency == old(expirationScanFrequency)
    {
      if 0.0 <= v <= 1.0 {
        compactionPercentage := v;
        o := Pass;
      } else {
        o := Fail(ArgumentOutOfRange);
      }
    }

    method SetExpirationScanFrequency(v: int)
      modifies this
      ensures expirationScanFrequency == v
      ensures storageDir == old(storageDir) && sizeLimit == old(sizeLimit)
      ensures compactionPercentage == old(compactionPercentage)
    {
      expirationScanFrequency := v;
    }

    method SetStorageDir(v: string)
      modifies this
      ensures storageDir == Some(v)
      ensures sizeLimit == old(sizeLimit) && compactionPercentage == old(compactionPercentage)
      ensures expirationScanFrequency == old(expirationScanFrequency)
    {
      storageDir := Some(v);
    }

    /** The storage directory; when unset, `environmentDefault` (the path the source builds
        from the application-data folder and the process name) is stored and returned. */
    method GetStorageDir(environmentDefault: string) returns (d: string)
      modifies this
      ensures d == old(storageDir).GetOr(environmentDefault)
      ensures storageDir == Some(d)
      ensures sizeLimit == old(sizeLimit) && compactionPercentage == old(compactionPercentage)
      ensures expirationScanFrequency == old(expirationScanFrequency)
    {
      if storageDir.None? {
        storageDir := Some(environmentDefault);
      }
      d := storageDir.value;
    }
  }

  /** Once computed, the storage directory stays the same, whatever default a later read
      would have computed. */
  method StorageDirIsStable(o: FilesCacheOptions, firstDefault: string, laterDefault: string)
    returns (first: string, later: string)
    modifies o
    ensures first == old(o.storageDir).GetOr(firstDefault)
    ensures later == first
  {
    first := o.GetStorageDir(firstDefault);
    later := o.GetStorageDir(laterDefault);
  }
}
