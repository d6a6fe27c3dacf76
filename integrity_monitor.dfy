/** The class `FileIntegrityMonitor` of file_integrity_monitor.py: the hash
    store it keeps in memory and persists, the security log it appends to,
    and the baseline and check runs that update both in place. The walk of
    the watch folder is given as a sequence of observations and the clock
    as an instant; the store file is a value that loading reads and saving
    replaces. */
module IntegrityMonitor {
  import opened Wrappers
  import opened Strings
  import opened Seqs
  import opened Clock
  import opened EventLog
  import opened IntegritySpec

  /** The persisted `hash_db.json`: not there, there but not loadable, or a
      saved store. */
  datatype StoreFile = Absent | Unreadable(reason: string) | Saved(store: Store)

  /** The event `_load_hash_db` logs for a store file. */
  function LoadEvent(f: StoreFile, now: Instant): Event
  {
    match f
    case Absent => Event(now, INFO, "No existing hash database found, creating new one", None)
    case Unreadable(reason) => Event(now, WARNING, "Error loading hash database: " + reason, None)
    case Saved(store) => Event(now, INFO, "Hash database loaded: " + NatToDecimal(|store|) + " files", None)
  }

  /** Removing one more missing key from the store. */
  lemma RemoveOneMore(db: Store, missing: set<string>, remaining: set<string>, x: string)
    requires remaining <= missing && x in remaining
    ensures db - (missing - remaining) - {x} == db - (missing - (remaining - {x}))
  {
    assert missing - (remaining - {x}) == (missing - remaining) + {x};
  }

  class FileIntegrityMonitor {
    const watchFolder: string
    /** `self.hash_db`. */
    var hashDb: Store
    /** The contents of the store file on disk. */
    var storeFile: StoreFile
    /** Every event written to the security log by this monitor, oldest first. */
    ghost var log: seq<Event>

    /** `__init__`: an empty store, then `_load_hash_db`. */
    constructor (watchFolder: string, storeFile: StoreFile, now: Instant)
      ensures this.watchFolder == watchFolder && this.storeFile == storeFile
      ensures hashDb == (if storeFile.Saved? then storeFile.store else map[])
      ensures log == [LoadEvent(storeFile, now)]
    {
      this.watchFolder := watchFolder;
      this.storeFile := storeFile;
      hashDb := map[];
      log := [];
      new;
      LoadHashDb(now);
    }

    /** `_log`: one event appended to the security log. */
    method Log(level: Level, message: string, fileName: Option<string>, now: Instant)
      modifies this`log
      ensures log == old(log) + [Event(now, level, message, fileName)]
    {
      log := log + [Event(now, level, message, fileName)];
    }

    /** `_load_hash_db`: a saved store replaces the store in memory; a missing
        or unloadable file leaves it as it was. */
    method LoadHashDb(now: Instant)
      modifies this`hashDb, this`log
      ensures hashDb == (if storeFile.Saved? then storeFile.store else old(hashDb))
      ensures log == old(log) + [LoadEvent(storeFile, now)]
    {
      match storeFile
      case Absent =>
        Log(INFO, "No existing hash database found, creating new one", None, now);
      case Unreadable(reason) =>
        Log(WARNING, "Error loading hash database: " + reason, None, now);
      case Saved(store) =>
        hashDb := store;
        Log(INFO, "Hash database loaded: " + NatToDecimal(|hashDb|) + " files", None, now);
    }

    /** `_save_hash_db`: the whole store is written. */
    method SaveHashDb(now: Instant)
      modifies this`storeFile, this`log
      ensures storeFile == Saved(hashDb)
      ensures log == old(log) + [SavedEvent(|hashDb|, now)]
    {
      storeFile := Saved(hashDb);
      Log(INFO, "Hash database saved: " + NatToDecimal(|hashDb|) + " files", None, now);
    }

    /** `_calculate_hash`: the digest, or `None` after logging why the file
        could not be read. */
    method CalculateHash(o: Observation, now: Instant) returns (digest: Option<string>)
      modifies this`log
      ensures digest == (if Hashed(o) then Some(o.outcome.hex) else None)
      ensures log == old(log) + (if Hashed(o) then [] else [HashErrorEvent(watchFolder, o, now)])
    {
      match o.outcome
      case Digest(hex) =>
        digest := Some(hex);
      case ReadError(reason) =>
        Log(WARNING, "Error calculating hash for " + FullPath(watchFolder, o.path) + ": " + reason, None, now);
        digest := None;
    }

    /** `initialize_baseline`: a fresh record for every readable file, over
        whatever the store already holds; returns how many were recorded. */
    method InitializeBaseline(obs: seq<Observation>, now: Instant) returns (fileCount: nat)
      modifies this
      ensures hashDb == Baseline(old(hashDb), obs, now)
      ensures fileCount == HashedCount(obs)
      ensures storeFile == Saved(hashDb)
      ensures log == old(log) + [StartBaselineEvent(now)] + BaselineEvents(watchFolder, obs, now)
                     + [SavedEvent(|hashDb|, now), BaselineDoneEvent(fileCount, now)]
    {
      Log(INFO, "Initializing baseline hash database...", None, now);
      ghost var db0, log0 := hashDb, log;
      fileCount := 0;
      var i := 0;
      while i < |obs|
        invariant 0 <= i <= |obs|
        invariant hashDb == Baseline(db0, obs[..i], now)
        invariant fileCount == HashedCount(obs[..i])
        invariant log == log0 + BaselineEvents(watchFolder, obs[..i], now)
      {
        var o := obs[i];
        var digest := CalculateHash(o, now);
        if digest.Some? {
          var relativePath := o.path;
          hashDb := hashDb[relativePath := Record(digest.value, o.size, o.modified, now)];
          fileCount := fileCount + 1;
          Log(INFO, "added to baseline", Some(relativePath), now);
        }
        assert Init(obs[..i + 1]) == obs[..i];
        i := i + 1;
      }
      assert obs[..|obs|] == obs;
      SaveHashDb(now);
      Log(INFO, "Baseline initialized with " + NatToDecimal(fileCount) + " files", None, now);
    }

    /** The body of the first loop of `check_integrity` after the path
        joined `current_files`: digest, classify, count, log, record. */
    method CheckFile(o: Observation, now: Instant, safe: nat, corrupted: nat, added: nat)
      returns (safe': nat, corrupted': nat, added': nat)
      modifies this`hashDb, this`log
      ensures Summary(safe', corrupted', added', 0) == Bump(Summary(safe, corrupted, added, 0), Classify(old(hashDb), o))
      ensures hashDb == Step(old(hashDb), o, now)
      ensures log == old(log) + [CheckEvent(watchFolder, old(hashDb), o, now)]
    {
      safe', corrupted', added' := safe, corrupted, added;
      var relativePath := o.path;
      var currentHash := CalculateHash(o, now);
      if currentHash.None? {
        return;
      }
      if relativePath !in hashDb {
        Log(ALERT, "detected (Unknown file)", Some(relativePath), now);
        added' := added' + 1;
        hashDb := hashDb[relativePath := Record(currentHash.value, o.size, o.modified, now)];
      } else {
        var storedHash := hashDb[relativePath].hash;
        if currentHash.value == storedHash {
          Log(INFO, "verified OK", Some(relativePath), now);
          safe' := safe' + 1;
        } else {
          Log(WARNING, "integrity failed!", Some(relativePath), now);
          corrupted' := corrupted' + 1;
          hashDb := hashDb[relativePath := hashDb[relativePath].(hash := currentHash.value)];
          hashDb := hashDb[relativePath := hashDb[relativePath].(modified := o.modified)];
        }
      }
    }

    /** The first loop of `check_integrity`: every walked file joins
        `current_files`, then is classified, counted, logged and recorded. */
    method ForwardPass(obs: seq<Observation>, now: Instant)
      returns (currentFiles: set<string>, safeFiles: nat, corruptedFiles: nat, newFiles: nat)
      modifies this`hashDb, this`log
      ensures hashDb == Forward(old(hashDb), obs, now)
      ensures Summary(safeFiles, corruptedFiles, newFiles, 0) == Tally(old(hashDb), obs, now)
      ensures currentFiles == Paths(obs)
      ensures log == old(log) + ForwardEvents(watchFolder, old(hashDb), obs, now)
    {
      ghost var db0, log0 := hashDb, log;
      currentFiles := {};
      safeFiles, corruptedFiles, newFiles := 0, 0, 0;
      var i := 0;
      while i < |obs|
        invariant 0 <= i <= |obs|
        invariant hashDb == Forward(db0, obs[..i], now)
        invariant Summary(safeFiles, corruptedFiles, newFiles, 0) == Tally(db0, obs[..i], now)
        invariant currentFiles == Paths(obs[..i])
        invariant log == log0 + ForwardEvents(watchFolder, db0, obs[..i], now)
      {
        var o := obs[i];
        currentFiles := currentFiles + {o.path};
        safeFiles, corruptedFiles, newFiles := CheckFile(o, now, safeFiles, corruptedFiles, newFiles);
        PrefixStep(obs, i);
        i := i + 1;
      }
      assert obs[..|obs|] == obs;
    }

    /** The body of the second loop of `check_integrity`: one stored key
        is reported and removed. */
    method DeleteFile(missingFile: string, now: Instant)
      modifies this`hashDb, this`log
      ensures hashDb == old(hashDb) - {missingFile}
      ensures log == old(log) + [DeletionEvent(missingFile, now)]
    {
      Log(ALERT, "deleted (File missing)", Some(missingFile), now);
      hashDb := hashDb - {missingFile};
    }

    /** The second loop of `check_integrity`: the stored keys outside
        `current_files` are logged and removed one by one, in whatever order
        the set yields them. */
    method DeletionPass(currentFiles: set<string>, now: Instant) returns (deletedFiles: nat, ghost deletionOrder: seq<string>)
      modifies this`hashDb, this`log
      ensures hashDb == old(hashDb) - (old(hashDb).Keys - currentFiles)
      ensures deletedFiles == |old(hashDb).Keys - currentFiles|
      ensures Distinct(deletionOrder)
      ensures forall p :: p in deletionOrder <==> p in old(hashDb).Keys - currentFiles
      ensures log == old(log) + DeletionEvents(deletionOrder, now)
    {
      ghost var db0, log0 := hashDb, log;
      deletedFiles := 0;
      var baselineFiles := hashDb.Keys;
      var missingFiles := baselineFiles - currentFiles;
      var remaining := missingFiles;
      deletionOrder := [];
      while remaining != {}
        invariant remaining <= missingFiles
        invariant hashDb == db0 - (missingFiles - remaining)
        invariant deletedFiles + |remaining| == |missingFiles|
        invariant Distinct(deletionOrder)
        invariant forall p :: p in deletionOrder <==> p in missingFiles - remaining
        invariant log == log0 + DeletionEvents(deletionOrder, now)
        decreases remaining
      {
        var missingFile :| missingFile in remaining;
        ghost var before := deletionOrder;
        DeleteFile(missingFile, now);
        deletedFiles := deletedFiles + 1;
        RemoveOneMore(db0, missingFiles, remaining, missingFile);
        remaining := remaining - {missingFile};
        DistinctAppend(deletionOrder, missingFile);
        deletionOrder := deletionOrder + [missingFile];
        assert Init(deletionOrder) == before && Last(deletionOrder) == missingFile;
      }
    }

    /** `check_integrity`: the forward pass, the deletion pass, one save of
        the store, and the summary, logged and returned. */
    method CheckIntegrity(obs: seq<Observation>, now: Instant) returns (summary: Summary, ghost deletionOrder: seq<string>)
      modifies this
      ensures hashDb == CheckStore(old(hashDb), obs, now)
      ensures summary == CheckSummary(old(hashDb), obs, now)
      ensures storeFile == Saved(hashDb)
      ensures Distinct(deletionOrder)
      ensures forall p :: p in deletionOrder <==> p in Missing(old(hashDb), obs, now)
      ensures log == old(log) + [StartCheckEvent(now)] + ForwardEvents(watchFolder, old(hashDb), obs, now)
                     + DeletionEvents(deletionOrder, now) + [SavedEvent(|hashDb|, now), SummaryEvent(summary, now)]
    {
      Log(INFO, "Starting integrity check...", None, now);
      var currentFiles, safeFiles, corruptedFiles, newFiles := ForwardPass(obs, now);
      var deletedFiles;
      deletedFiles, deletionOrder := DeletionPass(currentFiles, now);
      SaveHashDb(now);
      summary := Summary(safeFiles, corruptedFiles, newFiles, deletedFiles);
      Log(INFO, "Integrity check completed - Safe: " + NatToDecimal(safeFiles)
                + ", Corrupted: " + NatToDecimal(corruptedFiles)
                + ", New: " + NatToDecimal(newFiles)
                + ", Deleted: " + NatToDecimal(deletedFiles), None, now);
    }
  }

  /** Saving and constructing a new monitor over the saved file gives back
      the same store: the round trip of `_save_hash_db` and `_load_hash_db`. */
  method SaveThenReload(m: FileIntegrityMonitor, now: Instant) returns (reloaded: FileIntegrityMonitor)
    modifies m
    ensures reloaded.hashDb == m.hashDb == old(m.hashDb)
    ensures reloaded.watchFolder == m.watchFolder
  {
    m.SaveHashDb(now);
    reloaded := new FileIntegrityMonitor(m.watchFolder, m.storeFile, now);
  }
}
