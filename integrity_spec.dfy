/** What one run of `FileIntegrityMonitor.check_integrity` and of
    `FileIntegrityMonitor.initialize_baseline` (file_integrity_monitor.py)
    does to the hash store, stated as folds over the directory walk, and the
    properties of those folds. The class in IntegrityMonitor is proved to
    follow these folds. */
module IntegritySpec {
  import opened Wrappers
  import opened Strings
  import opened Seqs
  import opened Clock
  import opened EventLog

  /** One entry of the hash store: `{hash, size, modified, created}`. */
  datatype Record = Record(hash: string, size: nat, modified: int, created: Instant)

  /** The hash store, relative path to record. */
  type Store = map<string, Record>

  /** What `_calculate_hash` obtained for a file: its hex digest, or the
      reason reading it failed. */
  datatype HashOutcome = Digest(hex: string) | ReadError(reason: string)

  /** One regular file met by the walk of the watch folder: its path relative
      to the folder, the digest outcome, and what `stat` reported. */
  datatype Observation = Observation(path: string, outcome: HashOutcome, size: nat, modified: int)

  /** How the forward pass classifies one current file. */
  datatype Verdict = Unhashed | Unknown | Verified | Failed

  /** The dictionary `check_integrity` returns. */
  datatype Summary = Summary(safe: nat, corrupted: nat, newFiles: nat, deleted: nat)

  predicate Hashed(o: Observation)
  {
    o.outcome.Digest?
  }

  /** The walk meets every file once. */
  predicate DistinctPaths(obs: seq<Observation>)
  {
    forall i, j :: 0 <= i < j < |obs| ==> obs[i].path != obs[j].path
  }

  // ---------------------------------------------------------------- paths

  /** `current_files`: every walked path, readable or not. */
  function Paths(obs: seq<Observation>): set<string>
  {
    if obs == [] then {} else Paths(Init(obs)) + {Last(obs).path}
  }

  /** The walked paths whose digest could be computed. */
  function HashedPaths(obs: seq<Observation>): set<string>
  {
    if obs == [] then {}
    else HashedPaths(Init(obs)) + (if Hashed(Last(obs)) then {Last(obs).path} else {})
  }

  /** How many walked files could be hashed. */
  function HashedCount(obs: seq<Observation>): nat
  {
    if obs == [] then 0 else HashedCount(Init(obs)) + (if Hashed(Last(obs)) then 1 else 0)
  }

  lemma {:induction false} PathsMembers(obs: seq<Observation>, p: string)
    ensures p in Paths(obs) <==> exists k :: 0 <= k < |obs| && obs[k].path == p
    ensures p in HashedPaths(obs) <==> exists k :: 0 <= k < |obs| && obs[k].path == p && Hashed(obs[k])
  {
    if obs != [] {
      PathsMembers(Init(obs), p);
      var n := |obs| - 1;
      if p in Paths(Init(obs)) {
        var k :| 0 <= k < n && Init(obs)[k].path == p;
        assert obs[k].path == p;
      }
      if p in HashedPaths(Init(obs)) {
        var k :| 0 <= k < n && Init(obs)[k].path == p && Hashed(Init(obs)[k]);
        assert obs[k].path == p && Hashed(obs[k]);
      }
      forall k | 0 <= k < n
        ensures obs[k] == Init(obs)[k]
      {
      }
    }
  }

  lemma {:induction false} HashedPathsAreCurrent(obs: seq<Observation>)
    ensures HashedPaths(obs) <= Paths(obs)
  {
    if obs != [] {
      HashedPathsAreCurrent(Init(obs));
    }
  }

  // -------------------------------------------------------- forward pass

  function Classify(db: Store, o: Observation): Verdict
  {
    if !Hashed(o) then Unhashed
    else if o.path !in db then Unknown
    else if db[o.path].hash == o.outcome.hex then Verified
    else Failed
  }

  /** What the forward pass makes of the record of one current file: a new
      file gets a fresh record, a changed file only a new `hash` and
      `modified`, anything else is left as it was. */
  function Step(db: Store, o: Observation, now: Instant): Store
  {
    match Classify(db, o)
    case Unknown => db[o.path := Record(o.outcome.hex, o.size, o.modified, now)]
    case Failed => db[o.path := db[o.path].(hash := o.outcome.hex, modified := o.modified)]
    case _ => db
  }

  /** The store after the forward pass over `obs` (file_integrity_monitor.py:131-168). */
  function Forward(db: Store, obs: seq<Observation>, now: Instant): Store
  {
    if obs == [] then db else Step(Forward(db, Init(obs), now), Last(obs), now)
  }

  function Bump(s: Summary, v: Verdict): Summary
  {
    match v
    case Unhashed => s
    case Unknown => s.(newFiles := s.newFiles + 1)
    case Verified => s.(safe := s.safe + 1)
    case Failed => s.(corrupted := s.corrupted + 1)
  }

  /** The three counters of the forward pass; `deleted` is still zero. */
  function Tally(db: Store, obs: seq<Observation>, now: Instant): Summary
  {
    if obs == [] then Summary(0, 0, 0, 0)
    else Bump(Tally(db, Init(obs), now), Classify(Forward(db, Init(obs), now), Last(obs)))
  }

  // ------------------------------------------------------- deletion pass

  /** `missing_files`: the keys after the forward pass that the walk did not meet. */
  function Missing(db: Store, obs: seq<Observation>, now: Instant): set<string>
  {
    Forward(db, obs, now).Keys - Paths(obs)
  }

  /** The store `check_integrity` saves. */
  function CheckStore(db: Store, obs: seq<Observation>, now: Instant): Store
  {
    Forward(db, obs, now) - Missing(db, obs, now)
  }

  /** The dictionary `check_integrity` returns. */
  function CheckSummary(db: Store, obs: seq<Observation>, now: Instant): Summary
  {
    Tally(db, obs, now).(deleted := |Missing(db, obs, now)|)
  }

  // --------------------------------------------------- the check's lemmas

  /** The forward pass adds exactly the hashed current files that were not yet keys. */
  lemma {:induction false} ForwardKeys(db: Store, obs: seq<Observation>, now: Instant)
    ensures Forward(db, obs, now).Keys == db.Keys + HashedPaths(obs)
  {
    if obs != [] {
      ForwardKeys(db, Init(obs), now);
    }
  }

  /** A path the walk hashed nowhere keeps its record through the forward pass,
      and is not added to the store. */
  lemma {:induction false} ForwardUntouched(db: Store, obs: seq<Observation>, now: Instant, p: string)
    requires p !in HashedPaths(obs)
    ensures p in Forward(db, obs, now) <==> p in db
    ensures p in db ==> Forward(db, obs, now)[p] == db[p]
  {
    if obs != [] {
      ForwardUntouched(db, Init(obs), now, p);
    }
  }

  /** The deletion pass removes exactly the stored keys the walk did not meet,
      and afterwards every key of the store is a current file. */
  lemma MissingAreStaleKeys(db: Store, obs: seq<Observation>, now: Instant)
    ensures Missing(db, obs, now) == db.Keys - Paths(obs)
    ensures CheckSummary(db, obs, now).deleted == |db.Keys - Paths(obs)|
    ensures CheckStore(db, obs, now).Keys == (db.Keys * Paths(obs)) + HashedPaths(obs)
    ensures CheckStore(db, obs, now).Keys <= Paths(obs)
  {
    ForwardKeys(db, obs, now);
    HashedPathsAreCurrent(obs);
    var keys, hashed, current := db.Keys, HashedPaths(obs), Paths(obs);
    assert Missing(db, obs, now) == (keys + hashed) - current == keys - current;
    assert CheckStore(db, obs, now).Keys == (keys + hashed) - (keys - current);
  }

  /** Every hashed current file is counted once as safe, corrupted or new;
      an unreadable one changes no counter. */
  lemma {:induction false} TallyCountsHashed(db: Store, obs: seq<Observation>, now: Instant)
    ensures var t := Tally(db, obs, now); t.safe + t.corrupted + t.newFiles == HashedCount(obs) && t.deleted == 0
  {
    if obs != [] {
      TallyCountsHashed(db, Init(obs), now);
    }
  }

  /** An unreadable file is still a current file: its old record survives,
      it is not reported deleted, and it is not added when it had none. */
  lemma UnreadableKept(db: Store, obs: seq<Observation>, now: Instant, p: string)
    requires p in Paths(obs)
    requires forall k :: 0 <= k < |obs| && obs[k].path == p ==> !Hashed(obs[k])
    ensures p !in Missing(db, obs, now)
    ensures p in CheckStore(db, obs, now) <==> p in db
    ensures p in db ==> CheckStore(db, obs, now)[p] == db[p]
  {
    PathsMembers(obs, p);
    ForwardUntouched(db, obs, now, p);
  }

  /** The record a hashed current file ends up with after the check, given
      the record it had before. */
  function Expected(db: Store, o: Observation, now: Instant): Record
    requires Hashed(o)
  {
    if o.path !in db then Record(o.outcome.hex, o.size, o.modified, now)
    else if db[o.path].hash == o.outcome.hex then db[o.path]
    else db[o.path].(hash := o.outcome.hex, modified := o.modified)
  }

  lemma {:induction false} ForwardRecord(db: Store, obs: seq<Observation>, now: Instant, i: nat)
    requires DistinctPaths(obs) && i < |obs| && Hashed(obs[i])
    ensures obs[i].path in Forward(db, obs, now)
    ensures Forward(db, obs, now)[obs[i].path] == Expected(db, obs[i], now)
  {
    var n := |obs| - 1;
    var p := obs[i].path;
    if i == n {
      assert p !in HashedPaths(Init(obs)) by {
        PathsMembers(Init(obs), p);
      }
      ForwardUntouched(db, Init(obs), now, p);
    } else {
      assert Init(obs)[i] == obs[i];
      ForwardRecord(db, Init(obs), now, i);
      assert Last(obs).path != p;
    }
  }

  /** After the check every hashed current file is stored with its current
      digest; a new one with its size, mtime and a fresh `created`; a
      changed one keeps its stored `size` and `created`; a safe one keeps
      its whole record. */
  lemma CheckRecord(db: Store, obs: seq<Observation>, now: Instant, i: nat)
    requires DistinctPaths(obs) && i < |obs| && Hashed(obs[i])
    ensures obs[i].path in CheckStore(db, obs, now)
    ensures CheckStore(db, obs, now)[obs[i].path] == Expected(db, obs[i], now)
    ensures CheckStore(db, obs, now)[obs[i].path].hash == obs[i].outcome.hex
  {
    ForwardRecord(db, obs, now, i);
    PathsMembers(obs, obs[i].path);
  }

  /** When every hashed file already matches its record, the forward pass
      changes nothing and counts every hashed file as safe. */
  lemma {:induction false} ForwardStable(db: Store, obs: seq<Observation>, now: Instant)
    requires forall k :: 0 <= k < |obs| && Hashed(obs[k]) ==>
               obs[k].path in db && db[obs[k].path].hash == obs[k].outcome.hex
    ensures Forward(db, obs, now) == db
    ensures Tally(db, obs, now) == Summary(HashedCount(obs), 0, 0, 0)
  {
    if obs != [] {
      forall k | 0 <= k < |Init(obs)| && Hashed(Init(obs)[k])
        ensures Init(obs)[k].path in db && db[Init(obs)[k].path].hash == Init(obs)[k].outcome.hex
      {
        assert Init(obs)[k] == obs[k];
      }
      ForwardStable(db, Init(obs), now);
    }
  }

  /** A store that already holds every hashed file's digest, and no key
      outside the walk, comes out of a check unchanged and all safe. */
  lemma CheckStable(db: Store, obs: seq<Observation>, now: Instant)
    requires forall k :: 0 <= k < |obs| && Hashed(obs[k]) ==>
               obs[k].path in db && db[obs[k].path].hash == obs[k].outcome.hex
    requires db.Keys <= Paths(obs)
    ensures CheckStore(db, obs, now) == db
    ensures CheckSummary(db, obs, now) == Summary(HashedCount(obs), 0, 0, 0)
  {
    ForwardStable(db, obs, now);
    assert Missing(db, obs, now) == {};
  }

  /** A second check over an unchanged walk reports only safe files and
      leaves the store as the first check left it. */
  lemma CheckIdempotent(db: Store, obs: seq<Observation>, now: Instant, later: Instant)
    requires DistinctPaths(obs)
    ensures CheckStore(CheckStore(db, obs, now), obs, later) == CheckStore(db, obs, now)
    ensures CheckSummary(CheckStore(db, obs, now), obs, later) == Summary(HashedCount(obs), 0, 0, 0)
  {
    var db2 := CheckStore(db, obs, now);
    forall k | 0 <= k < |obs| && Hashed(obs[k])
      ensures obs[k].path in db2 && db2[obs[k].path].hash == obs[k].outcome.hex
    {
      CheckRecord(db, obs, now, k);
    }
    MissingAreStaleKeys(db, obs, now);
    CheckStable(db2, obs, later);
  }

  // ------------------------------------------------------------ baseline

  /** `initialize_baseline` writes a fresh record for every hashed file,
      whatever was stored for it before. */
  function BaselineStep(db: Store, o: Observation, now: Instant): Store
  {
    if Hashed(o) then db[o.path := Record(o.outcome.hex, o.size, o.modified, now)] else db
  }

  /** The store `initialize_baseline` saves (file_integrity_monitor.py:103-117). */
  function Baseline(db: Store, obs: seq<Observation>, now: Instant): Store
  {
    if obs == [] then db else BaselineStep(Baseline(db, Init(obs), now), Last(obs), now)
  }

  /** Re-baselining never removes a key: the old store is only overridden. */
  lemma {:induction false} BaselineOverrides(db: Store, obs: seq<Observation>, now: Instant)
    ensures Baseline(db, obs, now) == db + Baseline(map[], obs, now)
    ensures Baseline(map[], obs, now).Keys == HashedPaths(obs)
  {
    if obs != [] {
      BaselineOverrides(db, Init(obs), now);
      var o := Last(obs);
      if Hashed(o) {
        var r := Record(o.outcome.hex, o.size, o.modified, now);
        var clean := Baseline(map[], Init(obs), now);
        assert (db + clean)[o.path := r] == db + clean[o.path := r];
      }
    }
  }

  /** The keys after a baseline are the old keys plus the hashed files. */
  lemma BaselineKeys(db: Store, obs: seq<Observation>, now: Instant)
    ensures Baseline(db, obs, now).Keys == db.Keys + HashedPaths(obs)
    ensures db.Keys <= Baseline(db, obs, now).Keys
  {
    BaselineOverrides(db, obs, now);
  }

  /** A baseline leaves every stored key the walk did not hash as it was. */
  lemma {:induction false} BaselineUntouched(db: Store, obs: seq<Observation>, now: Instant, p: string)
    requires p in db && p !in HashedPaths(obs)
    ensures p in Baseline(db, obs, now) && Baseline(db, obs, now)[p] == db[p]
  {
    if obs != [] {
      BaselineUntouched(db, Init(obs), now, p);
    }
  }

  /** A baseline stores every hashed file with its digest, size, mtime and
      `created` set to the current instant. */
  lemma {:induction false} BaselineRecord(db: Store, obs: seq<Observation>, now: Instant, i: nat)
    requires DistinctPaths(obs) && i < |obs| && Hashed(obs[i])
    ensures obs[i].path in Baseline(db, obs, now)
    ensures Baseline(db, obs, now)[obs[i].path] == Record(obs[i].outcome.hex, obs[i].size, obs[i].modified, now)
  {
    if i < |obs| - 1 {
      assert Init(obs)[i] == obs[i];
      BaselineRecord(db, Init(obs), now, i);
      assert Last(obs).path != obs[i].path;
    }
  }

  /** Re-baselining an unchanged tree is the same as baselining once at the
      later instant: digests and sizes stay, `created` moves on. */
  lemma BaselineTwice(db: Store, obs: seq<Observation>, first: Instant, second: Instant)
    ensures Baseline(Baseline(db, obs, first), obs, second) == Baseline(db, obs, second)
  {
    BaselineOverrides(db, obs, first);
    BaselineOverrides(db, obs, second);
    BaselineOverrides(Baseline(db, obs, first), obs, second);
    var f1, f2 := Baseline(map[], obs, first), Baseline(map[], obs, second);
    assert (db + f1) + f2 == db + f2;
  }

  /** A check right after a baseline over the same walk finds every hashed
      file safe, and deletes the stale keys the baseline kept. */
  lemma CheckAfterBaseline(db: Store, obs: seq<Observation>, first: Instant, second: Instant)
    requires DistinctPaths(obs)
    ensures CheckSummary(Baseline(db, obs, first), obs, second)
            == Summary(HashedCount(obs), 0, 0, |db.Keys - Paths(obs)|)
    ensures Missing(Baseline(db, obs, first), obs, second) == db.Keys - Paths(obs)
  {
    var b := Baseline(db, obs, first);
    forall k | 0 <= k < |obs| && Hashed(obs[k])
      ensures obs[k].path in b && b[obs[k].path].hash == obs[k].outcome.hex
    {
      BaselineRecord(db, obs, first, k);
    }
    ForwardStable(b, obs, second);
    BaselineKeys(db, obs, first);
    HashedPathsAreCurrent(obs);
    assert Missing(b, obs, second) == db.Keys - Paths(obs);
  }

  // -------------------------------------------------------------- events

  /** `str(self.watch_folder / relative_path)`. */
  function FullPath(folder: string, rel: string): string
  {
    folder + "/" + rel
  }

  /** The WARNING `_calculate_hash` logs when a file cannot be read. */
  function HashErrorEvent(folder: string, o: Observation, now: Instant): Event
    requires !Hashed(o)
  {
    Event(now, WARNING, "Error calculating hash for " + FullPath(folder, o.path) + ": " + o.outcome.reason, None)
  }

  /** The one event the forward pass logs for a current file. */
  function CheckEvent(folder: string, db: Store, o: Observation, now: Instant): Event
  {
    match Classify(db, o)
    case Unhashed => HashErrorEvent(folder, o, now)
    case Unknown => Event(now, ALERT, "detected (Unknown file)", Some(o.path))
    case Verified => Event(now, INFO, "verified OK", Some(o.path))
    case Failed => Event(now, WARNING, "integrity failed!", Some(o.path))
  }

  /** The events of the forward pass, in walk order. */
  function ForwardEvents(folder: string, db: Store, obs: seq<Observation>, now: Instant): seq<Event>
  {
    if obs == [] then []
    else ForwardEvents(folder, db, Init(obs), now) + [CheckEvent(folder, Forward(db, Init(obs), now), Last(obs), now)]
  }

  function DeletionEvent(p: string, now: Instant): Event
  {
    Event(now, ALERT, "deleted (File missing)", Some(p))
  }

  /** The events of the deletion pass, in the order the paths were removed. */
  function DeletionEvents(order: seq<string>, now: Instant): seq<Event>
  {
    if order == [] then [] else DeletionEvents(Init(order), now) + [DeletionEvent(Last(order), now)]
  }

  /** The one event the baseline logs for a walked file. */
  function BaselineEvent(folder: string, o: Observation, now: Instant): Event
  {
    if Hashed(o) then Event(now, INFO, "added to baseline", Some(o.path)) else HashErrorEvent(folder, o, now)
  }

  function BaselineEvents(folder: string, obs: seq<Observation>, now: Instant): seq<Event>
  {
    if obs == [] then [] else BaselineEvents(folder, Init(obs), now) + [BaselineEvent(folder, Last(obs), now)]
  }

  function StartCheckEvent(now: Instant): Event
  {
    Event(now, INFO, "Starting integrity check...", None)
  }

  function StartBaselineEvent(now: Instant): Event
  {
    Event(now, INFO, "Initializing baseline hash database...", None)
  }

  function SavedEvent(count: nat, now: Instant): Event
  {
    Event(now, INFO, "Hash database saved: " + NatToDecimal(count) + " files", None)
  }

  function SummaryEvent(s: Summary, now: Instant): Event
  {
    Event(now, INFO, "Integrity check completed - Safe: " + NatToDecimal(s.safe)
                       + ", Corrupted: " + NatToDecimal(s.corrupted)
                       + ", New: " + NatToDecimal(s.newFiles)
                       + ", Deleted: " + NatToDecimal(s.deleted), None)
  }

  function BaselineDoneEvent(count: nat, now: Instant): Event
  {
    Event(now, INFO, "Baseline initialized with " + NatToDecimal(count) + " files", None)
  }

  /** The forward pass logs one event per walked file, in walk order, and the
      event for file `k` is the one its classification against the store as
      the pass found it calls for. */
  lemma {:induction false} ForwardEventAt(folder: string, db: Store, obs: seq<Observation>, now: Instant, k: nat)
    requires k < |obs|
    ensures |ForwardEvents(folder, db, obs, now)| == |obs|
    ensures ForwardEvents(folder, db, obs, now)[k] == CheckEvent(folder, Forward(db, obs[..k], now), obs[k], now)
  {
    if k < |obs| - 1 {
      ForwardEventAt(folder, db, Init(obs), now, k);
      assert Init(obs)[..k] == obs[..k];
    } else {
      assert Init(obs) == obs[..k];
      ForwardEventsLength(folder, db, Init(obs), now);
    }
  }

  /** When each file is walked once, the pass judges file `k` against the
      store the check started from: no earlier file touched its record. So
      a hashed file the old store lacks is reported new. */
  lemma ForwardEventOld(folder: string, db: Store, obs: seq<Observation>, now: Instant, k: nat)
    requires DistinctPaths(obs) && k < |obs|
    ensures |ForwardEvents(folder, db, obs, now)| == |obs|
    ensures ForwardEvents(folder, db, obs, now)[k] == CheckEvent(folder, db, obs[k], now)
    ensures Hashed(obs[k]) && obs[k].path !in db ==>
      ForwardEvents(folder, db, obs, now)[k] == Event(now, ALERT, "detected (Unknown file)", Some(obs[k].path))
  {
    ForwardEventAt(folder, db, obs, now, k);
    var p := obs[k].path;
    PathsMembers(obs[..k], p);
    ForwardUntouched(db, obs[..k], now, p);
  }

  lemma {:induction false} ForwardEventsLength(folder: string, db: Store, obs: seq<Observation>, now: Instant)
    ensures |ForwardEvents(folder, db, obs, now)| == |obs|
  {
    if obs != [] {
      ForwardEventsLength(folder, db, Init(obs), now);
    }
  }

  /** A file classified new is reported by the ALERT `detected (Unknown
      file)` that names it, a changed one by the WARNING `integrity failed!`,
      a safe one by the INFO `verified OK`; an unreadable one by the WARNING
      of the failed digest, which names no file. */
  lemma CheckEventReports(folder: string, db: Store, o: Observation, now: Instant)
    ensures var e := CheckEvent(folder, db, o, now);
      && (Classify(db, o) == Unknown <==> e.level == ALERT)
      && (Classify(db, o) == Verified <==> e.level == INFO)
      && (e.level == WARNING <==> Classify(db, o) in {Failed, Unhashed})
      && (e.fileName.Some? <==> Hashed(o))
      && (Hashed(o) ==> e.fileName == Some(o.path))
      && (Classify(db, o) == Unknown ==> e.message == "detected (Unknown file)")
      && (Classify(db, o) == Verified ==> e.message == "verified OK")
      && (Classify(db, o) == Failed ==> e.message == "integrity failed!")
      && (!Hashed(o) ==> e == HashErrorEvent(folder, o, now))
  {
  }
}
