/**
 * The retention store for downloaded artifacts (src/lib/fileCleanup.js).
 *
 * A metadata map from filename to {createdAt, accessed} is persisted as one
 * file in the downloads directory. Three read-modify-write operations act on
 * it: trackFileCreation, markFileAccessed and cleanupOldFiles. The clock is a
 * parameter (`now`, milliseconds since the epoch); the filesystem is the state
 * of a RetentionStore object: the persisted map (None when the metadata file
 * is missing or does not parse), the artifact files present on disk, the files
 * whose unlink throws, whether writing the metadata file succeeds, and whether
 * a failing write has already emptied the file (a torn write).
 */
module FileCleanup {
  import opened Wrappers

  /** One artifact's metadata record. */
  datatype Record = Record(createdAt: int, accessed: bool)

  /** The whole persisted mapping, keyed by filename. */
  type Metadata = map<string, Record>

  /** The retention window: 24 hours in milliseconds. */
  const DayInMs: int := 24 * 60 * 60 * 1000

  /** The map an operation starts from: the persisted one, or the empty map
      when the metadata file is missing or unparsable. */
  function Loaded(stored: Option<Metadata>): (m: Metadata)
    ensures stored.None? ==> m == map[]
    ensures stored.Some? ==> m == stored.value
  {
    stored.GetOr(map[])
  }

  /** The map trackFileCreation writes back. */
  function Tracked(stored: Option<Metadata>, filename: string, now: int): (m: Metadata)
    ensures filename in m && m[filename] == Record(now, false)
    ensures m.Keys == Loaded(stored).Keys + {filename}
    ensures forall g :: g in Loaded(stored) && g != filename ==> m[g] == Loaded(stored)[g]
  {
    Loaded(stored)[filename := Record(now, false)]
  }

  /** The map markFileAccessed writes back when `filename` has a record. */
  function Marked(m: Metadata, filename: string): (r: Metadata)
    requires filename in m
    ensures r.Keys == m.Keys
    ensures r[filename].accessed && r[filename].createdAt == m[filename].createdAt
    ensures forall g :: g in m && g != filename ==> r[g] == m[g]
  {
    m[filename := m[filename].(accessed := true)]
  }

  /** markFileAccessed as seen from the map: a missing key changes nothing. */
  function MarkedIfPresent(m: Metadata, filename: string): (r: Metadata)
    ensures r.Keys == m.Keys
    ensures forall g :: g in m && g != filename ==> r[g] == m[g]
    ensures filename in m ==> r[filename] == Record(m[filename].createdAt, true)
  {
    if filename in m then Marked(m, filename) else m
  }

  /** A record is past the retention window when strictly more than a day old. */
  predicate Expired(r: Record, now: int)
  {
    now - r.createdAt > DayInMs
  }

  /** The sweep keeps a record when it is not expired, or when its file is on
      disk and unlinking it fails. An expired record whose file is absent, or
      whose unlink succeeds, is dropped. */
  predicate Kept(m: Metadata, f: string, now: int, disk: set<string>, fails: set<string>)
    requires f in m
  {
    !Expired(m[f], now) || (f in disk && f in fails)
  }

  /** The sweep unlinks the file of an expired record that is on disk, and
      the unlink succeeds unless the file is one whose unlink throws. */
  predicate Unlinks(m: Metadata, f: string, now: int, disk: set<string>, fails: set<string>)
  {
    f in m && Expired(m[f], now) && f in disk && f !in fails
  }

  /** The records kept so far, once the keys in `done` have been visited. */
  function SweptAmong(m: Metadata, now: int, disk: set<string>, fails: set<string>, done: set<string>): Metadata
  {
    map f | f in m && f in done && Kept(m, f, now, disk, fails) :: m[f]
  }

  /** The files unlinked so far, once the keys in `done` have been visited. */
  function UnlinkedAmong(m: Metadata, now: int, disk: set<string>, fails: set<string>, done: set<string>): set<string>
  {
    set f | f in done && Unlinks(m, f, now, disk, fails)
  }

  /** The map cleanupOldFiles writes back. */
  function Swept(m: Metadata, now: int, disk: set<string>, fails: set<string>): (r: Metadata)
    ensures r.Keys <= m.Keys
    ensures forall f :: f in r ==> r[f] == m[f]
  {
    SweptAmong(m, now, disk, fails, m.Keys)
  }

  /** The artifact files cleanupOldFiles deletes. */
  function Unlinked(m: Metadata, now: int, disk: set<string>, fails: set<string>): (u: set<string>)
    ensures u <= m.Keys && u <= disk && u !! fails
    ensures forall f :: f in u ==> Expired(m[f], now)
  {
    UnlinkedAmong(m, now, disk, fails, m.Keys)
  }

  /** The filesystem the three operations act on. */
  class RetentionStore {
    /** The metadata file: None when it is missing or does not parse. */
    var persisted: Option<Metadata>
    /** The artifact files present in the downloads directory. */
    var onDisk: set<string>
    /** The artifact files whose unlink throws (permission or I/O error). */
    const unlinkFails: set<string>
    /** Whether writing the metadata file succeeds. */
    const writable: bool
    /** Whether a failing write fails after `writeFileSync` has opened the
        file with flag 'w' and so emptied it (ENOSPC, EIO), leaving a file
        that no longer parses; otherwise it fails at the open and the old
        content stays. */
    const tornWrite: bool

    constructor (persisted: Option<Metadata>, onDisk: set<string>, unlinkFails: set<string>, writable: bool, tornWrite: bool)
      ensures this.persisted == persisted && this.onDisk == onDisk
      ensures this.unlinkFails == unlinkFails && this.writable == writable && this.tornWrite == tornWrite
    {
      this.persisted := persisted;
      this.onDisk := onDisk;
      this.unlinkFails := unlinkFails;
      this.writable := writable;
      this.tornWrite := tornWrite;
    }

    /** writeFileSync of `m`, whose failure is only logged: the file holds
        `m`, or is left empty and unparsable by a torn write, or keeps its
        old content when the open itself fails. */
    method Write(m: Metadata)
      modifies this`persisted
      ensures persisted == if writable then Some(m) else if tornWrite then None else old(persisted)
    {
      if writable {
        persisted := Some(m);
      } else if tornWrite {
        persisted := None;
      }
    }

    /** trackFileCreation: load (or start empty), insert or overwrite the
        record with {createdAt: now, accessed: false}, write back. A failed
        write is only logged: the file keeps its old content when the open
        fails, and is left unparsable when the write fails after emptying it. */
    method TrackFileCreation(filename: string, now: int)
      modifies this`persisted
      ensures writable ==> persisted == Some(Tracked(old(persisted), filename, now))
      ensures !writable ==> persisted == if tornWrite then None else old(persisted)
    {
      var metadata: Metadata := map[];
      if persisted.Some? {
        metadata := persisted.value;
      }
      metadata := metadata[filename := Record(now, false)];
      Write(metadata);
    }

    /** markFileAccessed: an unreadable file returns early and a missing file
        loads as empty; only a present key is flipped and written back, and
        a failed write leaves the old content or, torn, an unparsable file. */
    method MarkFileAccessed(filename: string)
      modifies this`persisted
      ensures old(persisted).Some? && filename in old(persisted).value && writable ==>
                persisted == Some(Marked(old(persisted).value, filename))
      ensures old(persisted).Some? && filename in old(persisted).value && !writable ==>
                persisted == if tornWrite then None else old(persisted)
      ensures old(persisted).None? || filename !in old(persisted).value ==>
                persisted == old(persisted)
    {
      if persisted.None? {
        return;
      }
      var metadata := persisted.value;
      if filename in metadata {
        metadata := metadata[filename := metadata[filename].(accessed := true)];
        Write(metadata);
      }
    }

    /** cleanupOldFiles: a missing or unparsable metadata file makes the sweep
        return at once. Otherwise every key is visited once, in any order:
        expired files on disk are unlinked, and the surviving records are
        written back. The unlinks happen even when the final write fails;
        a failed write leaves the old content or, torn, an unparsable file. */
    method CleanupOldFiles(now: int)
      modifies this`persisted, this`onDisk
      ensures old(persisted).None? ==> persisted == old(persisted) && onDisk == old(onDisk)
      ensures old(persisted).Some? ==>
                onDisk == old(onDisk) - Unlinked(old(persisted).value, now, old(onDisk), unlinkFails)
      ensures old(persisted).Some? && writable ==>
                persisted == Some(Swept(old(persisted).value, now, old(onDisk), unlinkFails))
      ensures old(persisted).Some? && !writable ==> persisted == if tornWrite then None else old(persisted)
    {
      if persisted.None? {
        return;
      }
      var metadata := persisted.value;
      ghost var disk0 := onDisk;
      var updated: Metadata := map[];
      var pending := metadata.Keys;
      while pending != {}
        invariant pending <= metadata.Keys
        invariant updated == SweptAmong(metadata, now, disk0, unlinkFails, metadata.Keys - pending)
        invariant onDisk == disk0 - UnlinkedAmong(metadata, now, disk0, unlinkFails, metadata.Keys - pending)
        invariant persisted == old(persisted)
        decreases pending
      {
        var f :| f in pending;
        assert f in onDisk <==> f in disk0;
        var record := metadata[f];
        if now - record.createdAt > DayInMs {
          if f in onDisk {
            if f in unlinkFails {
              updated := updated[f := record];
            } else {
              onDisk := onDisk - {f};
            }
          }
        } else {
          updated := updated[f := record];
        }
        pending := pending - {f};
      }
      assert metadata.Keys - pending == metadata.Keys;
      Write(updated);
    }
  }

  /** A record no more than 24 hours old survives the sweep unchanged; a record
      exactly 24 hours old survives too, since the comparison is strict. */
  lemma SweepKeepsFresh(m: Metadata, now: int, disk: set<string>, fails: set<string>, f: string)
    requires f in m && now - m[f].createdAt <= DayInMs
    ensures f in Swept(m, now, disk, fails) && Swept(m, now, disk, fails)[f] == m[f]
    ensures f !in Unlinked(m, now, disk, fails)
  {
  }

  /** An expired record is dropped when its file is absent or its unlink
      succeeds; in the second case the file is deleted. */
  lemma SweepDropsExpired(m: Metadata, now: int, disk: set<string>, fails: set<string>, f: string)
    requires f in m && now - m[f].createdAt > DayInMs
    requires f !in disk || f !in fails
    ensures f !in Swept(m, now, disk, fails)
    ensures f !in disk - Unlinked(m, now, disk, fails)
  {
  }

  /** An expired record whose unlink throws is retained unchanged, and its
      file stays on disk for a later sweep to retry. */
  lemma SweepRetainsFailedUnlink(m: Metadata, now: int, disk: set<string>, fails: set<string>, f: string)
    requires f in m && now - m[f].createdAt > DayInMs
    requires f in disk && f in fails
    ensures f in Swept(m, now, disk, fails) && Swept(m, now, disk, fails)[f] == m[f]
    ensures f in disk - Unlinked(m, now, disk, fails)
  {
  }

  /** A record leaves the map exactly when the sweep deletes its file or finds
      the file already gone. */
  lemma SweepDropsIffDeletedOrAbsent(m: Metadata, now: int, disk: set<string>, fails: set<string>, f: string)
    requires f in m
    ensures f !in Swept(m, now, disk, fails) <==>
              f in Unlinked(m, now, disk, fails) || (Expired(m[f], now) && f !in disk)
  {
  }

  /** With `now` and the unlink outcomes fixed, sweeping the swept map over the
      disk the first sweep left behind changes nothing and deletes nothing. */
  lemma SweepIdempotent(m: Metadata, now: int, disk: set<string>, fails: set<string>)
    ensures Swept(Swept(m, now, disk, fails), now, disk - Unlinked(m, now, disk, fails), fails)
              == Swept(m, now, disk, fails)
    ensures Unlinked(Swept(m, now, disk, fails), now, disk - Unlinked(m, now, disk, fails), fails) == {}
  {
    var s := Swept(m, now, disk, fails);
    var disk' := disk - Unlinked(m, now, disk, fails);
    forall f | f in s
      ensures Kept(s, f, now, disk', fails)
    {
      assert Kept(m, f, now, disk, fails);
    }
  }

  /** The sweep never consults the accessed flag: marking a file accessed
      before or after a sweep gives the same map and deletes the same files. */
  lemma SweepIgnoresAccessed(m: Metadata, now: int, disk: set<string>, fails: set<string>, f: string)
    ensures Swept(MarkedIfPresent(m, f), now, disk, fails) == MarkedIfPresent(Swept(m, now, disk, fails), f)
    ensures Unlinked(MarkedIfPresent(m, f), now, disk, fails) == Unlinked(m, now, disk, fails)
  {
    var m' := MarkedIfPresent(m, f);
    assert forall g :: g in m <==> g in m';
    assert forall g :: g in m ==> m'[g].createdAt == m[g].createdAt;
    assert forall g :: g in m ==> (Kept(m', g, now, disk, fails) <==> Kept(m, g, now, disk, fails));
  }

  /** A file tracked at `created` is kept, as a fresh unaccessed record, by any
      sweep no more than 24 hours later, whether the tracking started from the
      old map or from a missing or corrupt file. */
  lemma TrackThenSweepWithinDay(stored: Option<Metadata>, f: string, created: int, now: int,
                                disk: set<string>, fails: set<string>)
    requires now - created <= DayInMs
    ensures f in Swept(Tracked(stored, f, created), now, disk, fails)
    ensures Swept(Tracked(stored, f, created), now, disk, fails)[f] == Record(created, false)
  {
    SweepKeepsFresh(Tracked(stored, f, created), now, disk, fails, f);
  }

  /** A file tracked at `created` and swept more than 24 hours later loses its
      record, and its file is deleted when the unlink succeeds. */
  lemma TrackThenSweepAfterDay(stored: Option<Metadata>, f: string, created: int, now: int,
                               disk: set<string>, fails: set<string>)
    requires now - created > DayInMs && f !in fails
    ensures f !in Swept(Tracked(stored, f, created), now, disk, fails)
    ensures f !in disk - Unlinked(Tracked(stored, f, created), now, disk, fails)
  {
    SweepDropsExpired(Tracked(stored, f, created), now, disk, fails, f);
  }

  /** An unreadable metadata file is discarded, not merged: the map written
      holds only the new record. */
  lemma TrackCorruptStartsEmpty(f: string, now: int)
    ensures Tracked(None, f, now) == map[f := Record(now, false)]
  {
  }

  /** Tracking an existing filename overwrites its record and resets its age. */
  lemma TrackOverwritesAge(m: Metadata, f: string, now: int)
    requires f in m
    ensures Tracked(Some(m), f, now)[f] == Record(now, false)
    ensures Tracked(Some(m), f, now).Keys == m.Keys
  {
  }

  /** Fresh artifact: tracked at t=0, swept at t=1h, the record is still there. */
  method ScenarioFreshArtifact() returns (after: Option<Metadata>)
    ensures after.Some? && "a.mp4" in after.value
  {
    var store := new RetentionStore(Some(map[]), {"a.mp4"}, {}, true, false);
    store.TrackFileCreation("a.mp4", 0);
    store.CleanupOldFiles(60 * 60 * 1000);
    SweepKeepsFresh(map["a.mp4" := Record(0, false)], 60 * 60 * 1000, {"a.mp4"}, {}, "a.mp4");
    after := store.persisted;
  }

  /** Expired artifact: tracked at t=0 with its file on disk, swept at t=25h,
      the file is deleted and the record is gone. */
  method ScenarioExpiredArtifact() returns (after: Option<Metadata>, disk: set<string>)
    ensures after.Some? && "b.mp4" !in after.value
    ensures "b.mp4" !in disk
  {
    var store := new RetentionStore(Some(map[]), {"b.mp4"}, {}, true, false);
    store.TrackFileCreation("b.mp4", 0);
    store.CleanupOldFiles(25 * 60 * 60 * 1000);
    SweepDropsExpired(map["b.mp4" := Record(0, false)], 25 * 60 * 60 * 1000, {"b.mp4"}, {}, "b.mp4");
    after, disk := store.persisted, store.onDisk;
  }

  /** Failed deletion: tracked at t=0, unlink forced to fail, swept at t=25h,
      the record is still there and the file too. */
  method ScenarioFailedDeletion() returns (after: Option<Metadata>, disk: set<string>)
    ensures after.Some? && "c.mp4" in after.value && after.value["c.mp4"] == Record(0, false)
    ensures "c.mp4" in disk
  {
    var store := new RetentionStore(Some(map[]), {"c.mp4"}, {"c.mp4"}, true, false);
    store.TrackFileCreation("c.mp4", 0);
    store.CleanupOldFiles(25 * 60 * 60 * 1000);
    SweepRetainsFailedUnlink(map["c.mp4" := Record(0, false)], 25 * 60 * 60 * 1000, {"c.mp4"}, {"c.mp4"}, "c.mp4");
    after, disk := store.persisted, store.onDisk;
  }

  /** Corrupt store: tracking over an unparsable metadata file yields a map
      holding only the new record. */
  method ScenarioCorruptRecovery() returns (after: Option<Metadata>)
    ensures after == Some(map["d.mp4" := Record(0, false)])
  {
    var store := new RetentionStore(None, {"d.mp4"}, {}, true, false);
    store.TrackFileCreation("d.mp4", 0);
    TrackCorruptStartsEmpty("d.mp4", 0);
    after := store.persisted;
  }

  /** Torn write: tracking a new file over a store whose write fails after
      emptying the file loses every record. A later sweep finds the file
      unparsable and returns at once, so the expired artifact "e.mp4" stays
      on disk. */
  method ScenarioTornWrite() returns (afterTrack: Option<Metadata>, afterSweep: Option<Metadata>, disk: set<string>)
    ensures afterTrack == None && afterSweep == None
    ensures "e.mp4" in disk
  {
    var store := new RetentionStore(Some(map["e.mp4" := Record(0, false)]), {"e.mp4"}, {}, false, true);
    store.TrackFileCreation("f.mp4", 1);
    afterTrack := store.persisted;
    store.CleanupOldFiles(25 * 60 * 60 * 1000);
    afterSweep, disk := store.persisted, store.onDisk;
  }
}
