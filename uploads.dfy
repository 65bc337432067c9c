/**
 * The process-wide registry of uploaded files: identifiers reserved with a
 * placeholder, records committed under their identifier, the owner-checked
 * lookup, and the periodic sweep that expires records and deletes stale
 * files from the upload directory. The lock around each of these is
 * abstracted away: every method is one atomic step.
 */
module Uploads {
  import opened Wrappers

  /** An opaque identifier; its text is its String.valueOf form, which names its storage file. */
  datatype Identifier = Identifier(text: string)

  /** The authenticated user a record belongs to. */
  datatype User = User(name: string)

  /** One uploaded file: its submitted name, its file in the upload directory, its owner and content type. */
  datatype UploadedFile = UploadedFile(
    id: Identifier,
    filename: Option<string>,
    storageName: string,
    owner: User,
    contentType: Option<string>,
    lastAccessed: int)

  /** Identifier to record, None being the placeholder of a reserved identifier. */
  type Entries = map<Identifier, Option<UploadedFile>>

  /** The upload directory: file name to last-modified time, in milliseconds. */
  type Directory = map<string, int>

  /** Records idle this long, in milliseconds, are expired: one hour. */
  const ENTRY_TIMEOUT: int := 60 * 60 * 1000

  /** Files further than this from now, in milliseconds, may be orphans: two hours. */
  const FILE_WINDOW: int := 2 * 60 * 60 * 1000

  /** A record whose age is negative (clock skew) or at least an hour is expired. */
  predicate Expired(now: int, lastAccessed: int)
  {
    now - lastAccessed < 0 || now - lastAccessed >= ENTRY_TIMEOUT
  }

  /** A file more than two hours older or newer than now may be deleted as an orphan. */
  predicate OutsideFileWindow(now: int, lastModified: int)
  {
    now - lastModified < -FILE_WINDOW || now - lastModified > FILE_WINDOW
  }

  /** An entry the first pass of the sweep keeps: a record that has not expired. */
  predicate Survives(entry: Option<UploadedFile>, now: int)
  {
    entry.Some? && !Expired(now, entry.value.lastAccessed)
  }

  /** Every record is committed under its own identifier and stored in the file that identifier names. */
  predicate WellKeyed(entries: Entries)
  {
    forall id :: id in entries && entries[id].Some? ==>
      entries[id].value.id == id && entries[id].value.storageName == id.text
  }

  /** The registry after the first pass of the sweep. */
  function SweptEntries(entries: Entries, now: int): (r: Entries)
    ensures r.Keys <= entries.Keys
    ensures forall id :: id in r ==> r[id].Some?
    ensures forall id :: id in entries && Survives(entries[id], now) ==> id in r && r[id] == entries[id]
    ensures forall id :: id in entries && entries[id].Some? && Expired(now, entries[id].value.lastAccessed) ==> id !in r
  {
    map id | id in entries && Survives(entries[id], now) :: entries[id]
  }

  /** The sweep keeps every surviving record under the same identifier, so it keeps the registry well keyed. */
  lemma SweptWellKeyed(entries: Entries, now: int)
    requires WellKeyed(entries)
    ensures WellKeyed(SweptEntries(entries, now))
  {
  }

  /** The files of the expired records among ids. */
  function ExpiredFiles(entries: Entries, now: int, ids: set<Identifier>): set<string>
  {
    set id | id in ids && id in entries && entries[id].Some? && Expired(now, entries[id].value.lastAccessed)
      :: entries[id].value.storageName
  }

  /** The files the records of the registry refer to. */
  function LiveFiles(entries: Entries): set<string>
  {
    set id | id in entries && entries[id].Some? :: entries[id].value.storageName
  }

  /** The directory after deleting the named files, except those whose deletion fails. */
  function Deleted(directory: Directory, names: set<string>, undeletable: set<string>): Directory
  {
    map f | f in directory && (f !in names || f in undeletable) :: directory[f]
  }

  /** The files of the directory outside the time window that no record refers to. */
  function Orphans(directory: Directory, entries: Entries, now: int): set<string>
  {
    set f | f in directory && OutsideFileWindow(now, directory[f]) && f !in LiveFiles(entries)
  }

  /**
   * The directory after both passes: the files of expired records go, then,
   * when the directory can be listed, the orphans of what remains.
   */
  function SweptDirectory(directory: Directory, entries: Entries, now: int, undeletable: set<string>, listable: bool): Directory
  {
    var afterExpiry := Deleted(directory, ExpiredFiles(entries, now, entries.Keys), undeletable);
    if listable then Deleted(afterExpiry, Orphans(afterExpiry, SweptEntries(entries, now), now), undeletable)
    else afterExpiry
  }

  /** The record for id if it belongs to the requester; a placeholder, a missing id or another owner give None. */
  function Lookup(entries: Entries, requester: Option<User>, id: Identifier): Option<UploadedFile>
  {
    if id in entries && entries[id].Some? && requester == Some(entries[id].value.owner) then entries[id]
    else None
  }

  /** A random stream that never repeats an identifier. */
  ghost predicate Injective(random: nat -> Identifier)
  {
    forall i, j :: i != j ==> random(i) != random(j)
  }

  /** Draws start..n-1 of a stream that never repeats, all landing in s, are at most |s| many. */
  lemma {:induction false} DrawBound(random: nat -> Identifier, start: nat, n: nat, s: set<Identifier>)
    requires Injective(random) && start <= n
    requires forall j :: start <= j < n ==> random(j) in s
    ensures n - start <= |s|
    decreases n - start
  {
    if start < n {
      var rest := s - {random(n - 1)};
      forall j | start <= j < n - 1 ensures random(j) in rest {
        assert random(j) != random(n - 1);
      }
      DrawBound(random, start, n - 1, rest);
    }
  }

  /** The registry part way through the first pass: pending identifiers are not yet examined. */
  ghost function PartlySwept(e0: Entries, pending: set<Identifier>, now: int): Entries
  {
    map id | id in e0 && (id in pending || Survives(e0[id], now)) :: e0[id]
  }

  lemma PartlySweptStart(e0: Entries, now: int)
    ensures PartlySwept(e0, e0.Keys, now) == e0
  {
  }

  lemma PartlySweptEnd(e0: Entries, now: int)
    ensures PartlySwept(e0, {}, now) == SweptEntries(e0, now)
  {
  }

  /** Examining one more identifier removes it unless its record survives. */
  lemma PartlySweptStep(e0: Entries, pending: set<Identifier>, id: Identifier, now: int)
    requires id in pending && pending <= e0.Keys
    ensures Survives(e0[id], now) ==> PartlySwept(e0, pending - {id}, now) == PartlySwept(e0, pending, now)
    ensures !Survives(e0[id], now) ==> PartlySwept(e0, pending - {id}, now) == PartlySwept(e0, pending, now) - {id}
    ensures id in PartlySwept(e0, pending, now) && PartlySwept(e0, pending, now)[id] == e0[id]
  {
  }

  /** One more examined identifier adds its file to the expired files exactly when its record expired. */
  lemma ExpiredFilesStep(e0: Entries, now: int, done: set<Identifier>, id: Identifier)
    requires id in e0
    ensures e0[id].Some? && Expired(now, e0[id].value.lastAccessed) ==>
      ExpiredFiles(e0, now, done + {id}) == ExpiredFiles(e0, now, done) + {e0[id].value.storageName}
    ensures !(e0[id].Some? && Expired(now, e0[id].value.lastAccessed)) ==>
      ExpiredFiles(e0, now, done + {id}) == ExpiredFiles(e0, now, done)
  {
  }

  /** Examining one more identifier in the first pass: what becomes of the registry and of the directory. */
  lemma ExpireStep(e0: Entries, d0: Directory, pending: set<Identifier>, id: Identifier, now: int, undeletable: set<string>)
    requires id in pending && pending <= e0.Keys
    ensures var e := PartlySwept(e0, pending, now);
      var d := Deleted(d0, ExpiredFiles(e0, now, e0.Keys - pending), undeletable);
      var e' := PartlySwept(e0, pending - {id}, now);
      var d' := Deleted(d0, ExpiredFiles(e0, now, e0.Keys - (pending - {id})), undeletable);
      && id in e && e[id] == e0[id]
      && (Survives(e0[id], now) ==> e' == e && d' == d)
      && (e0[id].None? ==> e' == e - {id} && d' == d)
      && (e0[id].Some? && Expired(now, e0[id].value.lastAccessed) ==>
            var name := e0[id].value.storageName;
            e' == e - {id} && d' == if name in d && name !in undeletable then d - {name} else d)
  {
    var done := e0.Keys - pending;
    PartlySweptStep(e0, pending, id, now);
    ExpiredFilesStep(e0, now, done, id);
    assert e0.Keys - (pending - {id}) == done + {id};
    if e0[id].Some? && Expired(now, e0[id].value.lastAccessed) {
      var name := e0[id].value.storageName;
      var d := Deleted(d0, ExpiredFiles(e0, now, done), undeletable);
      DeletedStep(d0, ExpiredFiles(e0, now, done), name, undeletable);
      if name !in d {
        assert d - {name} == d;
      }
    }
  }

  /** Examining one more listed file in the second pass: it goes exactly when it is an orphan that can be deleted. */
  lemma OrphanStep(d1: Directory, entries: Entries, now: int, names: set<string>, name: string, undeletable: set<string>)
    requires name in names && names <= d1.Keys
    ensures var d := Deleted(d1, Orphans(d1, entries, now) - names, undeletable);
      var d' := Deleted(d1, Orphans(d1, entries, now) - (names - {name}), undeletable);
      && name in d && d[name] == d1[name]
      && (OutsideFileWindow(now, d1[name]) && name !in LiveFiles(entries) && name !in undeletable ==> d' == d - {name})
      && (!OutsideFileWindow(now, d1[name]) || name in LiveFiles(entries) || name in undeletable ==> d' == d)
  {
    var gone := Orphans(d1, entries, now) - names;
    if OutsideFileWindow(now, d1[name]) && name !in LiveFiles(entries) {
      assert Orphans(d1, entries, now) - (names - {name}) == gone + {name};
      DeletedStep(d1, gone, name, undeletable);
    } else {
      assert Orphans(d1, entries, now) - (names - {name}) == gone;
    }
  }

  lemma DeletedNothing(d: Directory, undeletable: set<string>)
    ensures Deleted(d, {}, undeletable) == d
  {
  }

  /** Deleting one more name removes it from the directory unless its deletion fails. */
  lemma DeletedStep(d: Directory, names: set<string>, name: string, undeletable: set<string>)
    ensures name in undeletable ==> Deleted(d, names + {name}, undeletable) == Deleted(d, names, undeletable)
    ensures name !in undeletable ==> Deleted(d, names + {name}, undeletable) == Deleted(d, names, undeletable) - {name}
  {
  }

  /** The file of an expired record is gone after the sweep, unless deleting it fails. */
  lemma SweepDeletesExpiredFile(directory: Directory, entries: Entries, now: int, undeletable: set<string>, listable: bool,
                                id: Identifier)
    requires id in entries && entries[id].Some? && Expired(now, entries[id].value.lastAccessed)
    requires entries[id].value.storageName !in undeletable
    ensures entries[id].value.storageName !in SweptDirectory(directory, entries, now, undeletable, listable)
  {
    assert entries[id].value.storageName in ExpiredFiles(entries, now, entries.Keys);
  }

  /** The file of a record that survives the sweep is kept, with its time, when records are well keyed. */
  lemma SweepKeepsLiveFiles(directory: Directory, entries: Entries, now: int, undeletable: set<string>, listable: bool,
                            id: Identifier)
    requires WellKeyed(entries)
    requires id in entries && Survives(entries[id], now)
    requires entries[id].value.storageName in directory
    ensures var f := entries[id].value.storageName;
      var d := SweptDirectory(directory, entries, now, undeletable, listable);
      f in d && d[f] == directory[f]
  {
    var f := entries[id].value.storageName;
    forall other | other in entries && entries[other].Some? && entries[other].value.storageName == f
      ensures other == id
    {
      assert other.text == id.text;
    }
    assert f !in ExpiredFiles(entries, now, entries.Keys);
    assert f in LiveFiles(SweptEntries(entries, now));
  }

  /**
   * A file the sweep deletes could be deleted, and it was either the file of
   * an expired record or, with the directory listed, a file outside the time
   * window that no surviving record refers to.
   */
  lemma SweepDeletesOnlyStale(directory: Directory, entries: Entries, now: int, undeletable: set<string>, listable: bool,
                              f: string)
    requires f in directory && f !in SweptDirectory(directory, entries, now, undeletable, listable)
    ensures f !in undeletable
    ensures || f in ExpiredFiles(entries, now, entries.Keys)
            || (listable && OutsideFileWindow(now, directory[f]) && f !in LiveFiles(SweptEntries(entries, now)))
  {
  }

  /** A second sweep at the same time changes nothing. */
  lemma SweepIdempotent(directory: Directory, entries: Entries, now: int, undeletable: set<string>, listable: bool)
    ensures SweptEntries(SweptEntries(entries, now), now) == SweptEntries(entries, now)
    ensures var e1 := SweptEntries(entries, now);
      var d1 := SweptDirectory(directory, entries, now, undeletable, listable);
      SweptDirectory(d1, e1, now, undeletable, listable) == d1
  {
    var e1 := SweptEntries(entries, now);
    assert SweptEntries(e1, now) == e1;
    var d1 := SweptDirectory(directory, entries, now, undeletable, listable);
    assert ExpiredFiles(e1, now, e1.Keys) == {};
    DeletedNothing(d1, undeletable);
    if listable {
      var a := Deleted(directory, ExpiredFiles(entries, now, entries.Keys), undeletable);
      assert d1 == Deleted(a, Orphans(a, e1, now), undeletable);
      forall f | f in Orphans(d1, e1, now) ensures f in undeletable {
        assert f in Orphans(a, e1, now);
      }
      assert Deleted(d1, Orphans(d1, e1, now), undeletable) == d1;
    }
  }

  /**
   * The life of one upload: once committed its owner finds it and nobody
   * else does; a sweep within the hour keeps the record and its file, and a
   * sweep an hour or more later forgets the record and deletes its file.
   */
  lemma UploadLifecycle(directory: Directory, entries: Entries, uf: UploadedFile, other: Option<User>,
                        t0: int, t1: int, undeletable: set<string>, listable: bool)
    requires WellKeyed(entries) && uf.storageName == uf.id.text && uf.lastAccessed == t0
    requires uf.storageName !in undeletable
    requires other != Some(uf.owner)
    ensures var e := entries[uf.id := Some(uf)];
      var d := directory[uf.storageName := t0];
      && Lookup(e, Some(uf.owner), uf.id) == Some(uf)
      && Lookup(e, other, uf.id).None?
      && (t0 <= t1 < t0 + ENTRY_TIMEOUT ==>
            Lookup(SweptEntries(e, t1), Some(uf.owner), uf.id) == Some(uf)
            && uf.storageName in SweptDirectory(d, e, t1, undeletable, listable))
      && (t1 >= t0 + ENTRY_TIMEOUT ==>
            Lookup(SweptEntries(e, t1), Some(uf.owner), uf.id).None?
            && uf.storageName !in SweptDirectory(d, e, t1, undeletable, listable))
  {
    var e := entries[uf.id := Some(uf)];
    var d := directory[uf.storageName := t0];
    assert WellKeyed(e);
    if t0 <= t1 < t0 + ENTRY_TIMEOUT {
      SweepKeepsLiveFiles(d, e, t1, undeletable, listable, uf.id);
    }
    if t1 >= t0 + ENTRY_TIMEOUT {
      SweepDeletesExpiredFile(d, e, t1, undeletable, listable, uf.id);
    }
  }

  class UploadRegistry {
    /** The random stream identifiers are drawn from. */
    const random: nat -> Identifier
    /** How many identifiers have been drawn so far. */
    var drawn: nat
    /** The shared registry. */
    var entries: Entries
    /** The upload directory on disk. */
    var directory: Directory
    /** The running cleanup task, if any, by its start number. */
    var cleanup: Option<nat>
    /** How many cleanup tasks have been started. */
    var tasksStarted: nat

    /** The draws never repeat, every record is filed under its own identifier, and the task handle was issued. */
    ghost predicate Valid()
      reads this
    {
      && Injective(random)
      && WellKeyed(entries)
      && (cleanup.Some? ==> cleanup.value < tasksStarted)
    }

    constructor (random: nat -> Identifier, directory: Directory)
      requires Injective(random)
      ensures Valid()
      ensures this.random == random && this.directory == directory
      ensures drawn == 0 && entries == map[] && cleanup.None? && tasksStarted == 0
    {
      this.random := random;
      this.directory := directory;
      drawn := 0;
      entries := map[];
      cleanup := None;
      tasksStarted := 0;
    }

    /**
     * Draws identifiers from the stream, starting at the next undrawn one,
     * until one is not a key of taken; n counts the draws made by then.
     */
    method DrawUnused(taken: Entries) returns (id: Identifier, n: nat)
      requires Injective(random)
      ensures n > drawn && id == random(n - 1) && id !in taken
      ensures forall j :: drawn <= j < n - 1 ==> random(j) in taken
    {
      n := drawn;
      id := random(n);
      n := n + 1;
      while id in taken
        invariant n > drawn && id == random(n - 1)
        invariant forall j :: drawn <= j < n - 1 ==> random(j) in taken
        invariant n - 1 - drawn <= |taken.Keys|
        decreases |taken.Keys| - (n - 1 - drawn)
      {
        DrawBound(random, drawn, n, taken.Keys);
        id := random(n);
        n := n + 1;
      }
    }

    /**
     * Draws identifiers until one is not a key, and reserves it with a
     * placeholder. The identifier returned is the last one drawn.
     */
    method GetNextId() returns (id: Identifier)
      requires Valid()
      modifies this
      ensures Valid()
      ensures id !in old(entries)
      ensures entries == old(entries)[id := None]
      ensures drawn > old(drawn) && id == random(drawn - 1)
      ensures directory == old(directory) && cleanup == old(cleanup) && tasksStarted == old(tasksStarted)
    {
      var n;
      id, n := DrawUnused(entries);
      drawn := n;
      entries := entries[id := None];
    }

    /**
     * Commits a record under its identifier and starts the cleanup task if
     * none runs. Its one caller stores each record in the file its identifier
     * names.
     */
    method AddUploadedFile(uf: UploadedFile)
      requires Valid()
      requires uf.storageName == uf.id.text
      modifies this
      ensures Valid()
      ensures entries == old(entries)[uf.id := Some(uf)]
      ensures old(cleanup).Some? ==> cleanup == old(cleanup) && tasksStarted == old(tasksStarted)
      ensures old(cleanup).None? ==> cleanup == Some(old(tasksStarted)) && tasksStarted == old(tasksStarted) + 1
      ensures directory == old(directory) && drawn == old(drawn)
    {
      entries := entries[uf.id := Some(uf)];
      if cleanup.None? {
        cleanup := Some(tasksStarted);
        tasksStarted := tasksStarted + 1;
      }
    }

    /** Stops the cleanup task, if one runs; the registry itself is left as it is. */
    method StopUploadedFileCleanup()
      requires Valid()
      modifies this
      ensures Valid()
      ensures cleanup.None?
      ensures entries == old(entries) && directory == old(directory)
      ensures drawn == old(drawn) && tasksStarted == old(tasksStarted)
    {
      if cleanup.Some? {
        cleanup := None;
      }
    }

    /** The owner-checked lookup; the registry is only read. */
    method GetUploadedFile(owner: Option<User>, id: Identifier) returns (r: Option<UploadedFile>)
      ensures r == Lookup(entries, owner, id)
    {
      r := None;
      if id in entries && entries[id].Some? {
        var uf := entries[id].value;
        if owner == Some(uf.owner) {
          r := Some(uf);
        }
      }
    }

    /** Whether some record's storage file is the named file; the registry holds no placeholder. */
    method IsReferenced(name: string) returns (found: bool)
      requires forall id :: id in entries ==> entries[id].Some?
      ensures found <==> name in LiveFiles(entries)
    {
      var ids := entries.Keys;
      while ids != {}
        invariant ids <= entries.Keys
        invariant forall id :: id in entries && id !in ids ==> entries[id].value.storageName != name
        decreases |ids|
      {
        var id :| id in ids;
        if entries[id].value.storageName == name {
          return true;
        }
        ids := ids - {id};
      }
      return false;
    }

    /**
     * One sweep: the first pass drops placeholders and expired records,
     * deleting the files of the expired ones; the second pass, when the
     * directory can be listed, deletes the files outside the two-hour window
     * that no remaining record refers to. Deleting a file in undeletable fails
     * and leaves it in place, and the sweep goes on.
     */
    method Sweep(now: int, undeletable: set<string>, listable: bool)
      requires Valid()
      modifies this
      ensures Valid()
      ensures entries == SweptEntries(old(entries), now)
      ensures directory == SweptDirectory(old(directory), old(entries), now, undeletable, listable)
      ensures drawn == old(drawn) && cleanup == old(cleanup) && tasksStarted == old(tasksStarted)
    {
      SweptWellKeyed(entries, now);
      ExpireEntries(now, undeletable);
      if listable {
        DeleteOrphans(now, undeletable);
      }
    }

    /** The first pass of the sweep, removing entries one identifier at a time. */
    method ExpireEntries(now: int, undeletable: set<string>)
      modifies this`entries, this`directory
      ensures entries == SweptEntries(old(entries), now)
      ensures directory == Deleted(old(directory), ExpiredFiles(old(entries), now, old(entries).Keys), undeletable)
    {
      ghost var e0 := entries;
      ghost var d0 := directory;
      var pending := entries.Keys;
      PartlySweptStart(e0, now);
      DeletedNothing(d0, undeletable);
      assert ExpiredFiles(e0, now, {}) == {};
      assert e0.Keys - pending == {};
      while pending != {}
        invariant pending <= e0.Keys
        invariant entries == PartlySwept(e0, pending, now)
        invariant directory == Deleted(d0, ExpiredFiles(e0, now, e0.Keys - pending), undeletable)
        decreases |pending|
      {
        var id :| id in pending;
        ExpireStep(e0, d0, pending, id, now, undeletable);
        var uf := entries[id];
        if uf.None? {
          entries := entries - {id};
        } else if Expired(now, uf.value.lastAccessed) {
          var name := uf.value.storageName;
          if name in directory && name !in undeletable {
            directory := directory - {name};
          }
          entries := entries - {id};
        }
        pending := pending - {id};
      }
      PartlySweptEnd(e0, now);
    }

    /** The second pass of the sweep, over the listed files one at a time; no placeholder is left. */
    method DeleteOrphans(now: int, undeletable: set<string>)
      requires forall id :: id in entries ==> entries[id].Some?
      modifies this`directory
      ensures directory == Deleted(old(directory), Orphans(old(directory), entries, now), undeletable)
    {
      ghost var d1 := directory;
      var names := directory.Keys;
      DeletedNothing(d1, undeletable);
      assert Orphans(d1, entries, now) - names == {};
      while names != {}
        invariant names <= d1.Keys
        invariant directory == Deleted(d1, Orphans(d1, entries, now) - names, undeletable)
        decreases |names|
      {
        var name :| name in names;
        OrphanStep(d1, entries, now, names, name, undeletable);
        if OutsideFileWindow(now, directory[name]) {
          var found := IsReferenced(name);
          if !found && name !in undeletable {
            directory := directory - {name};
          }
        }
        names := names - {name};
      }
      assert Orphans(d1, entries, now) - {} == Orphans(d1, entries, now);
    }

    /**
     * One wake-up of cleanup task number task: it sweeps only while it is
     * still the running task, and does nothing once stopped or replaced.
     */
    method CleanupCycle(task: nat, now: int, undeletable: set<string>, listable: bool) returns (ran: bool)
      requires Valid()
      modifies this
      ensures Valid()
      ensures ran <==> old(cleanup) == Some(task)
      ensures ran ==> entries == SweptEntries(old(entries), now)
      ensures ran ==> directory == SweptDirectory(old(directory), old(entries), now, undeletable, listable)
      ensures !ran ==> entries == old(entries) && directory == old(directory)
      ensures drawn == old(drawn) && cleanup == old(cleanup) && tasksStarted == old(tasksStarted)
    {
      ran := cleanup == Some(task);
      if ran {
        Sweep(now, undeletable, listable);
      }
    }
  }
}
