/**
 * The request wrapper: its memoised browser tests, and what its constructor
 * does with the file parts of a multipart form submission.
 */
module WebSiteRequests {
  import opened Wrappers
  import opened JavaStrings
  import opened MimeTypes
  import opened Uploads
  import opened UserAgents
  import opened CacheKeys

  /** The media type of multipart form submissions. */
  const FORM_DATA: string := "multipart/form-data"

  /** The content-type header starts with the form-data media type, in any case. */
  predicate IsFormData(contentType: Option<string>)
  {
    && contentType.Some?
    && |contentType.value| >= |FORM_DATA|
    && EqualsIgnoreCase(contentType.value[..|FORM_DATA|], FORM_DATA)
  }

  /**
   * One part of the submission: its form field name, the file name the
   * client gave, the content type the client declared, and whether writing
   * it to the upload directory succeeds.
   */
  datatype Part = Part(name: string, submittedFileName: Option<string>, contentType: Option<string>, writable: bool)

  /** What authentication yields: no user, a user, or a failed login attempt. */
  datatype Login = Anonymous | LoggedIn(user: User) | LoginFailed

  /** How ingestion ends; DirectoryFailed and WriteFailed surface as a ServletException. */
  datatype Ingestion =
    | NotMultipart
    | Discarded
    | DirectoryFailed
    | WriteFailed(index: nat)
    | Ingested

  /** The position of the first part that cannot be written, or the number of parts. */
  function FirstUnwritable(parts: seq<Part>): (k: nat)
    ensures k <= |parts|
    ensures forall i :: 0 <= i < k ==> parts[i].writable
    ensures k < |parts| ==> !parts[k].writable
    decreases |parts|
  {
    if parts == [] || !parts[0].writable then 0
    else 1 + FirstUnwritable(parts[1..])
  }

  /** Within the writable prefix, part i is writable exactly when the prefix goes past it. */
  lemma FirstUnwritableAt(parts: seq<Part>, i: nat)
    requires i <= FirstUnwritable(parts) && i < |parts|
    ensures parts[i].writable <==> i < FirstUnwritable(parts)
  {
  }

  /** The outcome the constructor reaches for the given header, login, directory and parts. */
  function IngestionOutcome(contentType: Option<string>, login: Login, directoryOk: bool, parts: seq<Part>): Ingestion
  {
    if !IsFormData(contentType) then NotMultipart
    else if !login.LoggedIn? then Discarded
    else if !directoryOk then DirectoryFailed
    else if FirstUnwritable(parts) < |parts| then WriteFailed(FirstUnwritable(parts))
    else Ingested
  }

  /** The parts are deleted exactly when the files are not kept. */
  predicate PartsDeleted(outcome: Ingestion)
  {
    outcome == Discarded || outcome == DirectoryFailed
  }

  /** With a user and a directory, the records committed are those of the writable prefix. */
  lemma CommittedCountOfParts(parts: seq<Part>)
    ensures var k := FirstUnwritable(parts);
      CommittedCount(if k < |parts| then WriteFailed(k) else Ingested, parts) == k
  {
  }

  /** How many records the outcome leaves committed. */
  function CommittedCount(outcome: Ingestion, parts: seq<Part>): nat
  {
    match outcome
    case Ingested => |parts|
    case WriteFailed(k) => k
    case _ => 0
  }

  /**
   * The files are kept exactly when a user is logged in and the upload
   * directory is ready; a failed login counts as no user. Records are
   * committed for the parts before the first one that cannot be written,
   * and none is rolled back.
   */
  lemma KeepFilesPolicy(contentType: Option<string>, login: Login, directoryOk: bool, parts: seq<Part>)
    requires IsFormData(contentType)
    ensures var outcome := IngestionOutcome(contentType, login, directoryOk, parts);
      && (PartsDeleted(outcome) <==> !login.LoggedIn? || !directoryOk)
      && (!PartsDeleted(outcome) ==> CommittedCount(outcome, parts) == FirstUnwritable(parts))
      && (outcome == Ingested <==> login.LoggedIn? && directoryOk && forall i :: 0 <= i < |parts| ==> parts[i].writable)
  {
  }

  /** What getUploadedFiles yields: the request's uploads, or the NullPointerException it raises. */
  datatype Listing = Files(files: seq<UploadedFile>) | NullPointer

  /**
   * getUploadedFiles as written: the empty list built for a request without
   * uploads is discarded, and wrapping the missing list then raises.
   */
  function UploadedFilesAsWritten(uploads: Option<seq<UploadedFile>>): Listing
  {
    if uploads.None? then NullPointer else Files(uploads.value)
  }

  /** getUploadedFiles as intended: a request without uploads has none. */
  function UploadedFiles(uploads: Option<seq<UploadedFile>>): (r: seq<UploadedFile>)
    ensures uploads.None? ==> r == []
    ensures uploads.Some? ==> r == uploads.value
  {
    if uploads.None? then [] else uploads.value
  }

  /**
   * Whenever ingestion leaves no upload list, the getter as written raises
   * where the intended one yields the empty list; where it leaves a list, the
   * two agree. Of the outcomes without a list, only NotMultipart and Discarded
   * let construction finish, so only they are followed by a call of the getter.
   */
  lemma ListingAfterIngestion(contentType: Option<string>, login: Login, directoryOk: bool, parts: seq<Part>,
                              uploads: Option<seq<UploadedFile>>)
    requires var outcome := IngestionOutcome(contentType, login, directoryOk, parts);
      (outcome == NotMultipart || PartsDeleted(outcome) ==> uploads.None?)
      && (outcome == Ingested || outcome.WriteFailed? ==> uploads.Some?)
    ensures var outcome := IngestionOutcome(contentType, login, directoryOk, parts);
      && (!IsFormData(contentType) || !login.LoggedIn? || !directoryOk <==> UploadedFilesAsWritten(uploads).NullPointer?)
      && (UploadedFilesAsWritten(uploads).NullPointer? ==> UploadedFiles(uploads) == [])
      && (UploadedFilesAsWritten(uploads).Files? ==> UploadedFilesAsWritten(uploads).files == UploadedFiles(uploads))
  {
  }

  /** A request without a content-type header: the getter as written raises, the intended one yields []. */
  lemma PlainRequestListing()
    ensures IngestionOutcome(None, Anonymous, true, []) == NotMultipart
    ensures UploadedFilesAsWritten(None) == NullPointer
    ensures UploadedFiles(None) == []
  {
  }

  /** The record made for a part: its submitted name, its own file, its owner, its looked-up type. */
  predicate Describes(uf: UploadedFile, part: Part, user: User, mimeTable: map<string, string>, now: int)
  {
    && uf.filename == part.submittedFileName
    && uf.storageName == uf.id.text
    && uf.owner == user
    && uf.contentType == ContentTypeFor(mimeTable, part.name, part.contentType)
    && uf.lastAccessed == now
  }

  /** m keeps every key of m0 with its value. */
  ghost predicate Extends<K, V>(m0: map<K, V>, m: map<K, V>)
  {
    forall k :: k in m0 ==> k in m && m[k] == m0[k]
  }

  /** e keeps every entry of e0 and adds placeholders only. */
  ghost predicate Reserved(e0: Entries, e: Entries)
  {
    Extends(e0, e) && forall k :: k in e && k !in e0 ==> e[k].None?
  }

  lemma ReserveOne(e: Entries, id: Identifier)
    requires id !in e
    ensures Reserved(e, e[id := None])
  {
  }

  lemma ReservedTrans(e0: Entries, e1: Entries, e2: Entries)
    requires Reserved(e0, e1) && Reserved(e1, e2)
    ensures Reserved(e0, e2)
  {
  }

  /**
   * ufs are the records of the first |ufs| parts, each under an identifier
   * new since e0, committed in e, with its file written at now in d, no two
   * sharing an identifier.
   */
  ghost predicate Committed(ufs: seq<UploadedFile>, parts: seq<Part>, user: User, table: map<string, string>, now: int,
                            e0: Entries, e: Entries, d: Directory)
  {
    && |ufs| <= |parts|
    && (forall j :: 0 <= j < |ufs| ==> Describes(ufs[j], parts[j], user, table, now))
    && (forall j :: 0 <= j < |ufs| ==> ufs[j].id !in e0 && ufs[j].id in e && e[ufs[j].id] == Some(ufs[j]))
    && (forall j :: 0 <= j < |ufs| ==> ufs[j].storageName in d && d[ufs[j].storageName] == now)
    && (forall j, k :: 0 <= j < k < |ufs| ==> ufs[j].id != ufs[k].id)
  }

  /** Committing the record of the next part keeps the earlier records committed. */
  lemma CommitStep(ufs: seq<UploadedFile>, parts: seq<Part>, user: User, table: map<string, string>, now: int,
                   e0: Entries, e: Entries, d: Directory, uf: UploadedFile, e': Entries, d': Directory)
    requires Committed(ufs, parts, user, table, now, e0, e, d) && |ufs| < |parts|
    requires Extends(e0, e) && Extends(e, e') && Extends(d, d')
    requires Describes(uf, parts[|ufs|], user, table, now)
    requires uf.id !in e && uf.id in e' && e'[uf.id] == Some(uf)
    requires uf.storageName in d' && d'[uf.storageName] == now
    ensures Committed(ufs + [uf], parts, user, table, now, e0, e', d')
  {
    var ufs' := ufs + [uf];
    forall j | 0 <= j < |ufs'| ensures ufs'[j].id !in e0 && ufs'[j].id in e' && e'[ufs'[j].id] == Some(ufs'[j]) {
      if j < |ufs| { assert ufs'[j] == ufs[j]; }
    }
    forall j, k | 0 <= j < k < |ufs'| ensures ufs'[j].id != ufs'[k].id {
      if k < |ufs| { assert ufs'[j] == ufs[j] && ufs'[k] == ufs[k]; }
      else { assert ufs'[j] == ufs[j]; }
    }
  }

  /** The files the records ufs are stored in. */
  function StorageNames(ufs: seq<UploadedFile>): set<string>
  {
    set j | 0 <= j < |ufs| :: ufs[j].storageName
  }

  /**
   * Since e0 and d0, the registry gained only placeholders and the records
   * ufs, and the upload directory only the files of ufs.
   */
  ghost predicate AddsOnly(ufs: seq<UploadedFile>, e0: Entries, e: Entries, d0: Directory, d: Directory)
  {
    && (forall k :: k in e && k !in e0 ==> e[k].None? || (e[k].Some? && e[k].value in ufs))
    && d.Keys == d0.Keys + StorageNames(ufs)
  }

  /** A part whose write succeeds adds its record and file, and placeholders besides. */
  lemma AddsOnlyStep(ufs: seq<UploadedFile>, e0: Entries, e: Entries, d0: Directory, d: Directory,
                     uf: UploadedFile, e': Entries, d': Directory)
    requires AddsOnly(ufs, e0, e, d0, d) && Extends(e, e')
    requires forall k :: k in e' && k !in e ==> e'[k].None? || e'[k] == Some(uf)
    requires d'.Keys == d.Keys + {uf.storageName}
    ensures AddsOnly(ufs + [uf], e0, e', d0, d')
  {
    var ufs' := ufs + [uf];
    assert StorageNames(ufs') == StorageNames(ufs) + {uf.storageName} by {
      forall j | 0 <= j < |ufs'| ensures ufs'[j].storageName in StorageNames(ufs) + {uf.storageName} {
        if j < |ufs| { assert ufs'[j] == ufs[j]; }
      }
      forall n | n in StorageNames(ufs) ensures n in StorageNames(ufs') {
        var j :| 0 <= j < |ufs| && ufs[j].storageName == n;
        assert ufs'[j] == ufs[j];
      }
      assert ufs'[|ufs|] == uf;
    }
    forall k | k in e' && k !in e0 ensures e'[k].None? || (e'[k].Some? && e'[k].value in ufs') {
      if k in e && e[k].Some? { assert e[k].value in ufs'; }
      if k !in e && e'[k].Some? { assert ufs'[|ufs|] == uf; }
    }
  }

  /** A part whose write fails adds placeholders only. */
  lemma AddsOnlyKept(ufs: seq<UploadedFile>, e0: Entries, e: Entries, d0: Directory, d: Directory, e': Entries)
    requires AddsOnly(ufs, e0, e, d0, d) && Reserved(e, e')
    ensures AddsOnly(ufs, e0, e', d0, d)
  {
  }

  /** Reserving more identifiers keeps the committed records committed. */
  lemma CommittedKept(ufs: seq<UploadedFile>, parts: seq<Part>, user: User, table: map<string, string>, now: int,
                      e0: Entries, e: Entries, e': Entries, d: Directory)
    requires Committed(ufs, parts, user, table, now, e0, e, d) && Extends(e, e')
    ensures Committed(ufs, parts, user, table, now, e0, e', d)
  {
  }

  /** No record of ufs is stored in a file that was already in d0. */
  ghost predicate FreshFiles(ufs: seq<UploadedFile>, d0: Directory)
  {
    forall j :: 0 <= j < |ufs| ==> ufs[j].storageName !in d0
  }

  /** A record stored in a file not in d0 keeps the records' files fresh. */
  lemma FreshFilesStep(ufs: seq<UploadedFile>, d0: Directory, uf: UploadedFile)
    requires FreshFiles(ufs, d0) && uf.storageName !in d0
    ensures FreshFiles(ufs + [uf], d0)
  {
    var ufs' := ufs + [uf];
    forall j | 0 <= j < |ufs'| ensures ufs'[j].storageName !in d0 {
      if j < |ufs| { assert ufs'[j] == ufs[j]; }
    }
  }

  /**
   * Part way through the parts: ufs are committed for the first parts, each
   * in a file new since d0, and since e0 and d0 nothing else was added but
   * placeholders.
   */
  ghost predicate Ingesting(ufs: seq<UploadedFile>, parts: seq<Part>, user: User, table: map<string, string>, now: int,
                            e0: Entries, d0: Directory, e: Entries, d: Directory)
  {
    && Committed(ufs, parts, user, table, now, e0, e, d)
    && AddsOnly(ufs, e0, e, d0, d)
    && FreshFiles(ufs, d0)
    && Extends(e0, e) && Extends(d0, d)
  }

  /**
   * The cleanup task after ufs were committed: running once a record is
   * committed, and left as it was when none is or one was already running.
   */
  ghost predicate CleanupAfter(ufs: seq<UploadedFile>, c0: Option<nat>, c: Option<nat>)
  {
    && (|ufs| > 0 ==> c.Some?)
    && (|ufs| == 0 || c0.Some? ==> c == c0)
  }

  /** A part whose write succeeds: its record joins the committed ones, with its file. */
  lemma IngestWritten(ufs: seq<UploadedFile>, parts: seq<Part>, user: User, table: map<string, string>, now: int,
                      e0: Entries, d0: Directory, e: Entries, d: Directory, uf: UploadedFile, e': Entries, d': Directory)
    requires Ingesting(ufs, parts, user, table, now, e0, d0, e, d) && |ufs| < |parts|
    requires Extends(e, e')
    requires forall k :: k in e' && k !in e ==> e'[k].None? || e'[k] == Some(uf)
    requires Describes(uf, parts[|ufs|], user, table, now)
    requires uf.id !in e && uf.id in e' && e'[uf.id] == Some(uf)
    requires uf.storageName !in d && d' == d[uf.storageName := now]
    ensures Ingesting(ufs + [uf], parts, user, table, now, e0, d0, e', d')
  {
    CommitStep(ufs, parts, user, table, now, e0, e, d, uf, e', d');
    AddsOnlyStep(ufs, e0, e, d0, d, uf, e', d');
    FreshFilesStep(ufs, d0, uf);
  }

  /** A part whose write fails: only placeholders were added, and the committed records stay. */
  lemma IngestFailed(ufs: seq<UploadedFile>, parts: seq<Part>, user: User, table: map<string, string>, now: int,
                     e0: Entries, d0: Directory, e: Entries, d: Directory, e': Entries)
    requires Ingesting(ufs, parts, user, table, now, e0, d0, e, d)
    requires Reserved(e, e')
    ensures Ingesting(ufs, parts, user, table, now, e0, d0, e', d)
  {
    CommittedKept(ufs, parts, user, table, now, e0, e, e', d);
    AddsOnlyKept(ufs, e0, e, d0, d, e');
  }

  /**
   * Reserves identifiers until one names no file of the upload directory;
   * every identifier reserved on the way stays reserved.
   */
  method NewUploadFile(registry: UploadRegistry) returns (id: Identifier)
    requires registry.Valid()
    modifies registry
    ensures registry.Valid()
    ensures id !in old(registry.entries) && id.text !in registry.directory
    ensures id in registry.entries && registry.entries[id].None?
    ensures Reserved(old(registry.entries), registry.entries)
    ensures registry.directory == old(registry.directory)
    ensures registry.cleanup == old(registry.cleanup) && registry.tasksStarted == old(registry.tasksStarted)
  {
    id := registry.GetNextId();
    ghost var seen: set<string> := {};
    while id.text in registry.directory
      invariant registry.Valid()
      invariant id !in old(registry.entries)
      invariant id in registry.entries && registry.entries[id].None?
      invariant Reserved(old(registry.entries), registry.entries)
      invariant registry.directory == old(registry.directory)
      invariant registry.cleanup == old(registry.cleanup) && registry.tasksStarted == old(registry.tasksStarted)
      invariant forall t :: t in seen ==> Identifier(t) in registry.entries
      invariant id.text !in seen
      decreases |registry.directory.Keys - seen|
    {
      ghost var e := registry.entries;
      assert registry.directory.Keys - (seen + {id.text}) == (registry.directory.Keys - seen) - {id.text};
      seen := seen + {id.text};
      id := registry.GetNextId();
      ReserveOne(e, id);
      ReservedTrans(old(registry.entries), e, registry.entries);
    }
  }

  /**
   * One part of a logged-in submission: a fresh file, the part written to it,
   * its content type looked up by the part's field name, and its record
   * committed. None when writing fails, which leaves the reserved identifier
   * as a placeholder.
   */
  method IngestPart(registry: UploadRegistry, mimeCache: MimeTypeCache, user: User, part: Part, now: int)
    returns (uf: Option<UploadedFile>)
    requires registry.Valid() && mimeCache.Valid()
    modifies registry, mimeCache
    ensures registry.Valid() && mimeCache.Valid()
    ensures uf.Some? <==> part.writable
    ensures uf.Some? ==> && Describes(uf.value, part, user, MimeTable(mimeCache.resource), now)
                         && uf.value.id !in old(registry.entries)
                         && uf.value.id in registry.entries && registry.entries[uf.value.id] == uf
                         && uf.value.storageName !in old(registry.directory)
                         && registry.directory == old(registry.directory)[uf.value.storageName := now]
                         && registry.cleanup.Some?
    ensures uf.None? ==> registry.directory == old(registry.directory) && registry.cleanup == old(registry.cleanup)
    ensures old(registry.cleanup).Some? ==> registry.cleanup == old(registry.cleanup)
    ensures Extends(old(registry.entries), registry.entries)
    ensures forall k :: k in registry.entries && k !in old(registry.entries) ==>
      registry.entries[k].None? || registry.entries[k] == uf
  {
    var id := NewUploadFile(registry);
    if !part.writable {
      return None;
    }
    registry.directory := registry.directory[id.text := now];
    var contentType := mimeCache.GetContentType(part.name, part.contentType);
    var record := UploadedFile(id, part.submittedFileName, id.text, user, contentType, now);
    registry.AddUploadedFile(record);
    uf := Some(record);
  }

  /** Ingests the part after the committed records ufs, keeping them committed and adding its own. */
  method IngestNext(registry: UploadRegistry, mimeCache: MimeTypeCache, user: User, parts: seq<Part>, ufs: seq<UploadedFile>,
                    now: int, ghost e0: Entries, ghost d0: Directory)
    returns (uf: Option<UploadedFile>)
    requires |ufs| < |parts|
    requires registry.Valid() && mimeCache.Valid()
    requires Ingesting(ufs, parts, user, MimeTable(mimeCache.resource), now, e0, d0, registry.entries, registry.directory)
    modifies registry, mimeCache
    ensures registry.Valid() && mimeCache.Valid()
    ensures uf.Some? <==> parts[|ufs|].writable
    ensures uf.Some? ==>
      Ingesting(ufs + [uf.value], parts, user, MimeTable(mimeCache.resource), now, e0, d0, registry.entries, registry.directory)
    ensures uf.None? ==>
      Ingesting(ufs, parts, user, MimeTable(mimeCache.resource), now, e0, d0, registry.entries, registry.directory)
    ensures uf.Some? ==> registry.cleanup.Some?
    ensures uf.None? || old(registry.cleanup).Some? ==> registry.cleanup == old(registry.cleanup)
  {
    ghost var e := registry.entries;
    ghost var d := registry.directory;
    uf := IngestPart(registry, mimeCache, user, parts[|ufs|], now);
    if uf.Some? {
      IngestWritten(ufs, parts, user, MimeTable(mimeCache.resource), now, e0, d0, e, d, uf.value, registry.entries, registry.directory);
    } else {
      IngestFailed(ufs, parts, user, MimeTable(mimeCache.resource), now, e0, d0, e, d, registry.entries);
    }
  }

  class WebSiteRequest {
    /** The user-agent header, None when the request has none. */
    const userAgent: Option<string>
    /** The content-type header, None when the request has none. */
    const contentType: Option<string>
    /** The files uploaded with this request, in part order; None until a user's upload is ingested. */
    var reqUploadedFiles: Option<seq<UploadedFile>>

    var isLynx: bool
    var isLynxDone: bool
    var isBlackBerry: bool
    var isBlackBerryDone: bool
    var isLinux: bool
    var isLinuxDone: bool

    /** A memoised answer, once computed, is the answer the header gives. */
    ghost predicate Valid()
      reads this`isLynx, this`isLynxDone, this`isBlackBerry, this`isBlackBerryDone, this`isLinux, this`isLinuxDone
    {
      && (isLynxDone ==> isLynx == IsLynxAgent(userAgent))
      && (isBlackBerryDone ==> isBlackBerry == IsBlackBerryAgent(userAgent))
      && (isLinuxDone ==> isLinux == IsLinuxAgent(userAgent))
    }

    /** The wrapper before its constructor looks at the parts: nothing memoised, no uploads. */
    constructor (userAgent: Option<string>, contentType: Option<string>)
      ensures Valid()
      ensures this.userAgent == userAgent && this.contentType == contentType
      ensures reqUploadedFiles.None? && !isLynxDone && !isBlackBerryDone && !isLinuxDone
    {
      this.userAgent := userAgent;
      this.contentType := contentType;
      reqUploadedFiles := None;
      isLynx, isLynxDone := false, false;
      isBlackBerry, isBlackBerryDone := false, false;
      isLinux, isLinuxDone := false, false;
    }

    method IsLynx() returns (r: bool)
      requires Valid()
      modifies this
      ensures Valid()
      ensures r == IsLynxAgent(userAgent) && isLynxDone && isLynx == r
      ensures unchanged(this`reqUploadedFiles, this`isBlackBerry, this`isBlackBerryDone, this`isLinux, this`isLinuxDone)
    {
      if !isLynxDone {
        isLynx := userAgent.Some? && Contains(ToLower(userAgent.value), "lynx");
        isLynxDone := true;
      }
      r := isLynx;
    }

    method IsBlackBerry() returns (r: bool)
      requires Valid()
      modifies this
      ensures Valid()
      ensures r == IsBlackBerryAgent(userAgent) && isBlackBerryDone && isBlackBerry == r
      ensures unchanged(this`reqUploadedFiles, this`isLynx, this`isLynxDone, this`isLinux, this`isLinuxDone)
    {
      if !isBlackBerryDone {
        isBlackBerry := userAgent.Some? && StartsWith(userAgent.value, "BlackBerry");
        isBlackBerryDone := true;
      }
      r := isBlackBerry;
    }

    method IsLinux() returns (r: bool)
      requires Valid()
      modifies this
      ensures Valid()
      ensures r == IsLinuxAgent(userAgent) && isLinuxDone && isLinux == r
      ensures unchanged(this`reqUploadedFiles, this`isLynx, this`isLynxDone, this`isBlackBerry, this`isBlackBerryDone)
    {
      if !isLinuxDone {
        isLinux := userAgent.None? || Contains(ToLower(userAgent.value), "linux");
        isLinuxDone := true;
      }
      r := isLinux;
    }

    /** The files uploaded with this request, in part order; none when nothing was ingested. */
    method GetUploadedFiles() returns (r: seq<UploadedFile>)
      ensures r == UploadedFiles(reqUploadedFiles)
    {
      if reqUploadedFiles.None? {
        return [];
      }
      r := reqUploadedFiles.value;
    }

    /**
     * The key this request's output is cached under: the session's layout
     * when it has one, else "Text" for Lynx and BlackBerry agents and
     * "Default" otherwise. The BlackBerry test is only made, and memoised,
     * when the agent is not Lynx.
     */
    method CacheKeyFor(isSearchEngine: bool, sessionLayout: Option<string>) returns (k: CacheKey)
      requires Valid()
      modifies this
      ensures Valid()
      ensures k == NewCacheKey(isSearchEngine, sessionLayout, IsLynxAgent(userAgent), IsBlackBerryAgent(userAgent))
      ensures isLynxDone == (old(isLynxDone) || sessionLayout.None?)
      ensures isBlackBerryDone == (old(isBlackBerryDone) || (sessionLayout.None? && !IsLynxAgent(userAgent)))
      ensures unchanged(this`reqUploadedFiles, this`isLinux, this`isLinuxDone)
    {
      var layout: string;
      if sessionLayout.Some? {
        layout := sessionLayout.value;
      } else {
        var text := IsLynx();
        if !text {
          text := IsBlackBerry();
        }
        layout := if text then "Text" else "Default";
      }
      k := CacheKey(isSearchEngine, layout);
    }

    /**
     * The constructor's handling of a multipart submission. Without a user
     * the parts are deleted and nothing is registered; with one, each part
     * gets its own file and one committed record, in part order, until a
     * write fails, and what was committed before the failure stays.
     */
    method IngestUploads(registry: UploadRegistry, mimeCache: MimeTypeCache, login: Login, directoryOk: bool,
                         parts: seq<Part>, now: int)
      returns (outcome: Ingestion)
      requires Valid() && registry.Valid() && mimeCache.Valid()
      requires reqUploadedFiles.None?
      modifies this`reqUploadedFiles, registry, mimeCache
      ensures Valid() && registry.Valid() && mimeCache.Valid()
      ensures outcome == IngestionOutcome(contentType, login, directoryOk, parts)
      ensures outcome == NotMultipart || PartsDeleted(outcome) ==>
        unchanged(registry, mimeCache) && reqUploadedFiles.None?
      ensures outcome == Ingested || outcome.WriteFailed? ==>
        && reqUploadedFiles.Some? && |reqUploadedFiles.value| == CommittedCount(outcome, parts)
        && Ingesting(reqUploadedFiles.value, parts, login.user, MimeTable(mimeCache.resource), now,
                     old(registry.entries), old(registry.directory), registry.entries, registry.directory)
        && CleanupAfter(reqUploadedFiles.value, old(registry.cleanup), registry.cleanup)
      ensures Extends(old(registry.entries), registry.entries) && Extends(old(registry.directory), registry.directory)
    {
      if !IsFormData(contentType) {
        return NotMultipart;
      }
      if !login.LoggedIn? {
        return Discarded;
      }
      if !directoryOk {
        return DirectoryFailed;
      }
      outcome := IngestParts(registry, mimeCache, login.user, parts, now);
      assert unchanged(this`isLynx, this`isLynxDone, this`isBlackBerry, this`isBlackBerryDone, this`isLinux, this`isLinuxDone);
      CommittedCountOfParts(parts);
    }

    /** The loop over the parts once the user is known and the upload directory is ready. */
    method IngestParts(registry: UploadRegistry, mimeCache: MimeTypeCache, user: User, parts: seq<Part>, now: int)
      returns (outcome: Ingestion)
      requires registry.Valid() && mimeCache.Valid()
      modifies this`reqUploadedFiles, registry, mimeCache
      ensures registry.Valid() && mimeCache.Valid()
      ensures outcome == if FirstUnwritable(parts) < |parts| then WriteFailed(FirstUnwritable(parts)) else Ingested
      ensures reqUploadedFiles.Some? && |reqUploadedFiles.value| == FirstUnwritable(parts)
      ensures Ingesting(reqUploadedFiles.value, parts, user, MimeTable(mimeCache.resource), now,
                        old(registry.entries), old(registry.directory), registry.entries, registry.directory)
      ensures CleanupAfter(reqUploadedFiles.value, old(registry.cleanup), registry.cleanup)
      ensures Extends(old(registry.entries), registry.entries) && Extends(old(registry.directory), registry.directory)
    {
      ghost var e0 := registry.entries;
      ghost var d0 := registry.directory;
      var ufs: seq<UploadedFile> := [];
      reqUploadedFiles := Some(ufs);
      assert StorageNames(ufs) == {};
      var i := 0;
      while i < |parts|
        invariant 0 <= i <= |parts|
        invariant i <= FirstUnwritable(parts)
        invariant registry.Valid() && mimeCache.Valid()
        invariant |ufs| == i && reqUploadedFiles == Some(ufs)
        invariant CleanupAfter(ufs, old(registry.cleanup), registry.cleanup)
        invariant Ingesting(ufs, parts, user, MimeTable(mimeCache.resource), now, e0, d0, registry.entries, registry.directory)
        decreases |parts| - i
      {
        var uf := IngestNext(registry, mimeCache, user, parts, ufs, now, e0, d0);
        FirstUnwritableAt(parts, i);
        if uf.None? {
          return WriteFailed(i);
        }
        ufs := ufs + [uf.value];
        reqUploadedFiles := Some(ufs);
        i := i + 1;
      }
      outcome := Ingested;
    }
  }
}
