# Uploaded-file bookkeeping of the web framework's request wrapper

This project models the part of `WebSiteRequest` that deals with files
uploaded in multipart form submissions. It also covers the pure rules that
come with that code and the cache key a request is filed under. The pieces are:

- **The upload registry** (`Uploads`). This is the process-wide map from
  identifier to uploaded-file record, where a placeholder marks an
  identifier that is reserved but not yet committed. The class
  `UploadRegistry` holds the map, the upload directory (file name to
  last-modified time), the random identifier stream and the cleanup-task
  handle. Its operations are:
  - reserving a fresh identifier;
  - committing a record, which starts the cleanup task once;
  - stopping the cleanup task;
  - the owner-checked lookup;
  - the periodic two-pass sweep.

  Each operation is one atomic step, because the lock around it is
  abstracted away. The sweep is specified by functions on the old state
  (`SweptEntries`, `SweptDirectory`), and the lemmas beside them state the
  expiry and orphan rules.
- **Ingestion** (`WebSiteRequests`). This is what the request constructor
  does with the parts of a multipart submission:
  - Without a user, or after a failed login, every part is deleted and
    nothing is registered.
  - With a user and a usable upload directory, each part gets a file named
    by a fresh identifier that names no existing file, plus one committed
    record, in part order. If the directory cannot be prepared, every part
    is deleted and nothing is registered.
  - A failed write ends the loop. Records already committed stay: nothing
    is rolled back.

  The same class holds the memoised user-agent tests and the construction
  of the cache key.
- **Content types** (`MimeTypes`). This covers the filename extension, the
  `mime.types` parser, which stores only a line's second word, and the
  lookup with its fallback to the part's declared type. The lazily loaded
  table is a class `MimeTypeCache`.
- **URL building**:
  - `UrlParams`: first-wins parameter appending onto a string builder, with
    a set of names already written.
  - `ClassUrls`: splitting "Class?params#fragment" into its parts and
    building the page URL from them.
- **User agents** (`UserAgents`) and the **cache key** (`CacheKeys`). The
  cache key has its layout default, its structural `equals` and its
  `hashCode` in 32-bit arithmetic.
- **Java helpers** (`JavaStrings`). These are the ASCII lower-casing,
  `lastIndexOf`/`indexOf`, whitespace splitting, `String.hashCode` and
  `int` wrap-around that the rest uses. `Wrappers` holds `Option`.

Time is an integer parameter `now`, in milliseconds. Wherever the source
touches the file system, the model uses maps and flags in its place:

- the upload directory is a map from file name to last-modified time;
- a part carries whether writing it succeeds;
- the set `undeletable` names the files whose deletion fails;
- `listable` says whether the directory listing succeeds;
- `directoryOk` says whether the upload directory can be made.

The random stream is a function `random: nat -> Identifier` that never
repeats an identifier. The class loader is a `Classes` value: which class
names load, and which loaded classes are pages. The page-URL builder is a
function parameter.

## Model

| member | source | states |
|---|---|---|
| MimeTypes.GetExtension | src/main/java/com/aoapps/web/framework/WebSiteRequest.java:171-178 | With no '.' or a trailing '.', the whole name. Otherwise a non-empty proper suffix, preceded by '.', containing no '.'. |
| MimeTypes.ParseMimeTypes | src/main/java/com/aoapps/web/framework/WebSiteRequest.java:191-208 | The nested line/word loops build exactly the table `MimeTable(lines)`, in which each line's second word maps to its first. |
| MimeTypes.LineMapping | src/main/java/com/aoapps/web/framework/WebSiteRequest.java:194-204 | What one line of the resource contributes: a non-empty line not starting with '#' and having at least two words maps its second word to its first. |
| MimeTypes.MimeTable | src/main/java/com/aoapps/web/framework/WebSiteRequest.java:191-208 | The table the resource builds, line by line, each line's mapping overwriting earlier ones. `ParseMimeTypes` is proved to build it; `MimeTableKeys` and `MimeTableLastWins` characterise it. |
| MimeTypes.MimeTableKeys | src/main/java/com/aoapps/web/framework/WebSiteRequest.java:195-202 | Every extension in the table is the second word of some non-empty, non-comment line. Later words of a line are never registered. |
| MimeTypes.MimeTableLastWins | src/main/java/com/aoapps/web/framework/WebSiteRequest.java:194-206 | An extension maps to the type of the last line that registers it. |
| MimeTypes.SkippedLine | src/main/java/com/aoapps/web/framework/WebSiteRequest.java:195-196 | An empty line or a line starting with '#' leaves the table unchanged. |
| MimeTypes.ContentTypeFor | src/main/java/com/aoapps/web/framework/WebSiteRequest.java:210-214 | The table's type for the lower-cased extension of the name, else the part's own content type. Characterised by `ContentTypeRegistered` and `ContentTypeFallback`. |
| MimeTypes.ContentTypeRegistered | src/main/java/com/aoapps/web/framework/WebSiteRequest.java:210-213 | A lower-cased extension the resource registers yields its last registered type. |
| MimeTypes.ContentTypeFallback | src/main/java/com/aoapps/web/framework/WebSiteRequest.java:210-214 | An extension no line registers yields the part's own content type. |
| MimeTypes.MimeTypeCache.GetContentType | src/main/java/com/aoapps/web/framework/WebSiteRequest.java:188-216 | The first call loads the table from the resource and later calls reuse it. The result is the registered type of the lower-cased extension, else the part's type. |
| Uploads.UploadRegistry.DrawUnused | src/main/java/com/aoapps/web/framework/WebSiteRequest.java:223-228 | Draws until an identifier is not taken. Every identifier drawn before it was taken. The loop terminates because the stream never repeats. |
| Uploads.UploadRegistry.GetNextId | src/main/java/com/aoapps/web/framework/WebSiteRequest.java:221-231 | The identifier was not a key before. Afterwards it maps to a placeholder and no other entry changes. |
| Uploads.UploadRegistry.AddUploadedFile | src/main/java/com/aoapps/web/framework/WebSiteRequest.java:236-241 | The record is stored under its identifier. A cleanup task is started exactly when none runs. The record must be stored in the file its identifier names, as at its one call site (:405-423), so the registry stays well keyed (`Valid`). |
| Uploads.UploadRegistry.StopUploadedFileCleanup | src/main/java/com/aoapps/web/framework/WebSiteRequest.java:338-346 | Afterwards no cleanup task runs. The registry and directory are unchanged. |
| Uploads.UploadRegistry.CleanupCycle | src/main/java/com/aoapps/web/framework/WebSiteRequest.java:245-250 | A task sweeps only while it is the running task; once stopped or replaced, it changes nothing. |
| Uploads.UploadRegistry.GetUploadedFile | src/main/java/com/aoapps/web/framework/WebSiteRequest.java:931-950 | Returns `Lookup` of the registry; it never modifies the registry. |
| Uploads.Lookup | src/main/java/com/aoapps/web/framework/WebSiteRequest.java:931-950 | The specification of the lookup: the stored record when the id holds a committed record whose owner is the requester. A placeholder, an unknown id, another owner or no requester give none. `UploadLifecycle` states its consequences. |
| Uploads.UploadRegistry.Sweep | src/main/java/com/aoapps/web/framework/WebSiteRequest.java:250-311 | The new registry is `SweptEntries` of the old one. The new directory is `SweptDirectory`: pass 1 then, if the listing succeeds, pass 2. |
| Uploads.UploadRegistry.ExpireEntries | src/main/java/com/aoapps/web/framework/WebSiteRequest.java:251-276 | Pass 1 (iterator with remove) keeps exactly the records that survive. It deletes the existing files of expired records, except those whose deletion fails. |
| Uploads.UploadRegistry.DeleteOrphans | src/main/java/com/aoapps/web/framework/WebSiteRequest.java:277-310 | Pass 2 deletes the listed files outside the ±2 h window that no record refers to, except undeletable ones. The registry is untouched. |
| Uploads.UploadRegistry.IsReferenced | src/main/java/com/aoapps/web/framework/WebSiteRequest.java:286-293 | The inner search finds a file iff some record's storage file is that file. |
| Uploads.SweptEntries | src/main/java/com/aoapps/web/framework/WebSiteRequest.java:251-276 | No placeholder remains. Records aged in [0, 1 h) are kept unchanged. Records aged negative or ≥ 1 h are removed, whether or not their file could be deleted. |
| Uploads.Expired | src/main/java/com/aoapps/web/framework/WebSiteRequest.java:259-260 | A record is expired when its age is negative or at least one hour. |
| Uploads.OutsideFileWindow | src/main/java/com/aoapps/web/framework/WebSiteRequest.java:283-287 | A file may be an orphan when its age is below minus two hours or above two hours. |
| Uploads.LiveFiles | src/main/java/com/aoapps/web/framework/WebSiteRequest.java:289-296 | The storage files the records refer to: the set the inner search of pass 2 scans. `IsReferenced` is proved to answer membership in it. |
| Uploads.Orphans | src/main/java/com/aoapps/web/framework/WebSiteRequest.java:281-297 | Pass 2's candidates: the listed files outside the two-hour window that no record refers to. `DeleteOrphans` is proved to delete exactly the deletable ones. |
| Uploads.SweptDirectory | src/main/java/com/aoapps/web/framework/WebSiteRequest.java:250-311 | The directory after a sweep: the deletable files of expired records go, then, when the directory can be listed, the deletable files outside the window that no surviving record references. `Sweep` is proved to produce it, and `SweepDeletesExpiredFile`, `SweepKeepsLiveFiles`, `SweepDeletesOnlyStale` and `SweepIdempotent` characterise it. |
| Uploads.Deleted | src/main/java/com/aoapps/web/framework/WebSiteRequest.java:262-271 | A file is gone iff it was named and its deletion does not fail. Survivors keep their times. |
| Uploads.SweepDeletesExpiredFile | src/main/java/com/aoapps/web/framework/WebSiteRequest.java:259-274 | After a sweep, the file of an expired record is gone unless its deletion fails. |
| Uploads.SweepKeepsLiveFiles | src/main/java/com/aoapps/web/framework/WebSiteRequest.java:277-310 | For a well-keyed registry, where every record is stored under the identifier naming its file, the file of a record that survives pass 1 is never deleted by either pass and keeps its time. Every valid registry is well keyed: `UploadRegistry.Valid` includes it, `AddUploadedFile` demands it of the new record, and `Sweep` keeps it (`SweptWellKeyed`). |
| Uploads.SweepDeletesOnlyStale | src/main/java/com/aoapps/web/framework/WebSiteRequest.java:250-311 | A deleted file was deletable, and either belonged to an expired record or was listed, outside the window and referenced by no surviving record. |
| Uploads.SweepIdempotent | src/main/java/com/aoapps/web/framework/WebSiteRequest.java:250-311 | A second sweep at the same time changes neither the registry nor the directory. |
| Uploads.UploadLifecycle | src/main/java/com/aoapps/web/framework/WebSiteRequest.java:236-311 | A committed record is found by its owner only. A sweep within the hour keeps the record and its file; a sweep an hour or more later forgets the record and deletes the file. |
| WebSiteRequests.NewUploadFile | src/main/java/com/aoapps/web/framework/WebSiteRequest.java:405-412 | Reserves identifiers until one names no file. The result is fresh and reserved. Every identifier reserved on the way stays reserved, and the directory is unchanged. |
| WebSiteRequests.IngestPart | src/main/java/com/aoapps/web/framework/WebSiteRequest.java:403-424 | One part gets a record iff its write succeeds. The record has a fresh identifier, its own new file written now, the user as owner, and the content type looked up by the part's field name. |
| WebSiteRequests.WebSiteRequest.IngestUploads | src/main/java/com/aoapps/web/framework/WebSiteRequest.java:386-440 | The outcome follows the policy. With no multipart type, no user, a failed login or no directory, the registry (entries, directory, cleanup task, identifiers drawn) and the MIME cache are unchanged and no upload list exists. Otherwise the upload list holds one committed record per written part, in part order, each with its own new file. Nothing earlier is lost. Nothing else is added: every other new identifier is a placeholder, and the only new files are those of the listed records (`AddsOnly`). No listed record's file existed before ingestion. Once a record is committed the cleanup task runs; a task already running is kept, and with no record committed the task is as before (`CleanupAfter`). |
| WebSiteRequests.WebSiteRequest.IngestParts | src/main/java/com/aoapps/web/framework/WebSiteRequest.java:400-425 | The loop commits the parts before the first unwritable one, each under a distinct new identifier, with no rollback. It fails at that part if there is one. Each record is stored in a file that did not exist before. Besides the listed records and their files, it adds only placeholders. The cleanup task runs once a record is committed, and a running task is not replaced. |
| WebSiteRequests.IsFormData | src/main/java/com/aoapps/web/framework/WebSiteRequest.java:386-391 | The multipart test: a content-type header at least as long as "multipart/form-data" whose prefix of that length equals it ignoring the case of ASCII letters. `IngestUploads` is proved to take the `NotMultipart` outcome exactly when it fails. |
| WebSiteRequests.Describes | src/main/java/com/aoapps/web/framework/WebSiteRequest.java:417-422 | What the record of a part holds: the submitted file name, the file its identifier names, the logged-in user, the content type looked up by the part's field name, and the ingestion time. `IngestPart` is proved to build such a record. |
| WebSiteRequests.IngestionOutcome | src/main/java/com/aoapps/web/framework/WebSiteRequest.java:386-440 | How the constructor ends: not multipart, discarded for lack of a user, directory failure, write failure at the first unwritable part, or every part ingested. `IngestUploads` is proved to reach it, and `KeepFilesPolicy` states its consequences. |
| WebSiteRequests.KeepFilesPolicy | src/main/java/com/aoapps/web/framework/WebSiteRequest.java:393-436 | For a multipart submission, the parts are deleted iff there is no user or no directory. Otherwise the committed count is the number of parts before the first failed write. Full success iff all parts are written. |
| WebSiteRequests.FirstUnwritable | src/main/java/com/aoapps/web/framework/WebSiteRequest.java:403-413 | All parts before the result are writable and the part at it is not. |
| WebSiteRequests.WebSiteRequest.GetUploadedFiles | src/main/java/com/aoapps/web/framework/WebSiteRequest.java:914-919 | The corrected getter: the request's uploads, or none. |
| WebSiteRequests.UploadedFilesAsWritten | src/main/java/com/aoapps/web/framework/WebSiteRequest.java:914-919 | The getter as written: it raises exactly when the request has no upload list. Its behaviour is stated by `ListingAfterIngestion` and `PlainRequestListing`. |
| WebSiteRequests.ListingAfterIngestion | src/main/java/com/aoapps/web/framework/WebSiteRequest.java:386-440 | For a request that is not multipart, or whose submitter is not logged in, the getter as written raises where the corrected one yields the empty list. After an ingestion the two agree. These are the only outcomes a constructed request can have, because a directory or write failure ends construction with a `ServletException`. |
| WebSiteRequests.PlainRequestListing | src/main/java/com/aoapps/web/framework/WebSiteRequest.java:914-919 | For a request without a content type, the getter as written raises and the corrected one yields []. |
| WebSiteRequests.WebSiteRequest.IsLynx | src/main/java/com/aoapps/web/framework/WebSiteRequest.java:863-870 | The memoised answer is whether the lower-cased agent contains "lynx". Other memo fields are unchanged. |
| WebSiteRequests.WebSiteRequest.IsBlackBerry | src/main/java/com/aoapps/web/framework/WebSiteRequest.java:875-882 | The memoised answer is whether the agent starts with "BlackBerry", case-sensitively. |
| WebSiteRequests.WebSiteRequest.IsLinux | src/main/java/com/aoapps/web/framework/WebSiteRequest.java:887-894 | The memoised answer is true for a missing agent or one containing "linux" in any case. |
| UserAgents.IsLynxAgent | src/main/java/com/aoapps/web/framework/WebSiteRequest.java:866 | The Lynx test: a header is present and its lower-cased text contains "lynx". Characterised by `LynxAnyCase`. |
| UserAgents.IsBlackBerryAgent | src/main/java/com/aoapps/web/framework/WebSiteRequest.java:878 | The BlackBerry test: a header is present and starts with "BlackBerry", case included. `BlackBerryCaseSensitive` shows the asymmetry with Lynx. |
| UserAgents.IsLinuxAgent | src/main/java/com/aoapps/web/framework/WebSiteRequest.java:890 | The Linux test: no header, or a lower-cased header containing "linux". Characterised by `LinuxAnyCase`. |
| UserAgents.LynxAnyCase | src/main/java/com/aoapps/web/framework/WebSiteRequest.java:866 | An agent is Lynx iff some window of it lower-cases to "lynx". |
| UserAgents.LinuxAnyCase | src/main/java/com/aoapps/web/framework/WebSiteRequest.java:890 | A present agent is Linux iff some window of it lower-cases to "linux". |
| UserAgents.BlackBerryCaseSensitive | src/main/java/com/aoapps/web/framework/WebSiteRequest.java:866-878 | "LYNX" is a Lynx agent, while "blackberry" is not a BlackBerry agent. |
| JavaStrings.ContainsLowered | src/main/java/com/aoapps/web/framework/WebSiteRequest.java:866 | Lower-casing and then searching finds t iff some window of s lower-cases to t. |
| UrlParams.AppendEncodedParam | src/main/java/com/aoapps/web/framework/WebSiteRequest.java:449-457 | Appends '?' or '&' by hasQuery, the name, and "=value" only when there is a value. Returns true. |
| UrlParams.AppendParam | src/main/java/com/aoapps/web/framework/WebSiteRequest.java:465-471 | Appends the separator, the encoded name, '=' and the encoded value. Returns true. |
| UrlParams.AppendNewParam | src/main/java/com/aoapps/web/framework/WebSiteRequest.java:482-487 | A name not yet seen is recorded and appended, and the result is true. A seen name changes nothing and returns hasQuery. |
| UrlParams.AppendParams | src/main/java/com/aoapps/web/framework/WebSiteRequest.java:495-506 | Appends, in order, the first occurrence of each name not yet seen. All names become seen. The result is hasQuery, or whether anything was appended. |
| UrlParams.FirstUnseen | src/main/java/com/aoapps/web/framework/WebSiteRequest.java:497-503 | The pairs `appendParams` writes: the first pair of each name not yet finished, in list order. `FirstUnseenFirstOccurrences` and `FirstUnseenNames` characterise it. |
| UrlParams.Rendered | src/main/java/com/aoapps/web/framework/WebSiteRequest.java:465-471 | The text successive `appendParam` calls add: each pair with '?' before the first when no query has started and '&' otherwise. `AppendParams` is proved to append it, and `SuccessiveAppendParams` relates two calls to one. |
| UrlParams.FirstUnseenFirstOccurrences | src/main/java/com/aoapps/web/framework/WebSiteRequest.java:498-503 | Every appended pair is the first occurrence of a name not yet seen, and no name is appended twice. |
| UrlParams.FirstUnseenNames | src/main/java/com/aoapps/web/framework/WebSiteRequest.java:498-503 | The converse: every name of the list not yet seen is appended. With the row above, what is appended is exactly the first occurrence of each unseen name. |
| UrlParams.SuccessiveAppendParams | src/main/java/com/aoapps/web/framework/WebSiteRequest.java:495-506 | Two calls sharing the seen names write what one call over both lists writes, so the first value per name wins across calls. |
| ClassUrls.SplitClassUrl | src/main/java/com/aoapps/web/framework/WebSiteRequest.java:579-604 | The class name holds no '?' or '#', and the parameters hold no '#'. Joining the parts with their separators gives the input back. |
| ClassUrls.SplitJoined | src/main/java/com/aoapps/web/framework/WebSiteRequest.java:579-604 | Splitting well-formed joined parts returns the same parts. |
| ClassUrls.ParamsArgument | src/main/java/com/aoapps/web/framework/WebSiteRequest.java:607 | Parameters are passed on iff present and non-empty; the round trip through `SplitJoined` and the corrected URL in `UrlForStringKeepsFragment` use it. |
| ClassUrls.UrlForClassAsWritten | src/main/java/com/aoapps/web/framework/WebSiteRequest.java:514-525 | The three-argument form as written: the class's page URL with its parameters, then the fragment text with nothing before it. A class that does not load is the caught `ClassNotFoundException` (`ClassNotFound`). A class that loads but is not a page is the `ClassCastException` from `asSubclass` (:516), which is not caught (`NotAPage`). |
| ClassUrls.UrlForStringAsWritten | src/main/java/com/aoapps/web/framework/WebSiteRequest.java:579-610 | The one-argument form as written: `SplitClassUrl`, then the three-argument form as written. |
| ClassUrls.UrlForClass | src/main/java/com/aoapps/web/framework/WebSiteRequest.java:514-525 | The corrected three-argument form: the fragment is appended after a '#'. The two failures are as in the as-written form. |
| ClassUrls.UrlForString | src/main/java/com/aoapps/web/framework/WebSiteRequest.java:579-610 | The corrected one-argument form, used by `UrlForStringKeepsFragment`. |
| ClassUrls.FragmentLostAsWritten | src/main/java/com/aoapps/web/framework/WebSiteRequest.java:514-525 | As written, "Foo#top" yields Foo's URL followed by "top": the '#' is lost. The corrected form yields "#top". |
| ClassUrls.UrlForStringKeepsFragment | src/main/java/com/aoapps/web/framework/WebSiteRequest.java:579-610 | Corrected: the result is `ClassNotFound` iff the class cannot be loaded, and `NotAPage` iff it loads but is not a page. Otherwise it is the page URL with the non-empty parameters, followed by the input's fragment including its '#'. |
| CacheKeys.Layout | src/com/aoindustries/website/framework/WebSiteRequestCacheKey.java:24-26 | The session layout when set. Otherwise "Text" iff Lynx or BlackBerry, and "Default" iff neither. |
| CacheKeys.AgentLayout | src/com/aoindustries/website/framework/WebSiteRequestCacheKey.java:20-30 | With no session layout, an agent gets "Text" iff it is Lynx or BlackBerry, and a missing agent gets "Default". |
| WebSiteRequests.WebSiteRequest.CacheKeyFor | src/com/aoindustries/website/framework/WebSiteRequestCacheKey.java:20-30 | The key built from the request. The BlackBerry test is evaluated, and memoised, only when there is no session layout and the agent is not Lynx. |
| CacheKeys.Equals | src/com/aoindustries/website/framework/WebSiteRequestCacheKey.java:42-55 | True iff the argument is a cache key with the same two fields. False for null and for other classes. |
| CacheKeys.EqualsEquivalence | src/com/aoindustries/website/framework/WebSiteRequestCacheKey.java:48-51 | equals is reflexive, symmetric and transitive. |
| CacheKeys.HashCode | src/com/aoindustries/website/framework/WebSiteRequestCacheKey.java:32-40 | The layout's hash, negated in 32-bit arithmetic for search engines. The int minimum is its own negation. |
| CacheKeys.EqualKeysEqualHash | src/com/aoindustries/website/framework/WebSiteRequestCacheKey.java:32-55 | Keys that are equal have equal hash codes. |
| CacheKeys.SearchEngineFlipsHash | src/com/aoindustries/website/framework/WebSiteRequestCacheKey.java:35-36 | The two keys of a layout hash to opposite values. They collide only when the layout's hash is 0 or the int minimum. |
| CacheKeys.NewCacheKey | src/com/aoindustries/website/framework/WebSiteRequestCacheKey.java:20-30 | The key the constructor builds: the search-engine flag and `Layout` of the session layout and the Lynx and BlackBerry answers. Its properties are stated by `Layout` and `AgentLayout`. |
| JavaStrings.Words | src/main/java/com/aoapps/web/framework/WebSiteRequest.java:197 | No word is empty and no word contains whitespace. That the words are the maximal runs of non-whitespace characters of the line, in order, is the definition itself; `ParseMimeTypes` and `MimeTableKeys` rely on it. |
| JavaStrings.StringHash | src/com/aoindustries/website/framework/WebSiteRequestCacheKey.java:35-36 | `String.hashCode` as h = 31·h + c over the characters, reduced to a Java int after each step. `TextHash` and `DefaultHash` evaluate it. |
| CacheKeys.TextHash | src/com/aoindustries/website/framework/WebSiteRequestCacheKey.java:35-36 | The hash of "Text" is 2603341. |
| CacheKeys.DefaultHash | src/com/aoindustries/website/framework/WebSiteRequestCacheKey.java:35-36 | The hash of "Default" is -1085510111, after int wrap-around. |
| CacheKeys.DefaultKeysHashApart | src/com/aoindustries/website/framework/WebSiteRequestCacheKey.java:32-40 | The four keys a request without a session layout can get have pairwise distinct hash codes. |

## Left out

- Threads, `sleep`, interrupts and the `synchronized` blocks (WebSiteRequest.java:241-333). Each locked section is one atomic method, and the running cleanup thread is the field `cleanup` with a start counter. `CleanupCycle` stands for one wake-up of the loop; the sleeping, the retry after an error, and shutdown are not modelled.
- Real I/O. Writing a part, `File.exists`, `Files.delete`, `mkdirs`, `dir.list()` and reading the `mime.types` resource are modelled by maps, flags and the given resource lines, as described above. Logging is dropped.
- `part.delete()` is dropped. It runs only when no user is logged in or the upload directory cannot be prepared, and then no record or file was added. After a failed write, `keepFiles` is already true: the parts are not deleted, and the records committed before the failure stay in the registry. `Committed` and `AddsOnly` state this for `WriteFailed`.
- `req.getParts()` throwing, and any exception other than the directory and write failures modelled by `Ingestion`.
- A sweep uses one `now` for every record and file, where the source reads the clock for each.
- Java `long` arithmetic on times is not bounded: times are unbounded integers.
- `SecureRandom` is a function parameter required never to repeat an identifier, which is what makes the draw loops terminate. The source gives no such guarantee, only a negligible chance of repetition.
- `UploadedFile.java` is not part of this model. A record's identifier is taken to be the identifier naming its storage file, and its last-access time is the time of ingestion.
- `Identifier` is its text. `String.valueOf(id)` is `id.text`, so distinct identifiers name distinct files.
- `URIEncoder`, `URIParametersMap` and the page-URL builder `getUrl` are function parameters. Parameters given as a string are passed on unparsed. `appendParams` takes the parameters as a list of names each with its first value.
- `URIParser.getPathEnd` is modelled as the first '?' or '#'.
- Lower-casing is ASCII only: `toLowerCase(Locale.ROOT)` on non-ASCII letters is not modelled.
- WebSiteRequests.IsFormData: the multipart test uses `equalsIgnoreCase` (WebSiteRequest.java:390), which also matches characters whose upper- or lower-case forms agree outside ASCII. So Java takes "multıpart/form-data", with a dotless ı (U+0131, upper case 'I'), as multipart; the model compares ASCII letters only and does not.
- MimeTypes.ContentTypeFor: the extension is lower-cased with the default locale (WebSiteRequest.java:210), which the model takes to behave like `Locale.ROOT`. Under a Turkish default locale "GIF" lower-cases to "gıf" (dotless i), so the source misses the "gif" entry, and the model does not capture this.
- JavaStrings.Words: `Strings.split` is not part of this model. It is taken to split at the six ASCII whitespace characters and to drop empty words. Java's `Character.isWhitespace` also accepts the separators U+001C to U+001F and the Unicode space separators other than no-break spaces, and the model does not split at these.
- JavaStrings.StringHash: it hashes the Unicode scalar values of a Dafny string. Java's `String.hashCode` hashes UTF-16 code units, so a character outside the Basic Multilingual Plane (a surrogate pair in Java) hashes differently. The layouts "Text" and "Default" are ASCII and unaffected.
- The directory listing order is abstracted to a set: the listed files are visited in an arbitrary order.
- `getWebSiteUser` and session access are inputs: the login outcome and the session's layout attribute. The cast of that attribute to `String` is taken to succeed.
- WebSiteRequests.WebSiteRequest.IngestUploads: this method stands for the constructor body, because a Dafny constructor cannot report the `ServletException` outcome.
- The `Profiler` calls in the cache key, and the `assert` statements in `appendEncodedParam`, which only check that the inputs are already encoded.
- `AutoListPage` and `DescriptionAutoListPage`, which print HTML through the layout API.

## Findings

| source | as written | input that shows it | evidently intended | confidence | as-written member | corrected member |
|---|---|---|---|---|---|---|
| src/main/java/com/aoapps/web/framework/WebSiteRequest.java:514-525,579-610 | The one-argument `getUrlForClass` strips the '#' when it splits off the fragment, and the three-argument form appends the fragment text as it is, so the '#' is lost | "Foo#top" gives Foo's URL followed by "top" | Foo's URL followed by "#top" | medium, not executed | ClassUrls.FragmentLostAsWritten | ClassUrls.UrlForStringKeepsFragment |
| src/main/java/com/aoapps/web/framework/WebSiteRequest.java:914-919 | `getUploadedFiles` builds the empty list without returning it, then wraps the null list, which raises `NullPointerException` | a request without a multipart content type, so no upload list is created | the empty list | high, not executed | WebSiteRequests.PlainRequestListing | WebSiteRequests.WebSiteRequest.GetUploadedFiles |
