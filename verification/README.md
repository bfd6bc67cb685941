# s3sync reconciliation pass, in Dafny

This project models the core of `s3sync`, a tool that keeps a local directory
and an S3 bucket prefix in step. It covers one call of `S3Sync.sync`, which does
the following:

- takes the lock named from the bucket and the prefix as given;
- loads the stored metadata (relative path → `{mtime, synced_at}`);
- enumerates the local files that pass the extension filter;
- decides for every path whether to upload, download or do nothing;
- issues those transfers;
- saves the rewritten metadata.

It also models the two pure helpers the pass relies on (`should_sync_file`,
`get_local_files`) and the precedence rule `Config.merge_config`.

Modules, one per concern:

- `PyDict` (pydict.dfy): Python dicts as a map plus the insertion order of its
  keys. The order matters because the sync loops iterate dicts.
- `Naming` (naming.dfy): the object key `<prefix without trailing '/'>/<rel>`
  and the lock file name `<dir>/<bucket>_<prefix with '/' as '_'>.lock`.
- `FileFilter` (filter.dfy): `os.path.splitext`, ASCII `lower()`,
  `should_sync_file`, the caller's normalisation of the extension list, and
  `get_local_files` over an abstract walk.
- `Config` (config.dfy): Python truthiness, `or`, `dict.get`, and
  `merge_config`.
- `Reconcile` (reconcile.dfy): the decision.
  - `Decide` is written the way the code runs. A first loop over the local
    files compares mtimes and rewrites the entries of uploaded paths. A second
    loop over the *updated* metadata keys downloads every path with no local
    file.
  - `Decide` is proved equal to an independent per-path reference. `VerdictOf`
    is the case table. `Schedule` is the visiting order: local paths, then
    metadata-only paths. `NewEntry` is the entry each path ends up with.
  - All the listed properties are derived from that reference.
- `SyncPass` (sync.dfy): the pass as a trace of events:
  `Acquire(ok)`, `Load`, `Transfer(action, raised)`, `Save(meta)`, `Release`.
  - The lock result, the loaded metadata, the directory walk, the time and an
    oracle saying which transfers raise are all parameters.
  - The source decides and transfers inside the same two loops. `Sync`
    instead computes the plan with `Decide` first and then issues the transfers
    until one raises. This gives the same trace: no decision reads a transfer's
    outcome, and the metadata is saved only when every transfer went through.

Three behaviours of the code are easy to misread; the model follows the code:

- **Transfer failures are not isolated per file.** The progress display counts
  failed files (s3sync/cli.py:91-93, 110), as if a failing transfer were
  recorded and the pass went on. `sync` has no per-file `try`. The first
  transfer that raises leaves the loop, `save` is skipped, and only the
  `finally` runs to release the lock. `SyncPass.Sync` models this.
- **Deciding again is not a no-op.** Downloads do not touch the metadata
  (s3sync/core.py:80-81, 89-93). `Reconcile.ReplayIssuesNoUploads` states what
  holds when the decision is made again on the same local snapshot with the
  saved metadata: no uploads, and exactly the earlier downloads in the same
  order. A real second pass differs, because a download writes the file
  locally and the next walk lists it. That path then goes through the mtime
  comparison of s3sync/core.py:71-81 against its old recorded entry, and may
  be uploaded, downloaded or skipped depending on the mtime the download left.
  Only a path the walk never lists, such as one whose extension the filter
  rejects (s3sync/utils.py:21), is downloaded again on every pass.
- **`blacklist` can be missing from the merged settings.** `merge_config` reads
  `file.get('blacklist', False)`, which yields None when the file sets the key
  to null. The key is then dropped (`Config.BlacklistPresence`).

## Model

| member | source | states |
|---|---|---|
| Naming.RStripSlash | s3sync/core.py:30 | the stripped prefix is a prefix of the input that does not end in '/', and everything removed is '/' |
| Naming.RStripSlashShape | s3sync/core.py:30 | the input is the stripped prefix followed by slashes; stripping is idempotent; a trailing '/' does not change the result |
| Naming.RemoteKeyInjective | s3sync/core.py:69 | under one prefix, two relative paths get the same key iff they are equal; every key starts with the stripped prefix and '/' |
| Naming.SameKeysIff | s3sync/core.py:69 | two prefixes give the same keys iff they agree after removing trailing slashes |
| Naming.SameLockFileIff | s3sync/core.py:54 | two prefixes share a lock file iff they have the same length and differ only by swapping '/' and '_' |
| Naming.LockAndKeyDisagree | s3sync/core.py:54 | "p" and "p/" write the same objects under different locks; "a/b" and "a_b" write different objects under one lock |
| Naming.SameTargetSameLock | s3sync/core.py:54 | with the lock named from the stripped prefix, any two prefixes that write the same objects share a lock |
| FileFilter.SplitExtSpec | s3sync/utils.py:11 | splitext loses no characters; its extension is either empty or the unique suffix meeting the reference definition (a '.' followed by no '.' or '/', with a non-dot character before it in the last component) |
| FileFilter.SplitExtSound | s3sync/utils.py:11 | a non-empty splitext extension meets the reference definition, and root + ext is the input |
| FileFilter.SplitExtComplete | s3sync/utils.py:11 | any suffix meeting the reference definition is exactly what splitext returns |
| FileFilter.NoExtension | s3sync/utils.py:11 | a name with no qualifying dot has the extension "" |
| FileFilter.Lower | s3sync/utils.py:11 | lower-casing keeps the length, sends each of 'A'-'Z' to the matching letter of 'a'-'z', keeps every other character, and leaves no upper-case letter |
| FileFilter.LowerSameIff | s3sync/utils.py:11 | two strings lower-case alike iff they have the same length and agree position by position up to ASCII case |
| FileFilter.EmptySetAdmitsAll | s3sync/utils.py:8-9 | an empty extension set admits every name in both modes |
| FileFilter.FilterByExtension | s3sync/utils.py:11-14 | for a name with extension e: the whitelist admits it iff lower(e) is listed, the blacklist iff it is not |
| FileFilter.FilterWithoutExtension | s3sync/utils.py:11-14 | a name without an extension is filtered as if its extension were "" |
| FileFilter.ModesAreComplements | s3sync/utils.py:12-14 | for a non-empty set, blacklist and whitelist verdicts are opposite |
| FileFilter.UpperCaseEntriesNeverMatch | s3sync/utils.py:11-14 | set entries containing an upper-case letter never match, so a set of only such entries admits nothing as a whitelist and everything as a blacklist |
| FileFilter.NormalizeExtensions | s3sync/core.py:31 | the normalised set has no upper-case letters, is empty for no list, and holds exactly the lower-cased list items |
| FileFilter.NormalizedWhitelistIgnoresCase | s3sync/core.py:31 | after normalisation, an extension matching a configured one up to case is admitted by the whitelist and rejected by the blacklist |
| FileFilter.LocalFiles | s3sync/utils.py:16-25 | the enumeration is a well-formed dict: no duplicate keys, and its order lists exactly its keys |
| FileFilter.LocalFilesOrder | s3sync/utils.py:19-24 | the dict's key order, which the first loop of `sync` visits, is the order in which the walk first reports each admitted path; a path reported again keeps its first place |
| FileFilter.FirstForIff | s3sync/utils.py:19-24 | a walked entry is the first admitted report of its path iff it is admitted and the dict built from the entries before it lacks its path |
| FileFilter.LocalFilesKeys | s3sync/utils.py:19-23 | a relative path is a key iff the walk reports a file under it whose base name passes the filter |
| FileFilter.LocalFilesValues | s3sync/utils.py:22-24 | the value under a walked file's relative path is that file's mtime (the last one, if the walk repeats a path) |
| Config.MergeConfig | s3sync/config.py:27-39 | keys are among the six fields; no value is None; a truthy CLI value wins; otherwise the file's value is used (under "endpoint-url" for the endpoint, defaulting to False for blacklist) |
| Config.AbsentFromBoth | s3sync/config.py:30-39 | a field other than blacklist that neither side supplies is absent |
| Config.EndpointUrlNeedsHyphen | s3sync/config.py:32 | the file's "endpoint_url" spelling is never read |
| Config.BlacklistPresence | s3sync/config.py:35-39 | blacklist is absent iff the CLI flag is falsy and the file sets it to None; when neither side mentions it, it is False |
| Config.BlacklistCannotBeDisabled | s3sync/config.py:35 | a truthy file blacklist stays truthy whatever the CLI says |
| Config.FalsyFileValueKept | s3sync/config.py:30-39 | a falsy but non-None file value (an empty bucket) survives the merge |
| Reconcile.Decide | s3sync/core.py:68-96 | the two loops yield a well-formed dict; the transfers are the reference verdicts laid out along the reference schedule; no key is dropped (keys = loaded ∪ local); new paths are appended in enumeration order; every entry is the path's reference entry |
| Reconcile.TwoPassesActions | s3sync/core.py:68-93 | the transfers both loops issue equal the reference verdicts along the schedule |
| Reconcile.RemotePassAfterLocal | s3sync/core.py:89-93 | the second loop, run over the updated metadata, downloads exactly the loaded paths with no local file, in metadata order |
| Reconcile.TwoPassesMeta | s3sync/core.py:68-87 | the metadata after both loops is well formed, has keys loaded ∪ local, appends new paths in order, and holds each path's reference entry |
| Reconcile.LocalPassShape | s3sync/core.py:68-87 | after the first loop the dict is well formed, holds loaded ∪ local keys, and lists new paths after the loaded ones |
| Reconcile.LocalPassNewEntries | s3sync/core.py:71-87 | after the first loop every entry is the path's reference entry |
| Reconcile.LocalPassActions | s3sync/core.py:68-87 | the first loop issues the reference verdicts of the local paths in enumeration order |
| Reconcile.LocalPassOrder | s3sync/core.py:82-87 | the first loop appends exactly the new local paths, in enumeration order |
| Reconcile.LocalPassKeys | s3sync/core.py:68-87 | the first loop adds exactly the local paths to the keys |
| Reconcile.LocalPassEntries | s3sync/core.py:71-87 | the first loop gives each local path its reference entry and leaves every other entry alone |
| Reconcile.RemotePassAppend | s3sync/core.py:90-93 | the second loop over a concatenation is the concatenation of the loops |
| Reconcile.RemotePassOfLocal | s3sync/core.py:90-93 | the second loop issues nothing for local paths |
| Reconcile.RemotePassIsExpand | s3sync/core.py:90-93 | over loaded paths, the second loop issues the reference verdicts of the metadata-only paths |
| Reconcile.ScheduleCovers | s3sync/core.py:68-93 | the visiting order lists every path of local ∪ metadata exactly once |
| Reconcile.DecideFollowsVerdicts | s3sync/core.py:68-93 | an action is issued iff its path is in the union, its kind is that path's verdict, and its key is the prefix key of the path |
| Reconcile.DecideFollowsSchedule | s3sync/core.py:68-93 | transfers are issued in schedule order: local enumeration order, then metadata order |
| Reconcile.AtMostOneTransferPerPath | s3sync/core.py:68-93 | no path gets two transfers; a path uploaded in the first loop is not downloaded in the second |
| Reconcile.LocalTransfersFirst | s3sync/core.py:68-93 | transfers of local paths precede all others, and those others are all downloads |
| Reconcile.NewerLocalIsUploaded | s3sync/core.py:71-79 | local newer than recorded: uploaded (and not downloaded), and the entry takes the local mtime and the pass time |
| Reconcile.OlderLocalIsDownloaded | s3sync/core.py:80-81 | local older than recorded: downloaded (and not uploaded), and the entry is unchanged |
| Reconcile.EqualMtimeIsSkipped | s3sync/core.py:71-81 | equal mtimes: no transfer for the path, and the entry is unchanged |
| Reconcile.LocalOnlyIsUploaded | s3sync/core.py:82-87 | a local file without an entry is uploaded whatever its mtime, and gets an entry with its mtime |
| Reconcile.MetaOnlyIsDownloaded | s3sync/core.py:89-93 | an entry without a local file is downloaded whatever its mtime, and the entry is kept |
| Reconcile.ReplayIssuesNoUploads | s3sync/core.py:74-87 | deciding again on the same snapshot with the saved metadata issues exactly the earlier downloads, in order, and no upload |
| Reconcile.ReplayKeepsMetadata | s3sync/core.py:74-96 | that second decision leaves the saved metadata as it is |
| Reconcile.WorkedPass | s3sync/core.py:68-96 | a, b local with mtimes 100, 50 and entries a:100, c:10: b uploaded, c downloaded, a skipped; b appended with mtime 50 and the pass time |
| SyncPass.FirstRaise | s3sync/core.py:68-93 | None iff no action raises; otherwise a raising action of the plan with no raising action before it |
| SyncPass.Attempts | s3sync/core.py:68-93 | the transfers attempted are the plan's, in order, each marked by whether it raised, stopping right after the first that raises |
| SyncPass.AttemptsEndAtFirstRaise | s3sync/core.py:68-93 | the attempts end exactly at the action FirstRaise reports, and cover the whole plan when nothing raises |
| SyncPass.Execute | s3sync/core.py:68-93 | the loop's transfers that went through, then the raising one if any, are exactly the attempts; the one that raised is the first raising action |
| SyncPass.Carry | s3sync/core.py:62-99 | once the lock is held the run is: load, the attempts, a save of the planned metadata only if nothing raised, release |
| SyncPass.Sync | s3sync/core.py:56-99 | a busy lock yields only the failed acquire; otherwise the run is as above for the plan decided on the loaded metadata and the filtered walk |
| SyncPass.ReleaseLast | s3sync/core.py:58-99 | a held lock is released exactly once, as the last event, after acquire and load |
| SyncPass.SaveOnlyWhenSynced | s3sync/core.py:95-96 | a save happens only in a pass where nothing raised; it saves the planned metadata, just before the release |
| SyncPass.SyncedTransfersAll | s3sync/core.py:62-96 | a completed pass went through every planned transfer in order, then saved |
| SyncPass.AbortedAttempts | s3sync/core.py:68-93 | when something raises, the attempts end with a raising transfer of the first raising action, and every earlier attempt went through |
| SyncPass.AbortedAtFirstRaise | s3sync/core.py:62-99 | an aborted pass names the first raising transfer; every earlier transfer went through, and nothing after it was attempted or saved |

## Findings

| source | as written | input that shows it | evidently intended | confidence | as-written member | corrected member |
|---|---|---|---|---|---|---|
| s3sync/core.py:54 | the lock file is named from the prefix as given, while object keys use the prefix with trailing slashes removed (line 30) | prefixes "p" and "p/": both write `p/<rel>`, but lock on `<bucket>_p.lock` and `<bucket>_p_.lock`, so two passes can run on one target at once | any two passes that write the same objects contend for one lock; naming it from the stripped prefix does this | medium, not executed | Naming.LockAndKeyDisagree | Naming.SameTargetSameLock |

## Left out

- Transfers (`_upload_file`, `_download_file`, boto3; s3sync/core.py:35-46, 101-112): an action records only kind, path and key. Whether it raises is the `raises` parameter.
- The metadata store: s3sync/metadata.py is not part of this model. `load` is the `loaded` parameter and `save` is an event. Its missing-object and corrupt-object handling, and where it keys the object, are not modelled.
- The lock (s3sync/lock.py): `acquire()` is the `acquired` parameter and `release()` is an event. Cross-process exclusion is not modelled.
- Failures other than a transfer raising (`load`, the directory walk, `save`) are not modelled.
- `os.walk`, `os.path.relpath`, `os.path.getmtime`: the walk is a list of (directory relative to the root, base name, mtime). The relative path is `dir/name`, or `name` at the root. Path normalisation and symlinks are not modelled.
- mtimes are integers. Python floats (including NaN, where every comparison is false) are not modelled.
- `time.time()`: one `now` per pass, so every entry rewritten in a pass gets the same `synced_at`.
- FileFilter.Lower: lower-cases ASCII letters only, where Python's `str.lower()` covers all of Unicode.
- Config.MergeConfig: values are None, booleans, integers, strings and lists. Floats and nested mappings are not modelled.
- `Config.load_config` (YAML file reading), the command-line front ends (cli.py, s3sync/cli.py), credential lookup and logging are not modelled.
- Dry-run counts and the progress callback: nothing in s3sync/core.py provides them.
- Per-file failure isolation, which the progress display's failure count suggests: the code does not implement it (see above).
- Lock file naming: the lock directory (`~/.s3sync`) is a parameter. Creating it is not modelled.
