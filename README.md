# globus_transfer: change detection, delete bookkeeping and empty-directory pruning

This project models the scripts that keep a destination Globus endpoint in sync
with a source directory and then clean the source up.

- **Change-detecting transfer** (`globus_auto/main.py`). It hashes every file
  under the source directory and stores each new or changed hash in a
  path-keyed shelf. It submits a checksum sync of the two directories only when
  some file was new or changed.
- **Transfer script of the delete variant** (`delete/globus_auto/transfer.py`).
  It submits the sync and records, for every listed source file, the task it
  went with. It also appends that task to the list of outstanding tasks.
- **Delete script** (`delete/globus_auto/delete.py`). It forgets files that
  vanished from the source. It deletes the files whose task SUCCEEDED and,
  when it deleted something, keeps only the ACTIVE tasks. Then it deletes the shallowest sub-directories that
  hold no file anywhere below them.
- **Helpers** (`delete/globus_auto/utils.py`):
  - the `Directory` tree and its `set_contains_files` annotation;
  - `list_fileless_directories`;
  - the recursive listings `globus_get_file_structure` and `globus_list_files`;
  - `globus_delete_paths` and `globus_transfer_name`.

Modules:

- `Common` (`common.dfy`): POSIX `os.path.join`, the CODE_PATH guard, the
  "endpoint not ready" e-mail text, the configuration, and the two-key task
  shelf. The shelf is a class whose methods update its fields.
- `Utils` (`utils.dfy`):
  - the remote listing (`Listing`, a tree of entries);
  - `Directory`, a class whose `containsFiles` flag is updated in place;
  - its value `Dir` and the specification functions `FileStructure`,
    `Annotate`, `FilelessDirs` and `ListFiles`;
  - the methods that build, annotate and search the tree;
  - the delete requests, the checksum-sync transfer request and the transfer
    names.
- `UtilsFacts` (`utils_facts.dfy`): what those operations guarantee.
  - The annotation is correct, monotone and idempotent.
  - The fileless search returns exactly the selected directories. Each of them
    holds no file, none lies below another, and every fileless directory is
    covered.
  - The flat file listing and the tree agree.
- `Transfer` (`transfer.dfy`) and `Delete` (`delete.dfy`): one run of each
  script, over a `TaskShelf`.
- `HashSync` (`hash_sync.dfy`): one run of `main()`, over a `HashShelf`.
  - The nested walk loop is proved against fold functions, `WalkStored` and
    `WalkChanged`.
  - It is proved to request a transfer exactly when some walked file is new or
    changed.
  - A second scan of unchanged files changes nothing and requests nothing.

`set_contains_files` keeps a flag that was already set
(`delete/globus_auto/utils.py:46` ORs the children's answer with the node's own
flag), so `Annotate` ORs in the old flag. `UtilsFacts.AnnotateCorrect` shows
that this makes no difference on a tree fresh from the listing.

Remote calls become parameters:

- the listing returned by `operation_ls`, as a `Listing` tree;
- the task status from `get_task`, as a function;
- the task id the service returns;
- the endpoint readiness, as booleans;
- the formatted clock time, as a string;
- the current MD5 of a file, as a function;
- the triples `os.walk` yields, as a sequence.

## Model

| member | source | states |
|---|---|---|
| Common.CheckCodePath | delete/globus_auto/delete.py:26-28 | the run may go on exactly when CODE_PATH is non-empty and ends in "/"; an empty CODE_PATH is its own outcome (the IndexError) |
| Common.NotReadyEmail | delete/globus_auto/delete.py:37-41 | the text is the header naming the action, then one line for the source when it is not ready, then one for the destination; only the header when both are ready |
| Common.TaskShelf.constructor | delete/globus_auto/delete.py:50 | the opened shelf holds the two keys as given, each possibly absent |
| Common.TaskShelf.InitKeys | delete/globus_auto/delete.py:52-60 | a missing key gets an empty dict or list; a present key keeps its value |
| Utils.FileStructure | delete/globus_auto/utils.py:133-149 | the tree built from a listing is rooted at the listed path and has no flag set |
| Utils.SubdirsUpTo | delete/globus_auto/utils.py:143-146 | the sub-directory trees built so far have no flag set |
| Utils.Annotate | delete/globus_auto/utils.py:35-47 | annotation keeps every path, file list and the number of sub-directories |
| Utils.Directory.constructor | delete/globus_auto/utils.py:20-33 | a new directory has the given path, sub-directories and files, and its flag is false |
| Utils.Directory.ClearedValue | delete/globus_auto/utils.py:20-33 | a tree whose flags are all still false has the value of its bare structure |
| Utils.Directory.SetContainsFiles | delete/globus_auto/utils.py:35-47 | the tree's new value is Annotate of its old value, and the result is the new flag of this directory |
| Utils.Directory.AnnotateChild | delete/globus_auto/utils.py:45-46 | after sub-directory i the first i+1 sub-trees are annotated, the rest unchanged, and the flag ORs in the annotated flags seen so far |
| Utils.GetFileStructure | delete/globus_auto/utils.py:133-149 | returns a fresh valid tree whose value is FileStructure of the listing, every flag false |
| Utils.ReadEntries | delete/globus_auto/utils.py:143-148 | the loop over the listing yields the sub-trees and the immediate files of every entry, in listing order |
| Utils.AddEntry | delete/globus_auto/utils.py:144-148 | a directory entry adds a fresh sub-tree, a file entry adds its joined path, any other entry adds nothing |
| Utils.ListFilelessDirectories | delete/globus_auto/utils.py:59-72 | the result is FilelessDirs of the tree's value: unflagged sub-directories are taken, flagged ones are searched, in order |
| Utils.DeletePaths | delete/globus_auto/utils.py:78-91 | nothing is submitted exactly when the list is empty; otherwise one recursive delete on the endpoint with the label and every path in order |
| Utils.DeleteEmptyDirectories | delete/globus_auto/utils.py:49-76 | no request exactly when the search finds nothing; otherwise a recursive delete of exactly EmptyDirectories of the listing |
| Utils.SyncRequest | delete/globus_auto/utils.py:195-210 | the request carries the label and both endpoint ids, asks for checksum sync and encryption, and has one item: the source directory, recursively, onto the destination directory |
| Utils.TransferName | delete/globus_auto/utils.py:212-224 | "ERROR" exactly for a type other than 0 and 1; "AUTO_TRANSFER_" or "AUTO_DELETE_" followed by the time otherwise |
| Utils.ParseTransferName | delete/globus_auto/utils.py:218-224 | a name that parses has type 0 or 1 |
| Utils.TransferNameRoundTrip | delete/globus_auto/utils.py:218-224 | parsing a built name gives back its type and time, so transfer and delete names never collide |
| Utils.ParseTransferNameSound | delete/globus_auto/utils.py:218-224 | every name that parses is the name built from what it parses to |
| Utils.ErrorNameDoesNotParse | delete/globus_auto/utils.py:218-219 | "ERROR" is not the name of any transfer or delete |
| UtilsFacts.AnnotateFlag | delete/globus_auto/utils.py:35-47 | the returned flag is true exactly when a flag was already set in the subtree or the subtree holds a file |
| UtilsFacts.AnnotateHasFiles | delete/globus_auto/utils.py:35-47 | annotation does not change which subtrees hold files |
| UtilsFacts.AnnotateCorrect | delete/globus_auto/utils.py:35-47 | on an unflagged tree every node ends flagged exactly when its subtree holds a file |
| UtilsFacts.AnnotateMonotone | delete/globus_auto/utils.py:43-46 | annotation never clears a flag and changes nothing but flags |
| UtilsFacts.AnnotateIdempotent | delete/globus_auto/utils.py:35-47 | annotating twice equals annotating once |
| UtilsFacts.FilelessDirsSelected | delete/globus_auto/utils.py:59-72 | a path is returned exactly when it is the path of a selected node: an unflagged strict descendant all of whose strict ancestors below the root are flagged |
| UtilsFacts.FilelessUpToFound | delete/globus_auto/utils.py:66-71 | every path collected from the first n sub-directories is a selected node below one of them |
| UtilsFacts.SelectedListed | delete/globus_auto/utils.py:66-71 | every selected node below the first n sub-directories is collected |
| UtilsFacts.SelectedHasNoFiles | delete/globus_auto/utils.py:59-61 | on a correctly annotated tree no selected directory holds a file anywhere below it |
| UtilsFacts.SelectedShallowest | delete/globus_auto/utils.py:59-61 | no selected directory lies below another selected directory |
| UtilsFacts.FilelessComplete | delete/globus_auto/utils.py:59-61 | on a correctly annotated tree every fileless strict descendant is selected or lies below a selected one |
| UtilsFacts.HasFilesIff | delete/globus_auto/utils.py:32 | a subtree holds files exactly when some file path is a file of one of its nodes |
| UtilsFacts.ListFilesListed | delete/globus_auto/utils.py:177-193 | globus_list_files returns exactly the joined path of every file entry and every path it returns for a directory entry, and nothing for entries of other types |
| UtilsFacts.ListFilesUpToListed | delete/globus_auto/utils.py:186-192 | the same holds for the first n entries of a listing |
| UtilsFacts.ListedStep | delete/globus_auto/utils.py:187-192 | one more entry adds to the listing exactly the paths that entry contributes |
| UtilsFacts.ListFilesTree | delete/globus_auto/utils.py:177-193 | a path is listed by globus_list_files exactly when it is a file of the tree globus_get_file_structure builds from the same listing |
| UtilsFacts.ListFilesUpToTree | delete/globus_auto/utils.py:187-192 | the same agreement holds for the first n entries of a listing |
| UtilsFacts.FlatEntryTree | delete/globus_auto/utils.py:189-190 | a file entry or an entry of another type keeps the agreement |
| UtilsFacts.DirEntryTree | delete/globus_auto/utils.py:191-192 | a directory entry keeps the agreement |
| UtilsFacts.TopFlagMeansFiles | delete/globus_auto/utils.py:74 | the flag set_contains_files leaves on the top directory is true exactly when globus_list_files finds a file |
| UtilsFacts.EmptyDirectoriesSelected | delete/globus_auto/utils.py:73-76 | the directories deleted are exactly the selected nodes of the annotated tree |
| UtilsFacts.AnnotatedStructureCorrect | delete/globus_auto/utils.py:73-74 | the annotated tree is correctly annotated, so the soundness, shallowness and completeness lemmas apply to it |
| UtilsFacts.EmptyDirectoriesBelowTop | delete/globus_auto/utils.py:59-76 | when every listed name is non-empty and free of '/', each deleted path has the top directory as a proper prefix, so the top directory itself is never deleted |
| UtilsFacts.FilelessDeeper | delete/globus_auto/utils.py:66-72 | in a tree whose sub-directory paths extend their parent's, every collected path extends the searched directory's path |
| UtilsFacts.StructureDeeper | delete/globus_auto/utils.py:133-149 | with plain names, every sub-directory of the built tree has a path extending its parent's |
| UtilsFacts.SubdirsDeeper | delete/globus_auto/utils.py:143-146 | the sub-trees built from the first n entries have paths extending the top directory's, at every depth |
| UtilsFacts.AnnotateDeeper | delete/globus_auto/utils.py:35-47 | annotation keeps the property that sub-directory paths extend their parent's |
| UtilsFacts.JoinExtends | delete/globus_auto/utils.py:144 | joining a non-empty name without '/' onto a directory gives a path that the directory is a proper prefix of |
| Transfer.RecordTaskIds | delete/globus_auto/transfer.py:68-69 | every listed file maps to the new task; other tracked files keep theirs; no other key appears |
| Transfer.Transfer | delete/globus_auto/transfer.py:23-74 | a bad CODE_PATH or an endpoint that is not ready leaves the shelf untouched, with the message or the e-mail text; otherwise the checksum sync request is submitted, every listed file maps to the new task, other files keep theirs, and the task is appended to the list |
| Delete.RemovePaths | delete/globus_auto/delete.py:67-68 | exactly the given paths are removed; the remaining paths keep their tasks |
| Delete.VanishedPaths | delete/globus_auto/delete.py:63-66 | exactly the tracked paths missing from the listing are collected, each once |
| Delete.PruneVanished | delete/globus_auto/delete.py:61-68 | afterwards exactly the tracked paths still listed remain, each with its task |
| Delete.StageSucceeded | delete/globus_auto/delete.py:69-78 | a path is staged exactly when its task SUCCEEDED; the successful list is exactly the tracked tasks that SUCCEEDED, each once; every path whose task did not succeed is queried, and a succeeded task is queried once |
| Delete.ActiveOnly | delete/globus_auto/delete.py:87-92 | a task is kept exactly when it is in the list and ACTIVE |
| Delete.ActiveOnlyCount | delete/globus_auto/delete.py:87-92 | an ACTIVE task keeps every occurrence; any other task keeps none |
| Delete.ActiveOnlyAppend | delete/globus_auto/delete.py:87-92 | filtering keeps order: it distributes over concatenation |
| Delete.FilterActive | delete/globus_auto/delete.py:87-92 | the loop returns ActiveOnly of the outstanding list |
| Delete.Delete | delete/globus_auto/delete.py:23-106 | a bad CODE_PATH or an endpoint that is not ready leaves the shelf untouched; otherwise the staged paths are duplicate-free and are exactly the listed tracked paths whose task SUCCEEDED; the shelf keeps exactly the listed tracked paths whose task did not succeed; when something was staged, one recursive delete is submitted and only ACTIVE tasks stay outstanding, and otherwise the task list is unchanged; the empty-directory request is as DeleteEmptyDirectories |
| HashSync.FilesUpTo | globus_auto/main.py:52-53 | one path per file name seen so far |
| HashSync.FilesAt | globus_auto/main.py:53 | the path at position j is the directory joined with the j-th file name |
| HashSync.StoredUpToSpec | globus_auto/main.py:52-56 | after the first n files of a directory each of them holds its current hash and every other entry is unchanged |
| HashSync.ChangedUpToSpec | globus_auto/main.py:52-57 | the inner loop has met a change exactly when one of the first n files had no stored hash or a different one |
| HashSync.StoredSpec | globus_auto/main.py:52-56 | after one directory, its files hold their current hashes and every other entry is unchanged |
| HashSync.ChangedSpec | globus_auto/main.py:52-57 | one directory reports a change exactly when one of its files is new or changed |
| HashSync.WalkStoredSpec | globus_auto/main.py:51-56 | after the walk, every walked file holds its current hash, and every other path keeps its entry or stays absent |
| HashSync.NeedTransferIff | globus_auto/main.py:50-57 | need_transfer is set exactly when some walked file had no stored hash or a different one |
| HashSync.StoredNoop | globus_auto/main.py:55 | a store already holding the current hashes of a directory's files is left as it is and no change is reported |
| HashSync.WalkUpToDate | globus_auto/main.py:50-57 | a store already holding the current hash of every walked file is unchanged by the scan and need_transfer stays false |
| HashSync.ScanIdempotent | globus_auto/main.py:50-57 | scanning again with unchanged files changes nothing and requests no transfer |
| HashSync.HashShelf.constructor | globus_auto/main.py:48 | the opened shelf holds the given entries |
| HashSync.HashShelf.Scan | globus_auto/main.py:50-57 | the nested loop leaves the shelf as WalkStored of the old shelf and returns WalkChanged |
| HashSync.HashShelf.ScanWalkStep | globus_auto/main.py:51-57 | one walk step moves the shelf and the flag from the state after i steps to the state after i+1 |
| HashSync.HashShelf.ScanDirectory | globus_auto/main.py:52-57 | the inner loop leaves the shelf as Stored of the old shelf and returns Changed |
| HashSync.HashShelf.ScanFileStep | globus_auto/main.py:53-57 | one file moves the shelf and the flag from the state after j files to the state after j+1 |
| HashSync.HashShelf.CheckFile | globus_auto/main.py:53-57 | the file is reported exactly when it has no stored hash or a different one, and afterwards it holds its current hash |
| HashSync.HashShelf.Run | globus_auto/main.py:25-62 | an endpoint that is not ready leaves the shelf untouched and gives the e-mail text; otherwise the shelf is scanned, and the checksum sync is submitted exactly when some walked file was new or changed |

## Left out

- Authentication is left out: the transfer client, refresh tokens and OAuth flow (`globus_get_transfer_client`, `globus_generate_refresh_token`, delete/globus_auto/utils.py:107-175). They are I/O against a remote service.
- `globus_endpoint_ready` (delete/globus_auto/utils.py:93-105) is not modelled. Readiness is given as two booleans because it comes from remote endpoint data.
- Sending e-mail (`send_email`, delete/globus_auto/utils.py:226-242) is left out, including the printed message when sending fails. The e-mail text is modelled.
- The wait of up to three minutes for the delete task (delete/globus_auto/delete.py:97-104) is left out. It only reads the clock, sleeps and polls, and it changes no state. `Delete.Delete` instead takes the listing of the source as it is when the empty directories are looked for.
- Printed messages are modelled as outcomes: the CODE_PATH message is `CodePathRejected`. The IndexError an empty CODE_PATH raises is `CodePathIndexError`.
- `datetime.now().strftime(...)` is a timestamp string parameter.
- globus_auto/utils.py is not part of this model, so three things are parameters:
  - its `md5_hash`, as the total function `hash`;
  - its `globus_transfer_name()`, as the label `transferName` of `HashSync.HashShelf.Run`;
  - the walk of the source directory, as the sequence of `os.walk` triples. Their `dirnames` are carried but not used, as in main.py.
- Shelf persistence is left out: `shelve.open`/`close` and pickling. The shelves are in-memory objects whose methods assign their fields. Writing back at close is their final state.
- The status `get_task` reports is a function fixed for the whole run. A task whose status changes between two calls in one run is not modelled.
- The order in which dict keys are visited is not modelled.
  - `Delete.VanishedPaths` and `Delete.StageSucceeded` pick the next key arbitrarily, and their contracts hold for every order.
  - For this reason the staged paths are described as a set without repeats, not as a particular order.
- `Delete.RemovePaths` requires every path to be present and distinct. A missing key would raise KeyError in `del`; the callers never trigger it.
- `Utils.GetFileStructure` fills the lists of sub-directories and files before creating the object. The source appends them to the object after creating it. The resulting tree is the same, and the structure is fixed afterwards.
- `HashSync.HashShelf.CheckFile` stores the hash only for a new or changed file, as main.py does. The model does not record which keys were written, because rewriting an up-to-date entry would store the same value.
- Entry names are arbitrary strings in the model. With an empty name or a name containing '/', `Join` can return the top directory itself, and the delete request would then name it. `UtilsFacts.EmptyDirectoriesBelowTop` proves that the top directory is never deleted only for listings whose names are plain (`PlainNames`), as the listing service returns them.
- No path trie or modification times: main.py keeps a flat shelf from absolute file path to MD5 text, and the model does the same.
- set_time.py is not part of this model. It resets stored transfer times through `GlobusDirectoryTrie`, which globus_auto/utils.py does not define. The configuration files hold constants, and test_config.py checks the environment.
