/** One run of the delete script (delete/globus_auto/delete.py): forget files
    that vanished from the source, delete the files whose transfer succeeded,
    drop finished tasks and remove directories left without files. */
module Delete {
  import opened Common
  import opened Utils

  const Succeeded := "SUCCEEDED"
  const Active := "ACTIVE"

  /** The `del file_task_ids[file_path]` loop. Deleting a key that is not in
      the dict raises KeyError, so every path must be present, and present
      once. */
  method RemovePaths(fileTaskIds: map<Path, TaskId>, paths: seq<Path>) returns (r: map<Path, TaskId>)
    requires forall p :: p in paths ==> p in fileTaskIds
    requires Distinct(paths)
    ensures forall p :: p in r <==> p in fileTaskIds && p !in paths
    ensures forall p :: p in r ==> r[p] == fileTaskIds[p]
  {
    r := fileTaskIds;
    var i := 0;
    while i < |paths|
      invariant 0 <= i <= |paths|
      invariant forall p :: p in r <==> p in fileTaskIds && p !in paths[..i]
      invariant forall p :: p in r ==> r[p] == fileTaskIds[p]
    {
      assert paths[..i + 1] == paths[..i] + [paths[i]];
      r := r - {paths[i]};
      i := i + 1;
    }
    assert paths[..i] == paths;
  }

  /** The first loop of the pruning step: every tracked path that is not in
      the current listing of the source, each once. */
  method VanishedPaths(fileTaskIds: map<Path, TaskId>, filePaths: seq<Path>) returns (delete: seq<Path>)
    ensures forall p :: p in delete <==> p in fileTaskIds && p !in filePaths
    ensures Distinct(delete)
  {
    delete := [];
    var keys := fileTaskIds.Keys;
    while keys != {}
      invariant keys <= fileTaskIds.Keys
      invariant forall p :: p in delete <==> p in fileTaskIds && p !in keys && p !in filePaths
      invariant Distinct(delete)
      decreases keys
    {
      var filePath :| filePath in keys;
      if filePath !in filePaths {
        delete := delete + [filePath];
      }
      keys := keys - {filePath};
    }
  }

  /** Pruning: afterwards only paths still in the listing are tracked, each
      with the task id it had. */
  method PruneVanished(fileTaskIds: map<Path, TaskId>, filePaths: seq<Path>) returns (r: map<Path, TaskId>)
    ensures forall p :: p in r <==> p in fileTaskIds && p in filePaths
    ensures forall p :: p in r ==> r[p] == fileTaskIds[p]
  {
    var delete := VanishedPaths(fileTaskIds, filePaths);
    r := RemovePaths(fileTaskIds, delete);
  }

  /** The staging loop. `status` gives the status get_task reports for a
      task. A path is staged exactly when its task succeeded; a task found to
      have succeeded is remembered and not asked about again. `queried` lists
      the paths whose lookup asked the service, in order: the k-th call asks
      about the task of queried[k]. */
  method StageSucceeded(fileTaskIds: map<Path, TaskId>, status: TaskId -> string)
    returns (delete: seq<Path>, successful: seq<TaskId>, queried: seq<Path>)
    ensures forall p :: p in delete <==> p in fileTaskIds && status(fileTaskIds[p]) == Succeeded
    ensures Distinct(delete)
    ensures forall t :: t in successful <==> t in fileTaskIds.Values && status(t) == Succeeded
    ensures Distinct(successful)
    ensures Distinct(queried) && forall p :: p in queried ==> p in fileTaskIds
    ensures forall p :: p in fileTaskIds && status(fileTaskIds[p]) != Succeeded ==> p in queried
    ensures forall t :: t in successful ==> exists q :: q in queried && q in fileTaskIds && fileTaskIds[q] == t
    ensures forall p, q ::
      (p in queried && q in queried && fileTaskIds[p] == fileTaskIds[q] && status(fileTaskIds[p]) == Succeeded) ==> p == q
  {
    delete, successful, queried := [], [], [];
    var keys := fileTaskIds.Keys;
    while keys != {}
      invariant keys <= fileTaskIds.Keys
      invariant forall p :: p in delete <==> p in fileTaskIds && p !in keys && status(fileTaskIds[p]) == Succeeded
      invariant Distinct(delete)
      invariant forall t :: t in successful ==> status(t) == Succeeded
      invariant forall p :: p in fileTaskIds && p !in keys && status(fileTaskIds[p]) == Succeeded ==>
        fileTaskIds[p] in successful
      invariant Distinct(successful)
      invariant Distinct(queried) && forall p :: p in queried ==> p in fileTaskIds && p !in keys
      invariant forall t :: t in successful ==> exists q :: q in queried && q in fileTaskIds && fileTaskIds[q] == t
      invariant forall p :: p in fileTaskIds && p !in keys && status(fileTaskIds[p]) != Succeeded ==> p in queried
      invariant forall p, q ::
        (p in queried && q in queried && fileTaskIds[p] == fileTaskIds[q] && status(fileTaskIds[p]) == Succeeded) ==> p == q
      decreases keys
    {
      var filePath :| filePath in keys;
      var taskId := fileTaskIds[filePath];
      if taskId in successful {
        delete := delete + [filePath];
      } else {
        queried := queried + [filePath];
        if status(taskId) == Succeeded {
          successful := successful + [taskId];
          delete := delete + [filePath];
        }
      }
      keys := keys - {filePath};
    }
  }

  /** The tasks of `tasks` whose status is ACTIVE, in their order. */
  function ActiveOnly(tasks: seq<TaskId>, status: TaskId -> string): (r: seq<TaskId>)
    ensures forall t :: t in r <==> t in tasks && status(t) == Active
  {
    if tasks == [] then []
    else
      var last := tasks[|tasks| - 1];
      assert tasks == tasks[..|tasks| - 1] + [last];
      ActiveOnly(tasks[..|tasks| - 1], status) + if status(last) == Active then [last] else []
  }

  /** Every ACTIVE task keeps all its occurrences; every other task loses
      all of them. */
  lemma {:induction false} ActiveOnlyCount(tasks: seq<TaskId>, status: TaskId -> string, t: TaskId)
    ensures multiset(ActiveOnly(tasks, status))[t] == if status(t) == Active then multiset(tasks)[t] else 0
    decreases |tasks|
  {
    if tasks != [] {
      var last := tasks[|tasks| - 1];
      assert tasks == tasks[..|tasks| - 1] + [last];
      ActiveOnlyCount(tasks[..|tasks| - 1], status, t);
    }
  }

  /** Filtering keeps order: it distributes over concatenation. */
  lemma {:induction false} ActiveOnlyAppend(a: seq<TaskId>, b: seq<TaskId>, status: TaskId -> string)
    ensures ActiveOnly(a + b, status) == ActiveOnly(a, status) + ActiveOnly(b, status)
    decreases |b|
  {
    if b == [] {
      assert a + b == a;
    } else {
      var b' := b[..|b| - 1];
      var last := b[|b| - 1];
      var tail := if status(last) == Active then [last] else [];
      assert (a + b)[..|a + b| - 1] == a + b';
      assert (a + b)[|a + b| - 1] == last;
      assert ActiveOnly(a + b, status) == ActiveOnly(a + b', status) + tail;
      assert ActiveOnly(b, status) == ActiveOnly(b', status) + tail;
      ActiveOnlyAppend(a, b', status);
    }
  }

  /** The loop that keeps the ACTIVE tasks of the outstanding list, asking the
      service about every entry. */
  method FilterActive(taskIdList: seq<TaskId>, status: TaskId -> string) returns (activeTaskIds: seq<TaskId>)
    ensures activeTaskIds == ActiveOnly(taskIdList, status)
  {
    activeTaskIds := [];
    var i := 0;
    while i < |taskIdList|
      invariant 0 <= i <= |taskIdList|
      invariant activeTaskIds == ActiveOnly(taskIdList[..i], status)
    {
      assert taskIdList[..i + 1][..i] == taskIdList[..i];
      if status(taskIdList[i]) == Active {
        activeTaskIds := activeTaskIds + [taskIdList[i]];
      }
      i := i + 1;
    }
    assert taskIdList[..i] == taskIdList;
  }

  /** How a run ends: stopped by the CODE_PATH guard, stopped because an
      endpoint is not ready (the e-mail text), or after the bookkeeping with
      the staged paths, the delete of those paths and its task id (nothing
      when no path was staged), and the delete of the empty directories. */
  datatype Outcome =
    | CodePathRejected(check: CodePathCheck)
    | NotReady(email: string)
    | Ran(staged: seq<Path>, deleteRequest: Option<DeleteRequest>, deleteTaskId: Option<TaskId>,
          emptyDirectoriesRequest: Option<DeleteRequest>)

  /** delete(): `listing` is the recursive listing of the source directory,
      `status` what get_task reports, `newTaskId` the id the service gives the
      delete and `listingAfter` the listing of the source directory when the
      empty directories are looked for. */
  method Delete(cfg: Config, srcReady: bool, dstReady: bool, shelf: TaskShelf, listing: Listing,
                status: TaskId -> string, timestamp: string, newTaskId: TaskId, listingAfter: Listing)
    returns (outcome: Outcome)
    modifies shelf
    ensures CheckCodePath(cfg.codePath) != CodePathOk ==>
      outcome == CodePathRejected(CheckCodePath(cfg.codePath)) && unchanged(shelf)
    ensures CheckCodePath(cfg.codePath) == CodePathOk && !(srcReady && dstReady) ==>
      outcome == NotReady(NotReadyEmail("delete", cfg.srcId, cfg.dstId, srcReady, dstReady)) && unchanged(shelf)
    ensures CheckCodePath(cfg.codePath) == CodePathOk && srcReady && dstReady ==>
      outcome.Ran? && shelf.fileTaskIds.Some? && shelf.taskIdList.Some? &&
      var before := old(shelf.fileTaskIds).GetOr(map[]);
      var listed := ListFiles(cfg.srcDir, listing);
      var name := TransferName(1, timestamp);
      Distinct(outcome.staged) &&
      (forall p :: p in outcome.staged <==> p in before && p in listed && status(before[p]) == Succeeded) &&
      (forall p :: p in shelf.fileTaskIds.value <==> p in before && p in listed && status(before[p]) != Succeeded) &&
      (forall p :: p in shelf.fileTaskIds.value ==> shelf.fileTaskIds.value[p] == before[p]) &&
      (outcome.staged == [] ==>
        outcome.deleteRequest.None? && outcome.deleteTaskId.None? &&
        shelf.taskIdList.value == old(shelf.taskIdList).GetOr([])) &&
      (outcome.staged != [] ==>
        outcome.deleteRequest == Some(DeleteRequest(cfg.srcId, name, true, outcome.staged)) &&
        outcome.deleteTaskId == Some(newTaskId) &&
        shelf.taskIdList.value == ActiveOnly(old(shelf.taskIdList).GetOr([]), status)) &&
      (EmptyDirectories(cfg.srcDir, listingAfter) == [] <==> outcome.emptyDirectoriesRequest.None?) &&
      (outcome.emptyDirectoriesRequest.Some? ==>
        outcome.emptyDirectoriesRequest.value ==
          DeleteRequest(cfg.srcId, name, true, EmptyDirectories(cfg.srcDir, listingAfter)))
  {
    var check := CheckCodePath(cfg.codePath);
    if check != CodePathOk {
      return CodePathRejected(check);
    }
    if !(srcReady && dstReady) {
      return NotReady(NotReadyEmail("delete", cfg.srcId, cfg.dstId, srcReady, dstReady));
    }
    shelf.InitKeys();
    var fileTaskIds := shelf.fileTaskIds.value;
    var taskIdList := shelf.taskIdList.value;
    var filePaths := ListFiles(cfg.srcDir, listing);
    fileTaskIds := PruneVanished(fileTaskIds, filePaths);
    var delete, _, _ := StageSucceeded(fileTaskIds, status);
    var deleteName := TransferName(1, timestamp);
    var deleteRequest: Option<DeleteRequest> := None;
    var deleteTaskId: Option<TaskId> := None;
    if delete != [] {
      deleteRequest := DeletePaths(deleteName, cfg.srcId, delete);
      deleteTaskId := Some(newTaskId);
      fileTaskIds := RemovePaths(fileTaskIds, delete);
      taskIdList := FilterActive(taskIdList, status);
    }
    shelf.taskIdList := Some(taskIdList);
    shelf.fileTaskIds := Some(fileTaskIds);
    var emptyRequest := DeleteEmptyDirectories(deleteName, cfg.srcId, cfg.srcDir, listingAfter);
    outcome := Ran(delete, deleteRequest, deleteTaskId, emptyRequest);
  }
}
