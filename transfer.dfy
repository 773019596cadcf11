/** One run of the transfer script of the delete variant
    (delete/globus_auto/transfer.py): sync the source directory to the
    destination and remember, for every source file, the task it went with. */
module Transfer {
  import opened Common
  import opened Utils

  /** How a run ends: stopped by the CODE_PATH guard (a message, or the
      IndexError an empty CODE_PATH raises), stopped because an endpoint is not
      ready (the e-mail text), or with a submitted transfer and its task id. */
  datatype Outcome =
    | CodePathRejected(check: CodePathCheck)
    | NotReady(email: string)
    | Submitted(request: TransferRequest, taskId: TaskId)

  /** The loop that stores the new task id for every listed file. */
  method RecordTaskIds(fileTaskIds: map<Path, TaskId>, filePaths: seq<Path>, taskId: TaskId)
    returns (r: map<Path, TaskId>)
    ensures r.Keys == fileTaskIds.Keys + set p | p in filePaths
    ensures forall p :: p in filePaths ==> p in r && r[p] == taskId
    ensures forall p :: p in fileTaskIds && p !in filePaths ==> r[p] == fileTaskIds[p]
  {
    r := fileTaskIds;
    var i := 0;
    while i < |filePaths|
      invariant 0 <= i <= |filePaths|
      invariant r.Keys == fileTaskIds.Keys + set p | p in filePaths[..i]
      invariant forall p :: p in filePaths[..i] ==> p in r && r[p] == taskId
      invariant forall p :: p in fileTaskIds && p !in filePaths[..i] ==> r[p] == fileTaskIds[p]
    {
      assert filePaths[..i + 1] == filePaths[..i] + [filePaths[i]];
      r := r[filePaths[i] := taskId];
      i := i + 1;
    }
    assert filePaths[..i] == filePaths;
  }

  /** transfer(): `listing` is the recursive listing of the source directory
      and `newTaskId` the id the service gives the submitted transfer. */
  method Transfer(cfg: Config, srcReady: bool, dstReady: bool, shelf: TaskShelf, listing: Listing,
                  timestamp: string, newTaskId: TaskId)
    returns (outcome: Outcome)
    modifies shelf
    ensures CheckCodePath(cfg.codePath) != CodePathOk ==>
      outcome == CodePathRejected(CheckCodePath(cfg.codePath)) && unchanged(shelf)
    ensures CheckCodePath(cfg.codePath) == CodePathOk && !(srcReady && dstReady) ==>
      outcome == NotReady(NotReadyEmail("transfer", cfg.srcId, cfg.dstId, srcReady, dstReady)) && unchanged(shelf)
    ensures CheckCodePath(cfg.codePath) == CodePathOk && srcReady && dstReady ==>
      outcome == Submitted(SyncRequest(TransferName(0, timestamp), cfg.srcId, cfg.dstId, cfg.srcDir, cfg.dstDir), newTaskId) &&
      shelf.fileTaskIds.Some? && shelf.taskIdList.Some? &&
      var before := old(shelf.fileTaskIds).GetOr(map[]);
      var listed := ListFiles(cfg.srcDir, listing);
      shelf.fileTaskIds.value.Keys == before.Keys + (set p | p in listed) &&
      (forall p :: p in listed ==> shelf.fileTaskIds.value[p] == newTaskId) &&
      (forall p :: p in before && p !in listed ==> shelf.fileTaskIds.value[p] == before[p]) &&
      shelf.taskIdList.value == old(shelf.taskIdList).GetOr([]) + [newTaskId]
  {
    var check := CheckCodePath(cfg.codePath);
    if check != CodePathOk {
      return CodePathRejected(check);
    }
    if !(srcReady && dstReady) {
      return NotReady(NotReadyEmail("transfer", cfg.srcId, cfg.dstId, srcReady, dstReady));
    }
    shelf.InitKeys();
    var fileTaskIds := shelf.fileTaskIds.value;
    var taskIdList := shelf.taskIdList.value;
    var filePaths := ListFiles(cfg.srcDir, listing);
    var request := SyncRequest(TransferName(0, timestamp), cfg.srcId, cfg.dstId, cfg.srcDir, cfg.dstDir);
    fileTaskIds := RecordTaskIds(fileTaskIds, filePaths, newTaskId);
    taskIdList := taskIdList + [newTaskId];
    shelf.taskIdList := Some(taskIdList);
    shelf.fileTaskIds := Some(fileTaskIds);
    outcome := Submitted(request, newTaskId);
  }
}
