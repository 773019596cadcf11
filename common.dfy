/** Definitions shared by the transfer, delete and change-detection runs:
    paths, the configuration they read, the CODE_PATH guard, the text of the
    "endpoint not ready" e-mail and the shelf that holds the task bookkeeping. */
module Common {

  datatype Option<T> = None | Some(value: T) {
    function GetOr(default: T): T {
      match this
      case Some(v) => v
      case None => default
    }
  }

  type Path = string
  type TaskId = string

  /** No element occurs twice. */
  ghost predicate Distinct<T>(s: seq<T>) {
    forall i, j :: 0 <= i < j < |s| ==> s[i] != s[j]
  }

  /** The settings the runs read from config.py. */
  datatype Config = Config(
    codePath: string,
    srcId: string,
    dstId: string,
    srcDir: Path,
    dstDir: Path)

  /** os.path.join(a, b) on POSIX: an absolute second part replaces the first;
      otherwise the parts are glued with one "/" unless the first part is empty
      or already ends in "/". */
  function Join(a: Path, b: string): Path {
    if b != [] && b[0] == '/' then b
    else if a == [] || a[|a| - 1] == '/' then a + b
    else a + "/" + b
  }

  /** The guard at the top of transfer() and delete(): CODE_PATH must end in "/".
      Indexing the last character of an empty CODE_PATH raises IndexError. */
  datatype CodePathCheck = CodePathOk | MissingTrailingSlash | CodePathIndexError

  function CheckCodePath(codePath: string): (c: CodePathCheck)
    ensures c == CodePathOk <==> codePath != [] && codePath[|codePath| - 1] == '/'
    ensures c == CodePathIndexError <==> codePath == []
  {
    if codePath == [] then CodePathIndexError
    else if codePath[|codePath| - 1] != '/' then MissingTrailingSlash
    else CodePathOk
  }

  function NotReadyLine(endpointId: string): string {
    "Endpoint " + endpointId + " is not ready.\n"
  }

  function NotReadyHeader(action: string): string {
    "Automatic " + action + " is not possible due to the following errors:\n"
  }

  /** The body of the error e-mail sent when an endpoint is not ready: a header
      naming the action, then one line for each endpoint that is not ready,
      source first. */
  function NotReadyEmail(action: string, srcId: string, dstId: string, srcReady: bool, dstReady: bool): (text: string)
    ensures |NotReadyHeader(action)| <= |text| && text[..|NotReadyHeader(action)|] == NotReadyHeader(action)
    ensures var rest := text[|NotReadyHeader(action)|..];
      rest == (if srcReady then "" else NotReadyLine(srcId)) + (if dstReady then "" else NotReadyLine(dstId))
    ensures srcReady && dstReady ==> text == NotReadyHeader(action)
  {
    var text := NotReadyHeader(action);
    var text := if srcReady then text else text + NotReadyLine(srcId);
    if dstReady then text else text + NotReadyLine(dstId)
  }

  /** The persistent shelf of the delete variant, restricted to its two keys:
      FILE_TASK_IDS (file path to the task it was last submitted under) and
      TASK_ID_LIST (tasks not yet known to be finished). None stands for a key
      that is not in the shelf yet. */
  class TaskShelf {
    var fileTaskIds: Option<map<Path, TaskId>>
    var taskIdList: Option<seq<TaskId>>

    constructor (fileTaskIds: Option<map<Path, TaskId>>, taskIdList: Option<seq<TaskId>>)
      ensures this.fileTaskIds == fileTaskIds && this.taskIdList == taskIdList
    {
      this.fileTaskIds := fileTaskIds;
      this.taskIdList := taskIdList;
    }

    /** Adds each missing key with an empty value; a present key keeps its value. */
    method InitKeys()
      modifies this
      ensures fileTaskIds == Some(old(fileTaskIds).GetOr(map[]))
      ensures taskIdList == Some(old(taskIdList).GetOr([]))
    {
      if fileTaskIds.None? {
        fileTaskIds := Some(map[]);
      }
      if taskIdList.None? {
        taskIdList := Some([]);
      }
    }
  }
}
