/** One run of the change-detecting transfer script (globus_auto/main.py):
    hash every file under the source directory, store the hashes that are new
    or changed, and sync the directories only when something changed. */
module HashSync {
  import opened Common
  import opened Utils

  /** One triple os.walk yields: a directory, the names of its
      sub-directories and the names of its files. */
  datatype WalkStep = WalkStep(dirpath: Path, dirnames: seq<string>, filenames: seq<string>)

  /** The paths of the first `n` files of one walk step, in order: the
      directory joined with each file name. */
  function FilesUpTo(step: WalkStep, n: nat): (paths: seq<Path>)
    requires n <= |step.filenames|
    ensures |paths| == n
  {
    if n == 0 then [] else FilesUpTo(step, n - 1) + [Join(step.dirpath, step.filenames[n - 1])]
  }

  function Files(step: WalkStep): seq<Path> {
    FilesUpTo(step, |step.filenames|)
  }

  /** The path at position `j` is the directory joined with the `j`-th name. */
  lemma {:induction false} FilesAt(step: WalkStep, n: nat, j: nat)
    requires j < n <= |step.filenames|
    ensures FilesUpTo(step, n)[j] == Join(step.dirpath, step.filenames[j])
  {
    if j < n - 1 {
      FilesAt(step, n - 1, j);
    }
  }

  /** The paths of the files of the first `n` walk steps, in the order the
      loop meets them. */
  function WalkedUpTo(walk: seq<WalkStep>, n: nat): seq<Path>
    requires n <= |walk|
  {
    if n == 0 then [] else WalkedUpTo(walk, n - 1) + Files(walk[n - 1])
  }

  // ---------------------------------------------------------------------------
  // The inner loop: the files of one directory

  /** The stored hash of `p` is missing or differs from its current one. */
  predicate Stale(store: map<Path, string>, p: Path, hash: Path -> string) {
    p !in store || store[p] != hash(p)
  }

  /** The store after the loop has met the first `n` paths: each path met is
      assigned its current hash (a no-op when the stored hash already equals
      it). */
  function StoredUpTo(store: map<Path, string>, paths: seq<Path>, hash: Path -> string, n: nat): map<Path, string>
    requires n <= |paths|
  {
    if n == 0 then store
    else StoredUpTo(store, paths, hash, n - 1)[paths[n - 1] := hash(paths[n - 1])]
  }

  /** Whether the loop has met a stale path among the first `n`, judged
      against the store as it was when the loop met it. */
  predicate ChangedUpTo(store: map<Path, string>, paths: seq<Path>, hash: Path -> string, n: nat)
    requires n <= |paths|
  {
    n > 0 && (ChangedUpTo(store, paths, hash, n - 1) || Stale(StoredUpTo(store, paths, hash, n - 1), paths[n - 1], hash))
  }

  function Stored(store: map<Path, string>, paths: seq<Path>, hash: Path -> string): map<Path, string> {
    StoredUpTo(store, paths, hash, |paths|)
  }

  predicate Changed(store: map<Path, string>, paths: seq<Path>, hash: Path -> string) {
    ChangedUpTo(store, paths, hash, |paths|)
  }

  lemma {:induction false} StoredUpToSpec(store: map<Path, string>, paths: seq<Path>, hash: Path -> string, n: nat, p: Path)
    requires n <= |paths|
    ensures p in StoredUpTo(store, paths, hash, n) <==> p in store || p in paths[..n]
    ensures p in paths[..n] ==> StoredUpTo(store, paths, hash, n)[p] == hash(p)
    ensures p in store && p !in paths[..n] ==> StoredUpTo(store, paths, hash, n)[p] == store[p]
  {
    if n > 0 {
      assert paths[..n] == paths[..n - 1] + [paths[n - 1]];
      StoredUpToSpec(store, paths, hash, n - 1, p);
    }
  }

  lemma {:induction false} ChangedUpToSpec(store: map<Path, string>, paths: seq<Path>, hash: Path -> string, n: nat)
    requires n <= |paths|
    ensures ChangedUpTo(store, paths, hash, n) <==> exists p :: p in paths[..n] && Stale(store, p, hash)
  {
    if n > 0 {
      var q := paths[n - 1];
      assert paths[..n] == paths[..n - 1] + [q];
      ChangedUpToSpec(store, paths, hash, n - 1);
      StoredUpToSpec(store, paths, hash, n - 1, q);
      if Stale(StoredUpTo(store, paths, hash, n - 1), q, hash) {
        assert q in paths[..n] && Stale(store, q, hash);
      }
      if exists p :: p in paths[..n] && Stale(store, p, hash) {
        var p :| p in paths[..n] && Stale(store, p, hash);
        if p !in paths[..n - 1] {
          assert p == q;
        }
      }
    }
  }

  /** After the inner loop every path of the directory holds its current hash;
      every other path keeps its entry, or stays absent. */
  lemma StoredSpec(store: map<Path, string>, paths: seq<Path>, hash: Path -> string, p: Path)
    ensures p in Stored(store, paths, hash) <==> p in store || p in paths
    ensures p in paths ==> Stored(store, paths, hash)[p] == hash(p)
    ensures p in store && p !in paths ==> Stored(store, paths, hash)[p] == store[p]
  {
    assert paths[..|paths|] == paths;
    StoredUpToSpec(store, paths, hash, |paths|, p);
  }

  /** The inner loop reports a change exactly when one of the directory's
      files has a missing or different stored hash. */
  lemma ChangedSpec(store: map<Path, string>, paths: seq<Path>, hash: Path -> string)
    ensures Changed(store, paths, hash) <==> exists p :: p in paths && Stale(store, p, hash)
  {
    assert paths[..|paths|] == paths;
    ChangedUpToSpec(store, paths, hash, |paths|);
  }

  // ---------------------------------------------------------------------------
  // The outer loop: the directories of the walk

  /** The store after the outer loop has handled the first `n` walk steps. */
  function WalkStored(store: map<Path, string>, walk: seq<WalkStep>, hash: Path -> string, n: nat): map<Path, string>
    requires n <= |walk|
  {
    if n == 0 then store
    else Stored(WalkStored(store, walk, hash, n - 1), Files(walk[n - 1]), hash)
  }

  /** need_transfer after the first `n` walk steps. */
  predicate WalkChanged(store: map<Path, string>, walk: seq<WalkStep>, hash: Path -> string, n: nat)
    requires n <= |walk|
  {
    n > 0 && (WalkChanged(store, walk, hash, n - 1) || Changed(WalkStored(store, walk, hash, n - 1), Files(walk[n - 1]), hash))
  }

  /** After the scan every walked path holds its current hash; every other
      path keeps its entry, or stays absent. */
  lemma {:induction false} WalkStoredSpec(store: map<Path, string>, walk: seq<WalkStep>, hash: Path -> string, n: nat, p: Path)
    requires n <= |walk|
    ensures p in WalkStored(store, walk, hash, n) <==> p in store || p in WalkedUpTo(walk, n)
    ensures p in WalkedUpTo(walk, n) ==> WalkStored(store, walk, hash, n)[p] == hash(p)
    ensures p in store && p !in WalkedUpTo(walk, n) ==> WalkStored(store, walk, hash, n)[p] == store[p]
  {
    if n > 0 {
      WalkStoredSpec(store, walk, hash, n - 1, p);
      StoredSpec(WalkStored(store, walk, hash, n - 1), Files(walk[n - 1]), hash, p);
    }
  }

  /** The scan asks for a transfer exactly when some walked file is new or
      its stored hash differs from its current one. */
  lemma {:induction false} NeedTransferIff(store: map<Path, string>, walk: seq<WalkStep>, hash: Path -> string, n: nat)
    requires n <= |walk|
    ensures WalkChanged(store, walk, hash, n) <==> exists p :: p in WalkedUpTo(walk, n) && Stale(store, p, hash)
  {
    if n > 0 {
      var mid := WalkStored(store, walk, hash, n - 1);
      var files := Files(walk[n - 1]);
      NeedTransferIff(store, walk, hash, n - 1);
      ChangedSpec(mid, files, hash);
      if Changed(mid, files, hash) {
        var p :| p in files && Stale(mid, p, hash);
        WalkStoredSpec(store, walk, hash, n - 1, p);
        assert p in WalkedUpTo(walk, n) && Stale(store, p, hash);
      }
      if exists p :: p in WalkedUpTo(walk, n) && Stale(store, p, hash) {
        var p :| p in WalkedUpTo(walk, n) && Stale(store, p, hash);
        if p !in WalkedUpTo(walk, n - 1) {
          WalkStoredSpec(store, walk, hash, n - 1, p);
          assert p in files && Stale(mid, p, hash);
        }
      }
    }
  }

  /** A store that already holds the current hash of each of the paths is
      left as it is by the inner loop, which reports no change. */
  lemma {:induction false} StoredNoop(store: map<Path, string>, paths: seq<Path>, hash: Path -> string, n: nat)
    requires n <= |paths|
    requires forall p :: p in paths ==> p in store && store[p] == hash(p)
    ensures StoredUpTo(store, paths, hash, n) == store
    ensures !ChangedUpTo(store, paths, hash, n)
  {
    if n > 0 {
      StoredNoop(store, paths, hash, n - 1);
      assert paths[n - 1] in paths;
    }
  }

  /** A store that already holds the current hash of every walked path is
      neither changed by the scan nor reported as changed. */
  lemma {:induction false} WalkUpToDate(store: map<Path, string>, walk: seq<WalkStep>, hash: Path -> string, n: nat)
    requires n <= |walk|
    requires forall p :: p in WalkedUpTo(walk, n) ==> p in store && store[p] == hash(p)
    ensures WalkStored(store, walk, hash, n) == store
    ensures !WalkChanged(store, walk, hash, n)
  {
    if n > 0 {
      var files := Files(walk[n - 1]);
      assert WalkedUpTo(walk, n) == WalkedUpTo(walk, n - 1) + files;
      WalkUpToDate(store, walk, hash, n - 1);
      StoredNoop(store, files, hash, |files|);
    }
  }

  /** Scanning again with unchanged files changes nothing and finds no reason
      to transfer. */
  lemma ScanIdempotent(store: map<Path, string>, walk: seq<WalkStep>, hash: Path -> string)
    ensures var after := WalkStored(store, walk, hash, |walk|);
      WalkStored(after, walk, hash, |walk|) == after && !WalkChanged(after, walk, hash, |walk|)
  {
    var after := WalkStored(store, walk, hash, |walk|);
    forall p | p in WalkedUpTo(walk, |walk|)
      ensures p in after && after[p] == hash(p)
    {
      WalkStoredSpec(store, walk, hash, |walk|, p);
    }
    WalkUpToDate(after, walk, hash, |walk|);
  }

  /** The shelf of main.py: file path to the MD5 text of its contents when it
      was last scanned. */
  class HashShelf {
    var entries: map<Path, string>

    constructor (entries: map<Path, string>)
      ensures this.entries == entries
    {
      this.entries := entries;
    }

    /** The nested loop of main(): `hash` gives the current MD5 text of a
        file. The flag says whether some file was new or changed. */
    method Scan(walk: seq<WalkStep>, hash: Path -> string) returns (needTransfer: bool)
      modifies this
      ensures entries == WalkStored(old(entries), walk, hash, |walk|)
      ensures needTransfer == WalkChanged(old(entries), walk, hash, |walk|)
    {
      needTransfer := false;
      var i := 0;
      while i < |walk|
        invariant 0 <= i <= |walk|
        invariant entries == WalkStored(old(entries), walk, hash, i)
        invariant needTransfer == WalkChanged(old(entries), walk, hash, i)
      {
        needTransfer := ScanWalkStep(walk, i, hash, needTransfer, old(entries));
        i := i + 1;
      }
    }

    /** One turn of the outer loop: the directory at position `i` of the walk. */
    method ScanWalkStep(walk: seq<WalkStep>, i: nat, hash: Path -> string, needTransfer: bool,
                        ghost start: map<Path, string>)
      returns (needTransfer': bool)
      requires i < |walk|
      requires entries == WalkStored(start, walk, hash, i)
      requires needTransfer == WalkChanged(start, walk, hash, i)
      modifies this
      ensures entries == WalkStored(start, walk, hash, i + 1)
      ensures needTransfer' == WalkChanged(start, walk, hash, i + 1)
    {
      var changed := ScanDirectory(walk[i], hash);
      needTransfer' := needTransfer || changed;
    }

    /** The inner loop: the files of one directory of the walk. */
    method ScanDirectory(step: WalkStep, hash: Path -> string) returns (changed: bool)
      modifies this
      ensures entries == Stored(old(entries), Files(step), hash)
      ensures changed == Changed(old(entries), Files(step), hash)
    {
      changed := false;
      var j := 0;
      while j < |step.filenames|
        invariant 0 <= j <= |step.filenames|
        invariant entries == StoredUpTo(old(entries), Files(step), hash, j)
        invariant changed == ChangedUpTo(old(entries), Files(step), hash, j)
      {
        changed := ScanFileStep(step, j, hash, changed, old(entries));
        j := j + 1;
      }
    }

    /** One turn of the inner loop: the file at position `j` of the directory. */
    method ScanFileStep(step: WalkStep, j: nat, hash: Path -> string, changed: bool, ghost start: map<Path, string>)
      returns (changed': bool)
      requires j < |step.filenames|
      requires entries == StoredUpTo(start, Files(step), hash, j)
      requires changed == ChangedUpTo(start, Files(step), hash, j)
      modifies this
      ensures entries == StoredUpTo(start, Files(step), hash, j + 1)
      ensures changed' == ChangedUpTo(start, Files(step), hash, j + 1)
    {
      var absPath := Join(step.dirpath, step.filenames[j]);
      FilesAt(step, |step.filenames|, j);
      var fileChanged := CheckFile(absPath, hash);
      changed' := changed || fileChanged;
    }

    /** The body of the inner loop for one file: store its hash, and report
        whether it was new or changed. */
    method CheckFile(absPath: Path, hash: Path -> string) returns (changed: bool)
      modifies this
      ensures changed == Stale(old(entries), absPath, hash)
      ensures entries == old(entries)[absPath := hash(absPath)]
    {
      var md5Hash := hash(absPath);
      changed := absPath !in entries || md5Hash != entries[absPath];
      if changed {
        entries := entries[absPath := md5Hash];
      } else {
        assert entries[absPath := md5Hash] == entries;
      }
    }

    /** main(): nothing is opened or changed when an endpoint is not ready;
        otherwise the scan runs and the directories are synced when it found a
        change. `transferName` is the label the run gives the transfer. */
    method Run(cfg: Config, srcReady: bool, dstReady: bool, walk: seq<WalkStep>, hash: Path -> string,
                transferName: string)
      returns (outcome: SyncOutcome)
      modifies this
      ensures !(srcReady && dstReady) ==>
        outcome == EndpointsNotReady(NotReadyEmail("transfer", cfg.srcId, cfg.dstId, srcReady, dstReady)) &&
        unchanged(this)
      ensures srcReady && dstReady ==>
        entries == WalkStored(old(entries), walk, hash, |walk|) &&
        outcome == if WalkChanged(old(entries), walk, hash, |walk|)
          then Synced(SyncRequest(transferName, cfg.srcId, cfg.dstId, cfg.srcDir, cfg.dstDir))
          else NoChange
    {
      if !(srcReady && dstReady) {
        return EndpointsNotReady(NotReadyEmail("transfer", cfg.srcId, cfg.dstId, srcReady, dstReady));
      }
      var needTransfer := Scan(walk, hash);
      if needTransfer {
        outcome := Synced(SyncRequest(transferName, cfg.srcId, cfg.dstId, cfg.srcDir, cfg.dstDir));
      } else {
        outcome := NoChange;
      }
    }
  }

  /** How main() ends: an endpoint is not ready (the e-mail text), no file
      changed, or the sync that was submitted. */
  datatype SyncOutcome =
    | EndpointsNotReady(email: string)
    | NoChange
    | Synced(request: TransferRequest)
}
