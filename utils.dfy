/** The directory helpers of the delete variant (delete/globus_auto/utils.py):
    recursive listings of a remote directory, the Directory tree with its
    "contains files" annotation, the search for the shallowest directories
    that hold no file, delete requests and transfer names. */
module Utils {
  import opened Common

  // ---------------------------------------------------------------------------
  // The remote listing

  /** One entry of a remote directory listing: a sub-directory with its own
      listing, a file, or an entry of any other type (ignored by every caller). */
  datatype Entry =
    | DirEntry(name: string, sub: Listing)
    | FileEntry(name: string)
    | OtherEntry(name: string)

  /** What a recursive listing of one directory returns, in listing order. */
  datatype Listing = Listing(entries: seq<Entry>)

  /** globus_list_files: the absolute paths of all files below `top`, in the
      order the recursive listing meets them. */
  function ListFiles(top: Path, l: Listing): seq<Path>
    decreases l, |l.entries| + 1
  {
    ListFilesUpTo(top, l, |l.entries|)
  }

  /** The files met while walking the first `n` entries of `l`. */
  function ListFilesUpTo(top: Path, l: Listing, n: nat): seq<Path>
    requires n <= |l.entries|
    decreases l, n
  {
    if n == 0 then []
    else
      var e := l.entries[n - 1];
      assert e in l.entries;
      ListFilesUpTo(top, l, n - 1) +
      match e
      case FileEntry(name) => [Join(top, name)]
      case DirEntry(name, sub) => ListFiles(Join(top, name), sub)
      case OtherEntry(_) => []
  }

  // ---------------------------------------------------------------------------
  // Directory trees

  /** The value of one Directory object and of everything below it: its path,
      its sub-directories, its immediate files and its contains_files flag. */
  datatype Dir = Dir(path: Path, dirs: seq<Dir>, files: seq<Path>, containsFiles: bool)

  /** The subtree rooted at `d` holds at least one file. */
  ghost predicate HasFiles(d: Dir) {
    d.files != [] || exists i :: 0 <= i < |d.dirs| && HasFiles(d.dirs[i])
  }

  /** Some node of the subtree rooted at `d` has its flag set. */
  ghost predicate AnyFlag(d: Dir) {
    d.containsFiles || exists i :: 0 <= i < |d.dirs| && AnyFlag(d.dirs[i])
  }

  /** Every node's flag says exactly whether its subtree holds files. */
  ghost predicate CorrectlyAnnotated(d: Dir) {
    d.containsFiles == HasFiles(d) &&
    forall i :: 0 <= i < |d.dirs| ==> CorrectlyAnnotated(d.dirs[i])
  }

  /** globus_get_file_structure: the tree a recursive listing of `top` builds,
      with every flag still false. */
  ghost function FileStructure(top: Path, l: Listing): (r: Dir)
    ensures r.path == top && !AnyFlag(r)
    decreases l, |l.entries| + 1
  {
    Dir(top, SubdirsUpTo(top, l, |l.entries|), FilesUpTo(top, l, |l.entries|), false)
  }

  /** The sub-directory trees built from the first `n` entries of `l`. */
  ghost function SubdirsUpTo(top: Path, l: Listing, n: nat): (r: seq<Dir>)
    requires n <= |l.entries|
    ensures forall j :: 0 <= j < |r| ==> !AnyFlag(r[j])
    decreases l, n
  {
    if n == 0 then []
    else
      var e := l.entries[n - 1];
      assert e in l.entries;
      SubdirsUpTo(top, l, n - 1) +
      match e
      case DirEntry(name, sub) => [FileStructure(Join(top, name), sub)]
      case _ => []
  }

  /** The immediate files among the first `n` entries of `l`. */
  function FilesUpTo(top: Path, l: Listing, n: nat): seq<Path>
    requires n <= |l.entries|
  {
    if n == 0 then []
    else
      FilesUpTo(top, l, n - 1) +
      match l.entries[n - 1]
      case FileEntry(name) => [Join(top, name)]
      case _ => []
  }

  /** What set_contains_files leaves in a tree: every node's flag becomes its old
      flag, or true when it has immediate files, or when some sub-directory's
      new flag is true. Sub-directories are annotated in every case. */
  ghost function Annotate(d: Dir): (r: Dir)
    ensures r.path == d.path && r.files == d.files && |r.dirs| == |d.dirs|
  {
    Dir(d.path,
        seq(|d.dirs|, i requires 0 <= i < |d.dirs| => Annotate(d.dirs[i])),
        d.files,
        d.containsFiles || d.files != [] || exists i :: 0 <= i < |d.dirs| && Annotate(d.dirs[i]).containsFiles)
  }

  /** list_fileless_directories: for each sub-directory in order, its own path
      when its flag is false, otherwise what the search finds below it. */
  ghost function FilelessDirs(d: Dir): seq<Path>
    decreases d, |d.dirs| + 1
  {
    FilelessUpTo(d, |d.dirs|)
  }

  /** What the search collects from the first `n` sub-directories of `d`. */
  ghost function FilelessUpTo(d: Dir, n: nat): seq<Path>
    requires n <= |d.dirs|
    decreases d, n
  {
    if n == 0 then []
    else
      var e := d.dirs[n - 1];
      FilelessUpTo(d, n - 1) + if e.containsFiles then FilelessDirs(e) else [e.path]
  }

  /** A Directory object. Its path, sub-directories and files are fixed once
      the listing has been read; only the contains_files flag changes afterwards.
      `Repr` holds the objects of the subtree; sub-directories own disjoint
      subtrees. */
  class Directory {
    const path: Path
    const directories: seq<Directory>
    const files: seq<Path>
    var containsFiles: bool
    ghost const Repr: set<Directory>

    ghost predicate Valid()
      decreases Repr
    {
      this in Repr &&
      (forall i :: 0 <= i < |directories| ==>
        directories[i] in Repr && directories[i].Repr <= Repr && this !in directories[i].Repr &&
        directories[i].Valid()) &&
      (forall i, j :: 0 <= i < j < |directories| ==> directories[i].Repr !! directories[j].Repr)
    }

    /** The value of the subtree rooted here, flags included. */
    ghost function Value(): (v: Dir)
      requires Valid()
      reads Repr
      ensures v.path == path && v.files == files && v.containsFiles == containsFiles
      ensures |v.dirs| == |directories|
      decreases Repr
    {
      Dir(path,
          seq(|directories|, i requires 0 <= i < |directories| reads Repr => directories[i].Value()),
          files,
          containsFiles)
    }

    /** The value of the subtree with every flag false; it depends on the
        structure alone, which never changes. */
    ghost function Skeleton(): (v: Dir)
      requires Valid()
      decreases Repr
    {
      Dir(path, seq(|directories|, i requires 0 <= i < |directories| => directories[i].Skeleton()), files, false)
    }

    /** No object of the subtree has its flag set. */
    ghost predicate Cleared()
      reads Repr
    {
      forall o :: o in Repr ==> !o.containsFiles
    }

    lemma ClearedValue()
      requires Valid() && Cleared()
      ensures Value() == Skeleton()
      decreases Repr
    {
      forall i | 0 <= i < |directories| {
        directories[i].ClearedValue();
      }
    }

    /** A directory with the given sub-directories and immediate files and the
        flag false. */
    constructor (path: Path, directories: seq<Directory>, files: seq<Path>, ghost below: set<Directory>)
      requires forall i :: 0 <= i < |directories| ==>
        directories[i].Valid() && directories[i] in below && directories[i].Repr <= below
      requires forall i, j :: 0 <= i < j < |directories| ==> directories[i].Repr !! directories[j].Repr
      ensures Valid() && Repr == {this} + below && !containsFiles
      ensures Skeleton().dirs == Skeletons(directories)
      ensures this.path == path && this.directories == directories && this.files == files
    {
      this.path := path;
      this.directories := directories;
      this.files := files;
      containsFiles := false;
      Repr := {this} + below;
    }

    /** set_contains_files: annotates this directory and every directory below
      it, and returns this directory's new flag. */
    method SetContainsFiles() returns (r: bool)
      requires Valid()
      modifies Repr
      ensures Value() == Annotate(old(Value()))
      ensures r == containsFiles
      decreases Repr, 1
    {
      ghost var before := Value();
      if files != [] {
        containsFiles := true;
      }
      var i := 0;
      while i < |directories|
        invariant 0 <= i <= |directories|
        invariant Annotated(before, i)
      {
        AnnotateChild(before, i);
        i := i + 1;
      }
      r := containsFiles;
    }

    /** The state of set_contains_files after its loop has visited the first
        `i` sub-directories, starting from the value `before`. */
    ghost predicate Annotated(before: Dir, i: nat)
      requires Valid()
      reads Repr
    {
      |before.dirs| == |directories| && i <= |directories| &&
      before.path == path && before.files == files &&
      (forall j :: 0 <= j < i ==> directories[j].Value() == Annotate(before.dirs[j])) &&
      (forall j :: i <= j < |directories| ==> directories[j].Value() == before.dirs[j]) &&
      containsFiles ==
        (before.containsFiles || files != [] || exists j :: 0 <= j < i && Annotate(before.dirs[j]).containsFiles)
    }

    /** One pass of the loop of set_contains_files: annotate sub-directory `i`
        and fold its flag into this one. */
    method AnnotateChild(ghost before: Dir, i: nat)
      requires Valid() && i < |directories| && Annotated(before, i)
      modifies Repr
      ensures Valid() && Annotated(before, i + 1)
      decreases Repr, 0
    {
      var c := directories[i].SetContainsFiles();
      containsFiles := c || containsFiles;
      assert forall j :: 0 <= j < i + 1 ==> directories[j].Value() == Annotate(before.dirs[j]);
      assert forall j :: i + 1 <= j < |directories| ==> directories[j].Value() == before.dirs[j];
      assert containsFiles ==
        (before.containsFiles || files != [] || exists j :: 0 <= j < i + 1 && Annotate(before.dirs[j]).containsFiles);
    }
  }

  /** Directory objects that each own a valid subtree inside `below`, no two
      of them sharing an object. */
  ghost predicate Forest(ds: seq<Directory>, below: set<Directory>) {
    (forall j :: 0 <= j < |ds| ==> ds[j].Valid() && ds[j] in below && ds[j].Repr <= below) &&
    (forall j, k :: 0 <= j < k < |ds| ==> ds[j].Repr !! ds[k].Repr)
  }

  lemma ForestAppend(ds: seq<Directory>, below: set<Directory>, c: Directory)
    requires Forest(ds, below) && c.Valid() && c.Repr !! below
    ensures Forest(ds + [c], below + c.Repr)
  {
    assert c in c.Repr;
  }

  /** The skeletons of the subtrees rooted at `ds`, in order. */
  ghost function Skeletons(ds: seq<Directory>): (vs: seq<Dir>)
    requires forall j :: 0 <= j < |ds| ==> ds[j].Valid()
    ensures |vs| == |ds|
    ensures forall j :: 0 <= j < |ds| ==> vs[j] == ds[j].Skeleton()
  {
    if ds == [] then [] else Skeletons(ds[..|ds| - 1]) + [ds[|ds| - 1].Skeleton()]
  }

  /** No object of `below` has its flag set. */
  ghost predicate AllCleared(below: set<Directory>)
    reads below
  {
    forall o :: o in below ==> !o.containsFiles
  }

  /** globus_get_file_structure over a given listing: a fresh Directory tree
      whose value is the tree the listing describes, every flag false. */
  method GetFileStructure(top: Path, l: Listing) returns (d: Directory)
    ensures d.Valid() && fresh(d.Repr) && d.Cleared()
    ensures d.Skeleton() == FileStructure(top, l)
    ensures d.Value() == FileStructure(top, l)
    decreases l, 2
  {
    var dirs, files, below := ReadEntries(top, l);
    d := new Directory(top, dirs, files, below);
    d.ClearedValue();
  }

  /** The state of the loop of globus_get_file_structure after it has read
      the first `i` entries: the sub-directory trees and the file paths of
      those entries, in order, each tree unannotated and owning its own
      objects of `below`. */
  ghost predicate Gathered(top: Path, l: Listing, i: nat, dirs: seq<Directory>, files: seq<Path>, below: set<Directory>)
    reads below
  {
    i <= |l.entries| && Forest(dirs, below) && AllCleared(below) &&
    files == FilesUpTo(top, l, i) && Skeletons(dirs) == SubdirsUpTo(top, l, i)
  }

  /** The loop of globus_get_file_structure: the sub-directory trees and the
      file paths of every entry of the listing, in order. */
  method ReadEntries(top: Path, l: Listing) returns (dirs: seq<Directory>, files: seq<Path>, ghost below: set<Directory>)
    ensures fresh(below) && Gathered(top, l, |l.entries|, dirs, files, below)
    decreases l, 1
  {
    dirs, files, below := [], [], {};
    var i := 0;
    while i < |l.entries|
      invariant i <= |l.entries|
      invariant forall o :: o in below ==> fresh(o)
      invariant Gathered(top, l, i, dirs, files, below)
    {
      dirs, files, below := AddEntry(top, l, i, dirs, files, below);
      i := i + 1;
    }
  }

  /** One step of globus_get_file_structure: entry `i` of the listing becomes
      a new sub-directory tree, a file path, or nothing. */
  method AddEntry(top: Path, l: Listing, i: nat, dirs: seq<Directory>, files: seq<Path>, ghost below: set<Directory>)
    returns (dirs': seq<Directory>, files': seq<Path>, ghost below': set<Directory>)
    requires i < |l.entries| && Gathered(top, l, i, dirs, files, below)
    ensures fresh(below' - below) && below <= below' && Gathered(top, l, i + 1, dirs', files', below')
    decreases l, 0
  {
    var e := l.entries[i];
    assert e in l.entries;
    dirs', files', below' := dirs, files, below;
    match e {
      case DirEntry(name, sub) =>
        assert SubdirsUpTo(top, l, i + 1) == SubdirsUpTo(top, l, i) + [FileStructure(Join(top, name), sub)];
        assert FilesUpTo(top, l, i + 1) == files;
        var child := GetFileStructure(Join(top, name), sub);
        ForestAppend(dirs, below, child);
        dirs' := dirs + [child];
        below' := below + child.Repr;
        assert Skeletons(dirs') == Skeletons(dirs) + [child.Skeleton()];
      case FileEntry(name) =>
        assert SubdirsUpTo(top, l, i + 1) == SubdirsUpTo(top, l, i);
        files' := files + [Join(top, name)];
      case OtherEntry(_) =>
        assert SubdirsUpTo(top, l, i + 1) == SubdirsUpTo(top, l, i);
    }
  }

  /** list_fileless_directories: reads the flags of the sub-directories, in
      order, and descends only into those whose flag is set. */
  method ListFilelessDirectories(d: Directory) returns (paths: seq<Path>)
    requires d.Valid()
    ensures paths == FilelessDirs(d.Value())
    decreases d.Repr
  {
    paths := [];
    var i := 0;
    while i < |d.directories|
      invariant 0 <= i <= |d.directories|
      invariant paths == FilelessUpTo(d.Value(), i)
    {
      var entry := d.directories[i];
      assert d.Value().dirs[i] == entry.Value();
      if entry.containsFiles {
        var below := ListFilelessDirectories(entry);
        paths := paths + below;
      } else {
        paths := paths + [entry.path];
      }
      i := i + 1;
    }
  }

  // ---------------------------------------------------------------------------
  // Delete requests

  /** A delete submitted to the service: the endpoint, the task label, whether
      directories are removed with their contents, and the items in order. */
  datatype DeleteRequest = DeleteRequest(endpoint: string, taskLabel: string, recursive: bool, items: seq<Path>)

  /** globus_delete_paths: nothing is submitted for an empty list; otherwise
      one recursive delete holding every path, in order. */
  method DeletePaths(deleteName: string, endpoint: string, paths: seq<Path>) returns (r: Option<DeleteRequest>)
    ensures r.None? <==> paths == []
    ensures r.Some? ==> r.value.endpoint == endpoint && r.value.taskLabel == deleteName && r.value.recursive
    ensures r.Some? ==> r.value.items == paths
  {
    if paths == [] {
      return None;
    }
    var data := DeleteRequest(endpoint, deleteName, true, []);
    var i := 0;
    while i < |paths|
      invariant 0 <= i <= |paths|
      invariant data == DeleteRequest(endpoint, deleteName, true, paths[..i])
    {
      data := data.(items := data.items + [paths[i]]);
      i := i + 1;
    }
    assert paths[..i] == paths;
    r := Some(data);
  }

  /** The tree of `top` after set_contains_files. */
  ghost function AnnotatedStructure(top: Path, l: Listing): Dir {
    Annotate(FileStructure(top, l))
  }

  /** The paths globus_delete_empty_directories asks to delete below `top`,
      given the recursive listing of `top`. */
  ghost function EmptyDirectories(top: Path, l: Listing): seq<Path> {
    FilelessDirs(AnnotatedStructure(top, l))
  }

  /** globus_delete_empty_directories: build the tree, annotate it, collect
      the shallowest fileless sub-directories and delete them, if any. */
  method DeleteEmptyDirectories(deleteName: string, endpoint: string, top: Path, l: Listing)
    returns (r: Option<DeleteRequest>)
    ensures r.None? <==> EmptyDirectories(top, l) == []
    ensures r.Some? ==> r.value == DeleteRequest(endpoint, deleteName, true, EmptyDirectories(top, l))
  {
    var topDirectory := GetFileStructure(top, l);
    var _ := topDirectory.SetContainsFiles();
    var deletable := ListFilelessDirectories(topDirectory);
    r := DeletePaths(deleteName, endpoint, deletable);
  }

  // ---------------------------------------------------------------------------
  // Sync requests

  /** One item of a transfer: a source path, a destination path, and whether
      a directory is transferred with everything below it. */
  datatype TransferItem = TransferItem(source: Path, destination: Path, recursive: bool)

  /** A transfer submitted to the service: the task label, both endpoints,
      the sync level, whether the data is encrypted, and the items. */
  datatype TransferRequest = TransferRequest(
    taskLabel: string,
    srcId: string,
    dstId: string,
    syncLevel: string,
    encryptData: bool,
    items: seq<TransferItem>)

  /** globus_sync_directory: one encrypted transfer, synced by checksum, whose
      only item is the source directory, recursively, onto the destination
      directory. */
  function SyncRequest(name: string, srcId: string, dstId: string, srcPath: Path, dstPath: Path): (r: TransferRequest)
    ensures r.taskLabel == name && r.srcId == srcId && r.dstId == dstId
    ensures r.syncLevel == "checksum" && r.encryptData
    ensures r.items == [TransferItem(srcPath, dstPath, true)]
  {
    var data := TransferRequest(name, srcId, dstId, "checksum", true, []);
    data.(items := data.items + [TransferItem(srcPath, dstPath, true)])
  }

  // ---------------------------------------------------------------------------
  // Transfer names

  const TransferPrefix := "AUTO_TRANSFER_"
  const DeletePrefix := "AUTO_DELETE_"

  /** globus_transfer_name: "ERROR" for a type other than 0 (transfer) or 1
      (delete); otherwise "AUTO_", the kind and the formatted time. */
  function TransferName(transferType: int, timestamp: string): (name: string)
    ensures transferType != 0 && transferType != 1 <==> name == "ERROR"
    ensures transferType == 0 ==> name == TransferPrefix + timestamp
    ensures transferType == 1 ==> name == DeletePrefix + timestamp
  {
    if transferType != 0 && transferType != 1 then "ERROR"
    else "AUTO_" + (if transferType == 0 then "TRANSFER_" else "DELETE_") + timestamp
  }

  /** Recovers the type and the time text from a name TransferName built. */
  function ParseTransferName(name: string): (r: Option<(int, string)>)
    ensures r.Some? ==> r.value.0 == 0 || r.value.0 == 1
  {
    if |TransferPrefix| <= |name| && name[..|TransferPrefix|] == TransferPrefix then
      Some((0, name[|TransferPrefix|..]))
    else if |DeletePrefix| <= |name| && name[..|DeletePrefix|] == DeletePrefix then
      Some((1, name[|DeletePrefix|..]))
    else None
  }

  /** Names of the two kinds never collide with each other or with "ERROR":
      parsing a name recovers the type and the time it was built from. */
  lemma TransferNameRoundTrip(transferType: int, timestamp: string)
    requires transferType == 0 || transferType == 1
    ensures ParseTransferName(TransferName(transferType, timestamp)) == Some((transferType, timestamp))
  {
    var name := TransferName(transferType, timestamp);
    if transferType == 1 {
      assert name[5] == 'D' && TransferPrefix[5] == 'T';
      assert !(|TransferPrefix| <= |name| && name[..|TransferPrefix|] == TransferPrefix);
    }
  }

  /** Every name that parses is the name of what it parses to. */
  lemma ParseTransferNameSound(name: string)
    requires ParseTransferName(name).Some?
    ensures TransferName(ParseTransferName(name).value.0, ParseTransferName(name).value.1) == name
  {
    var r := ParseTransferName(name).value;
    if r.0 == 0 {
      assert name == TransferPrefix + name[|TransferPrefix|..];
    } else {
      assert name == DeletePrefix + name[|DeletePrefix|..];
    }
  }

  lemma ErrorNameDoesNotParse()
    ensures ParseTransferName("ERROR").None?
  {
    assert "ERROR"[0] != TransferPrefix[0];
  }
}
