/** What set_contains_files, list_fileless_directories, globus_list_files and
    globus_get_file_structure guarantee, stated over the values of the trees. */
module UtilsFacts {
  import opened Common
  import opened Utils

  // ---------------------------------------------------------------------------
  // set_contains_files

  /** The flag set_contains_files returns: true exactly when the node's flag
      was already set somewhere in its subtree or the subtree holds a file. */
  lemma {:induction false} AnnotateFlag(d: Dir)
    ensures Annotate(d).containsFiles == (AnyFlag(d) || HasFiles(d))
  {
    forall i | 0 <= i < |d.dirs| {
      AnnotateFlag(d.dirs[i]);
    }
    if exists i :: 0 <= i < |d.dirs| && Annotate(d.dirs[i]).containsFiles {
      var i :| 0 <= i < |d.dirs| && Annotate(d.dirs[i]).containsFiles;
      assert AnyFlag(d.dirs[i]) || HasFiles(d.dirs[i]);
    }
    if AnyFlag(d) && !d.containsFiles {
      var i :| 0 <= i < |d.dirs| && AnyFlag(d.dirs[i]);
      assert Annotate(d.dirs[i]).containsFiles;
    }
    if HasFiles(d) && d.files == [] {
      var i :| 0 <= i < |d.dirs| && HasFiles(d.dirs[i]);
      assert Annotate(d.dirs[i]).containsFiles;
    }
  }

  /** Annotation changes flags only, so a subtree holds files after it exactly
      when it did before. */
  lemma {:induction false} AnnotateHasFiles(d: Dir)
    ensures HasFiles(Annotate(d)) == HasFiles(d)
  {
    var a := Annotate(d);
    forall i | 0 <= i < |d.dirs|
      ensures HasFiles(a.dirs[i]) == HasFiles(d.dirs[i])
    {
      AnnotateHasFiles(d.dirs[i]);
    }
    if HasFiles(d) && d.files == [] {
      var i :| 0 <= i < |d.dirs| && HasFiles(d.dirs[i]);
      assert HasFiles(a.dirs[i]);
    }
    if HasFiles(a) && a.files == [] {
      var i :| 0 <= i < |a.dirs| && HasFiles(a.dirs[i]);
      assert HasFiles(d.dirs[i]);
    }
  }

  /** On a tree fresh from globus_get_file_structure (no flag set) every node,
      the root and each descendant, ends with the flag "my subtree holds a
      file". */
  lemma {:induction false} AnnotateCorrect(d: Dir)
    requires !AnyFlag(d)
    ensures CorrectlyAnnotated(Annotate(d))
  {
    AnnotateFlag(d);
    AnnotateHasFiles(d);
    forall i | 0 <= i < |d.dirs|
      ensures CorrectlyAnnotated(Annotate(d).dirs[i])
    {
      AnnotateCorrect(d.dirs[i]);
    }
  }

  /** `b` has the shape, paths and files of `a`, and every flag set in `a` is
      set in `b`. */
  ghost predicate FlagsGrow(a: Dir, b: Dir) {
    a.path == b.path && a.files == b.files && |a.dirs| == |b.dirs| &&
    (a.containsFiles ==> b.containsFiles) &&
    forall i :: 0 <= i < |a.dirs| ==> FlagsGrow(a.dirs[i], b.dirs[i])
  }

  /** set_contains_files never clears a flag and changes nothing but flags. */
  lemma {:induction false} AnnotateMonotone(d: Dir)
    ensures FlagsGrow(d, Annotate(d))
  {
    forall i | 0 <= i < |d.dirs|
      ensures FlagsGrow(d.dirs[i], Annotate(d).dirs[i])
    {
      AnnotateMonotone(d.dirs[i]);
    }
  }

  /** A second call of set_contains_files changes nothing. */
  lemma {:induction false} AnnotateIdempotent(d: Dir)
    ensures Annotate(Annotate(d)) == Annotate(d)
  {
    var a := Annotate(d);
    forall i | 0 <= i < |d.dirs|
      ensures Annotate(a.dirs[i]) == a.dirs[i]
    {
      AnnotateIdempotent(d.dirs[i]);
    }
    assert Annotate(a).dirs == a.dirs;
  }

  // ---------------------------------------------------------------------------
  // list_fileless_directories

  /** `p` lists child indexes leading from `d` down to one of its nodes. */
  ghost predicate IsPos(d: Dir, p: seq<nat>)
    decreases |p|
  {
    p == [] || (p[0] < |d.dirs| && IsPos(d.dirs[p[0]], p[1..]))
  }

  /** The node of `d` at position `p`. */
  ghost function At(d: Dir, p: seq<nat>): Dir
    requires IsPos(d, p)
    decreases |p|
  {
    if p == [] then d else At(d.dirs[p[0]], p[1..])
  }

  /** The node at `p` is a strict descendant of `d` whose flag is false while
      the flag of every node strictly between `d` and it is true: the search
      reaches it and stops there. */
  ghost predicate Selected(d: Dir, p: seq<nat>)
    decreases |p|
  {
    1 <= |p| && p[0] < |d.dirs| &&
    if |p| == 1 then !d.dirs[p[0]].containsFiles
    else d.dirs[p[0]].containsFiles && Selected(d.dirs[p[0]], p[1..])
  }

  lemma {:induction false} SelectedIsPos(d: Dir, p: seq<nat>)
    requires Selected(d, p)
    ensures IsPos(d, p)
    decreases |p|
  {
    if |p| > 1 {
      SelectedIsPos(d.dirs[p[0]], p[1..]);
    }
  }

  /** list_fileless_directories returns the paths of the selected nodes and
      nothing else; in particular never the node `d` itself, since a selected
      position is never empty. */
  lemma FilelessDirsSelected(d: Dir, x: Path)
    ensures x in FilelessDirs(d) <==> exists p :: IsPos(d, p) && Selected(d, p) && At(d, p).path == x
  {
    if x in FilelessDirs(d) {
      FilelessUpToFound(d, |d.dirs|, x);
    }
    if exists p :: IsPos(d, p) && Selected(d, p) && At(d, p).path == x {
      var p :| IsPos(d, p) && Selected(d, p) && At(d, p).path == x;
      SelectedListed(d, p, |d.dirs|);
    }
  }

  /** Every path the search collects from the first `n` sub-directories is the
      path of a selected node below one of them. */
  lemma {:induction false} FilelessUpToFound(d: Dir, n: nat, x: Path)
    requires n <= |d.dirs| && x in FilelessUpTo(d, n)
    ensures exists p :: IsPos(d, p) && Selected(d, p) && p[0] < n && At(d, p).path == x
    decreases d, n
  {
    var e := d.dirs[n - 1];
    if x in FilelessUpTo(d, n - 1) {
      FilelessUpToFound(d, n - 1, x);
    } else if e.containsFiles {
      FilelessUpToFound(e, |e.dirs|, x);
      var q :| IsPos(e, q) && Selected(e, q) && q[0] < |e.dirs| && At(e, q).path == x;
      var p := [n - 1] + q;
      assert p[1..] == q;
      assert At(d, p) == At(e, q);
      assert IsPos(d, p) && Selected(d, p) && p[0] < n && At(d, p).path == x;
    } else {
      var p := [n - 1];
      assert p[1..] == [];
      assert At(d, p) == At(e, []);
      assert IsPos(d, p) && Selected(d, p) && p[0] < n && At(d, p).path == x;
    }
  }

  /** The search collects the path of every selected node below the first `n`
      sub-directories. */
  lemma {:induction false} SelectedListed(d: Dir, p: seq<nat>, n: nat)
    requires Selected(d, p) && p[0] < n <= |d.dirs|
    ensures IsPos(d, p) && At(d, p).path in FilelessUpTo(d, n)
    decreases d, n
  {
    SelectedIsPos(d, p);
    var e := d.dirs[n - 1];
    if p[0] < n - 1 {
      SelectedListed(d, p, n - 1);
    } else if |p| > 1 {
      SelectedListed(e, p[1..], |e.dirs|);
    }
  }

  /** Soundness: on a correctly annotated tree every selected node holds no
      file anywhere below it. */
  lemma {:induction false} SelectedHasNoFiles(d: Dir, p: seq<nat>)
    requires CorrectlyAnnotated(d) && Selected(d, p)
    ensures IsPos(d, p) && !HasFiles(At(d, p))
    decreases |p|
  {
    SelectedIsPos(d, p);
    if |p| > 1 {
      SelectedHasNoFiles(d.dirs[p[0]], p[1..]);
    }
  }

  /** Shallowest: no selected node lies strictly below another selected node. */
  lemma {:induction false} SelectedShallowest(d: Dir, p: seq<nat>, q: seq<nat>)
    requires Selected(d, p) && Selected(d, q) && |p| < |q|
    ensures q[..|p|] != p
    decreases |p|
  {
    if q[..|p|] == p && |p| > 1 {
      assert q[1..][..|p| - 1] == p[1..];
      SelectedShallowest(d.dirs[p[0]], p[1..], q[1..]);
    }
  }

  /** Completeness: on a correctly annotated tree every strict descendant that
      holds no file is selected or lies below a selected node. */
  lemma {:induction false} FilelessComplete(d: Dir, q: seq<nat>)
    requires CorrectlyAnnotated(d) && IsPos(d, q) && 1 <= |q| && !HasFiles(At(d, q))
    ensures exists k :: 1 <= k <= |q| && Selected(d, q[..k])
    decreases |q|
  {
    var e := d.dirs[q[0]];
    if !e.containsFiles {
      assert Selected(d, q[..1]);
    } else {
      if |q| == 1 {
        assert false;
      }
      FilelessComplete(e, q[1..]);
      var k :| 1 <= k <= |q| - 1 && Selected(e, q[1..][..k]);
      assert q[..k + 1][1..] == q[1..][..k];
      assert Selected(d, q[..k + 1]);
    }
  }

  // ---------------------------------------------------------------------------
  // globus_list_files and globus_get_file_structure

  /** The file `f` is an immediate file of some node of `d`. */
  ghost predicate FileIn(d: Dir, f: Path) {
    f in d.files || exists i :: 0 <= i < |d.dirs| && FileIn(d.dirs[i], f)
  }

  lemma {:induction false} HasFilesIff(d: Dir)
    ensures HasFiles(d) <==> exists f :: FileIn(d, f)
  {
    forall i | 0 <= i < |d.dirs| {
      HasFilesIff(d.dirs[i]);
    }
    if d.files != [] {
      assert FileIn(d, d.files[0]);
    }
    if HasFiles(d) && d.files == [] {
      var i :| 0 <= i < |d.dirs| && HasFiles(d.dirs[i]);
      var f :| FileIn(d.dirs[i], f);
      assert FileIn(d, f);
    }
    if exists f :: FileIn(d, f) {
      var f :| FileIn(d, f);
      if f !in d.files {
        var i :| 0 <= i < |d.dirs| && FileIn(d.dirs[i], f);
        assert HasFiles(d.dirs[i]);
        assert HasFiles(d);
      }
    }
  }

  /** `f` is the joined path of a file entry of the listing of `top`, or is
      listed below one of its directory entries. */
  ghost predicate Listed(top: Path, l: Listing, f: Path)
    decreases l, 2
  {
    ListedUpTo(top, l, |l.entries|, f)
  }

  /** The same for the first `n` entries of the listing. */
  ghost predicate ListedUpTo(top: Path, l: Listing, n: nat, f: Path)
    requires n <= |l.entries|
    decreases l, 1
  {
    exists k :: 0 <= k < n && EntryLists(top, l, k, f)
  }

  /** Entry `k` of the listing of `top` contributes `f`. */
  ghost predicate EntryLists(top: Path, l: Listing, k: nat, f: Path)
    requires k < |l.entries|
    decreases l, 0
  {
    var e := l.entries[k];
    assert e in l.entries;
    match e
    case FileEntry(name) => f == Join(top, name)
    case DirEntry(name, sub) => Listed(Join(top, name), sub, f)
    case OtherEntry(_) => false
  }

  /** globus_list_files returns exactly the listed paths: the joined path of
      every file entry, and what it returns for every directory entry; entries
      of other types contribute nothing. */
  lemma ListFilesListed(top: Path, l: Listing, f: Path)
    ensures f in ListFiles(top, l) <==> Listed(top, l, f)
    decreases l, 1
  {
    assert ListFiles(top, l) == ListFilesUpTo(top, l, |l.entries|);
    ListFilesUpToListed(top, l, |l.entries|, f);
  }

  /** The same for the first `n` entries of a listing. */
  lemma {:induction false} ListFilesUpToListed(top: Path, l: Listing, n: nat, f: Path)
    requires n <= |l.entries|
    ensures f in ListFilesUpTo(top, l, n) <==> ListedUpTo(top, l, n, f)
    decreases l, 0, n, 1
  {
    if n > 0 {
      ListFilesUpToListed(top, l, n - 1, f);
      ListedStep(top, l, n, f);
      if EntryLists(top, l, n - 1, f) {
        assert 0 <= n - 1 < n && EntryLists(top, l, n - 1, f);
      }
      if exists k :: 0 <= k < n && EntryLists(top, l, k, f) {
        var k :| 0 <= k < n && EntryLists(top, l, k, f);
        if k < n - 1 {
          assert 0 <= k < n - 1 && EntryLists(top, l, k, f);
        }
      }
    }
  }

  /** Entry `n - 1` adds to the listing exactly the paths it contributes. */
  lemma ListedStep(top: Path, l: Listing, n: nat, f: Path)
    requires 0 < n <= |l.entries|
    ensures f in ListFilesUpTo(top, l, n) <==> f in ListFilesUpTo(top, l, n - 1) || EntryLists(top, l, n - 1, f)
    decreases l, 0, n, 0
  {
    var e := l.entries[n - 1];
    assert e in l.entries;
    var added := match e
      case FileEntry(name) => [Join(top, name)]
      case DirEntry(name, sub) => ListFiles(Join(top, name), sub)
      case OtherEntry(_) => [];
    assert ListFilesUpTo(top, l, n) == ListFilesUpTo(top, l, n - 1) + added;
    if e.DirEntry? {
      ListFilesListed(Join(top, e.name), e.sub, f);
    }
  }

  /** `f` is a file somewhere below one of the trees `ds`. */
  ghost predicate InSome(ds: seq<Dir>, f: Path) {
    exists j :: 0 <= j < |ds| && FileIn(ds[j], f)
  }

  lemma InSomeAppend(ds: seq<Dir>, t: Dir, f: Path)
    ensures InSome(ds + [t], f) <==> InSome(ds, f) || FileIn(t, f)
  {
    if FileIn(t, f) {
      assert (ds + [t])[|ds|] == t;
    }
    if InSome(ds, f) {
      var j :| 0 <= j < |ds| && FileIn(ds[j], f);
      assert (ds + [t])[j] == ds[j];
    }
  }

  /** globus_list_files and globus_get_file_structure agree: a path is listed
      exactly when it is a file of the tree built from the same listing. */
  lemma ListFilesTree(top: Path, l: Listing, f: Path)
    ensures f in ListFiles(top, l) <==> FileIn(FileStructure(top, l), f)
    decreases l, 1
  {
    ListFilesUpToTree(top, l, |l.entries|, f);
  }

  /** `f` is listed from the first `n` entries exactly when it is one of their
      files or lies in one of their sub-directory trees. */
  ghost predicate Agrees(top: Path, l: Listing, n: nat, f: Path)
    requires n <= |l.entries|
  {
    f in ListFilesUpTo(top, l, n) <==> f in FilesUpTo(top, l, n) || InSome(SubdirsUpTo(top, l, n), f)
  }

  lemma {:induction false} ListFilesUpToTree(top: Path, l: Listing, n: nat, f: Path)
    requires n <= |l.entries|
    ensures Agrees(top, l, n, f)
    decreases l, 0, n, 1
  {
    if n == 0 {
      return;
    }
    ListFilesUpToTree(top, l, n - 1, f);
    var e := l.entries[n - 1];
    if e.DirEntry? {
      DirEntryTree(top, l, n, f);
    } else {
      FlatEntryTree(top, l, n, f);
    }
  }

  /** The step of ListFilesUpToTree for a file entry or an entry of another
      type: the sub-directory trees do not change. */
  lemma FlatEntryTree(top: Path, l: Listing, n: nat, f: Path)
    requires 0 < n <= |l.entries| && !l.entries[n - 1].DirEntry?
    requires Agrees(top, l, n - 1, f)
    ensures Agrees(top, l, n, f)
  {
    var added := if l.entries[n - 1].FileEntry? then [Join(top, l.entries[n - 1].name)] else [];
    assert ListFilesUpTo(top, l, n) == ListFilesUpTo(top, l, n - 1) + added;
    assert FilesUpTo(top, l, n) == FilesUpTo(top, l, n - 1) + added;
    assert SubdirsUpTo(top, l, n) == SubdirsUpTo(top, l, n - 1);
  }

  /** The step of ListFilesUpToTree for a sub-directory entry. */
  lemma DirEntryTree(top: Path, l: Listing, n: nat, f: Path)
    requires 0 < n <= |l.entries| && l.entries[n - 1].DirEntry?
    requires Agrees(top, l, n - 1, f)
    ensures Agrees(top, l, n, f)
    decreases l, 0, n, 0
  {
    var e := l.entries[n - 1];
    assert e in l.entries;
    var sub := Join(top, e.name);
    ListFilesTree(sub, e.sub, f);
    var t := FileStructure(sub, e.sub);
    assert ListFilesUpTo(top, l, n) == ListFilesUpTo(top, l, n - 1) + ListFiles(sub, e.sub);
    assert FilesUpTo(top, l, n) == FilesUpTo(top, l, n - 1);
    assert SubdirsUpTo(top, l, n) == SubdirsUpTo(top, l, n - 1) + [t];
    InSomeAppend(SubdirsUpTo(top, l, n - 1), t, f);
  }

  /** The flag set_contains_files leaves on the top directory says whether
      globus_list_files finds any file below it. */
  lemma TopFlagMeansFiles(top: Path, l: Listing)
    ensures Annotate(FileStructure(top, l)).containsFiles <==> ListFiles(top, l) != []
  {
    var t := FileStructure(top, l);
    AnnotateFlag(t);
    HasFilesIff(t);
    if ListFiles(top, l) != [] {
      ListFilesTree(top, l, ListFiles(top, l)[0]);
    }
    if exists f :: FileIn(t, f) {
      var f :| FileIn(t, f);
      ListFilesTree(top, l, f);
    }
  }

  // ---------------------------------------------------------------------------
  // globus_delete_empty_directories

  /** What globus_delete_empty_directories deletes, for a listing of `top`:
      exactly the paths of the selected nodes of the annotated tree, those
      sub-directories whose flag is false while every directory between them
      and `top` is flagged. */
  lemma EmptyDirectoriesSelected(top: Path, l: Listing, x: Path)
    ensures x in EmptyDirectories(top, l) <==>
      exists p :: IsPos(AnnotatedStructure(top, l), p) && Selected(AnnotatedStructure(top, l), p) &&
        At(AnnotatedStructure(top, l), p).path == x
  {
    FilelessDirsSelected(AnnotatedStructure(top, l), x);
  }

  /** The annotated tree is correctly annotated, so by SelectedHasNoFiles,
      SelectedShallowest and FilelessComplete each deleted directory holds no
      file, none lies below another, and every fileless sub-directory is
      deleted or lies below a deleted one. */
  lemma AnnotatedStructureCorrect(top: Path, l: Listing)
    ensures CorrectlyAnnotated(AnnotatedStructure(top, l))
  {
    AnnotateCorrect(FileStructure(top, l));
  }

  // ---------------------------------------------------------------------------
  // The top directory is never deleted

  /** Every entry name of the listing, at every depth, is a plain name as the
      listing service returns it: non-empty and without a '/'. */
  ghost predicate PlainNames(l: Listing) {
    forall e :: e in l.entries ==> |e.name| > 0 && '/' !in e.name && (e.DirEntry? ==> PlainNames(e.sub))
  }

  /** The path of every sub-directory extends the path of its parent, at every
      depth of the tree. */
  ghost predicate Deeper(d: Dir) {
    forall i :: 0 <= i < |d.dirs| ==> d.path < d.dirs[i].path && Deeper(d.dirs[i])
  }

  /** Joining a plain name onto a directory extends the directory's path. */
  lemma JoinExtends(top: Path, name: string)
    requires |name| > 0 && '/' !in name
    ensures top < Join(top, name)
  {
    assert name[0] in name;
    var r := Join(top, name);
    assert r[..|top|] == top;
  }

  /** With plain names the tree globus_get_file_structure builds is `Deeper`. */
  lemma {:induction false} StructureDeeper(top: Path, l: Listing)
    requires PlainNames(l)
    ensures Deeper(FileStructure(top, l))
    decreases l, 1
  {
    SubdirsDeeper(top, l, |l.entries|);
  }

  /** The same for the sub-directory trees of the first `n` entries, whose
      paths also extend `top`. */
  lemma {:induction false} SubdirsDeeper(top: Path, l: Listing, n: nat)
    requires PlainNames(l) && n <= |l.entries|
    ensures forall j :: 0 <= j < |SubdirsUpTo(top, l, n)| ==>
      top < SubdirsUpTo(top, l, n)[j].path && Deeper(SubdirsUpTo(top, l, n)[j])
    decreases l, 0, n
  {
    if n > 0 {
      SubdirsDeeper(top, l, n - 1);
      var e := l.entries[n - 1];
      assert e in l.entries;
      if e.DirEntry? {
        JoinExtends(top, e.name);
        StructureDeeper(Join(top, e.name), e.sub);
        assert SubdirsUpTo(top, l, n) == SubdirsUpTo(top, l, n - 1) + [FileStructure(Join(top, e.name), e.sub)];
      } else {
        assert SubdirsUpTo(top, l, n) == SubdirsUpTo(top, l, n - 1);
      }
    }
  }

  /** set_contains_files changes no path, so it keeps a tree `Deeper`. */
  lemma {:induction false} AnnotateDeeper(d: Dir)
    requires Deeper(d)
    ensures Deeper(Annotate(d))
  {
    forall i | 0 <= i < |d.dirs| {
      AnnotateDeeper(d.dirs[i]);
    }
  }

  /** In a `Deeper` tree every path the search collects from the first `n`
      sub-directories extends the path of `d`. */
  lemma {:induction false} FilelessDeeper(d: Dir, n: nat, x: Path)
    requires Deeper(d) && n <= |d.dirs| && x in FilelessUpTo(d, n)
    ensures d.path < x
    decreases d, n
  {
    assert n > 0;
    var e := d.dirs[n - 1];
    if x in FilelessUpTo(d, n - 1) {
      FilelessDeeper(d, n - 1, x);
    } else if e.containsFiles {
      FilelessDeeper(e, |e.dirs|, x);
    }
  }

  /** When every name in the listing is plain, each path
      globus_delete_empty_directories deletes lies strictly below `top`: `top`
      is a proper prefix of it, so `top` itself is never deleted. */
  lemma EmptyDirectoriesBelowTop(top: Path, l: Listing, x: Path)
    requires PlainNames(l) && x in EmptyDirectories(top, l)
    ensures top < x && x != top
  {
    StructureDeeper(top, l);
    AnnotateDeeper(FileStructure(top, l));
    FilelessDeeper(AnnotatedStructure(top, l), |AnnotatedStructure(top, l).dirs|, x);
  }
}
