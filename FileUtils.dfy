/**
 * The file helpers, over an abstract file system: a tree of directories and
 * regular files kept as a map from absolute path to node. The platform's
 * documents directory is a fixed path, directory and file URLs are built
 * under it by appending names verbatim, creation is guarded by an existence
 * check, removal takes a whole subtree, and size queries fall back to 0
 * whenever something cannot be read.
 */
module FileUtils {
  import opened Wrappers

  newtype byte = x: int | 0 <= x < 256

  /** An absolute path: the names from the file-system root down; [] is the root. */
  type Path = seq<string>

  datatype Node = Dir | File(contents: seq<byte>)

  /** The errors FileUtils throws itself. */
  datatype FileIOError = IsExist | FailedToSave

  /** Everything a call can throw: FileUtils' own errors and the file system's. */
  datatype FileError =
    | FileIO(reason: FileIOError)
    | NoSuchFile      // removal of a path where nothing exists
    | NotADirectory   // directory creation below a regular file
    | NotPermitted    // removal of the file-system root

  datatype Outcome = Pass | Fail(error: FileError)

  /** The user's documents directory, a fixed location in this model. */
  const DocumentsPath: Path := ["Documents"]

  // ---------------------------------------------------------------------------
  // Paths
  // ---------------------------------------------------------------------------

  /** `p` is `q` or one of its ancestors. */
  predicate IsPrefix(p: Path, q: Path)
  {
    |p| <= |q| && q[..|p|] == p
  }

  function Parent(p: Path): Path
    requires p != []
  {
    p[..|p| - 1]
  }

  /**
   * `URL.makeURL(withPath:fileName:)`: the directory path under the documents
   * directory, with the file name appended when there is one.
   */
  function MakeURL(path: Path, fileName: Option<string>): (url: Path)
    ensures IsPrefix(DocumentsPath, url)
    ensures |url| == |DocumentsPath| + |path| + (if fileName.Some? then 1 else 0)
    ensures url[|DocumentsPath|..|DocumentsPath| + |path|] == path
    ensures fileName.Some? ==> url[|url| - 1] == fileName.value
  {
    match fileName
    case None => DocumentsPath + path
    case Some(name) => DocumentsPath + path + [name]
  }

  /** The file URL sits directly in the directory URL: `removeFolder` and `isExistFile` resolve under the same folder. */
  lemma FileURLInFolderURL(path: Path, fileName: string)
    ensures MakeURL(path, Some(fileName)) != []
    ensures Parent(MakeURL(path, Some(fileName))) == MakeURL(path, None)
  {
  }

  // ---------------------------------------------------------------------------
  // The tree
  // ---------------------------------------------------------------------------

  /** The root is a directory, and every other entry sits in an existing directory. */
  predicate WellFormed(entries: map<Path, Node>)
  {
    && [] in entries && entries[[]] == Dir
    && forall p :: p in entries && p != [] ==> Parent(p) in entries && entries[Parent(p)] == Dir
  }

  /** In a well-formed tree every proper ancestor of an entry is a directory. */
  lemma {:induction false} AncestorsAreDirs(entries: map<Path, Node>, p: Path, k: nat)
    requires WellFormed(entries) && p in entries && k < |p|
    ensures p[..k] in entries && entries[p[..k]] == Dir
    decreases |p|
  {
    var q := Parent(p);
    if k == |p| - 1 {
      assert p[..k] == q;
    } else {
      AncestorsAreDirs(entries, q, k);
      assert q[..k] == p[..k];
    }
  }

  /** Some proper ancestor of `url` is a regular file, so no directory can be made there. */
  predicate BlockedByFile(entries: map<Path, Node>, url: Path)
  {
    exists k :: 0 <= k < |url| && url[..k] in entries && entries[url[..k]].File?
  }

  function Prefixes(url: Path): set<Path>
  {
    set k | 0 <= k <= |url| :: url[..k]
  }

  /** The tree after `createDirectory(withIntermediateDirectories: true)`. */
  function WithDirs(entries: map<Path, Node>, url: Path): map<Path, Node>
  {
    entries + map p | p in Prefixes(url) && p !in entries :: Dir
  }

  /** The tree after `removeItem`: the entry and everything below it are gone. */
  function WithoutSubtree(entries: map<Path, Node>, url: Path): map<Path, Node>
  {
    map p | p in entries && !IsPrefix(url, p) :: entries[p]
  }

  /**
   * Creating a directory with its intermediates makes `url` and every
   * ancestor a directory, adds nothing else, changes no existing entry and
   * keeps the tree well formed.
   */
  lemma WithDirsCreatesPath(entries: map<Path, Node>, url: Path)
    requires WellFormed(entries) && url !in entries && !BlockedByFile(entries, url)
    ensures var after := WithDirs(entries, url);
      && WellFormed(after)
      && (forall k :: 0 <= k <= |url| ==> url[..k] in after && after[url[..k]] == Dir)
      && (forall p :: p in after ==> p in entries || IsPrefix(p, url))
      && (forall p :: p in entries ==> p in after && after[p] == entries[p])
  {
    var after := WithDirs(entries, url);
    assert url[..|url|] == url;
    forall k | 0 <= k <= |url|
      ensures url[..k] in after && after[url[..k]] == Dir
    {
      assert url[..k] in Prefixes(url);
      if url[..k] in entries {
        assert k < |url|;
        assert !entries[url[..k]].File?;
      }
    }
    forall p | p in after && p != []
      ensures Parent(p) in after && after[Parent(p)] == Dir
    {
      if p !in entries {
        var k :| 0 <= k <= |url| && url[..k] == p;
        assert Parent(p) == url[..k - 1];
      }
    }
    forall p | p in after
      ensures p in entries || IsPrefix(p, url)
    {
      if p !in entries {
        var k :| 0 <= k <= |url| && url[..k] == p;
      }
    }
  }

  /**
   * Removing a subtree below the root takes out exactly the entries under
   * `url`, keeps every other entry as it was, and keeps the tree well formed.
   */
  lemma WithoutSubtreeRemovesExactly(entries: map<Path, Node>, url: Path)
    requires WellFormed(entries) && url != []
    ensures var after := WithoutSubtree(entries, url);
      && WellFormed(after)
      && (forall p :: p in after <==> p in entries && !IsPrefix(url, p))
      && (forall p :: p in after ==> after[p] == entries[p])
  {
    var after := WithoutSubtree(entries, url);
    forall p | p in after && p != []
      ensures Parent(p) in after && after[Parent(p)] == Dir
    {
    }
  }

  // ---------------------------------------------------------------------------
  // Sizes
  // ---------------------------------------------------------------------------

  /** The enumerator's `.skipsHiddenFiles` rule: a name starting with '.' is hidden. */
  predicate Hidden(name: string)
  {
    |name| > 0 && name[0] == '.'
  }

  /**
   * The enumerator of `base` yields `q`: a proper descendant with no hidden
   * name below `base`, reached through directories (`base` included) that
   * can be read.
   */
  predicate Reached(entries: map<Path, Node>, unreadable: set<Path>, base: Path, q: Path)
  {
    && q in entries
    && |base| < |q| && q[..|base|] == base
    && (forall i :: |base| <= i < |q| ==> !Hidden(q[i]))
    && (forall k :: |base| <= k < |q| ==> q[..k] !in unreadable)
  }

  function ReachedSet(entries: map<Path, Node>, unreadable: set<Path>, base: Path): set<Path>
  {
    set q | q in entries.Keys && Reached(entries, unreadable, base, q)
  }

  /** The bytes an entry holds: a readable regular file's length, otherwise 0. */
  function ByteCount(entries: map<Path, Node>, unreadable: set<Path>, q: Path): nat
  {
    if q in entries && q !in unreadable && entries[q].File? then |entries[q].contents| else 0
  }

  ghost function Pick(s: set<Path>): Path
    requires s != {}
  {
    var q :| q in s; q
  }

  /** The byte counts of a set of entries, added up. */
  ghost function SumOfSizes(entries: map<Path, Node>, unreadable: set<Path>, s: set<Path>): nat
    decreases s
  {
    if s == {} then 0
    else
      var q := Pick(s);
      ByteCount(entries, unreadable, q) + SumOfSizes(entries, unreadable, s - {q})
  }

  /** What `directorySize` reports: the byte counts of every entry the enumerator yields. */
  ghost function DirectorySizeOf(entries: map<Path, Node>, unreadable: set<Path>, base: Path): nat
  {
    SumOfSizes(entries, unreadable, ReachedSet(entries, unreadable, base))
  }

  /** The sum does not depend on the order in which entries are taken out. */
  lemma {:induction false} SumOfSizesRemove(entries: map<Path, Node>, unreadable: set<Path>, s: set<Path>, q: Path)
    requires q in s
    ensures SumOfSizes(entries, unreadable, s)
         == ByteCount(entries, unreadable, q) + SumOfSizes(entries, unreadable, s - {q})
    decreases s
  {
    var x := Pick(s);
    if x != q {
      SumOfSizesRemove(entries, unreadable, s - {x}, q);
      SumOfSizesRemove(entries, unreadable, s - {q}, x);
      assert s - {x} - {q} == s - {q} - {x};
    }
  }

  /** The sum only looks at the byte counts of the entries it adds up. */
  lemma {:induction false} SumOfSizesFrame(m1: map<Path, Node>, u1: set<Path>, m2: map<Path, Node>, u2: set<Path>, s: set<Path>)
    requires forall q :: q in s ==> ByteCount(m1, u1, q) == ByteCount(m2, u2, q)
    ensures SumOfSizes(m1, u1, s) == SumOfSizes(m2, u2, s)
    decreases s
  {
    if s != {} {
      SumOfSizesFrame(m1, u1, m2, u2, s - {Pick(s)});
    }
  }

  /**
   * A directory that does not exist, is a regular file, or cannot be read
   * has nothing to enumerate, so its size is 0.
   */
  lemma DirectorySizeNotEnumerable(entries: map<Path, Node>, unreadable: set<Path>, base: Path)
    requires WellFormed(entries)
    requires base !in entries || entries[base].File? || base in unreadable
    ensures DirectorySizeOf(entries, unreadable, base) == 0
  {
    forall q | q in entries.Keys
      ensures !Reached(entries, unreadable, base, q)
    {
      if |base| < |q| && q[..|base|] == base {
        AncestorsAreDirs(entries, q, |base|);
      }
    }
    assert ReachedSet(entries, unreadable, base) == {};
  }

  /**
   * Adding an entry raises the size of `base` by that entry's byte count
   * when the enumerator reaches it and leaves it alone otherwise: hidden
   * entries, directories and entries outside `base` add nothing.
   */
  lemma DirectorySizeAddEntry(entries: map<Path, Node>, unreadable: set<Path>, base: Path, q: Path, node: Node)
    requires q !in entries && q !in unreadable
    ensures var after := entries[q := node];
      DirectorySizeOf(after, unreadable, base)
      == DirectorySizeOf(entries, unreadable, base)
         + (if Reached(after, unreadable, base, q) && node.File? then |node.contents| else 0)
  {
    var after := entries[q := node];
    var before := ReachedSet(entries, unreadable, base);
    var now := ReachedSet(after, unreadable, base);
    SumOfSizesFrame(entries, unreadable, after, unreadable, before);
    if Reached(after, unreadable, base, q) {
      assert now - {q} == before;
      SumOfSizesRemove(after, unreadable, now, q);
    } else {
      assert now == before;
    }
  }

  /** A new directory, or a new entry with a hidden name, leaves every directory size unchanged. */
  lemma HiddenOrDirectoryAddsNothing(entries: map<Path, Node>, unreadable: set<Path>, base: Path, q: Path, node: Node)
    requires q !in entries && q !in unreadable && q != []
    requires node == Dir || Hidden(q[|q| - 1])
    ensures DirectorySizeOf(entries[q := node], unreadable, base) == DirectorySizeOf(entries, unreadable, base)
  {
    DirectorySizeAddEntry(entries, unreadable, base, q, node);
  }

  /** A directory just created where nothing was has nothing under it. */
  lemma NewFolderIsEmpty(entries: map<Path, Node>, unreadable: set<Path>, url: Path)
    requires WellFormed(entries) && url !in entries && !BlockedByFile(entries, url)
    ensures DirectorySizeOf(WithDirs(entries, url), unreadable, url) == 0
  {
    var after := WithDirs(entries, url);
    WithDirsCreatesPath(entries, url);
    forall q | q in after.Keys
      ensures !Reached(after, unreadable, url, q)
    {
      if |url| < |q| && q[..|url|] == url {
        assert !IsPrefix(q, url);
        AncestorsAreDirs(entries, q, |url|);
      }
    }
    assert ReachedSet(after, unreadable, url) == {};
  }

  // ---------------------------------------------------------------------------
  // The file system
  // ---------------------------------------------------------------------------

  /** What `resourceValues(forKeys: [.isDirectoryKey, .fileSizeKey])` gives. */
  datatype ResourceValues = ResourceValues(isDirectory: bool, fileSize: Option<nat>)

  class FileSystem {
    var entries: map<Path, Node>
    /** Entries whose attributes cannot be read (and, for directories, not listed). */
    var unreadable: set<Path>

    ghost predicate Valid()
      reads this
    {
      WellFormed(entries) && unreadable <= entries.Keys
    }

    /** A fresh file system holding only the root and the documents directory. */
    constructor ()
      ensures Valid()
      ensures entries == map[[] := Dir, DocumentsPath := Dir] && unreadable == {}
    {
      entries := map[[] := Dir, DocumentsPath := Dir];
      unreadable := {};
    }

    /** `URL.isExist`. */
    predicate IsExist(url: Path)
      reads this
    {
      url in entries
    }

    /** `URL.fileSize`: the byte count of a readable regular file, 0 whenever that cannot be read. */
    function FileSize(url: Path): (r: nat)
      reads this
      ensures url !in entries || url in unreadable ==> r == 0
      ensures url in entries && entries[url] == Dir ==> r == 0
      ensures url in entries && url !in unreadable && entries[url].File? ==> r == |entries[url].contents|
    {
      ByteCount(entries, unreadable, url)
    }

    /** `FileUtils.fileSizeInKB(at:)`: despite its name, the size in bytes. */
    function FileSizeInKB(url: Path): (r: nat)
      reads this
      ensures r == FileSize(url)
    {
      FileSize(url)
    }

    /** `FileUtils.isExistFile(fileName:inDirectory:)`. */
    predicate IsExistFile(fileName: string, fileDirectory: Path)
      reads this
      ensures IsExistFile(fileName, fileDirectory) <==> DocumentsPath + fileDirectory + [fileName] in entries
    {
      IsExist(MakeURL(fileDirectory, Some(fileName)))
    }

    function Values(url: Path): Option<ResourceValues>
      reads this
    {
      if url !in entries || url in unreadable then None
      else match entries[url]
        case Dir => Some(ResourceValues(true, None))
        case File(contents) => Some(ResourceValues(false, Some(|contents|)))
    }

    /**
     * `URL.directorySize`: add up the file sizes of what the enumerator
     * yields, skipping directories and counting unreadable sizes as 0.
     */
    method DirectorySize(url: Path) returns (totalSize: nat)
      requires Valid()
      ensures totalSize == DirectorySizeOf(entries, unreadable, url)
      ensures url !in entries || entries[url].File? || url in unreadable ==> totalSize == 0
    {
      var pending := ReachedSet(entries, unreadable, url);
      ghost var enumerated := pending;
      totalSize := 0;
      while pending != {}
        invariant pending <= enumerated
        invariant totalSize + SumOfSizes(entries, unreadable, pending) == SumOfSizes(entries, unreadable, enumerated)
        decreases pending
      {
        var fileURL :| fileURL in pending;
        SumOfSizesRemove(entries, unreadable, pending, fileURL);
        pending := pending - {fileURL};
        var values := Values(fileURL);
        if values.Some? && values.value.isDirectory {
          continue;
        }
        var fileSize := if values.Some? && values.value.fileSize.Some? then values.value.fileSize.value else 0;
        totalSize := totalSize + fileSize;
      }
      if url !in entries || entries[url].File? || url in unreadable {
        DirectorySizeNotEnumerable(entries, unreadable, url);
      }
    }

    /**
     * `FileManager.removeItem`, as used by `URL.delete`, `removeFolder` and
     * `deleteFile`: fails when nothing is there, otherwise removes the entry
     * with everything below it.
     */
    method Delete(url: Path) returns (r: Outcome)
      requires Valid()
      modifies this
      ensures Valid()
      ensures r == if url !in old(entries) then Fail(NoSuchFile)
                   else if url == [] then Fail(NotPermitted)
                   else Pass
      ensures entries == if r.Pass? then WithoutSubtree(old(entries), url) else old(entries)
      ensures unreadable == if r.Pass? then set p | p in old(unreadable) && !IsPrefix(url, p) else old(unreadable)
    {
      if url !in entries {
        return Fail(NoSuchFile);
      }
      if url == [] {
        return Fail(NotPermitted);
      }
      WithoutSubtreeRemovesExactly(entries, url);
      entries := WithoutSubtree(entries, url);
      unreadable := set p | p in unreadable && !IsPrefix(url, p);
      r := Pass;
    }

    /**
     * `FileUtils.createFolder(directoryName:)`: refuses an existing path,
     * otherwise creates it together with every missing ancestor.
     */
    method CreateFolder(directoryName: Path) returns (r: Outcome)
      requires Valid()
      modifies this
      ensures Valid() && unreadable == old(unreadable)
      ensures var url := MakeURL(directoryName, None);
        r == if url in old(entries) then Fail(FileIO(FileIOError.IsExist))
             else if BlockedByFile(old(entries), url) then Fail(NotADirectory)
             else Pass
      ensures entries == if r.Pass? then WithDirs(old(entries), MakeURL(directoryName, None)) else old(entries)
      ensures r.Pass? ==> IsExist(MakeURL(directoryName, None)) && entries[MakeURL(directoryName, None)] == Dir
    {
      var url := MakeURL(directoryName, None);
      if IsExist(url) {
        return Fail(FileIO(FileIOError.IsExist));
      }
      if BlockedByFile(entries, url) {
        return Fail(NotADirectory);
      }
      WithDirsCreatesPath(entries, url);
      entries := WithDirs(entries, url);
      assert url[..|url|] == url;
      r := Pass;
    }

    /** `FileUtils.removeFolder(directoryName:)`: removal of the same path `createFolder` makes. */
    method RemoveFolder(directoryName: Path) returns (r: Outcome)
      requires Valid()
      modifies this
      ensures Valid()
      ensures var url := MakeURL(directoryName, None);
        && r == (if url !in old(entries) then Fail(NoSuchFile) else Pass)
        && entries == (if r.Pass? then WithoutSubtree(old(entries), url) else old(entries))
        && unreadable == if r.Pass? then set p | p in old(unreadable) && !IsPrefix(url, p) else old(unreadable)
    {
      r := Delete(MakeURL(directoryName, None));
    }

    /** `FileUtils.deleteFile(filePath:)`. */
    method DeleteFile(filePath: Path) returns (r: Outcome)
      requires Valid()
      modifies this
      ensures Valid()
      ensures r == if filePath !in old(entries) then Fail(NoSuchFile)
                   else if filePath == [] then Fail(NotPermitted)
                   else Pass
      ensures entries == if r.Pass? then WithoutSubtree(old(entries), filePath) else old(entries)
      ensures unreadable == if r.Pass? then set p | p in old(unreadable) && !IsPrefix(filePath, p) else old(unreadable)
    {
      r := Delete(filePath);
    }

    /**
     * `FileUtils.createFile(url:data:)`: refuses an existing path; otherwise
     * writes `data`, which fails when the parent is not an existing directory
     * or the system refuses the write (`writeAccepted` is false).
     */
    method CreateFile(url: Path, data: seq<byte>, writeAccepted: bool) returns (r: Outcome)
      requires Valid()
      modifies this
      ensures Valid() && unreadable == old(unreadable)
      ensures r == if url in old(entries) then Fail(FileIO(FileIOError.IsExist))
                   else if writeAccepted && url != [] && Parent(url) in old(entries) && old(entries)[Parent(url)] == Dir then Pass
                   else Fail(FileIO(FailedToSave))
      ensures entries == if r.Pass? then old(entries)[url := File(data)] else old(entries)
    {
      if IsExist(url) {
        return Fail(FileIO(FileIOError.IsExist));
      }
      if !(writeAccepted && Parent(url) in entries && entries[Parent(url)] == Dir) {
        return Fail(FileIO(FailedToSave));
      }
      entries := entries[url := File(data)];
      r := Pass;
    }
  }

  // ---------------------------------------------------------------------------
  // The library's own scenarios
  // ---------------------------------------------------------------------------

  /**
   * Removing a folder that was never created fails; creating it succeeds and
   * a second creation fails with `isExist`; removing it then succeeds, and
   * afterwards it is gone.
   */
  method FolderLifecycle(fs: FileSystem, name: Path)
    returns (removeMissing: Outcome, create: Outcome, createAgain: Outcome, remove: Outcome)
    requires fs.Valid()
    requires MakeURL(name, None) !in fs.entries && !BlockedByFile(fs.entries, MakeURL(name, None))
    modifies fs
    ensures fs.Valid()
    ensures removeMissing == Fail(NoSuchFile)
    ensures create == Pass && createAgain == Fail(FileIO(FileIOError.IsExist)) && remove == Pass
    ensures !fs.IsExist(MakeURL(name, None))
  {
    var url := MakeURL(name, None);
    removeMissing := fs.RemoveFolder(name);
    assert fs.entries == old(fs.entries);
    create := fs.CreateFolder(name);
    assert url in fs.entries;
    createAgain := fs.CreateFolder(name);
    remove := fs.RemoveFolder(name);
    assert IsPrefix(url, url);
    assert url !in fs.entries;
  }

  /** 2048 bytes written to a new file read back as a size of 2048 (bytes, not KB). */
  method FileSizeOfNewFile(fs: FileSystem) returns (size: nat)
    requires fs.Valid()
    requires DocumentsPath in fs.entries && fs.entries[DocumentsPath] == Dir
    requires DocumentsPath + ["20482"] !in fs.entries
    modifies fs
    ensures size == 2048
  {
    var url := DocumentsPath + ["20482"];
    var created := fs.CreateFile(url, seq(2048, _ => 0), true);
    assert Parent(url) == DocumentsPath;
    size := fs.FileSizeInKB(url);
  }

  /** A new folder holding one 2048-byte file has a directory size of 2048. */
  method DirectorySizeOfNewFolder(fs: FileSystem) returns (size: nat)
    requires fs.Valid()
    requires MakeURL(["test"], None) !in fs.entries && !BlockedByFile(fs.entries, MakeURL(["test"], None))
    modifies fs
    ensures size == 2048
  {
    var dir := MakeURL(["test"], None);
    var file := dir + ["a.bin"];
    var data: seq<byte> := seq(2048, _ => 0);
    NewFolderIsEmpty(fs.entries, fs.unreadable, dir);
    var created := fs.CreateFolder(["test"]);
    assert Parent(file) == dir;
    assert !IsPrefix(file, dir);
    assert dir !in fs.unreadable;
    DirectorySizeAddEntry(fs.entries, fs.unreadable, dir, file, File(data));
    var written := fs.CreateFile(file, data, true);
    assert Reached(fs.entries, fs.unreadable, dir, file);
    size := fs.DirectorySize(dir);
  }
}
