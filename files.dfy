/**
 * The list of downloaded files and collision-safe import into the documents
 * directory (Downloads/DownloadedFileManager.swift).
 *
 * The documents directory is the set `disk` of the names it holds (files and
 * directories). A move or copy onto a name that is taken fails with "file
 * exists"; any other failure of the file system is a fault, given by a
 * `Faults` predicate on the name the operation works on. The file view that
 * the manager notifies is the event log `events`; `ops` logs the file-system
 * operations that succeeded.
 */
module Files {
  import opened Options
  import opened Text

  datatype Folder = Documents | External(path: string)

  /** A file URL: the folder it is in and its last path component. */
  datatype Location = Location(folder: Folder, name: string)

  /** An entry of the documents directory as listed at start-up. */
  datatype Entry = Entry(name: string, isDirectory: bool)

  /** The message of an error shown to the user: a text, or the file system's own description. */
  datatype Detail = Message(text: string) | SystemError

  datatype FileEvent =
    | FileImported(index: nat)
    | FileDeleted(index: nat)
    | FilesDeleted
    | ShowError(detail: Detail, title: string)

  datatype DiskOp = Copied(source: Location, target: string) | Moved(source: Location, target: string) | Removed(name: string)

  /** How a move or copy onto a name in the documents directory turns out. */
  datatype Attempt = Done | FileExists | OtherError

  /** The names at which a file-system operation fails for a reason other than an existing file. */
  type Faults = string -> bool

  /** What `importFile` does, decided from the state before it. */
  datatype ImportPlan = AlreadyTracked | Place(target: string) | Refuse(detail: Detail)

  function Outcome(disk: set<string>, target: string, faults: Faults): (r: Attempt)
    ensures r == FileExists <==> target in disk
    ensures r == Done <==> target !in disk && !faults(target)
  {
    if target in disk then FileExists
    else if faults(target) then OtherError
    else Done
  }

  /**
   * `deletingPathExtension().lastPathComponent` and `pathExtension` of a name:
   * the extension is the text after the last dot, unless that dot starts the
   * name; without one the extension is empty.
   */
  function SplitExtension(name: string): (parts: (string, string))
    ensures '.' !in parts.1
    ensures (exists k :: 0 < k < |name| && name[k] == '.') ==> |parts.0| > 0 && parts.0 + "." + parts.1 == name
    ensures (forall k :: 0 < k < |name| ==> name[k] != '.') ==> parts == (name, "")
  {
    match LastIndexOf(name, '.')
    case Some(i) =>
      if i == 0 then
        assert forall k :: 0 < k < |name| ==> name[k] == name[1..][k - 1];
        (name, "")
      else
        assert name == name[..i] + "." + name[i + 1..];
        (name[..i], name[i + 1..])
    case None => (name, "")
  }

  /** The name tried for the `n`th copy: `"\(title) \(n).\(ext)"`. */
  function Candidate(title: string, ext: string, n: nat): string
  {
    title + " " + DecimalString(n) + "." + ext
  }

  /** A candidate is the title, a space, the number's digits, a dot and the extension. */
  lemma CandidateShape(title: string, ext: string, n: nat)
    ensures var c := Candidate(title, ext, n);
      && |c| == |title| + |DecimalString(n)| + |ext| + 2
      && c[..|title|] == title && c[|title|] == ' '
      && DigitsValue(c[|title| + 1..|c| - |ext| - 1]) == n
      && c[|c| - |ext| - 1] == '.' && c[|c| - |ext|..] == ext
  {
    var c, d := Candidate(title, ext, n), DecimalString(n);
    assert c[|title| + 1..|c| - |ext| - 1] == d;
    DecimalStringValue(n);
  }

  /** Different numbers give different candidate names. */
  lemma CandidatesDistinct(title: string, ext: string, m: nat, n: nat)
    requires Candidate(title, ext, m) == Candidate(title, ext, n)
    ensures m == n
  {
    CandidateShape(title, ext, m);
    CandidateShape(title, ext, n);
  }

  /** A name without an extension gets a candidate ending in a bare dot, as the interpolation writes it. */
  lemma CandidateWithoutExtension(title: string, n: nat)
    ensures var c := Candidate(title, "", n); |c| > 0 && c[|c| - 1] == '.'
  {
  }

  /** The first number from `n` to 99 whose candidate name can be imported. */
  function FirstFree(title: string, ext: string, disk: set<string>, faults: Faults, n: nat): (r: Option<nat>)
    requires 2 <= n <= 100
    ensures r.Some? ==> n <= r.value <= 99 && Outcome(disk, Candidate(title, ext, r.value), faults) == Done
    ensures r.Some? ==> forall m :: n <= m < r.value ==> Outcome(disk, Candidate(title, ext, m), faults) != Done
    ensures r.None? <==> forall m :: n <= m <= 99 ==> Outcome(disk, Candidate(title, ext, m), faults) != Done
    decreases 100 - n
  {
    if n == 100 then None
    else if Outcome(disk, Candidate(title, ext, n), faults) == Done then Some(n)
    else FirstFree(title, ext, disk, faults, n + 1)
  }

  /**
   * `importFile(from:preferredFilename:copyingSource:)` decided on the state
   * before it: a tracked source is ignored; the target is the preferred name,
   * or the source's own name; an error other than "file exists" refuses the
   * import; on "file exists" the candidates numbered 2 to 99 are tried in
   * order, and when none can be imported the import is refused with an
   * "already exists" message.
   */
  function PlanImport(files: seq<Location>, disk: set<string>, source: Location, preferred: Option<string>, faults: Faults): (plan: ImportPlan)
    ensures plan == AlreadyTracked <==> source in files
    ensures plan.Place? ==> plan.target !in disk && !faults(plan.target)
    ensures var name := preferred.GetOr(source.name);
      source !in files && Outcome(disk, name, faults) == Done ==> plan == Place(name)
    ensures var name := preferred.GetOr(source.name);
      source !in files && Outcome(disk, name, faults) == OtherError ==> plan == Refuse(SystemError)
    ensures var name := preferred.GetOr(source.name);
      var (title, ext) := SplitExtension(name);
      source !in files && Outcome(disk, name, faults) == FileExists ==>
        && (plan.Place? <==> exists n :: 2 <= n <= 99 && Outcome(disk, Candidate(title, ext, n), faults) == Done)
        && (plan.Place? ==> exists n :: 2 <= n <= 99 && plan.target == Candidate(title, ext, n)
                                      && forall m :: 2 <= m < n ==> Outcome(disk, Candidate(title, ext, m), faults) != Done)
        && (!plan.Place? ==> plan == Refuse(Message("File named \"" + name + "\" already exists")))
  {
    if source in files then AlreadyTracked
    else
      var name := preferred.GetOr(source.name);
      match Outcome(disk, name, faults)
      case Done => Place(name)
      case OtherError => Refuse(SystemError)
      case FileExists =>
        var (title, ext) := SplitExtension(name);
        match FirstFree(title, ext, disk, faults, 2)
        case Some(n) => Place(Candidate(title, ext, n))
        case None => Refuse(Message("File named \"" + name + "\" already exists"))
  }

  /** Importing `a.txt` next to an `a.txt` gives `a 2.txt`; next to both, `a 3.txt`. */
  lemma CollisionExample(source: Location, faults: Faults)
    requires source.name == "a.txt" && source.folder.External?
    requires forall name :: !faults(name)
    ensures PlanImport([], {"a.txt"}, source, None, faults) == Place("a 2.txt")
    ensures PlanImport([], {"a.txt", "a 2.txt"}, source, None, faults) == Place("a 3.txt")
  {
    ExampleSplit(source.name);
    assert Candidate("a", "txt", 2) == "a 2.txt";
    assert Candidate("a", "txt", 3) == "a 3.txt";
  }

  lemma ExampleSplit(name: string)
    requires name == "a.txt"
    ensures SplitExtension(name) == ("a", "txt")
  {
    assert name[1] == '.';
    assert LastIndexOf(name, '.') == Some(1);
    assert name[..1] == "a" && name[2..] == "txt";
  }

  /** The files that survive deleting from the back until a removal fails. */
  function Survivors(files: seq<Location>, faults: Faults): (r: seq<Location>)
    ensures r <= files
    ensures forall i :: |r| <= i < |files| ==> !faults(files[i].name)
    ensures |r| > 0 ==> faults(r[|r| - 1].name)
  {
    if files == [] then []
    else if faults(files[|files| - 1].name) then files
    else Survivors(files[..|files| - 1], faults)
  }

  /** The three properties of `Survivors` determine it. */
  lemma {:induction false} SurvivorsUnique(files: seq<Location>, faults: Faults, r: seq<Location>)
    requires r <= files
    requires forall i :: |r| <= i < |files| ==> !faults(files[i].name)
    requires |r| > 0 ==> faults(r[|r| - 1].name)
    ensures r == Survivors(files, faults)
    decreases |files|
  {
    if |r| < |files| {
      var init := files[..|files| - 1];
      assert r <= init;
      SurvivorsUnique(init, faults, r);
    }
  }

  /** The removals `deleteAll` performs on `removed`, from its back to its front. */
  function RemovalsFromBack(removed: seq<Location>): seq<DiskOp>
  {
    if removed == [] then [] else RemovalsFromBack(removed[1..]) + [Removed(removed[0].name)]
  }

  /** The files of a directory listing: its entries that are not directories, in order. */
  function Listed(entries: seq<Entry>): (files: seq<Location>)
    ensures forall l :: l in files <==> exists e :: e in entries && !e.isDirectory && l == Location(Documents, e.name)
  {
    if entries == [] then []
    else
      var rest := Listed(entries[1..]);
      assert forall e :: e in entries[1..] ==> e in entries;
      if entries[0].isDirectory then rest else [Location(Documents, entries[0].name)] + rest
  }

  /** Listing a directory whose entries have distinct names gives distinct files. */
  lemma {:induction false} ListedDistinct(entries: seq<Entry>)
    requires forall i, j :: 0 <= i < j < |entries| ==> entries[i].name != entries[j].name
    ensures forall i, j :: 0 <= i < j < |Listed(entries)| ==> Listed(entries)[i] != Listed(entries)[j]
  {
    if entries != [] {
      ListedDistinct(entries[1..]);
      var rest := Listed(entries[1..]);
      if !entries[0].isDirectory {
        var first := Location(Documents, entries[0].name);
        assert first !in rest;
        var files := [first] + rest;
        forall i, j | 0 <= i < j < |files|
          ensures files[i] != files[j]
        {
          if i == 0 {
            assert files[j] == rest[j - 1];
          }
        }
      }
    }
  }

  /** The names of a sequence of entries. */
  function EntryNames(entries: seq<Entry>): set<string>
  {
    if entries == [] then {} else {entries[0].name} + EntryNames(entries[1..])
  }

  /** The names of a sequence of files. */
  function Names(files: seq<Location>): (names: set<string>)
    ensures forall i :: 0 <= i < |files| ==> files[i].name in names
  {
    if files == [] then {} else {files[0].name} + Names(files[1..])
  }

  /** Every listed file is in the documents directory under the name of one of its entries. */
  lemma {:induction false} ListedOnDisk(entries: seq<Entry>)
    ensures forall l :: l in Listed(entries) ==> l.folder == Documents && l.name in EntryNames(entries)
  {
    if entries != [] {
      ListedOnDisk(entries[1..]);
    }
  }

  /** `files.index(of: url)`. */
  function Position(files: seq<Location>, url: Location): (r: Option<nat>)
    ensures r.Some? ==> r.value < |files| && files[r.value] == url && url !in files[..r.value]
    ensures r.None? <==> url !in files
  {
    if files == [] then None
    else if files[0] == url then Some(0)
    else
      match Position(files[1..], url)
      case Some(i) =>
        assert files[..i + 1] == [files[0]] + files[1..][..i];
        Some(i + 1)
      case None => None
  }

  /** Extending the removed suffix by one file at its front adds that file's name and its removal. */
  lemma RemovedFromBack(files: seq<Location>, n: nat)
    requires n < |files|
    ensures Names(files[n..]) == {files[n].name} + Names(files[n + 1..])
    ensures RemovalsFromBack(files[n..]) == RemovalsFromBack(files[n + 1..]) + [Removed(files[n].name)]
  {
    assert files[n..][1..] == files[n + 1..];
  }

  /** The tracked files are distinct files of the documents directory. */
  ghost predicate Tracked(files: seq<Location>, disk: set<string>)
  {
    && (forall i :: 0 <= i < |files| ==> files[i].folder == Documents && files[i].name in disk)
    && (forall i, j :: 0 <= i < j < |files| ==> files[i] != files[j])
  }

  /** Removing a tracked file from the list and its name from the directory keeps the others tracked. */
  lemma TrackedRemove(files: seq<Location>, disk: set<string>, i: nat)
    requires Tracked(files, disk) && i < |files|
    ensures Tracked(files[..i] + files[i + 1..], disk - {files[i].name})
  {
    var r := files[..i] + files[i + 1..];
    forall j | 0 <= j < |r|
      ensures r[j].folder == Documents && r[j].name in disk - {files[i].name}
    {
      var p := if j < i then j else j + 1;
      assert r[j] == files[p] && p != i;
    }
    forall a, b | 0 <= a < b < |r|
      ensures r[a] != r[b]
    {
      assert r[a] == files[if a < i then a else a + 1];
      assert r[b] == files[if b < i then b else b + 1];
    }
  }

  /** The names in the documents directory after moving or copying `source` onto `target`. */
  function AfterTransfer(disk: set<string>, source: Location, target: string, copying: bool): set<string>
  {
    (if !copying && source.folder == Documents then disk - {source.name} else disk) + {target}
  }

  function TransferOp(source: Location, target: string, copying: bool): DiskOp
  {
    if copying then Copied(source, target) else Moved(source, target)
  }

  class DownloadedFileManager {
    var files: seq<Location>
    var disk: set<string>
    var events: seq<FileEvent>
    var ops: seq<DiskOp>

    /** Tracked files are distinct files of the documents directory. */
    ghost predicate Valid()
      reads this
    {
      Tracked(files, disk)
    }

    /** The list starts as the directory's non-directory entries, or empty when listing fails. */
    constructor (entries: seq<Entry>, listingFails: bool)
      requires forall i, j :: 0 <= i < j < |entries| ==> entries[i].name != entries[j].name
      ensures Valid()
      ensures disk == EntryNames(entries)
      ensures files == if listingFails then [] else Listed(entries)
      ensures events == [] && ops == []
    {
      ListedDistinct(entries);
      ListedOnDisk(entries);
      files := if listingFails then [] else Listed(entries);
      disk := EntryNames(entries);
      events := [];
      ops := [];
    }

    /** `files`, `disk`, `events` and `ops` are as before. */
    twostate predicate Unchanged()
      reads this
    {
      files == old(files) && disk == old(disk) && events == old(events) && ops == old(ops)
    }

    /** The effect of carrying out `plan`. */
    twostate predicate Carried(plan: ImportPlan, source: Location, copying: bool)
      reads this
    {
      match plan
      case AlreadyTracked => Unchanged()
      case Place(target) =>
        && files == old(files) + [Location(Documents, target)]
        && disk == AfterTransfer(old(disk), source, target, copying)
        && events == old(events) + [FileImported(|old(files)|)]
        && ops == old(ops) + [TransferOp(source, target, copying)]
      case Refuse(detail) =>
        && files == old(files) && disk == old(disk) && ops == old(ops)
        && events == old(events) + [ShowError(detail, "Import Error")]
    }

    /** The nested `importFile(from:to:)`: move or copy onto `target`, then append and announce. */
    method ImportTo(source: Location, target: string, copying: bool, faults: Faults) returns (outcome: Attempt)
      requires Valid() && source !in files
      modifies this
      ensures Valid()
      ensures outcome == Outcome(old(disk), target, faults)
      ensures outcome == Done ==> Carried(Place(target), source, copying)
      ensures outcome != Done ==> Unchanged()
    {
      outcome := Outcome(disk, target, faults);
      if outcome != Done {
        return;
      }
      var location := Location(Documents, target);
      assert location !in files;
      disk := AfterTransfer(disk, source, target, copying);
      ops := ops + [TransferOp(source, target, copying)];
      files := files + [location];
      events := events + [FileImported(|files| - 1)];
    }

    /**
     * `importFile(from:preferredFilename:copyingSource:)`: carries out
     * `PlanImport`, trying the preferred name first and then the numbered
     * candidates in increasing order.
     */
    method ImportFile(source: Location, preferredFilename: Option<string>, copying: bool, faults: Faults)
      requires Valid()
      modifies this
      ensures Valid()
      ensures Carried(PlanImport(old(files), old(disk), source, preferredFilename, faults), source, copying)
    {
      if source in files {
        return;
      }
      var name := preferredFilename.GetOr(source.name);
      var outcome := ImportTo(source, name, copying, faults);
      if outcome == Done {
        return;
      }
      if outcome == OtherError {
        events := events + [ShowError(SystemError, "Import Error")];
        return;
      }
      var (title, ext) := SplitExtension(name);
      for n := 2 to 100
        invariant Unchanged()
        invariant FirstFree(title, ext, disk, faults, 2) == FirstFree(title, ext, disk, faults, n)
      {
        outcome := ImportTo(source, Candidate(title, ext, n), copying, faults);
        if outcome == Done {
          return;
        }
      }
      events := events + [ShowError(Message("File named \"" + name + "\" already exists"), "Import Error")];
    }

    /**
     * `deleteFile(at:)`: an untracked file is ignored; otherwise it is removed
     * from the directory and from its position in the list, and the deletion is
     * announced there; if the removal fails, a "Deletion Error" is raised and
     * nothing else changes.
     */
    method DeleteFile(url: Location, faults: Faults)
      requires Valid()
      modifies this
      ensures Valid()
      ensures var index := Position(old(files), url);
        if index.None? then Unchanged()
        else if faults(url.name) then
          && files == old(files) && disk == old(disk) && ops == old(ops)
          && events == old(events) + [ShowError(SystemError, "Deletion Error")]
        else
          && files == old(files)[..index.value] + old(files)[index.value + 1..]
          && disk == old(disk) - {url.name}
          && ops == old(ops) + [Removed(url.name)]
          && events == old(events) + [FileDeleted(index.value)]
    {
      var index := Position(files, url);
      if index.None? {
        return;
      }
      if faults(url.name) {
        events := events + [ShowError(SystemError, "Deletion Error")];
        return;
      }
      var i := index.value;
      TrackedRemove(files, disk, i);
      disk := disk - {url.name};
      ops := ops + [Removed(url.name)];
      files := files[..i] + files[i + 1..];
      events := events + [FileDeleted(i)];
    }

    /** One step of `deleteAll`: the last file is removed from the directory and from the list. */
    method RemoveLast()
      requires Valid() && files != []
      modifies this
      ensures Valid()
      ensures files == old(files)[..|old(files)| - 1]
      ensures disk == old(disk) - {old(files)[|old(files)| - 1].name}
      ensures ops == old(ops) + [Removed(old(files)[|old(files)| - 1].name)]
      ensures events == old(events)
    {
      var n := |files| - 1;
      var url := files[n];
      assert forall j :: 0 <= j < n ==> files[j].name != url.name;
      disk := disk - {url.name};
      ops := ops + [Removed(url.name)];
      files := files[..n];
    }

    /**
     * `deleteAll`: removes files from the back of the list until one removal
     * fails, which raises a "Deletion error"; the files left are a prefix of
     * the list, and exactly one bulk notification follows in either case.
     */
    method DeleteAll(faults: Faults)
      requires Valid()
      modifies this
      ensures Valid()
      ensures files == Survivors(old(files), faults)
      ensures disk == old(disk) - Names(old(files)[|files|..])
      ensures ops == old(ops) + RemovalsFromBack(old(files)[|files|..])
      ensures events == old(events) + (if files == [] then [] else [ShowError(SystemError, "Deletion error")]) + [FilesDeleted]
    {
      var failed := RemoveFromBack(faults);
      if failed {
        events := events + [ShowError(SystemError, "Deletion error")];
      }
      SurvivorsUnique(old(files), faults, files);
      events := events + [FilesDeleted];
    }

    /** The loop of `deleteAll`: removes the last file until the list is empty or a removal fails. */
    method RemoveFromBack(faults: Faults) returns (failed: bool)
      requires Valid()
      modifies this
      ensures Valid()
      ensures files <= old(files)
      ensures forall i :: |files| <= i < |old(files)| ==> !faults(old(files)[i].name)
      ensures failed <==> files != []
      ensures failed ==> faults(files[|files| - 1].name)
      ensures disk == old(disk) - Names(old(files)[|files|..])
      ensures ops == old(ops) + RemovalsFromBack(old(files)[|files|..])
      ensures events == old(events)
    {
      failed := false;
      while files != []
        invariant Valid() && !failed
        invariant |files| <= |old(files)| && files == old(files)[..|files|]
        invariant forall i :: |files| <= i < |old(files)| ==> !faults(old(files)[i].name)
        invariant disk == old(disk) - Names(old(files)[|files|..])
        invariant ops == old(ops) + RemovalsFromBack(old(files)[|files|..])
        invariant events == old(events)
        decreases |files|
      {
        var n := |files| - 1;
        if faults(files[n].name) {
          failed := true;
          return;
        }
        RemovedFromBack(old(files), n);
        RemoveLast();
      }
    }

    /** The completion handler: the index is ignored and the temporary file is moved in under the preferred name. */
    method DownloadCompleted(index: nat, tempPath: Location, preferredFilename: string, faults: Faults)
      requires Valid()
      modifies this
      ensures Valid()
      ensures Carried(PlanImport(old(files), old(disk), tempPath, Some(preferredFilename), faults), tempPath, false)
    {
      ImportFile(tempPath, Some(preferredFilename), false, faults);
    }
  }
}
