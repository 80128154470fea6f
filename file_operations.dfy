/**
 * Installing a ZXP package into the extension root and removing an
 * installed bundle: the extension check on the package's file name, the id
 * of the bundle read from the manifest inside the archive, the directory
 * the package is unpacked into, and the order in which the checks run and
 * the error each failure becomes.
 */
module FileOperations {
  import opened Wrappers
  import opened Xml
  import opened FsModel
  import Strings
  import DataOperations
  import opened Sequences

  /**
   * The errors the install and removal operations report. `DialogCancelled`
   * belongs to the file dialog, which is not part of this model; no
   * modelled operation reports it.
   */
  datatype FileOperationError =
    | DialogCancelled
    | InvalidExtension
    | FileNotFound
    | PermissionDenied
    | InvalidZip
    | ExtractError

  /** The manifest entry of a package, by name inside the archive. */
  const ManifestEntryPath: Path := DataOperations.ManifestLocation

  /** The id of a bundle is its bundle id up to the first occurrence of this text. */
  const PanelMarker := ".panel"

  /**
   * How an OS error from `create_dir_all` or `remove_dir_all` is reported:
   * a refused permission as such, anything else as an extraction error.
   */
  function FromOsError(k: IoErrorKind): (e: FileOperationError)
    ensures e == FileOperationError.PermissionDenied <==> k == IoErrorKind.PermissionDenied
    ensures e == FileOperationError.PermissionDenied || e == ExtractError
  {
    if k == IoErrorKind.PermissionDenied then FileOperationError.PermissionDenied else ExtractError
  }

  // ---------------------------------------------------------------------------
  // The extension check
  // ---------------------------------------------------------------------------

  /** `Path::file_name`: the last component, unless there is none or it is "..". */
  function FileName(p: Path): Option<string>
  {
    if p == [] || p[|p| - 1] == ".." then None else Some(p[|p| - 1])
  }

  /** The position of the last '.' in `s`. */
  function LastDot(s: string): (r: Option<nat>)
    ensures r.Some? ==> r.value < |s| && s[r.value] == '.' && '.' !in s[r.value + 1..]
    ensures r.None? ==> '.' !in s
    decreases |s|
  {
    if s == [] then None
    else if s[|s| - 1] == '.' then Some(|s| - 1)
    else
      var r := LastDot(s[..|s| - 1]);
      assert s == s[..|s| - 1] + [s[|s| - 1]];
      r
  }

  /**
   * `Path::extension`: the text after the last '.' of the file name; none
   * when the name has no '.', or when its only '.' is its first character.
   */
  function Extension(p: Path): Option<string>
  {
    match FileName(p)
    case None => None
    case Some(name) =>
      match LastDot(name)
      case None => None
      case Some(i) => if i == 0 then None else Some(name[i + 1..])
  }

  /** `is_valid_zxp_extension`: the extension, lower-cased, is "zxp". */
  predicate IsValidZxpExtension(p: Path)
  {
    Extension(p).Some? && Strings.Lowercase(Extension(p).value) == "zxp"
  }

  /** Where a lower-cased text is "zxp", the text itself has no '.'. */
  lemma NoDotInZxp(ext: string)
    requires Strings.Lowercase(ext) == "zxp"
    ensures '.' !in ext
  {
    forall i | 0 <= i < |ext| ensures ext[i] != '.' {
      assert Strings.AsciiLower(ext[i]) == "zxp"[i];
    }
  }

  /**
   * The check holds exactly for a file name of at least five characters
   * ending in '.' and three characters that lower-case to "zxp".
   */
  lemma ZxpExtensionExactly(p: Path)
    ensures IsValidZxpExtension(p) <==>
              p != [] && |p[|p| - 1]| >= 5 && p[|p| - 1][|p[|p| - 1]| - 4] == '.'
              && Strings.Lowercase(p[|p| - 1][|p[|p| - 1]| - 3..]) == "zxp"
  {
    if p != [] {
      var name := p[|p| - 1];
      if IsValidZxpExtension(p) {
        var i := LastDot(name).value;
        assert |name[i + 1..]| == 3;
      }
      if |name| >= 5 && name[|name| - 4] == '.' && Strings.Lowercase(name[|name| - 3..]) == "zxp" {
        var k := |name| - 4;
        NoDotInZxp(name[k + 1..]);
        assert name != "..";
      }
    }
  }

  /** The first unit test of `is_valid_zxp_extension`. */
  lemma ZxpExtensionAccepts()
    ensures IsValidZxpExtension(["test.zxp"])
  {
    ZxpExtensionExactly(["test.zxp"]);
    assert "test.zxp"[5..] == "zxp";
  }

  /** The second unit test of `is_valid_zxp_extension`: the check ignores case. */
  lemma ZxpExtensionIgnoresCase()
    ensures IsValidZxpExtension(["test.ZXP"])
  {
    ZxpExtensionExactly(["test.ZXP"]);
    assert "test.ZXP"[5..] == "ZXP";
    assert Strings.Lowercase("ZXP") == "zxp";
  }

  /** The rejecting unit tests of `is_valid_zxp_extension`: another extension, or none. */
  lemma ZxpExtensionRejects()
    ensures !IsValidZxpExtension(["test.zip"])
    ensures !IsValidZxpExtension(["test"])
  {
    assert !IsValidZxpExtension(["test.zip"]) by {
      ZxpExtensionExactly(["test.zip"]);
      assert "test.zip"[5..] == "zip";
      assert Strings.Lowercase("zip")[1] == 'i';
    }
    assert !IsValidZxpExtension(["test"]) by {
      ZxpExtensionExactly(["test"]);
    }
  }

  // ---------------------------------------------------------------------------
  // The id of the bundle a package holds
  // ---------------------------------------------------------------------------

  /**
   * The first piece of the bundle id split at ".panel": a prefix of the id
   * that contains no ".panel", ending just before the first occurrence if
   * there is one, and the whole id if there is none.
   */
  function ExtensionId(bundleId: string): (id: string)
    ensures id <= bundleId
    ensures !Strings.Occurs(id, PanelMarker)
    ensures Strings.Occurs(bundleId, PanelMarker) ==> PanelMarker <= bundleId[|id|..]
    ensures !Strings.Occurs(bundleId, PanelMarker) ==> id == bundleId
  {
    Strings.BeforeFirstHasNoOccurrence(bundleId, PanelMarker);
    Strings.BeforeFirstStopsAtMatch(bundleId, PanelMarker);
    Strings.BeforeFirst(bundleId, PanelMarker)
  }

  /** Panel bundle ids lose their panel suffix; other ids are kept whole. */
  lemma ExtensionIdExamples()
    ensures ExtensionId("a.panel") == "a"
    ensures ExtensionId("a") == "a"
    ensures ExtensionId(".panel") == ""
  {
    assert !(PanelMarker <= "a.panel") by {
      assert "a.panel"[0] != PanelMarker[0];
    }
    assert "a.panel"[1..] == PanelMarker;
    assert Strings.BeforeFirst("a.panel", PanelMarker) == "a" + Strings.BeforeFirst(PanelMarker, PanelMarker);
  }

  /**
   * The entry named `CSXS/manifest.xml`: of the file entries of that name,
   * the last one, as the ZIP reader's name index keeps it.
   */
  predicate IsManifestEntry(e: ArchiveEntry)
  {
    e.path == ManifestEntryPath && e.body.FileEntry?
  }

  function ManifestEntry(entries: seq<ArchiveEntry>): (r: Option<FileData>)
    ensures r.None? <==> forall i | 0 <= i < |entries| :: !IsManifestEntry(entries[i])
    ensures r.Some? ==> exists i | 0 <= i < |entries| ::
              IsManifestEntry(entries[i]) && entries[i].body.data == r.value
              && forall j | i < j < |entries| :: !IsManifestEntry(entries[j])
    decreases |entries|
  {
    if entries == [] then None
    else
      var e := entries[|entries| - 1];
      if IsManifestEntry(e) then Some(e.body.data)
      else
        var r := ManifestEntry(entries[..|entries| - 1]);
        assert forall i | 0 <= i < |entries| - 1 :: entries[i] == entries[..|entries| - 1][i];
        r
  }

  /** What `read_to_string` makes of the manifest entry: its events, if its bytes are text. */
  function EntryText(d: FileData): Option<seq<XmlEvent>>
  {
    match d.content
    case Readable(Some(text), _) => Some(text)
    case _ => None
  }

  /**
   * `extract_extension_id_from_zip`: the manifest entry must exist and read
   * as text, the temporary copy the parser reads must be written, and the
   * manifest must parse; the id is the bundle id cut at ".panel".
   */
  function IdFromArchive(archive: Archive, tempWriteFails: bool): (r: Result<string, FileOperationError>)
    ensures r.Err? ==> r.error == InvalidZip || (r.error == ExtractError && tempWriteFails)
    ensures r.Ok? ==> !Strings.Occurs(r.value, PanelMarker) && !tempWriteFails
  {
    match ManifestEntry(archive.entries)
    case None => Err(InvalidZip)
    case Some(d) =>
      match EntryText(d)
      case None => Err(InvalidZip)
      case Some(text) =>
        if tempWriteFails then Err(ExtractError)
        else match DataOperations.ManifestInfo(text)
          case Err(_) => Err(InvalidZip)
          case Ok(info) => Ok(ExtensionId(info.bundleId))
  }

  /** The identity the package's manifest declares, if its manifest entry reads as text and parses. */
  function ArchiveInfo(archive: Archive): Option<DataOperations.PluginInfo>
  {
    match ManifestEntry(archive.entries)
    case None => None
    case Some(d) =>
      match EntryText(d)
      case None => None
      case Some(text) =>
        match DataOperations.ManifestInfo(text)
        case Err(_) => None
        case Ok(info) => Some(info)
  }

  /**
   * Unless the temporary copy fails, the id of a package is its manifest's
   * bundle id cut at ".panel", and every package without a readable,
   * parsable manifest is rejected as `InvalidZip`.
   */
  lemma IdFromArchiveInfo(archive: Archive)
    ensures IdFromArchive(archive, false) ==
              if ArchiveInfo(archive).Some? then Ok(ExtensionId(ArchiveInfo(archive).value.bundleId)) else Err(InvalidZip)
    ensures IdFromArchive(archive, true) ==
              if ManifestEntry(archive.entries).Some? && EntryText(ManifestEntry(archive.entries).value).Some?
              then Err(ExtractError) else Err(InvalidZip)
  {
  }

  method ExtractExtensionIdFromZip(archive: Archive, tempWriteFails: bool) returns (r: Result<string, FileOperationError>)
    ensures r == IdFromArchive(archive, tempWriteFails)
  {
    var entry := ManifestEntry(archive.entries);
    if entry.None? {
      return Err(InvalidZip);
    }
    var text := EntryText(entry.value);
    if text.None? {
      return Err(InvalidZip);
    }
    if tempWriteFails {
      return Err(ExtractError);
    }
    var info := DataOperations.ParseManifestEvents(text.value);
    if info.Err? {
      return Err(InvalidZip);
    }
    r := Ok(ExtensionId(info.value.bundleId));
  }

  // ---------------------------------------------------------------------------
  // Installing a package
  // ---------------------------------------------------------------------------

  /**
   * `File::open` followed by `ZipArchive::new`: a file that cannot be
   * opened (or an object that is not a regular file or directory) gives
   * `FileNotFound`; one that opens but is not a ZIP container gives
   * `InvalidZip` (a directory opens for reading, but reads as no archive).
   */
  function OpenArchive(n: Node): (r: Result<Archive, FileOperationError>)
    ensures r.Ok? <==> n.File? && n.data.content.Readable? && n.data.content.archive.Some?
    ensures r.Ok? ==> r.value == n.data.content.archive.value
    ensures r.Err? ==> r.error == FileNotFound || r.error == InvalidZip
  {
    match n
    case File(FileData(_, Unreadable(_))) => Err(FileNotFound)
    case File(FileData(_, Readable(_, None))) => Err(InvalidZip)
    case File(FileData(_, Readable(_, Some(archive)))) => Ok(archive)
    case Dir(_) => Err(InvalidZip)
    case _ => Err(FileNotFound)
  }

  /**
   * The directory a bundle with id `id` is unpacked into: the extension root
   * joined with the id, as the OS resolves it.
   */
  function InstallTarget(id: string): (target: Path)
    ensures id != "" && id != "." && id != ".." && '/' !in id ==> target == DataOperations.ExtensionRoot + [id]
    ensures ".." !in target
  {
    if id != "" && id != "." && id != ".." && '/' !in id then
      JoinPlainName(DataOperations.ExtensionRoot, id);
      Join(DataOperations.ExtensionRoot, id)
    else
      Join(DataOperations.ExtensionRoot, id)
  }

  /** The archive of a package and the directory it goes into. */
  datatype Plan = Plan(archive: Archive, target: Path)

  /**
   * The checks `install_zxp` makes before it touches the filesystem, in
   * their order: the package exists, its name ends in ".zxp", it opens as
   * an archive, and the archive names its bundle.
   */
  function InstallPlan(n: Node, zxpPath: Path, tempWriteFails: bool): Result<Plan, FileOperationError>
  {
    if !Exists(n, zxpPath) then Err(FileNotFound)
    else if !IsValidZxpExtension(zxpPath) then Err(InvalidExtension)
    else
      var archive :- OpenArchive(Lookup(n, zxpPath).value);
      var id :- IdFromArchive(archive, tempWriteFails);
      Ok(Plan(archive, InstallTarget(id)))
  }

  /**
   * The failures of the outside world an installation can meet: writing
   * the temporary manifest copy, and refusals of the OS when the target
   * directory is created or the archive is unpacked.
   */
  datatype InstallFaults = InstallFaults(tempWriteFails: bool, createDir: Option<IoErrorKind>, extract: Option<IoErrorKind>)

  /** `create_dir_all(target)`, with its error mapped. */
  function Prepared(n: Node, plan: Plan, faults: InstallFaults): Result<Node, FileOperationError>
  {
    if faults.createDir.Some? then Err(FromOsError(faults.createDir.value))
    else match Place(n, plan.target, DirLeaf)
      case Err(k) => Err(FromOsError(k))
      case Ok(m) => Ok(m)
  }

  /** `archive.extract(target)`, with any error reported as `ExtractError`. */
  function Unpacked(n: Node, plan: Plan, faults: InstallFaults): Result<Node, FileOperationError>
  {
    if faults.extract.Some? then Err(ExtractError)
    else match ExtractAll(n, plan.target, plan.archive.entries)
      case Err(_) => Err(ExtractError)
      case Ok(m) => Ok(m)
  }

  /** What `install_zxp` returns. */
  function InstallResult(n: Node, zxpPath: Path, faults: InstallFaults): Result<Path, FileOperationError>
  {
    var plan :- InstallPlan(n, zxpPath, faults.tempWriteFails);
    var prepared :- Prepared(n, plan, faults);
    var unpacked :- Unpacked(prepared, plan, faults);
    Ok(plan.target)
  }

  /** The filesystem after a successful installation. */
  function Installed(n: Node, zxpPath: Path, faults: InstallFaults): Node
    requires InstallResult(n, zxpPath, faults).Ok?
  {
    var plan := InstallPlan(n, zxpPath, faults.tempWriteFails).value;
    Unpacked(Prepared(n, plan, faults).value, plan, faults).value
  }

  /**
   * `install_zxp(zxp_path)`. A failure before the target directory is
   * created, or in creating it, leaves the filesystem as it was; a failed
   * extraction may have unpacked part of the archive, so then only the
   * paths off the target are promised to be as they were.
   */
  method InstallZxp(disk: Disk, zxpPath: Path, faults: InstallFaults) returns (r: Result<Path, FileOperationError>)
    modifies disk
    ensures r == InstallResult(old(disk.root), zxpPath, faults)
    ensures r.Ok? ==> disk.root == Installed(old(disk.root), zxpPath, faults)
    ensures InstallPlan(old(disk.root), zxpPath, faults.tempWriteFails).Err? ==> disk.root == old(disk.root)
    ensures var plan := InstallPlan(old(disk.root), zxpPath, faults.tempWriteFails);
            plan.Ok? && Prepared(old(disk.root), plan.value, faults).Err? ==> disk.root == old(disk.root)
    ensures var plan := InstallPlan(old(disk.root), zxpPath, faults.tempWriteFails);
            plan.Ok? ==> forall q | Disjoint(plan.value.target, q) :: Lookup(disk.root, q) == Lookup(old(disk.root), q)
  {
    if !Exists(disk.root, zxpPath) {
      return Err(FileNotFound);
    }
    if !IsValidZxpExtension(zxpPath) {
      return Err(InvalidExtension);
    }
    var archive :- OpenArchive(Lookup(disk.root, zxpPath).value);
    var id :- ExtractExtensionIdFromZip(archive, faults.tempWriteFails);
    var target := InstallTarget(id);
    var before := disk.root;
    var e := disk.CreateDirAll(target, faults.createDir);
    if e.Some? {
      return Err(FromOsError(e.value));
    }
    forall q | Disjoint(target, q) ensures Lookup(disk.root, q) == Lookup(before, q) {
      PlaceFrame(before, target, DirLeaf, q);
    }
    e := disk.Extract(archive, target, faults.extract);
    if e.Some? {
      return Err(ExtractError);
    }
    r := Ok(target);
  }

  /**
   * The order of the checks: a missing package is reported before its
   * name is looked at, a wrong name before the package is opened, and a
   * package that cannot be opened before its manifest is read.
   */
  lemma InstallChecksInOrder(n: Node, zxpPath: Path, faults: InstallFaults)
    ensures !Exists(n, zxpPath) ==> InstallResult(n, zxpPath, faults) == Err(FileNotFound)
    ensures Exists(n, zxpPath) && !IsValidZxpExtension(zxpPath) ==>
              InstallResult(n, zxpPath, faults) == Err(InvalidExtension)
    ensures Exists(n, zxpPath) && IsValidZxpExtension(zxpPath) && OpenArchive(Lookup(n, zxpPath).value).Err? ==>
              InstallResult(n, zxpPath, faults) == Err(OpenArchive(Lookup(n, zxpPath).value).error)
  {
  }

  /**
   * A package that opens is rejected as `InvalidZip` when it has no
   * manifest entry, when the entry is not text, or when the manifest does
   * not parse; a failing temporary copy is an `ExtractError`.
   */
  lemma InstallInvalidZip(n: Node, zxpPath: Path, faults: InstallFaults)
    requires Exists(n, zxpPath) && IsValidZxpExtension(zxpPath)
    requires OpenArchive(Lookup(n, zxpPath).value).Ok?
    ensures var entry := ManifestEntry(OpenArchive(Lookup(n, zxpPath).value).value.entries);
            && (entry.None? ==> InstallResult(n, zxpPath, faults) == Err(InvalidZip))
            && (entry.Some? && EntryText(entry.value).None? ==> InstallResult(n, zxpPath, faults) == Err(InvalidZip))
            && (entry.Some? && EntryText(entry.value).Some? && faults.tempWriteFails ==>
                  InstallResult(n, zxpPath, faults) == Err(ExtractError))
            && (entry.Some? && EntryText(entry.value).Some? && !faults.tempWriteFails
                && DataOperations.ManifestInfo(EntryText(entry.value).value).Err? ==>
                  InstallResult(n, zxpPath, faults) == Err(InvalidZip))
  {
  }

  /**
   * Once the package names its bundle, the filesystem steps decide the
   * result: a refusal of `create_dir_all` keeps its kind when it is
   * `PermissionDenied` and is an `ExtractError` otherwise, any failure of
   * the extraction is an `ExtractError`, and when both succeed the target
   * is returned.
   */
  lemma InstallFailsLate(n: Node, zxpPath: Path, faults: InstallFaults)
    requires InstallPlan(n, zxpPath, faults.tempWriteFails).Ok?
    ensures var plan := InstallPlan(n, zxpPath, faults.tempWriteFails).value;
            var placed := Place(n, plan.target, DirLeaf);
            var r := InstallResult(n, zxpPath, faults);
            && (faults.createDir.Some? ==> r == Err(FromOsError(faults.createDir.value)))
            && (faults.createDir.None? && placed.Err? ==> r == Err(FromOsError(placed.error)))
            && (faults.createDir.None? && placed.Ok?
                && (faults.extract.Some? || ExtractAll(placed.value, plan.target, plan.archive.entries).Err?) ==>
                  r == Err(ExtractError))
            && (faults.createDir.None? && placed.Ok?
                && faults.extract.None? && ExtractAll(placed.value, plan.target, plan.archive.entries).Ok? ==>
                  r == Ok(plan.target))
  {
  }

  /**
   * After a successful installation: the returned directory is the
   * extension root joined with the id cut from the manifest's bundle id;
   * it is a directory and every entry of the archive is present below it;
   * nothing off it changed; and no directory was taken away.
   */
  lemma InstallSucceeds(n: Node, zxpPath: Path, faults: InstallFaults)
    requires InstallResult(n, zxpPath, faults).Ok?
    ensures var t := InstallResult(n, zxpPath, faults).value;
            var archive := OpenArchive(Lookup(n, zxpPath).value).value;
            var d := ManifestEntry(archive.entries).value;
            && Exists(n, zxpPath) && IsValidZxpExtension(zxpPath)
            && ManifestEntry(archive.entries).Some? && EntryText(d).Some?
            && DataOperations.ManifestInfo(EntryText(d).value).Ok?
            && t == InstallTarget(ExtensionId(DataOperations.ManifestInfo(EntryText(d).value).value.bundleId))
    ensures var t := InstallResult(n, zxpPath, faults).value;
            var m := Installed(n, zxpPath, faults);
            var entries := OpenArchive(Lookup(n, zxpPath).value).value.entries;
            && IsDirAt(m, t)
            && (forall i | 0 <= i < |entries| :: Enclosed(entries[i].path))
            && (forall i | 0 <= i < |entries| :: Present(m, t + entries[i].path, LeafOf(entries[i].body)))
            && (forall q | Disjoint(t, q) :: Lookup(m, q) == Lookup(n, q))
            && (forall q | IsDirAt(n, q) :: IsDirAt(m, q))
  {
    var plan := InstallPlan(n, zxpPath, faults.tempWriteFails).value;
    var t := plan.target;
    var entries := plan.archive.entries;
    var p := Prepared(n, plan, faults).value;
    var m := Installed(n, zxpPath, faults);
    assert m == ExtractAll(p, t, entries).value;
    PlaceWrites(n, t, DirLeaf);
    ExtractAllKeepsDirs(p, t, entries, t);
    ExtractAllEnclosed(p, t, entries);
    ExtractAllPresent(p, t, entries);
    forall q | Disjoint(t, q) ensures Lookup(m, q) == Lookup(n, q) {
      PlaceFrame(n, t, DirLeaf, q);
      ExtractAllFrame(p, t, entries, q);
    }
    forall q | IsDirAt(n, q) ensures IsDirAt(m, q) {
      PlaceKeeps(n, t, DirLeaf, q);
      ExtractAllKeepsDirs(p, t, entries, q);
    }
  }

  /** No two file entries of an archive share a path. */
  predicate DistinctFileEntries(entries: seq<ArchiveEntry>)
  {
    forall i, j | 0 <= i < j < |entries| ::
      !(entries[i].body.FileEntry? && entries[j].body.FileEntry? && entries[i].path == entries[j].path)
  }

  /**
   * Installing the same package again, once it is installed, succeeds
   * with the same directory and leaves the filesystem as the first
   * installation left it: `create_dir_all` accepts the existing directory
   * and every file is written over with the data it already holds.
   */
  lemma InstallIdempotent(n: Node, zxpPath: Path, faults: InstallFaults)
    requires InstallResult(n, zxpPath, faults).Ok?
    requires Disjoint(InstallResult(n, zxpPath, faults).value, zxpPath)
    requires DistinctFileEntries(OpenArchive(Lookup(n, zxpPath).value).value.entries)
    ensures InstallResult(Installed(n, zxpPath, faults), zxpPath, faults) == InstallResult(n, zxpPath, faults)
    ensures Installed(Installed(n, zxpPath, faults), zxpPath, faults) == Installed(n, zxpPath, faults)
  {
    var plan := InstallPlan(n, zxpPath, faults.tempWriteFails).value;
    var t := plan.target;
    var entries := plan.archive.entries;
    var p := Prepared(n, plan, faults).value;
    var m := Installed(n, zxpPath, faults);
    assert m == ExtractAll(p, t, entries).value;
    InstallSucceeds(n, zxpPath, faults);
    assert InstallPlan(m, zxpPath, faults.tempWriteFails) == Ok(plan) by {
      assert Lookup(m, zxpPath) == Lookup(n, zxpPath);
    }
    assert Prepared(m, plan, faults) == Ok(m) by {
      PlaceSettled(m, t, DirLeaf);
    }
    forall i | 0 <= i < |entries|
      ensures Enclosed(entries[i].path) && Settled(m, t + entries[i].path, LeafOf(entries[i].body))
    {
      if entries[i].body.FileEntry? {
        ExtractAllLastWrite(p, t, entries, i);
      }
    }
    ExtractAllSettled(m, t, entries);
    assert Unpacked(m, plan, faults) == Ok(m);
  }

  /**
   * The id is joined to the extension root as it is: an empty id (a
   * bundle id starting with ".panel") names the extension root itself, a
   * '/' inside it descends further, and an absolute one replaces the root.
   */
  lemma InstallTargetUnchecked()
    ensures InstallTarget(ExtensionId(".panel")) == DataOperations.ExtensionRoot
    ensures InstallTarget("a/b") == DataOperations.ExtensionRoot + ["a", "b"]
    ensures InstallTarget("/a") == ["a"]
  {
    assert Strings.Meaningful(["a"]) == ["a"] by {
      assert ["a"][1..] == [];
    }
    assert InstallTarget("a/b") == DataOperations.ExtensionRoot + ["a", "b"] by {
      Strings.SplitSlashSingle("b");
      assert "a/b"[1..] == "/b" && "/b"[1..] == "b" && ['a'] + "" == "a";
      assert Strings.SplitSlash("/b") == ["", "b"];
      assert Strings.SplitSlash("a/b") == ["a", "b"];
      assert Strings.Meaningful(["b"]) == ["b"] by {
        assert ["b"][1..] == [];
      }
      assert ["a", "b"][1..] == ["b"];
      ResolveDown(DataOperations.ExtensionRoot, ["a", "b"]);
    }
    assert InstallTarget("/a") == ["a"] by {
      Strings.SplitSlashSingle("a");
      assert "/a"[1..] == "a";
      assert Strings.SplitSlash("/a") == ["", "a"];
      assert ["", "a"][1..] == ["a"];
      ResolveDown([], ["a"]);
    }
  }

  /** The CEP directory, which holds the extension root. */
  const CepDir: Path := ["Library", "Application Support", "Adobe", "CEP"]

  /**
   * An id made of or starting with ".." climbs out of the extension root:
   * ".." names the CEP directory itself, and "../a" a sibling of the root.
   */
  lemma InstallTargetClimbs()
    ensures InstallTarget("..") == CepDir
    ensures InstallTarget("../a") == CepDir + ["a"]
  {
    assert DataOperations.ExtensionRoot[..4] == CepDir;
    JoinParent(DataOperations.ExtensionRoot);
    assert Strings.SplitSlash("a") == ["a"] by {
      Strings.SplitSlashSingle("a");
    }
    assert "../a"[1..] == "./a" && "./a"[1..] == "/a" && "/a"[1..] == "a";
    assert ['.'] + "" == "." && ['.'] + "." == "..";
    assert ["", "a"][1..] == ["a"] && [".", "a"][1..] == ["a"];
    assert Strings.SplitSlash("/a") == ["", "a"];
    assert Strings.SplitSlash("./a") == [".", "a"];
    assert Strings.SplitSlash("../a") == ["..", "a"];
    assert Strings.Meaningful(["a"]) == ["a"] by {
      assert ["a"][1..] == [];
    }
    assert ["..", "a"][1..] == ["a"];
    assert Strings.Meaningful(["..", "a"]) == ["..", "a"];
    assert Resolve(DataOperations.ExtensionRoot, ["..", "a"]) == Resolve(CepDir, ["a"]);
    assert Resolve(CepDir, ["a"]) == Resolve(CepDir + ["a"], []);
  }

  // ---------------------------------------------------------------------------
  // Removing an installed bundle
  // ---------------------------------------------------------------------------

  /** What `remove_plugin` returns; `osFault` is a refusal of the OS during the deletion. */
  function RemoveResult(n: Node, p: Path, osFault: Option<IoErrorKind>): Result<(), FileOperationError>
  {
    if !Exists(n, p) then Err(FileNotFound)
    else if !IsDirAt(n, p) then Err(InvalidExtension)
    else match (if osFault.Some? then osFault else RemovalFault(n, p))
      case Some(k) => Err(FromOsError(k))
      case None => Ok(())
  }

  /**
   * `remove_plugin(plugin_path)`. A missing path or one that is not a
   * directory leaves everything as it was; a failed deletion may have
   * removed part of the subtree, so then only the paths off it are
   * promised to be as they were.
   */
  method RemovePlugin(disk: Disk, p: Path, osFault: Option<IoErrorKind>) returns (r: Result<(), FileOperationError>)
    modifies disk
    ensures r == RemoveResult(old(disk.root), p, osFault)
    ensures r.Ok? ==> p != [] && disk.root == Remove(old(disk.root), p)
    ensures !Exists(old(disk.root), p) || !IsDirAt(old(disk.root), p) ==> disk.root == old(disk.root)
    ensures forall q | Disjoint(p, q) :: Lookup(disk.root, q) == Lookup(old(disk.root), q)
  {
    if !Exists(disk.root, p) {
      return Err(FileNotFound);
    }
    if !IsDirAt(disk.root, p) {
      return Err(InvalidExtension);
    }
    var e := disk.RemoveDirAll(p, osFault);
    if e.Some? {
      return Err(FromOsError(e.value));
    }
    r := Ok(());
  }

  /**
   * The outcomes of a removal: `FileNotFound` exactly when nothing is
   * there, `InvalidExtension` exactly when something other than a
   * directory is, and otherwise a deletion error as the OS reports it.
   */
  lemma RemoveOutcomes(n: Node, p: Path, osFault: Option<IoErrorKind>)
    ensures RemoveResult(n, p, osFault) == Err(FileNotFound) <==> !Exists(n, p)
    ensures RemoveResult(n, p, osFault) == Err(InvalidExtension) <==> Exists(n, p) && !IsDirAt(n, p)
    ensures Exists(n, p) && IsDirAt(n, p) && RemoveResult(n, p, osFault).Err? ==>
              RemoveResult(n, p, osFault).error in {FileOperationError.PermissionDenied, ExtractError}
    ensures RemoveResult(n, p, osFault).Ok? <==>
              Exists(n, p) && IsDirAt(n, p) && osFault.None? && RemovalFault(n, p).None?
  {
  }

  /**
   * After a successful removal nothing is left at the path, the directory
   * that held it is still there, and nothing off the path changed.
   */
  lemma RemoveSucceeds(n: Node, p: Path, osFault: Option<IoErrorKind>)
    requires RemoveResult(n, p, osFault).Ok?
    ensures p != []
    ensures Lookup(Remove(n, p), p) == None
    ensures IsDirAt(Remove(n, p), p[..|p| - 1])
    ensures forall q | Disjoint(p, q) :: Lookup(Remove(n, p), q) == Lookup(n, q)
  {
    RemoveGone(n, p);
    ParentIsDir(n, p);
    RemoveKeepsAncestors(n, p, p[..|p| - 1]);
    forall q | Disjoint(p, q) ensures Lookup(Remove(n, p), q) == Lookup(n, q) {
      RemoveFrame(n, p, q);
    }
  }

  /** Dropping the entries of one name drops no enumeration error. */
  lemma {:induction false} NoBadItemWithout(items: seq<Item>, name: string)
    requires DataOperations.FirstBadItem(items) == None
    ensures DataOperations.FirstBadItem(Without(items, name)) == None
    decreases |items|
  {
    if items != [] {
      NoBadItemWithout(items[1..], name);
      if !Named(items[0], name) {
        assert ([items[0]] + Without(items[1..], name))[1..] == Without(items[1..], name);
      }
    }
  }

  /** The plugin an entry stands for lives at that entry's path. */
  lemma PluginAtPath(root: Path, it: Item, pl: DataOperations.Plugin)
    requires DataOperations.PluginAt(root, it) == Some(pl)
    ensures it.Item? && pl.path == root + [it.name]
  {
  }

  /** A plugin of the entries `Without` keeps is a plugin of all the entries, at another name. */
  lemma PluginsInWithoutKept(root: Path, items: seq<Item>, name: string, pl: DataOperations.Plugin)
    requires pl in DataOperations.PluginsIn(root, Without(items, name))
    ensures pl in DataOperations.PluginsIn(root, items) && pl.path != root + [name]
  {
    var f := (it: Item) => DataOperations.PluginAt(root, it);
    var it := FilterMapFrom(Without(items, name), f, pl);
    PluginAtPath(root, it, pl);
    WithoutMembers(items, name);
    FilterMapHas(items, f, it, pl);
    assert pl.path[|root|] == it.name;
  }

  /** A plugin of all the entries at another name is a plugin of the entries `Without` keeps. */
  lemma PluginsInWithoutOthers(root: Path, items: seq<Item>, name: string, pl: DataOperations.Plugin)
    requires pl in DataOperations.PluginsIn(root, items) && pl.path != root + [name]
    ensures pl in DataOperations.PluginsIn(root, Without(items, name))
  {
    var f := (it: Item) => DataOperations.PluginAt(root, it);
    var it := FilterMapFrom(items, f, pl);
    PluginAtPath(root, it, pl);
    WithoutMembers(items, name);
    FilterMapHas(Without(items, name), f, it, pl);
  }

  /**
   * Removing an installed bundle takes it, and only it, out of the next
   * scan: the scan still succeeds, and lists every plugin it listed
   * before except the one at the removed path.
   */
  lemma RemovedPluginLeavesScan(fs: Node, name: string, osFault: Option<IoErrorKind>)
    requires RemoveResult(fs, DataOperations.ExtensionRoot + [name], osFault).Ok?
    requires DataOperations.ScanResult(fs).Ok?
    ensures var after := DataOperations.ScanResult(Remove(fs, DataOperations.ExtensionRoot + [name]));
            && after.Ok?
            && forall pl :: pl in after.value <==>
                 pl in DataOperations.ScanResult(fs).value && pl.path != DataOperations.ExtensionRoot + [name]
  {
    var root := DataOperations.ExtensionRoot;
    var p := root + [name];
    assert p[..|p| - 1] == root;
    ParentIsDir(fs, p);
    var items := Lookup(fs, root).value.items;
    var rest := Without(items, name);
    RemoveAtParent(fs, p, items);
    var fs' := Remove(fs, p);
    assert Lookup(fs', root) == Some(Dir(rest));
    assert DataOperations.ScanResult(fs) == Ok(DataOperations.PluginsIn(root, items)) by {
      assert DataOperations.FirstBadItem(items) == None;
    }
    NoBadItemWithout(items, name);
    assert DataOperations.ScanResult(fs') == Ok(DataOperations.PluginsIn(root, rest));
    forall pl
      ensures pl in DataOperations.PluginsIn(root, rest) <==> pl in DataOperations.PluginsIn(root, items) && pl.path != p
    {
      if pl in DataOperations.PluginsIn(root, rest) {
        PluginsInWithoutKept(root, items, name, pl);
      }
      if pl in DataOperations.PluginsIn(root, items) && pl.path != p {
        PluginsInWithoutOthers(root, items, name, pl);
      }
    }
  }

  /** After a successful installation the package's manifest entry is a file below the target. */
  lemma InstalledManifestFile(n: Node, zxpPath: Path, faults: InstallFaults)
    requires InstallResult(n, zxpPath, faults).Ok?
    ensures var archive := OpenArchive(Lookup(n, zxpPath).value).value;
            && ManifestEntry(archive.entries).Some?
            && Lookup(Installed(n, zxpPath, faults), InstallResult(n, zxpPath, faults).value + ManifestEntryPath)
               == Some(File(ManifestEntry(archive.entries).value))
  {
    var plan := InstallPlan(n, zxpPath, faults.tempWriteFails).value;
    var t := plan.target;
    var entries := plan.archive.entries;
    var p := Prepared(n, plan, faults).value;
    assert Installed(n, zxpPath, faults) == ExtractAll(p, t, entries).value;
    assert ManifestEntry(entries).Some?;
    var d := ManifestEntry(entries).value;
    var k :| 0 <= k < |entries| && IsManifestEntry(entries[k]) && entries[k].body.data == d
             && forall j | k < j < |entries| :: !IsManifestEntry(entries[j]);
    ExtractAllLastWrite(p, t, entries, k);
  }

  /**
   * After a successful installation the target is a bundle directory whose
   * manifest gives the identity the package's manifest declares.
   */
  lemma InstalledBundle(n: Node, zxpPath: Path, faults: InstallFaults)
    requires InstallResult(n, zxpPath, faults).Ok?
    ensures var t := InstallResult(n, zxpPath, faults).value;
            var m := Installed(n, zxpPath, faults);
            var info := ArchiveInfo(OpenArchive(Lookup(n, zxpPath).value).value);
            && info.Some? && Lookup(m, t).Some? && Lookup(m, t).value.Dir?
            && DataOperations.IsValidPlugin(Lookup(m, t).value)
            && DataOperations.ManifestAt(Lookup(m, t).value, DataOperations.ManifestLocation) == Ok(info.value)
  {
    var t := InstallResult(n, zxpPath, faults).value;
    var m := Installed(n, zxpPath, faults);
    var archive := OpenArchive(Lookup(n, zxpPath).value).value;
    InstalledManifestFile(n, zxpPath, faults);
    var d := ManifestEntry(archive.entries).value;
    assert ArchiveInfo(archive).Some? && EntryText(d).Some? by {
      InstallSucceeds(n, zxpPath, faults);
    }
    LookupAppend(m, t, ManifestEntryPath);
    var node := Lookup(m, t).value;
    assert Lookup(node, ManifestEntryPath) == Some(File(d));
  }

  /**
   * A package installed directly below the extension root is listed by the
   * next scan that succeeds, under the installed directory, with the name,
   * version and classification its manifest gives.
   */
  lemma InstalledPluginIsListed(n: Node, zxpPath: Path, faults: InstallFaults)
    requires InstallResult(n, zxpPath, faults).Ok?
    requires var t := InstallResult(n, zxpPath, faults).value;
             |t| == |DataOperations.ExtensionRoot| + 1 && t[..|DataOperations.ExtensionRoot|] == DataOperations.ExtensionRoot
    requires DataOperations.ScanResult(Installed(n, zxpPath, faults)).Ok?
    ensures var t := InstallResult(n, zxpPath, faults).value;
            var m := Installed(n, zxpPath, faults);
            var info := ArchiveInfo(OpenArchive(Lookup(n, zxpPath).value).value);
            && info.Some? && Lookup(m, t).Some?
            && DataOperations.Plugin(info.value.name, info.value.version, DataOperations.FolderSizeText(Lookup(m, t).value),
                                     t, DataOperations.DeterminePluginType(info.value.bundleId))
                 in DataOperations.ScanResult(m).value
  {
    var root := DataOperations.ExtensionRoot;
    var t := InstallResult(n, zxpPath, faults).value;
    var m := Installed(n, zxpPath, faults);
    InstalledBundle(n, zxpPath, faults);
    var info := ArchiveInfo(OpenArchive(Lookup(n, zxpPath).value).value).value;
    var name := t[|root|];
    ChildPath(t, root);
    DataOperations.ScanListsEveryBundle(m, name, info);
  }
}
