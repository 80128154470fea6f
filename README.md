# zxp-manager plugin lifecycle, in Dafny

zxp-manager manages Adobe CEP extensions, which are installed system-wide under
`/Library/Application Support/Adobe/CEP/extensions/`. This project models the
plugin lifecycle behind its user interface:

- a scan of the extension root turns every bundle directory with a readable
  `CSXS/manifest.xml` into a plugin record (name, version, size, path, type);
- a bundle's manifest is read for its bundle id, name and version;
- a bundle is classified as native or installed by its id;
- a bundle's size is measured over its whole directory tree;
- a ZXP package (a ZIP archive) is installed into the directory named by the
  id its own manifest declares;
- an installed bundle is removed with its directory.

The modules are:

- `FsModel` (`fs_model.dfy`) is the filesystem. It is a tree whose directories
  list their entries in enumeration order. Read-side I/O errors are part of the
  tree: a directory that cannot be listed, an entry whose metadata cannot be
  read, an enumeration step that fails. Write-side refusals of the operating
  system are parameters. The class `Disk` holds the current tree. Its methods
  are `create_dir_all`, `remove_dir_all` and the archive extraction.
- `Xml` (`xml.dfy`) is the stream of events the XML pull reader yields.
- `DataOperations` (`data_operations.dfy`) models `src/data_operations.rs`.
- `FileOperations` (`file_operations.dfy`) models `src/file_operations.rs`.
- `Strings`, `Sequences` and `Wrappers` are helpers.

Each loop of the source is a method with a `while` loop and its invariants:
the event loop and the attribute loop of `parse_manifest_xml`, the entry loop
of `scan_cep_plugins`, and the recursive walk of `calculate_folder_size_bytes`.
Each such method is proved equal to a specification function, and the
properties are lemmas about those functions. `install_zxp` and `remove_plugin`
are methods that change a `Disk`. Each is proved to return what a
specification function of the old tree says, and to leave the tree that
function describes.

The model follows the code in these points:

- The manifest loop runs to the end of the document. A later
  `ExtensionManifest` element overwrites each of the three attributes it
  carries, so across elements the last value given wins
  (`src/data_operations.rs:130-156`). Within one element a key given twice
  is an attribute error of the reader, so it arrives as `Malformed` and the
  manifest is invalid (`src/data_operations.rs:138`).
- Only an opening `<ExtensionManifest ...>` tag is matched
  (`src/data_operations.rs:136`). A self-closing `<ExtensionManifest .../>`
  arrives as `Other`, so a manifest written that way is rejected for a
  missing id.
- The non-native classification is called `Installed`, as in the code
  (`src/data_operations.rs:20-23`).
- The extension id is joined to the extension root as it is, with no check
  (`src/file_operations.rs:83-84`), and the OS resolves the joined path. An
  id that is empty, holds a '/', or is absolute names a directory other than
  a child of the root (`FileOperations.InstallTargetUnchecked`). An id ".."
  names the CEP directory itself, and "../a" a sibling of the root
  (`FileOperations.InstallTargetClimbs`).
- The scan and the installer use the system-wide root. The constant
  `CEP_EXTENSIONS_PATH` under the user's home is never used
  (`src/data_operations.rs:7`).

## Model

| member | source | states |
|---|---|---|
| DataOperations.FromIoError | src/data_operations.rs:53-61 | an I/O error becomes `PermissionDenied` exactly when its kind is permission denied, and `DirectoryNotFound` otherwise |
| DataOperations.ReadManifestAttributes | src/data_operations.rs:137-151 | the attribute loop stops exactly when a malformed attribute occurs (a key repeated within the tag is one); otherwise each of the three keys holds the value of its last attribute, or the value it held before |
| DataOperations.ParseManifestEvents | src/data_operations.rs:121-171 | the event loop returns the outcome `ManifestInfo` defines over the events before the first `Eof` |
| DataOperations.ManifestInfoOutcome | src/data_operations.rs:158-171 | parsing events fails only with `InvalidManifest`; a success has a non-empty bundle id, the last one given; the name falls back to the id and the version to "Unknown" |
| DataOperations.ParseManifestXml | src/data_operations.rs:117-172 | a manifest that cannot be read as text gives `ManifestNotFound`; a readable one gives the outcome of its events |
| DataOperations.ManifestNotFoundMeansUnreadable | src/data_operations.rs:117-119 | `ManifestNotFound` occurs exactly when the file cannot be read as text; every other failure is `InvalidManifest` |
| DataOperations.RejectedBeforeEnd | src/data_operations.rs:131-138 | a reader error or a malformed attribute met before the end of the document gives `InvalidManifest`, whatever follows |
| DataOperations.OtherEventsIgnored | src/data_operations.rs:136-153 | inserting any event other than an error, the end of the document or an `ExtensionManifest` start tag anywhere leaves the outcome unchanged |
| DataOperations.EventsAfterEofIgnored | src/data_operations.rs:133 | nothing after the end of the document affects the outcome |
| DataOperations.LaterElementOverrides | src/data_operations.rs:130-171 | after a well-formed manifest element with no further manifest element or reader error before the end of the document, each of the three keys holds the last value that element gives it, or its earlier value if the element gives none; the manifest is accepted exactly when nothing earlier rejected it and that id is non-empty, and its name and version fall back as usual |
| DataOperations.MissingIdRejected | src/data_operations.rs:158-160 | a manifest no manifest element of which gives a bundle id is rejected as `InvalidManifest` |
| DataOperations.DeterminePluginType | src/data_operations.rs:185-191 | the type is `Native` exactly when the id starts with "com.adobe.", and `Installed` otherwise |
| DataOperations.PluginTypeExamples | src/data_operations.rs:185-191 | "com.adobe.foo" is native; "com.example.bar", "com.adobe" without the dot, and the upper-case "COM.ADOBE.foo" are installed |
| DataOperations.FolderSizeBytes | src/data_operations.rs:197-212 | the walk fails exactly when the tree holds an I/O error, and then returns the first one met; otherwise it returns the total length of the regular files of the subtree |
| DataOperations.SpecialEntriesAddNothing | src/data_operations.rs:204-208 | an entry that is neither a file nor a directory, inserted anywhere, changes neither the size nor whether it can be measured |
| DataOperations.FormatSize | src/data_operations.rs:214-222 | exact byte text exactly below 1024; otherwise the byte count itself, in kilobytes exactly below 1024 * 1024 and in megabytes above |
| DataOperations.FormatSizeBytesRoundTrip | src/data_operations.rs:215-216 | below 1024 the text is decimal digits followed by " B", and reading the digits back gives the count |
| DataOperations.FormatSizeExamples | src/data_operations.rs:214-222 | 512 is "512 B"; 2048 is in kilobytes; 3 MiB is in megabytes |
| DataOperations.CalculateFolderSize | src/data_operations.rs:174-182 | "Unknown" when the tree holds any I/O error, and the formatted total size otherwise |
| DataOperations.ReadPlugin | src/data_operations.rs:84-111 | an entry becomes a plugin only if it is a directory holding `CSXS/manifest.xml` that parses; the plugin carries the entry's path under the root |
| DataOperations.ScanCepPlugins | src/data_operations.rs:64-115 | the loop returns `ScanResult`: `Ok([])` for a missing root; an error that is `DirectoryNotFound` or `PermissionDenied` when the root cannot be listed or an enumeration step fails; otherwise the plugins of the entries |
| DataOperations.PluginsInExactly | src/data_operations.rs:84-106 | a plugin is reported exactly when some entry stands for it; it then comes from a bundle directory whose manifest parses, with that entry's path and the manifest's name, version and type |
| DataOperations.NonPluginEntriesSkipped | src/data_operations.rs:84-91 | an entry that stands for no plugin (not a directory, no manifest, a manifest that does not parse) is skipped without changing the other results |
| DataOperations.PluginsInOrder | src/data_operations.rs:79-112 | the plugins of consecutive runs of entries follow each other, so enumeration order is kept |
| DataOperations.ScanPathsUnderRoot | src/data_operations.rs:81-106 | every reported plugin lives directly under the extension root |
| DataOperations.ScanListsEveryBundle | src/data_operations.rs:79-107 | a successful scan lists every bundle directory under the root whose manifest parses, with its name, version, size and type |
| FileOperations.FromOsError | src/file_operations.rs:89-93 | an OS error becomes `PermissionDenied` exactly when its kind is permission denied, and `ExtractError` otherwise |
| FileOperations.ZxpExtensionExactly | src/file_operations.rs:130-137 | the check holds exactly for a file name of at least five characters whose fourth character from the end is '.' and whose last three characters lower-case to "zxp" |
| FileOperations.ZxpExtensionAccepts | src/file_operations.rs:181 | "test.zxp" passes the check |
| FileOperations.ZxpExtensionIgnoresCase | src/file_operations.rs:182 | "test.ZXP" passes the check |
| FileOperations.ZxpExtensionRejects | src/file_operations.rs:183-184 | "test.zip" and "test" fail the check |
| FileOperations.ExtensionId | src/file_operations.rs:166-170 | the id is a prefix of the bundle id that contains no ".panel"; it ends just before the first ".panel" if there is one, and it is the whole bundle id if there is none |
| FileOperations.ExtensionIdExamples | src/file_operations.rs:166-170 | "a.panel" gives "a", "a" gives "a", and ".panel" gives the empty id |
| FileOperations.ManifestEntry | src/file_operations.rs:141-143 | no result exactly when no file entry is named `CSXS/manifest.xml`; otherwise the data of the last such entry |
| FileOperations.IdFromArchive | src/file_operations.rs:139-173 | a failure is `InvalidZip`, or `ExtractError` when the temporary copy cannot be written; a success is an id with no ".panel" |
| FileOperations.IdFromArchiveInfo | src/file_operations.rs:141-170 | unless the temporary copy fails, the id is the manifest's bundle id cut at ".panel", and a package with no readable, parsable manifest gives `InvalidZip` |
| FileOperations.ExtractExtensionIdFromZip | src/file_operations.rs:139-173 | the steps return what `IdFromArchive` defines, in the source's order |
| FileOperations.OpenArchive | src/file_operations.rs:73-77 | opening succeeds exactly for a readable regular file that is a ZIP container; a failure is `FileNotFound` or `InvalidZip` |
| FsModel.Resolve | src/file_operations.rs:83-84 | walking path components from a path free of ".." gives a path free of ".." |
| FsModel.ResolveDown | src/file_operations.rs:83-84 | components without ".." are appended to the base as they are |
| FsModel.JoinPlainName | src/file_operations.rs:83-84 | joining a plain name (not empty, not "." or "..", no '/') adds exactly that one component |
| FsModel.JoinParent | src/file_operations.rs:83-84 | joining ".." names the parent of the base, or the base itself at the top |
| FileOperations.InstallTarget | src/file_operations.rs:83-84 | a plain id (not empty, not "." or "..", no '/') gives the directory of that name directly under the extension root; every target is a resolved path with no ".." component |
| FileOperations.InstallTargetUnchecked | src/file_operations.rs:83-84 | an id cut from ".panel" names the root itself, "a/b" names a directory two levels down, and "/a" replaces the root |
| FileOperations.InstallTargetClimbs | src/file_operations.rs:83-84 | the id ".." names the CEP directory that holds the root, and "../a" names a sibling of the root |
| FileOperations.InstallZxp | src/file_operations.rs:54-101 | returns `InstallResult`; on success it leaves the installed tree; a failure before the directory is created leaves the tree as it was, and so does a refusal of `create_dir_all` (taken to come before anything is created); paths off the target, the directory the joined path resolves to, never change, except for directories the source creates before a `..` of the id (see "## Left out") |
| FileOperations.InstallChecksInOrder | src/file_operations.rs:62-77 | a missing package gives `FileNotFound` before the name is checked, a wrong name gives `InvalidExtension` before the package is opened, and a failed open gives its own error before the manifest is read |
| FileOperations.InstallInvalidZip | src/file_operations.rs:76-80 | a package with no manifest entry, with an entry that is not text, or with a manifest that does not parse is `InvalidZip`; a failed temporary copy is `ExtractError` |
| FileOperations.InstallFailsLate | src/file_operations.rs:83-100 | once the package names its bundle, a refusal of `create_dir_all` (an OS fault or a conflict in the tree) gives its kind mapped by `FromOsError`, any extraction failure gives `ExtractError`, and otherwise the target is returned |
| FileOperations.InstallSucceeds | src/file_operations.rs:83-100 | on success the returned path is the root joined with the manifest's id cut at ".panel", as the OS resolves it; no entry name holds ".."; the target is a directory holding every archive entry; nothing off it changed, except for directories the source creates before a `..` of the id (see "## Left out"); no directory was removed |
| FileOperations.InstallIdempotent | src/file_operations.rs:83-100 | installing an installed package again (one lying off the target, with no file named twice) succeeds with the same directory and leaves the filesystem exactly as the first installation left it |
| FileOperations.InstalledManifestFile | src/file_operations.rs:96-97 | after installing, the package's manifest entry is a file at `CSXS/manifest.xml` below the target |
| FileOperations.InstalledPluginIsListed | src/file_operations.rs:83-100 | a package installed directly under the root is listed by the next scan that succeeds, with its manifest's name, version and type |
| FileOperations.RemovePlugin | src/file_operations.rs:103-127 | returns `RemoveResult`; on success the path is removed; a missing path or a non-directory leaves the tree as it was; paths off it never change |
| FileOperations.RemoveOutcomes | src/file_operations.rs:109-123 | `FileNotFound` exactly when nothing is there; `InvalidExtension` exactly when a non-directory is there; a deletion error is `PermissionDenied` or `ExtractError`; success exactly when nothing refuses the deletion |
| FileOperations.RemoveSucceeds | src/file_operations.rs:119-126 | after a successful removal nothing is at the path, its parent directory is still there, and nothing off the path changed |
| FileOperations.RemovedPluginLeavesScan | src/file_operations.rs:103-127 | removing an installed bundle keeps the next scan successful, and the scan lists exactly the plugins it listed before except the one at the removed path |
| FsModel.Disk.CreateDirAll | src/file_operations.rs:89-93 | a refusal of the OS leaves the tree as it was; otherwise the directory and its missing ancestors are created, or the error is returned with the tree unchanged |
| FsModel.Disk.Extract | src/file_operations.rs:96-97 | an entry name holding ".." is refused and stops the extraction; on success every entry is written below the target; in every case the paths off the target are unchanged |
| FsModel.Disk.RemoveDirAll | src/file_operations.rs:119-123 | on success the subtree is gone; in every case the paths off it are unchanged |

## Left out

- The user interface (`src/main.rs`, `src/components/`) and the message timer (`src/message.rs`) are not part of this model. They hold views and an async timer, with no lifecycle logic.
- `select_zxp_file` (`src/file_operations.rs:34-52`) is left out, and so is the `DialogCancelled` error only it returns. It opens a native file dialog.
- Logging and the `Display` texts of both error types are left out. They produce no result.
- The XML reader's tokenising is a foreign library. The model starts from the events it yields, and a malformed attribute is one kind of event data.
- Opening a ZIP container and extracting it are foreign calls. A package's bytes are abstracted to "is it a ZIP container, and what entries does it hold". An entry name is taken as a relative path of components, and a later entry of the same name overwrites an earlier one.
- FsModel.ExtractAll: the ZIP reader's enclosed-name check is modelled as refusing every entry name with a ".." component (an extraction error). The reader also refuses absolute names and names holding a NUL character, which the component model cannot express. It accepts a name whose ".." stays inside the target (`a/../b`) and resolves it; the model refuses that name. The install frame ("paths off the target never change") rests on this check, on no symbolic link lying on the way to or below the target, and on an id whose `..` components climb only through directories that exist (see `FileOperations.InstallZxp:` below).
- FileOperations.InstallIdempotent: proved for packages in which no two file entries share a path. A package naming one file twice is not covered, because the second run writes the earlier data before the later data again.
- FsModel.Disk.Extract: a decompression failure of one entry is not modelled. Extraction fails only on a refusal of the OS, on a path conflict in the tree, or on an entry name that is not enclosed (`InvalidInput`, see `FsModel.ExtractAll:`).
- DataOperations.FormatSize: does not render the one-decimal kilobyte and megabyte text, because it is floating-point formatting. The result keeps the byte count and the unit.
- DataOperations.FolderSizeBytes: does not model the 64-bit wrap-around of the total, because integers are unbounded here.
- Symbolic links are one kind of object that is neither file nor directory, and the model follows no link. The source follows them in these places, where the model's outcome differs:
  - the scan's `is_dir` and `is_valid_plugin` (`src/data_operations.rs:84-91`): a link to a bundle directory is listed by the source and skipped by the model;
  - reading a manifest that is a link (`src/data_operations.rs:118`): the source reads through it, the model gives `ManifestNotFound`;
  - `remove_plugin` on a link to a directory (`src/file_operations.rs:109-123`): the source's `exists` and `is_dir` follow the link and `remove_dir_all` removes the link, giving `Ok`; the model gives `InvalidExtension`;
  - `remove_plugin` on a dangling link: the source gives `FileNotFound`, the model `InvalidExtension`;
  - `install_zxp` on a package path that is a link (`src/file_operations.rs:62-77`): the source opens the file it points to, the model gives `FileNotFound`;
  - `create_dir_all` through a linked ancestor of the target, such as a linked `extensions` directory (`src/file_operations.rs:89`): the source creates the target through the link; the model's `Place` meets a non-directory and gives `NotADirectory`, which becomes `ExtractError`;
  - a linked extension root or a linked ancestor of it in the scan (`src/data_operations.rs:64-80`): the source's `read_dir` follows the link and lists the bundles; the model gives `DirectoryNotFound` when the root itself is a link and `Ok([])` when an ancestor is;
  - writing a file over a link during extraction (`src/file_operations.rs:96`): the source writes through the link, the model replaces the link with the file.
- FsModel.Join: resolves `..` by position alone, one component up for each `..`. The OS resolves it through the directories that exist. When a directory named before a `..` is missing, the source's `create_dir_all` creates it on the way (`src/file_operations.rs:89`), and the model does not. The home directory (`~`) is not resolved.
- DataOperations.ReadPlugin: skips a bundle whose directory, or whose `CSXS/`, can be searched but not listed, while the source lists it. Such a directory is modelled as one that cannot be listed, and the model looks nothing up inside it. The source's `exists` check on `CSXS/manifest.xml` succeeds there (`src/data_operations.rs:193-195`), so the source reads the manifest and lists the bundle. Its size is "Unknown", because the size walk cannot list the directory (`src/data_operations.rs:174-181`). `DataOperations.ScanCepPlugins` and `DataOperations.ScanListsEveryBundle` omit such a bundle with it.
- FsModel.Lookup: every walk down a path (`Lookup`, `Place`, `Remove`) stops at a directory that can be searched but not listed, while the OS passes through it with search permission alone. Below such a directory, the source's `exists` and `is_dir` see the objects there, `create_dir_all` creates inside it and `remove_dir_all` removes a subtree of it. The model finds nothing there, so `DataOperations.ScanCepPlugins` gives `Ok([])` below such an ancestor, `FileOperations.RemovePlugin` gives `FileNotFound`, and `FileOperations.InstallZxp` gives the error of the unlistable directory mapped by `FromOsError`.
- FileOperations.ExtractExtensionIdFromZip: the temporary manifest copy in the system temp directory is not written to the tree. Its write failure is the `tempWriteFails` parameter. The file it leaves behind when the manifest does not parse is not modelled.
- FileOperations.InstallZxp: after a failed extraction, part of the archive may already be unpacked. Only the paths off the target are stated.
- FileOperations.InstallZxp: the frame ("paths off the target never change") leaves out the directories the source creates before a `..` of the id. For the id `x/../../a` with no `extensions/x` on disk, the target resolves to `CEP/a`, and the source's `create_dir_all` (`src/file_operations.rs:84-89`) also creates `extensions/x` on the way, which lies off the target. The model resolves `..` by position (`FsModel.Join:`), so it creates nothing there, and the frame claims that path unchanged.
- FileOperations.InstallSucceeds: "nothing off the target changed" leaves out the same directories, created before a `..` of the id, for the same reason as `FileOperations.InstallZxp:` above.
- FsModel.Disk.CreateDirAll: a refusal of the OS is taken to come before anything is created. `create_dir_all` creates missing ancestors one at a time, so a refusal at a deeper level (a full disk, say) leaves the ancestors made so far; the model does not capture them. The promise of `FileOperations.InstallZxp` that a failed `create_dir_all` leaves the tree as it was rests on this.
- FileOperations.RemovePlugin: after a failed deletion, part of the subtree may already be gone. Only the paths off it are stated.
- FileOperations.ZxpExtensionExactly: lower-cases ASCII only, which decides the comparison with "zxp" as Unicode lower-casing would.
- FileOperations.OpenArchive: opening a directory succeeds on Unix and then reads as no archive (`InvalidZip`). Any other object that is not a regular file gives `FileNotFound`.
- Concurrent changes to the filesystem by other processes are left out.
