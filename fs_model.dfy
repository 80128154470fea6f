/**
 * The host filesystem as the plugin manager sees it through `std::fs`, and
 * the contents of the files it opens.
 *
 * The filesystem is a tree. A directory lists its entries in the order the
 * operating system enumerates them. I/O errors on the reading side are part
 * of the tree: a directory whose listing fails (`Unlistable`), an entry
 * whose metadata cannot be read (`Unstatable`), an enumeration step that
 * fails (`BadItem`). Failures on the writing side that do not follow from
 * the tree (a refused permission, a full disk) are passed in by the caller
 * as an `Option<IoErrorKind>`.
 */
module FsModel {
  import opened Wrappers
  import opened Xml
  import Strings

  /** A resolved path: its components from the filesystem root. */
  type Path = seq<string>

  /**
   * The `std::io::ErrorKind`s the operations distinguish. `InvalidInput`
   * also stands for the ZIP reader's refusal of an entry name that would
   * leave the directory it unpacks into.
   */
  datatype IoErrorKind =
    | NotFound
    | PermissionDenied
    | AlreadyExists
    | NotADirectory
    | IsADirectory
    | InvalidInput
    | Uncategorized

  /**
   * A regular file: its length and what its bytes mean to the two readers
   * that look at them — the XML reader (`text`, absent when the bytes are
   * not UTF-8) and the ZIP reader (`archive`, absent when they are not a
   * ZIP container) — or the error any attempt to open it raises.
   */
  datatype FileData = FileData(size: nat, content: Content)

  datatype Content =
    | Unreadable(kind: IoErrorKind)
    | Readable(text: Option<seq<XmlEvent>>, archive: Option<Archive>)

  /** A ZIP container: its entries in central-directory order. */
  datatype Archive = Archive(entries: seq<ArchiveEntry>)

  /** An entry: its path relative to the archive root, and what it holds. */
  datatype ArchiveEntry = ArchiveEntry(path: Path, body: EntryBody)

  datatype EntryBody = DirEntry | FileEntry(data: FileData)

  /**
   * A filesystem object. `Special` is anything that is neither a regular
   * file nor a directory (a symbolic link, a socket, a device).
   */
  datatype Node =
    | File(data: FileData)
    | Dir(items: seq<Item>)
    | Unlistable(kind: IoErrorKind)
    | Special
    | Unstatable(kind: IoErrorKind)

  /** One step of a directory enumeration: a named entry, or an error. */
  datatype Item = Item(name: string, node: Node) | BadItem(kind: IoErrorKind)

  // ---------------------------------------------------------------------------
  // Looking paths up
  // ---------------------------------------------------------------------------

  predicate Named(it: Item, name: string)
  {
    it.Item? && it.name == name
  }

  /** The object a directory holds under `name` (the first, should names repeat). */
  function Find(items: seq<Item>, name: string): Option<Node>
  {
    if items == [] then None
    else if Named(items[0], name) then Some(items[0].node)
    else Find(items[1..], name)
  }

  /** The position of the entry `Find` picks. */
  function Index(items: seq<Item>, name: string): (r: Option<nat>)
    ensures r.Some? ==> r.value < |items| && Named(items[r.value], name)
    ensures r.Some? ==> Find(items, name) == Some(items[r.value].node)
    ensures r.None? ==> Find(items, name) == None
  {
    if items == [] then None
    else if Named(items[0], name) then Some(0)
    else match Index(items[1..], name)
      case Some(i) => Some(i + 1)
      case None => None
  }

  /** What path resolution finds at `p` below `n`. */
  function Lookup(n: Node, p: Path): Option<Node>
    decreases |p|
  {
    if p == [] then Some(n)
    else match n
      case Dir(items) =>
        (match Find(items, p[0])
         case Some(child) => Lookup(child, p[1..])
         case None => None)
      case _ => None
  }

  predicate IsDirNode(n: Node)
  {
    n.Dir? || n.Unlistable?
  }

  /** `Path::exists`: resolution succeeds and the metadata can be read. */
  predicate Exists(n: Node, p: Path)
  {
    Lookup(n, p).Some? && !Lookup(n, p).value.Unstatable?
  }

  /** `Path::is_dir`. */
  predicate IsDirAt(n: Node, p: Path)
  {
    Lookup(n, p).Some? && IsDirNode(Lookup(n, p).value)
  }

  /** `Path::is_file`. */
  predicate IsFileAt(n: Node, p: Path)
  {
    Lookup(n, p).Some? && Lookup(n, p).value.File?
  }

  /** Neither path lies at or below the other. */
  predicate Disjoint(p: Path, q: Path)
  {
    !(p <= q) && !(q <= p)
  }

  /** How the prefix order meets concatenation. */
  lemma PrefixOfExtension(t: Path, s: Path, q: Path)
    ensures t + s <= q ==> t <= q
    ensures q <= t + s ==> q <= t || t <= q
  {
    if t + s <= q {
      assert (t + s)[..|t|] == t;
    }
    if q <= t + s && |q| > |t| {
      assert q[..|t|] == (t + s)[..|t|] == t;
    }
  }

  /** Extending one of two disjoint paths keeps them disjoint. */
  lemma DisjointExtend(t: Path, s: Path, q: Path)
    requires Disjoint(t, q)
    ensures Disjoint(t + s, q)
  {
    PrefixOfExtension(t, s, q);
  }

  /** A path one component longer than a prefix of it is that prefix and its last component. */
  lemma ChildPath(t: Path, base: Path)
    requires |t| == |base| + 1 && t[..|base|] == base
    ensures t == base + [t[|base|]]
  {
  }

  /** Two paths with the same first component are disjoint exactly when their tails are. */
  lemma DisjointTail(p: Path, q: Path)
    requires p != [] && q != [] && p[0] == q[0]
    ensures Disjoint(p, q) <==> Disjoint(p[1..], q[1..])
  {
    assert p == [p[0]] + p[1..];
    assert q == [q[0]] + q[1..];
  }

  /**
   * The path the OS reaches by walking `comps` from `base`: ".." steps up to
   * the parent (and stays at the top when there is none), any other
   * component steps down into the child of that name.
   */
  function Resolve(base: Path, comps: seq<string>): (p: Path)
    ensures ".." !in base ==> ".." !in p
    decreases |comps|
  {
    if comps == [] then base
    else if comps[0] == ".." then
      var up := if base == [] then [] else base[..|base| - 1];
      assert forall x | x in up :: x in base;
      Resolve(up, comps[1..])
    else Resolve(base + [comps[0]], comps[1..])
  }

  /** Components without ".." only step down: they are appended to the base. */
  lemma {:induction false} ResolveDown(base: Path, comps: seq<string>)
    requires ".." !in comps
    ensures Resolve(base, comps) == base + comps
    decreases |comps|
  {
    if comps != [] {
      assert comps == [comps[0]] + comps[1..];
      ResolveDown(base + [comps[0]], comps[1..]);
    }
  }

  /**
   * The path `base.join(s)` names once the OS resolves it: an absolute `s`
   * starts again from the top, a relative one is walked from `base`.
   */
  function Join(base: Path, s: string): Path
  {
    if |s| > 0 && s[0] == '/' then Resolve([], Strings.Components(s)) else Resolve(base, Strings.Components(s))
  }

  /** Joining a plain name (no separator, not "", "." or "..") adds exactly one component. */
  lemma JoinPlainName(base: Path, s: string)
    requires s != "" && s != "." && s != ".." && '/' !in s
    ensures Join(base, s) == base + [s]
  {
    Strings.SplitSlashSingle(s);
    assert [s][1..] == [];
    assert Strings.Components(s) == Strings.Meaningful([s]) == [s];
    assert Resolve(base, [s]) == Resolve(base + [s], []);
  }

  /** ".." names the parent of the base, or the base itself at the top. */
  lemma JoinParent(base: Path)
    ensures Join(base, "..") == if base == [] then [] else base[..|base| - 1]
  {
    Strings.SplitSlashSingle("..");
    assert [".."][1..] == [];
    assert Strings.Components("..") == Strings.Meaningful([".."]) == [".."];
  }

  // ---------------------------------------------------------------------------
  // Entry-level lemmas about Find
  // ---------------------------------------------------------------------------

  /** Replacing the entry `Find` picks changes what is found under that name only. */
  lemma {:induction false} FindUpdate(items: seq<Item>, a: string, i: nat, x: Node, b: string)
    requires Index(items, a) == Some(i)
    ensures Find(items[i := Item(a, x)], b) == if b == a then Some(x) else Find(items, b)
    decreases |items|
  {
    var items' := items[i := Item(a, x)];
    if i == 0 {
      assert items'[1..] == items[1..];
    } else {
      assert !Named(items[0], a);
      FindUpdate(items[1..], a, i - 1, x, b);
      assert items'[0] == items[0];
      assert items'[1..] == items[1..][i - 1 := Item(a, x)];
    }
  }

  /** Appending an entry under a fresh name changes what is found under that name only. */
  lemma {:induction false} FindAppend(items: seq<Item>, a: string, x: Node, b: string)
    requires Index(items, a) == None
    ensures Find(items + [Item(a, x)], b) == if b == a then Some(x) else Find(items, b)
    decreases |items|
  {
    if items != [] {
      FindAppend(items[1..], a, x, b);
      assert (items + [Item(a, x)])[1..] == items[1..] + [Item(a, x)];
    }
  }

  /** The entries of a directory except those called `name`. */
  function Without(items: seq<Item>, name: string): seq<Item>
  {
    if items == [] then []
    else if Named(items[0], name) then Without(items[1..], name)
    else [items[0]] + Without(items[1..], name)
  }

  /** Dropping the entries called `a` changes what is found under `a` only. */
  lemma {:induction false} FindWithout(items: seq<Item>, a: string, b: string)
    ensures Find(Without(items, a), b) == if b == a then None else Find(items, b)
    decreases |items|
  {
    if items != [] {
      FindWithout(items[1..], a, b);
      if !Named(items[0], a) {
        assert ([items[0]] + Without(items[1..], a))[1..] == Without(items[1..], a);
      }
    }
  }

  // ---------------------------------------------------------------------------
  // Creating directories and writing files
  // ---------------------------------------------------------------------------

  /** What is put at a path: a directory (`create_dir_all`) or a file (`File::create` and a write). */
  datatype Leaf = DirLeaf | FileLeaf(data: FileData)

  function NewNode(leaf: Leaf): Node
  {
    match leaf
    case DirLeaf => Dir([])
    case FileLeaf(d) => File(d)
  }

  /** A fresh chain of directories along `p` ending in the new leaf. */
  function Create(p: Path, leaf: Leaf): Node
    decreases |p|
  {
    if p == [] then NewNode(leaf) else Dir([Item(p[0], Create(p[1..], leaf))])
  }

  /** What putting `leaf` where `n` already stands does. */
  function Settle(n: Node, leaf: Leaf): Result<Node, IoErrorKind>
  {
    match leaf
    case DirLeaf =>
      if IsDirNode(n) then Ok(n)
      else if n.Unstatable? then Err(n.kind)
      else Err(AlreadyExists)
    case FileLeaf(d) =>
      if IsDirNode(n) then Err(IsADirectory)
      else if n.Unstatable? then Err(n.kind)
      else Ok(File(d))
  }

  /**
   * Put `leaf` at `p`, creating missing directories on the way. Fails when
   * something that is not a directory stands on the way, when a directory
   * on the way cannot be listed, or when the leaf clashes with what is
   * already at `p`.
   */
  function Place(n: Node, p: Path, leaf: Leaf): Result<Node, IoErrorKind>
    decreases |p|
  {
    if p == [] then Settle(n, leaf)
    else match n
      case Dir(items) =>
        (match Index(items, p[0])
         case None => Ok(Dir(items + [Item(p[0], Create(p[1..], leaf))]))
         case Some(i) =>
           var child :- Place(items[i].node, p[1..], leaf);
           Ok(Dir(items[i := Item(p[0], child)])))
      case Unlistable(k) => Err(k)
      case Unstatable(k) => Err(k)
      case _ => Err(NotADirectory)
  }

  /** `leaf` is present at `p`: a directory for a directory, a regular file for a file. */
  predicate Present(n: Node, p: Path, leaf: Leaf)
  {
    match leaf
    case DirLeaf => IsDirAt(n, p)
    case FileLeaf(_) => IsFileAt(n, p)
  }

  /** What is at `p` already is what putting `leaf` there would leave: a directory, or a file with the same data. */
  predicate Settled(n: Node, p: Path, leaf: Leaf)
  {
    match leaf
    case DirLeaf => IsDirAt(n, p)
    case FileLeaf(d) => Lookup(n, p) == Some(File(d))
  }

  /** A fresh chain holds its leaf at its end and nothing off its path. */
  lemma {:induction false} CreateLookup(p: Path, leaf: Leaf, q: Path)
    ensures Lookup(Create(p, leaf), p) == Some(NewNode(leaf))
    ensures Disjoint(p, q) ==> Lookup(Create(p, leaf), q) == None
    decreases |p|
  {
    if p != [] {
      var items := [Item(p[0], Create(p[1..], leaf))];
      assert items[1..] == [];
      if q != [] && q[0] == p[0] {
        DisjointTail(p, q);
        CreateLookup(p[1..], leaf, q[1..]);
      } else {
        CreateLookup(p[1..], leaf, p[1..]);
        if q != [] {
          assert !Named(items[0], q[0]);
          assert Find(items, q[0]) == Find([], q[0]) == None;
        }
      }
    }
  }

  /** After a successful `Place`, the leaf sits at `p`; a file with exactly the data written. */
  lemma {:induction false} PlaceWrites(n: Node, p: Path, leaf: Leaf)
    requires Place(n, p, leaf).Ok?
    ensures Present(Place(n, p, leaf).value, p, leaf)
    ensures leaf.FileLeaf? ==> Lookup(Place(n, p, leaf).value, p) == Some(File(leaf.data))
    decreases |p|
  {
    if p != [] {
      var items := n.items;
      match Index(items, p[0])
      case None =>
        FindAppend(items, p[0], Create(p[1..], leaf), p[0]);
        CreateLookup(p[1..], leaf, p[1..]);
      case Some(i) =>
        PlaceWrites(items[i].node, p[1..], leaf);
        var child := Place(items[i].node, p[1..], leaf).value;
        FindUpdate(items, p[0], i, child, p[0]);
    }
  }

  /** A successful `Place` leaves every path off `p` as it was. */
  lemma {:induction false} PlaceFrame(n: Node, p: Path, leaf: Leaf, q: Path)
    requires Place(n, p, leaf).Ok?
    requires Disjoint(p, q)
    ensures Lookup(Place(n, p, leaf).value, q) == Lookup(n, q)
    decreases |p|
  {
    var items := n.items;
    if q[0] == p[0] {
      DisjointTail(p, q);
    }
    match Index(items, p[0])
    case None =>
      var c := Create(p[1..], leaf);
      FindAppend(items, p[0], c, q[0]);
      if q[0] == p[0] {
        CreateLookup(p[1..], leaf, q[1..]);
      }
    case Some(i) =>
      var child := Place(items[i].node, p[1..], leaf).value;
      FindUpdate(items, p[0], i, child, q[0]);
      if q[0] == p[0] {
        PlaceFrame(items[i].node, p[1..], leaf, q[1..]);
      }
  }

  /**
   * A successful `Place` never takes a directory or a regular file away:
   * whatever was a directory (a file) before is one afterwards.
   */
  lemma {:induction false} PlaceKeeps(n: Node, p: Path, leaf: Leaf, r: Path)
    requires Place(n, p, leaf).Ok?
    ensures IsDirAt(n, r) ==> IsDirAt(Place(n, p, leaf).value, r)
    ensures IsFileAt(n, r) ==> IsFileAt(Place(n, p, leaf).value, r)
    decreases |p|
  {
    var m := Place(n, p, leaf).value;
    if p != [] && r != [] {
      var items := n.items;
      match Index(items, p[0])
      case None =>
        FindAppend(items, p[0], Create(p[1..], leaf), r[0]);
      case Some(i) =>
        var child := Place(items[i].node, p[1..], leaf).value;
        FindUpdate(items, p[0], i, child, r[0]);
        if r[0] == p[0] {
          PlaceKeeps(items[i].node, p[1..], leaf, r[1..]);
        }
    }
  }

  /**
   * `create_dir_all` on an existing directory, or writing a file with the
   * data it holds already, changes nothing.
   */
  lemma {:induction false} PlaceSettled(n: Node, p: Path, leaf: Leaf)
    requires Settled(n, p, leaf)
    ensures Place(n, p, leaf) == Ok(n)
    decreases |p|
  {
    if p != [] {
      var items := n.items;
      var i := Index(items, p[0]).value;
      PlaceSettled(items[i].node, p[1..], leaf);
      assert items[i := Item(p[0], items[i].node)] == items;
    }
  }

  /** Resolving `p + q` is resolving `p`, then `q` from what was found. */
  lemma {:induction false} LookupAppend(n: Node, p: Path, q: Path)
    ensures Lookup(n, p + q) == if Lookup(n, p).Some? then Lookup(Lookup(n, p).value, q) else None
    decreases |p|
  {
    if p == [] {
      assert p + q == q;
    } else {
      assert (p + q)[0] == p[0];
      assert (p + q)[1..] == p[1..] + q;
      if n.Dir? && Find(n.items, p[0]).Some? {
        LookupAppend(Find(n.items, p[0]).value, p[1..], q);
      }
    }
  }

  /**
   * A successful `Place` leaves a regular file where it was, unless it
   * wrote a file at that very path.
   */
  lemma {:induction false} PlaceKeepsFile(n: Node, q: Path, leaf: Leaf, p: Path, d: FileData)
    requires Place(n, q, leaf).Ok?
    requires Lookup(n, p) == Some(File(d))
    requires !(q == p && leaf.FileLeaf?)
    ensures Lookup(Place(n, q, leaf).value, p) == Some(File(d))
    decreases |q|
  {
    if q != [] {
      var items := n.items;
      assert p != [];
      match Index(items, q[0])
      case None =>
        FindAppend(items, q[0], Create(q[1..], leaf), p[0]);
      case Some(i) =>
        var child := Place(items[i].node, q[1..], leaf).value;
        FindUpdate(items, q[0], i, child, p[0]);
        if p[0] == q[0] {
          assert q[1..] == p[1..] ==> q == p by {
            assert q == [q[0]] + q[1..];
            assert p == [p[0]] + p[1..];
          }
          PlaceKeepsFile(items[i].node, q[1..], leaf, p[1..], d);
        }
    }
  }

  // ---------------------------------------------------------------------------
  // Extracting an archive
  // ---------------------------------------------------------------------------

  function LeafOf(body: EntryBody): Leaf
  {
    match body
    case DirEntry => DirLeaf
    case FileEntry(d) => FileLeaf(d)
  }

  /**
   * An entry name the ZIP reader unpacks below the target: one with no ".."
   * component, so that it cannot climb out of the target.
   */
  predicate Enclosed(p: Path)
  {
    ".." !in p
  }

  /**
   * Unpack `entries` below `target`, one after another: an entry whose name
   * is not enclosed is refused; a directory entry creates its directory, a
   * file entry creates its parent directories and writes the file; the
   * first failing entry stops the extraction, after the entries before it
   * were written.
   */
  function ExtractAll(n: Node, target: Path, entries: seq<ArchiveEntry>): Result<Node, IoErrorKind>
    decreases |entries|
  {
    if entries == [] then Ok(n)
    else
      var m :- ExtractAll(n, target, entries[..|entries| - 1]);
      var e := entries[|entries| - 1];
      if !Enclosed(e.path) then Err(InvalidInput) else Place(m, target + e.path, LeafOf(e.body))
  }

  /** A successful extraction unpacked only enclosed entry names. */
  lemma {:induction false} ExtractAllEnclosed(n: Node, target: Path, entries: seq<ArchiveEntry>)
    requires ExtractAll(n, target, entries).Ok?
    ensures forall i | 0 <= i < |entries| :: Enclosed(entries[i].path)
    decreases |entries|
  {
    if entries != [] {
      var init := entries[..|entries| - 1];
      ExtractAllEnclosed(n, target, init);
      forall i | 0 <= i < |entries| - 1 ensures Enclosed(entries[i].path) {
        assert entries[i] == init[i];
      }
    }
  }

  /** Unpacking entries that are all settled already changes nothing. */
  lemma {:induction false} ExtractAllSettled(n: Node, target: Path, entries: seq<ArchiveEntry>)
    requires forall i | 0 <= i < |entries| ::
               Enclosed(entries[i].path) && Settled(n, target + entries[i].path, LeafOf(entries[i].body))
    ensures ExtractAll(n, target, entries) == Ok(n)
    decreases |entries|
  {
    if entries != [] {
      var init := entries[..|entries| - 1];
      var e := entries[|entries| - 1];
      forall i | 0 <= i < |init|
        ensures Enclosed(init[i].path) && Settled(n, target + init[i].path, LeafOf(init[i].body))
      {
        assert init[i] == entries[i];
      }
      ExtractAllSettled(n, target, init);
      PlaceSettled(n, target + e.path, LeafOf(e.body));
    }
  }

  /** After a successful extraction every entry is present below the target. */
  lemma {:induction false} ExtractAllPresent(n: Node, target: Path, entries: seq<ArchiveEntry>)
    requires ExtractAll(n, target, entries).Ok?
    ensures forall i | 0 <= i < |entries| ::
      Present(ExtractAll(n, target, entries).value, target + entries[i].path, LeafOf(entries[i].body))
    decreases |entries|
  {
    if entries != [] {
      var init := entries[..|entries| - 1];
      var e := entries[|entries| - 1];
      ExtractAllPresent(n, target, init);
      var m := ExtractAll(n, target, init).value;
      PlaceWrites(m, target + e.path, LeafOf(e.body));
      forall i | 0 <= i < |entries| - 1
        ensures Present(ExtractAll(n, target, entries).value, target + entries[i].path, LeafOf(entries[i].body))
      {
        assert entries[i] == init[i];
        PlaceKeeps(m, target + e.path, LeafOf(e.body), target + entries[i].path);
      }
    }
  }

  /**
   * After a successful extraction a file entry that no later file entry
   * shares a path with is present with exactly its data.
   */
  lemma {:induction false} ExtractAllLastWrite(n: Node, target: Path, entries: seq<ArchiveEntry>, i: nat)
    requires ExtractAll(n, target, entries).Ok?
    requires i < |entries| && entries[i].body.FileEntry?
    requires forall j | i < j < |entries| :: !(entries[j].path == entries[i].path && entries[j].body.FileEntry?)
    ensures Lookup(ExtractAll(n, target, entries).value, target + entries[i].path) == Some(File(entries[i].body.data))
    decreases |entries|
  {
    var init := entries[..|entries| - 1];
    var e := entries[|entries| - 1];
    var m := ExtractAll(n, target, init).value;
    if i == |entries| - 1 {
      PlaceWrites(m, target + e.path, LeafOf(e.body));
    } else {
      assert init[i] == entries[i];
      ExtractAllLastWrite(n, target, init, i);
      assert target + e.path == target + entries[i].path ==> e.path == entries[i].path by {
        assert (target + e.path)[|target|..] == e.path;
        assert (target + entries[i].path)[|target|..] == entries[i].path;
      }
      PlaceKeepsFile(m, target + e.path, LeafOf(e.body), target + entries[i].path, entries[i].body.data);
    }
  }

  /** A successful extraction leaves every path off the target as it was. */
  lemma {:induction false} ExtractAllFrame(n: Node, target: Path, entries: seq<ArchiveEntry>, q: Path)
    requires ExtractAll(n, target, entries).Ok?
    requires Disjoint(target, q)
    ensures Lookup(ExtractAll(n, target, entries).value, q) == Lookup(n, q)
    decreases |entries|
  {
    if entries != [] {
      var init := entries[..|entries| - 1];
      var e := entries[|entries| - 1];
      ExtractAllFrame(n, target, init, q);
      DisjointExtend(target, e.path, q);
      PlaceFrame(ExtractAll(n, target, init).value, target + e.path, LeafOf(e.body), q);
    }
  }

  /** A successful extraction keeps every directory a directory. */
  lemma {:induction false} ExtractAllKeepsDirs(n: Node, target: Path, entries: seq<ArchiveEntry>, r: Path)
    requires ExtractAll(n, target, entries).Ok?
    requires IsDirAt(n, r)
    ensures IsDirAt(ExtractAll(n, target, entries).value, r)
    decreases |entries|
  {
    if entries != [] {
      var init := entries[..|entries| - 1];
      var e := entries[|entries| - 1];
      ExtractAllKeepsDirs(n, target, init, r);
      PlaceKeeps(ExtractAll(n, target, init).value, target + e.path, LeafOf(e.body), r);
    }
  }

  // ---------------------------------------------------------------------------
  // Removing a subtree
  // ---------------------------------------------------------------------------

  /** The tree with the object at `p`, and everything below it, gone. */
  function Remove(n: Node, p: Path): Node
    requires p != []
    decreases |p|
  {
    match n
    case Dir(items) =>
      if |p| == 1 then Dir(Without(items, p[0]))
      else
        (match Index(items, p[0])
         case Some(i) => Dir(items[i := Item(p[0], Remove(items[i].node, p[1..]))])
         case None => n)
    case _ => n
  }

  /** After `Remove`, nothing is found at `p`. */
  lemma {:induction false} RemoveGone(n: Node, p: Path)
    requires p != []
    ensures Lookup(Remove(n, p), p) == None
    decreases |p|
  {
    if n.Dir? {
      var items := n.items;
      if |p| == 1 {
        FindWithout(items, p[0], p[0]);
      } else {
        match Index(items, p[0])
        case Some(i) =>
          RemoveGone(items[i].node, p[1..]);
          FindUpdate(items, p[0], i, Remove(items[i].node, p[1..]), p[0]);
        case None =>
      }
    }
  }

  /** `Remove` leaves every path off `p` as it was. */
  lemma {:induction false} RemoveFrame(n: Node, p: Path, q: Path)
    requires p != [] && Disjoint(p, q)
    ensures Lookup(Remove(n, p), q) == Lookup(n, q)
    decreases |p|
  {
    if n.Dir? {
      var items := n.items;
      if |p| == 1 {
        assert q[0] == p[0] ==> p <= q by {
          assert p == [p[0]];
          assert q[..1] == [q[0]];
        }
        FindWithout(items, p[0], q[0]);
      } else {
        match Index(items, p[0])
        case Some(i) =>
          FindUpdate(items, p[0], i, Remove(items[i].node, p[1..]), q[0]);
          if q[0] == p[0] {
            DisjointTail(p, q);
            RemoveFrame(items[i].node, p[1..], q[1..]);
          }
        case None =>
      }
    }
  }

  /** `Remove` keeps the directories above `p`. */
  lemma {:induction false} RemoveKeepsAncestors(n: Node, p: Path, q: Path)
    requires p != [] && q < p && IsDirAt(n, q)
    ensures IsDirAt(Remove(n, p), q)
    decreases |p|
  {
    if q != [] {
      var items := n.items;
      assert q[0] == p[0];
      var i := Index(items, p[0]).value;
      FindUpdate(items, p[0], i, Remove(items[i].node, p[1..]), q[0]);
      assert q[1..] < p[1..];
      RemoveKeepsAncestors(items[i].node, p[1..], q[1..]);
    }
  }

  /** Whatever resolution finds below the root, it found inside a directory. */
  lemma {:induction false} ParentIsDir(n: Node, p: Path)
    requires p != [] && Lookup(n, p).Some?
    ensures Lookup(n, p[..|p| - 1]).Some? && Lookup(n, p[..|p| - 1]).value.Dir?
    decreases |p|
  {
    if |p| > 1 {
      var child := Find(n.items, p[0]).value;
      ParentIsDir(child, p[1..]);
      assert p[..|p| - 1][1..] == p[1..][..|p[1..]| - 1];
    }
  }

  /** `Without` keeps exactly the entries that do not bear the name it drops. */
  lemma {:induction false} WithoutMembers(items: seq<Item>, name: string)
    ensures forall it :: it in Without(items, name) <==> it in items && !Named(it, name)
    decreases |items|
  {
    if items != [] {
      WithoutMembers(items[1..], name);
      assert items == [items[0]] + items[1..];
    }
  }

  /** `Remove` takes the entries called by the last component out of the directory that held them. */
  lemma {:induction false} RemoveAtParent(n: Node, p: Path, items: seq<Item>)
    requires p != [] && Lookup(n, p[..|p| - 1]) == Some(Dir(items))
    ensures Lookup(Remove(n, p), p[..|p| - 1]) == Some(Dir(Without(items, p[|p| - 1])))
    decreases |p|
  {
    if |p| > 1 {
      var its := n.items;
      var i := Index(its, p[0]).value;
      var child := its[i].node;
      assert p[..|p| - 1][1..] == p[1..][..|p[1..]| - 1];
      RemoveAtParent(child, p[1..], items);
      FindUpdate(its, p[0], i, Remove(child, p[1..]), p[0]);
    }
  }

  // ---------------------------------------------------------------------------
  // Walking a subtree
  // ---------------------------------------------------------------------------

  /** `fs::read_dir`: the entries of a directory, or why it cannot be listed. */
  function ListDir(n: Node): Result<seq<Item>, IoErrorKind>
  {
    match n
    case Dir(items) => Ok(items)
    case Unlistable(k) => Err(k)
    case Unstatable(k) => Err(k)
    case _ => Err(NotADirectory)
  }

  /**
   * The first error a depth-first walk of the directory `n` meets: its
   * listing fails, an enumeration step fails, or an entry's metadata cannot
   * be read. A node that is not a directory cannot be walked.
   */
  function TreeFault(n: Node): Option<IoErrorKind>
    decreases n
  {
    match n
    case Dir(items) => ItemsFault(items)
    case Unlistable(k) => Some(k)
    case Unstatable(k) => Some(k)
    case _ => Some(NotADirectory)
  }

  function ItemsFault(items: seq<Item>): Option<IoErrorKind>
    decreases items
  {
    if items == [] then None
    else match ItemsFault(items[..|items| - 1])
      case Some(k) => Some(k)
      case None => ItemFault(items[|items| - 1])
  }

  function ItemFault(it: Item): Option<IoErrorKind>
    decreases it
  {
    match it
    case BadItem(k) => Some(k)
    case Item(_, child) =>
      match child
      case File(_) => None
      case Special => None
      case Unstatable(k) => Some(k)
      case _ => TreeFault(child)
  }

  /** What `remove_dir_all` runs into at `p`, apart from refusals of the OS. */
  function RemovalFault(n: Node, p: Path): Option<IoErrorKind>
  {
    if p == [] then Some(Uncategorized)
    else match Lookup(n, p)
      case None => Some(NotFound)
      case Some(target) => TreeFault(target)
  }

  // ---------------------------------------------------------------------------
  // The mutable filesystem
  // ---------------------------------------------------------------------------

  /**
   * The machine's filesystem. Its methods are the `std::fs` calls and the
   * archive extraction the plugin manager makes; `osFault` is the refusal
   * (if any) the operating system answers the call with.
   */
  class Disk {
    var root: Node

    constructor (root: Node)
      ensures this.root == root
    {
      this.root := root;
    }

    /** `fs::create_dir_all(p)`. */
    method CreateDirAll(p: Path, osFault: Option<IoErrorKind>) returns (e: Option<IoErrorKind>)
      modifies this
      ensures osFault.Some? ==> e == osFault && root == old(root)
      ensures osFault.None? && Place(old(root), p, DirLeaf).Ok? ==>
                e == None && root == Place(old(root), p, DirLeaf).value
      ensures osFault.None? && Place(old(root), p, DirLeaf).Err? ==>
                e == Some(Place(old(root), p, DirLeaf).error) && root == old(root)
    {
      if osFault.Some? {
        return osFault;
      }
      match Place(root, p, DirLeaf)
      case Ok(m) =>
        root := m;
        e := None;
      case Err(k) =>
        e := Some(k);
    }

    /**
     * `fs::remove_dir_all(p)`. A failed removal may have deleted part of
     * the subtree already, so on failure only the paths off `p` are
     * promised to be as they were.
     */
    method RemoveDirAll(p: Path, osFault: Option<IoErrorKind>) returns (e: Option<IoErrorKind>)
      modifies this
      ensures e == (if osFault.Some? then osFault else RemovalFault(old(root), p))
      ensures e == None ==> p != [] && root == Remove(old(root), p)
      ensures forall q | Disjoint(p, q) :: Lookup(root, q) == Lookup(old(root), q)
    {
      e := if osFault.Some? then osFault else RemovalFault(root, p);
      if e == None {
        forall q | Disjoint(p, q) ensures Lookup(Remove(root, p), q) == Lookup(root, q) {
          RemoveFrame(root, p, q);
        }
        root := Remove(root, p);
      }
    }

    /**
     * `ZipArchive::extract(target)`. A failed extraction may have written
     * some entries already, so on failure only the paths off `target` are
     * promised to be as they were.
     */
    method Extract(archive: Archive, target: Path, osFault: Option<IoErrorKind>) returns (e: Option<IoErrorKind>)
      modifies this
      ensures osFault.Some? ==> e == osFault
      ensures osFault.None? && ExtractAll(old(root), target, archive.entries).Ok? ==>
                e == None && root == ExtractAll(old(root), target, archive.entries).value
      ensures osFault.None? && ExtractAll(old(root), target, archive.entries).Err? ==>
                e == Some(ExtractAll(old(root), target, archive.entries).error)
      ensures forall q | Disjoint(target, q) :: Lookup(root, q) == Lookup(old(root), q)
    {
      if osFault.Some? {
        return osFault;
      }
      match ExtractAll(root, target, archive.entries)
      case Ok(m) =>
        forall q | Disjoint(target, q) ensures Lookup(m, q) == Lookup(root, q) {
          ExtractAllFrame(root, target, archive.entries, q);
        }
        root := m;
        e := None;
      case Err(k) =>
        e := Some(k);
    }
  }
}
