/**
 * Discovering installed plugins: reading a bundle's manifest, classifying
 * the bundle, measuring its directory and scanning the extension root.
 */
module DataOperations {
  import opened Wrappers
  import opened Xml
  import opened FsModel
  import Strings
  import opened Sequences

  /** The system-wide CEP extension root the scan and the installer use. */
  const ExtensionRoot: Path := ["Library", "Application Support", "Adobe", "CEP", "extensions"]

  /** Where a bundle keeps its manifest, relative to the bundle's directory. */
  const ManifestLocation: Path := ["CSXS", "manifest.xml"]

  const ManifestElement := "ExtensionManifest"
  const IdKey := "ExtensionBundleId"
  const NameKey := "ExtensionBundleName"
  const VersionKey := "ExtensionBundleVersion"

  /** Bundles whose id starts with this prefix ship with the host application. */
  const NativePrefix := "com.adobe."

  datatype PluginType = Native | Installed

  /** Identity read from a manifest. */
  datatype PluginInfo = PluginInfo(bundleId: string, name: string, version: string)

  datatype PluginError =
    | DirectoryNotFound
    | PermissionDenied
    | ManifestNotFound
    | InvalidManifest

  datatype SizeUnit = Kilobytes | Megabytes

  /**
   * The size column of a plugin: text given exactly ("512 B", "Unknown"),
   * or a byte count shown in kilobytes or megabytes with one decimal.
   */
  datatype SizeText = Exact(text: string) | Scaled(bytes: nat, unit: SizeUnit)

  datatype Plugin = Plugin(name: string, version: string, size: SizeText, path: Path, pluginType: PluginType)

  /** `From<io::Error> for PluginError`. */
  function FromIoError(k: IoErrorKind): (e: PluginError)
    ensures e == PluginError.PermissionDenied <==> k == IoErrorKind.PermissionDenied
    ensures e == DirectoryNotFound || e == PluginError.PermissionDenied
  {
    match k
    case NotFound => DirectoryNotFound
    case PermissionDenied => PluginError.PermissionDenied
    case _ => DirectoryNotFound
  }

  // ---------------------------------------------------------------------------
  // Manifest parsing: the specification
  // ---------------------------------------------------------------------------

  /** The events the reader yields before it reports the end of the document. */
  function BeforeEof(events: seq<XmlEvent>): seq<XmlEvent>
  {
    if events == [] || events[0] == Eof then [] else [events[0]] + BeforeEof(events[1..])
  }

  predicate IsManifestStart(e: XmlEvent)
  {
    e.Start? && e.name == ManifestElement
  }

  /** An event that makes the parser give up: a reader error, or a malformed attribute of the manifest element. */
  predicate Rejects(e: XmlEvent)
  {
    e == Error || (IsManifestStart(e) && Malformed in e.attrs)
  }

  /** Some event of `events` rejects the manifest. */
  predicate Rejected(events: seq<XmlEvent>)
  {
    events != [] && (Rejected(events[..|events| - 1]) || Rejects(events[|events| - 1]))
  }

  /** The value an attribute gives `key`, if it is called `key`. */
  function ValueFor(a: Attribute, key: string): seq<string>
  {
    if a.Attribute? && a.key == key then [a.value] else []
  }

  /** The values of the attributes called `key`, in order. */
  function AttrValues(attrs: seq<Attribute>, key: string): seq<string>
  {
    if attrs == [] then [] else AttrValues(attrs[..|attrs| - 1], key) + ValueFor(attrs[|attrs| - 1], key)
  }

  /** The values a manifest element's start tag gives `key`; other events give none. */
  function EventValues(e: XmlEvent, key: string): seq<string>
  {
    if IsManifestStart(e) then AttrValues(e.attrs, key) else []
  }

  /** Every value `key` receives from manifest elements, in document order. */
  function ValuesIn(events: seq<XmlEvent>, key: string): seq<string>
  {
    if events == [] then [] else ValuesIn(events[..|events| - 1], key) + EventValues(events[|events| - 1], key)
  }

  function LastOr(values: seq<string>, default: string): string
  {
    if values == [] then default else values[|values| - 1]
  }

  /** The value `key` ends up with: the last one given, or "" if none is. */
  function Latest(events: seq<XmlEvent>, key: string): string
  {
    LastOr(ValuesIn(events, key), "")
  }

  /**
   * What parsing a manifest yields: rejected if a reader error or a
   * malformed attribute of a manifest element comes before the end of the
   * document; otherwise the bundle id is the last `ExtensionBundleId` value
   * given and must not be empty, the name falls back to the id and the
   * version to "Unknown".
   */
  function ManifestInfo(events: seq<XmlEvent>): Result<PluginInfo, PluginError>
  {
    var evs := BeforeEof(events);
    if Rejected(evs) then Err(InvalidManifest)
    else
      var id := Latest(evs, IdKey);
      var name := Latest(evs, NameKey);
      var version := Latest(evs, VersionKey);
      if id == "" then Err(InvalidManifest)
      else Ok(PluginInfo(id, if name == "" then id else name, if version == "" then "Unknown" else version))
  }

  /** The text `fs::read_to_string` gets from `n`, as the XML reader sees it. */
  function ReadText(n: Option<Node>): Option<seq<XmlEvent>>
  {
    match n
    case Some(File(FileData(_, Readable(Some(text), _)))) => Some(text)
    case _ => None
  }

  /** What parsing the manifest at `p` below `n` yields. */
  function ManifestAt(n: Node, p: Path): Result<PluginInfo, PluginError>
  {
    match ReadText(Lookup(n, p))
    case None => Err(ManifestNotFound)
    case Some(text) => ManifestInfo(text)
  }

  // ---------------------------------------------------------------------------
  // Manifest parsing: lemmas
  // ---------------------------------------------------------------------------

  /** Up to the first `Eof`, `BeforeEof` is the events themselves. */
  lemma {:induction false} BeforeEofKeeps(events: seq<XmlEvent>, i: nat)
    requires i < |events| && Eof !in events[..i + 1]
    ensures i < |BeforeEof(events)| && BeforeEof(events)[i] == events[i]
    decreases i
  {
    assert events[0] in events[..i + 1];
    if i > 0 {
      assert events[1..][..i] == events[1..i + 1];
      assert forall e | e in events[1..][..i] :: e in events[..i + 1];
      BeforeEofKeeps(events[1..], i - 1);
    }
  }

  /** Where the first `Eof` (or the end of the events) lies, `BeforeEof` stops. */
  lemma {:induction false} BeforeEofStops(events: seq<XmlEvent>, i: nat)
    requires i <= |events| && Eof !in events[..i]
    requires i == |events| || events[i] == Eof
    ensures BeforeEof(events) == events[..i]
    decreases i
  {
    if i > 0 {
      assert events[0] in events[..i];
      assert events[1..][..i - 1] == events[1..i];
      assert forall e | e in events[1..][..i - 1] :: e in events[..i];
      BeforeEofStops(events[1..], i - 1);
      assert events[..i] == [events[0]] + events[1..i];
    }
  }

  /** `BeforeEof` of a concatenation. */
  lemma {:induction false} BeforeEofAppend(a: seq<XmlEvent>, b: seq<XmlEvent>)
    ensures BeforeEof(a + b) == if Eof in a then BeforeEof(a) else a + BeforeEof(b)
    decreases |a|
  {
    if a != [] {
      assert (a + b)[0] == a[0];
      assert (a + b)[1..] == a[1..] + b;
      BeforeEofAppend(a[1..], b);
      if a[0] != Eof {
        assert Eof in a <==> Eof in a[1..] by {
          assert a == [a[0]] + a[1..];
        }
        if Eof !in a {
          assert a == [a[0]] + a[1..];
        }
      }
    } else {
      assert a + b == b;
    }
  }

  lemma ValuesInAppend(a: seq<XmlEvent>, b: seq<XmlEvent>, key: string)
    ensures ValuesIn(a + b, key) == ValuesIn(a, key) + ValuesIn(b, key)
    decreases |b|
  {
    if b != [] {
      ValuesInAppend(a, b[..|b| - 1], key);
      assert (a + b)[..|a + b| - 1] == a + b[..|b| - 1];
      assert (a + b)[|a + b| - 1] == b[|b| - 1];
    } else {
      assert a + b == a;
    }
  }

  lemma {:induction false} RejectedAppend(a: seq<XmlEvent>, b: seq<XmlEvent>)
    ensures Rejected(a + b) <==> Rejected(a) || Rejected(b)
    decreases |b|
  {
    if b == [] {
      assert a + b == a;
    } else {
      RejectedAppend(a, b[..|b| - 1]);
      assert (a + b)[..|a + b| - 1] == a + b[..|b| - 1];
      assert (a + b)[|a + b| - 1] == b[|b| - 1];
    }
  }

  /** One rejecting event rejects the whole sequence. */
  lemma RejectedAt(events: seq<XmlEvent>, i: nat)
    requires i < |events| && Rejects(events[i])
    ensures Rejected(events)
  {
    assert events[..i + 1][..i] == events[..i];
    RejectedAppend(events[..i + 1], events[i + 1..]);
    assert events[..i + 1] + events[i + 1..] == events;
  }

  /** Two event sequences that agree on rejection and on every key's values. */
  predicate SameReading(xs: seq<XmlEvent>, ys: seq<XmlEvent>)
  {
    Rejected(xs) == Rejected(ys)
    && Latest(xs, IdKey) == Latest(ys, IdKey)
    && Latest(xs, NameKey) == Latest(ys, NameKey)
    && Latest(xs, VersionKey) == Latest(ys, VersionKey)
  }

  lemma SameReadingSameInfo(xs: seq<XmlEvent>, ys: seq<XmlEvent>)
    requires SameReading(BeforeEof(xs), BeforeEof(ys))
    ensures ManifestInfo(xs) == ManifestInfo(ys)
  {
  }

  /** An event that is neither an error nor a manifest element contributes nothing. */
  lemma NeutralInsert(xs: seq<XmlEvent>, e: XmlEvent, ys: seq<XmlEvent>)
    requires e != Error && !IsManifestStart(e)
    ensures SameReading(xs + [e] + ys, xs + ys)
  {
    RejectedAppend(xs + [e], ys);
    RejectedAppend(xs, [e]);
    RejectedAppend(xs, ys);
    assert !Rejected([e]);
    NeutralValues(xs, e, ys, IdKey);
    NeutralValues(xs, e, ys, NameKey);
    NeutralValues(xs, e, ys, VersionKey);
  }

  lemma NeutralValues(xs: seq<XmlEvent>, e: XmlEvent, ys: seq<XmlEvent>, key: string)
    requires !IsManifestStart(e)
    ensures ValuesIn(xs + [e] + ys, key) == ValuesIn(xs + ys, key)
  {
    assert ValuesIn([e], key) == [] by {
      assert [e][..0] == [];
    }
    ValuesInAppend(xs, [e], key);
    assert ValuesIn(xs + [e], key) == ValuesIn(xs, key);
    ValuesInAppend(xs + [e], ys, key);
    ValuesInAppend(xs, ys, key);
  }

  /**
   * Only manifest elements, errors and the end of the document matter:
   * inserting any other event anywhere leaves the outcome unchanged.
   */
  lemma OtherEventsIgnored(pre: seq<XmlEvent>, e: XmlEvent, post: seq<XmlEvent>)
    requires e != Eof && e != Error && !IsManifestStart(e)
    ensures ManifestInfo(pre + [e] + post) == ManifestInfo(pre + post)
  {
    NeutralBeforeEof(pre, e, post);
    SameReadingSameInfo(pre + [e] + post, pre + post);
  }

  lemma NeutralBeforeEof(pre: seq<XmlEvent>, e: XmlEvent, post: seq<XmlEvent>)
    requires e != Eof && e != Error && !IsManifestStart(e)
    ensures SameReading(BeforeEof(pre + [e] + post), BeforeEof(pre + post))
  {
    assert Eof in pre + [e] <==> Eof in pre;
    BeforeEofAppend(pre + [e], post);
    BeforeEofAppend(pre, post);
    if Eof in pre {
      BeforeEofAppend(pre, [e]);
    } else {
      NeutralInsert(pre, e, BeforeEof(post));
    }
  }

  /** Nothing after the end of the document is read. */
  lemma EventsAfterEofIgnored(pre: seq<XmlEvent>, post: seq<XmlEvent>)
    ensures ManifestInfo(pre + [Eof] + post) == ManifestInfo(pre + [Eof])
  {
    assert pre + [Eof] + post == (pre + [Eof]) + post;
    BeforeEofAppend(pre + [Eof], post);
    assert Eof in pre + [Eof];
  }

  /**
   * A later well-formed manifest element overrides every earlier one: after
   * it, each of the three keys holds the last value the element gives it,
   * or keeps its earlier value if the element gives none, as long as no
   * further manifest element or reader error comes before the end of the
   * document.
   */
  lemma LaterElementOverrides(pre: seq<XmlEvent>, e: XmlEvent, post: seq<XmlEvent>)
    requires Eof !in pre && IsManifestStart(e) && Malformed !in e.attrs
    requires forall x | x in BeforeEof(post) :: x != Error && !IsManifestStart(x)
    ensures var r := ManifestInfo(pre + [e] + post);
            var id := LastOr(AttrValues(e.attrs, IdKey), Latest(pre, IdKey));
            var name := LastOr(AttrValues(e.attrs, NameKey), Latest(pre, NameKey));
            var version := LastOr(AttrValues(e.attrs, VersionKey), Latest(pre, VersionKey));
            && (r.Ok? <==> !Rejected(pre) && id != "")
            && (r.Ok? ==> r.value == PluginInfo(id, if name == "" then id else name,
                                                if version == "" then "Unknown" else version))
  {
    var rest := BeforeEof(post);
    assert BeforeEof(pre + [e] + post) == pre + [e] + rest by {
      assert Eof !in pre + [e];
      BeforeEofAppend(pre + [e], post);
    }
    NeutralRun(rest);
    assert Rejected(pre + [e] + rest) <==> Rejected(pre) by {
      RejectedAppend(pre + [e], rest);
      RejectedAppend(pre, [e]);
      assert [e][..0] == [];
      assert !Rejected([e]);
    }
    ElementValues(pre, e, rest, IdKey);
    ElementValues(pre, e, rest, NameKey);
    ElementValues(pre, e, rest, VersionKey);
  }

  /** Events that are neither reader errors nor manifest elements reject nothing and give no values. */
  lemma {:induction false} NeutralRun(xs: seq<XmlEvent>)
    requires forall x | x in xs :: x != Error && !IsManifestStart(x)
    ensures !Rejected(xs)
    ensures forall key :: ValuesIn(xs, key) == []
    decreases |xs|
  {
    if xs != [] {
      var init := xs[..|xs| - 1];
      assert forall x | x in init :: x in xs;
      assert xs[|xs| - 1] in xs;
      NeutralRun(init);
    }
  }

  /** After a manifest element and a run that gives no values, a key holds the element's last value, or its earlier one. */
  lemma ElementValues(pre: seq<XmlEvent>, e: XmlEvent, rest: seq<XmlEvent>, key: string)
    requires IsManifestStart(e) && ValuesIn(rest, key) == []
    ensures Latest(pre + [e] + rest, key) == LastOr(AttrValues(e.attrs, key), Latest(pre, key))
  {
    assert ValuesIn([e], key) == AttrValues(e.attrs, key) by {
      assert [e][..0] == [];
    }
    ValuesInAppend(pre, [e], key);
    ValuesInAppend(pre + [e], rest, key);
    assert ValuesIn(pre + [e] + rest, key) == ValuesIn(pre, key) + AttrValues(e.attrs, key);
    LastOrAppend(ValuesIn(pre, key), AttrValues(e.attrs, key), "");
  }

  /** A manifest no manifest element of which gives a bundle id is rejected. */
  lemma MissingIdRejected(events: seq<XmlEvent>)
    requires ValuesIn(BeforeEof(events), IdKey) == []
    ensures ManifestInfo(events) == Err(InvalidManifest)
  {
  }

  /**
   * Parsing events never answers `ManifestNotFound`, which therefore means
   * exactly that the manifest file could not be read as text.
   */
  lemma {:induction false} ManifestNotFoundMeansUnreadable(n: Node, p: Path)
    ensures ManifestAt(n, p) == Err(ManifestNotFound) <==> ReadText(Lookup(n, p)) == None
    ensures ManifestAt(n, p).Err? && ReadText(Lookup(n, p)).Some? ==> ManifestAt(n, p) == Err(InvalidManifest)
  {
  }

  // ---------------------------------------------------------------------------
  // Manifest parsing: the parser
  // ---------------------------------------------------------------------------

  /** Reading one more event extends every key's values and the rejection by that event's. */
  lemma RejectionStep(events: seq<XmlEvent>, i: nat)
    requires i < |events|
    ensures Rejected(events[..i + 1]) <==> Rejected(events[..i]) || Rejects(events[i])
  {
    assert events[..i + 1][..i] == events[..i];
  }

  /** After one more event, a key holds the last value that event gives it, or what it held before. */
  lemma LatestStep(events: seq<XmlEvent>, i: nat, key: string)
    requires i < |events|
    ensures Latest(events[..i + 1], key) == LastOr(EventValues(events[i], key), Latest(events[..i], key))
  {
    assert events[..i + 1][..i] == events[..i];
    LastOrAppend(ValuesIn(events[..i], key), EventValues(events[i], key), "");
  }

  /** After one more attribute, a key holds that attribute's value if it names the key, or what it held before. */
  lemma AttributeStep(attrs: seq<Attribute>, j: nat, key: string, default: string)
    requires j < |attrs| && attrs[j].Attribute?
    ensures LastOr(AttrValues(attrs[..j + 1], key), default)
            == if attrs[j].key == key then attrs[j].value else LastOr(AttrValues(attrs[..j], key), default)
  {
    assert attrs[..j + 1][..j] == attrs[..j];
    LastOrAppend(AttrValues(attrs[..j], key), ValueFor(attrs[j], key), default);
  }

  /** An event that rejects the manifest, met before the end of the document, decides the outcome. */
  lemma RejectedBeforeEnd(events: seq<XmlEvent>, i: nat)
    requires i < |events| && Eof !in events[..i + 1] && Rejects(events[i])
    ensures ManifestInfo(events) == Err(InvalidManifest)
  {
    BeforeEofKeeps(events, i);
    RejectedAt(BeforeEof(events), i);
  }

  /** The last value of two runs, with a default. */
  lemma LastOrAppend(xs: seq<string>, ys: seq<string>, default: string)
    ensures LastOr(xs + ys, default) == LastOr(ys, LastOr(xs, default))
  {
    if ys == [] {
      assert xs + ys == xs;
    } else {
      assert (xs + ys)[|xs + ys| - 1] == ys[|ys| - 1];
    }
  }

  lemma KeysDistinct()
    ensures IdKey != NameKey && IdKey != VersionKey && NameKey != VersionKey
  {
    assert |IdKey| == 17 && |NameKey| == 19 && |VersionKey| == 22;
  }

  /**
   * The attribute loop of `parse_manifest_xml` for one manifest element:
   * each of the three keys takes the value of its last attribute, and a
   * malformed attribute stops the reading.
   */
  method ReadManifestAttributes(attrs: seq<Attribute>, bundleId: string, name: string, version: string)
    returns (malformed: bool, bundleId': string, name': string, version': string)
    ensures malformed <==> Malformed in attrs
    ensures !malformed ==> bundleId' == LastOr(AttrValues(attrs, IdKey), bundleId)
    ensures !malformed ==> name' == LastOr(AttrValues(attrs, NameKey), name)
    ensures !malformed ==> version' == LastOr(AttrValues(attrs, VersionKey), version)
  {
    KeysDistinct();
    bundleId', name', version' := bundleId, name, version;
    var j := 0;
    while j < |attrs|
      invariant 0 <= j <= |attrs|
      invariant forall k | 0 <= k < j :: attrs[k].Attribute?
      invariant bundleId' == LastOr(AttrValues(attrs[..j], IdKey), bundleId)
      invariant name' == LastOr(AttrValues(attrs[..j], NameKey), name)
      invariant version' == LastOr(AttrValues(attrs[..j], VersionKey), version)
    {
      var a := attrs[j];
      if a.Malformed? {
        assert a in attrs;
        return true, bundleId', name', version';
      }
      AttributeStep(attrs, j, IdKey, bundleId);
      AttributeStep(attrs, j, NameKey, name);
      AttributeStep(attrs, j, VersionKey, version);
      var key := a.key;
      if key == IdKey {
        bundleId' := a.value;
      } else if key == NameKey {
        name' := a.value;
      } else if key == VersionKey {
        version' := a.value;
      }
      j := j + 1;
    }
    assert attrs[..j] == attrs;
    assert Malformed !in attrs by {
      forall k | 0 <= k < |attrs| ensures attrs[k] != Malformed {
      }
    }
    malformed := false;
  }

  /**
   * `parse_manifest_xml` after reading the file: pull events until the end
   * of the document, recording the three attributes of every manifest
   * element start tag, then apply the id check and the fallbacks.
   */
  method ParseManifestEvents(events: seq<XmlEvent>) returns (r: Result<PluginInfo, PluginError>)
    ensures r == ManifestInfo(events)
  {
    var bundleId, name, version := "", "", "";
    var i := 0;
    while i < |events| && events[i] != Eof
      invariant 0 <= i <= |events|
      invariant Eof !in events[..i]
      invariant !Rejected(events[..i])
      invariant bundleId == Latest(events[..i], IdKey)
      invariant name == Latest(events[..i], NameKey)
      invariant version == Latest(events[..i], VersionKey)
    {
      var e := events[i];
      assert Eof !in events[..i + 1] by {
        assert events[..i + 1] == events[..i] + [e];
      }
      RejectionStep(events, i);
      LatestStep(events, i, IdKey);
      LatestStep(events, i, NameKey);
      LatestStep(events, i, VersionKey);
      if e == Error {
        RejectedBeforeEnd(events, i);
        return Err(InvalidManifest);
      }
      if IsManifestStart(e) {
        var malformed;
        malformed, bundleId, name, version := ReadManifestAttributes(e.attrs, bundleId, name, version);
        if malformed {
          RejectedBeforeEnd(events, i);
          return Err(InvalidManifest);
        }
      }
      i := i + 1;
    }
    BeforeEofStops(events, i);
    if bundleId == "" {
      return Err(InvalidManifest);
    }
    if name == "" {
      name := bundleId;
    }
    r := Ok(PluginInfo(bundleId, name, if version == "" then "Unknown" else version));
  }

  /**
   * What a manifest yields when it is read: only `InvalidManifest` as an
   * error; on success a non-empty bundle id, the last one given, with the
   * name falling back to the id and the version to "Unknown".
   */
  lemma ManifestInfoOutcome(events: seq<XmlEvent>)
    ensures var r := ManifestInfo(events);
            && (r.Err? ==> r.error == InvalidManifest)
            && (r.Ok? ==> r.value.bundleId != "" && r.value.bundleId == Latest(BeforeEof(events), IdKey))
            && (r.Ok? ==> r.value.name == if Latest(BeforeEof(events), NameKey) == "" then r.value.bundleId
                                          else Latest(BeforeEof(events), NameKey))
            && (r.Ok? ==> r.value.version == if Latest(BeforeEof(events), VersionKey) == "" then "Unknown"
                                             else Latest(BeforeEof(events), VersionKey))
  {
  }

  /**
   * `parse_manifest_xml(path)`: a file that cannot be read as text gives
   * `ManifestNotFound`; otherwise its events are parsed.
   */
  method ParseManifestXml(n: Node, p: Path) returns (r: Result<PluginInfo, PluginError>)
    ensures r == ManifestAt(n, p)
    ensures ReadText(Lookup(n, p)) == None ==> r == Err(ManifestNotFound)
    ensures ReadText(Lookup(n, p)).Some? ==> r == ManifestInfo(ReadText(Lookup(n, p)).value)
  {
    var text := ReadText(Lookup(n, p));
    if text.None? {
      return Err(ManifestNotFound);
    }
    r := ParseManifestEvents(text.value);
  }

  // ---------------------------------------------------------------------------
  // Classification
  // ---------------------------------------------------------------------------

  /** `determine_plugin_type`: native exactly when the id starts with "com.adobe.". */
  function DeterminePluginType(bundleId: string): (t: PluginType)
    ensures t == Native <==> |bundleId| >= |NativePrefix| && bundleId[..|NativePrefix|] == NativePrefix
  {
    if NativePrefix <= bundleId then Native else Installed
  }

  /** A native id, a third-party id, and two near misses: a missing final dot and the wrong case. */
  lemma PluginTypeExamples()
    ensures DeterminePluginType("com.adobe.foo") == Native
    ensures DeterminePluginType("com.example.bar") == Installed
    ensures DeterminePluginType("com.adobe") == Installed
    ensures DeterminePluginType("COM.ADOBE.foo") == Installed
  {
    assert "com.adobe.foo"[..10] == NativePrefix;
    assert "com.example.bar"[4] != NativePrefix[4];
    assert "COM.ADOBE.foo"[0] != NativePrefix[0];
  }

  // ---------------------------------------------------------------------------
  // Sizes
  // ---------------------------------------------------------------------------

  /** The total length of the regular files in the subtree of `n`. */
  function TreeBytes(n: Node): nat
    decreases n
  {
    match n
    case Dir(items) => ItemsBytes(items)
    case _ => 0
  }

  function ItemsBytes(items: seq<Item>): nat
    decreases items
  {
    if items == [] then 0 else ItemsBytes(items[..|items| - 1]) + ItemBytes(items[|items| - 1])
  }

  /** Files count their length, directories their contents, anything else nothing. */
  function ItemBytes(it: Item): nat
    decreases it
  {
    match it
    case BadItem(_) => 0
    case Item(_, child) =>
      match child
      case File(d) => d.size
      case _ => TreeBytes(child)
  }

  /** Sizes and faults of consecutive runs of entries combine. */
  lemma {:induction false} ItemsAppend(a: seq<Item>, b: seq<Item>)
    ensures ItemsBytes(a + b) == ItemsBytes(a) + ItemsBytes(b)
    ensures ItemsFault(a + b) == if ItemsFault(a).Some? then ItemsFault(a) else ItemsFault(b)
    decreases |b|
  {
    if b != [] {
      ItemsAppend(a, b[..|b| - 1]);
      assert (a + b)[..|a + b| - 1] == a + b[..|b| - 1];
      assert (a + b)[|a + b| - 1] == b[|b| - 1];
    } else {
      assert a + b == a;
    }
  }

  /** Walking one more entry adds its size, or stops at its fault. */
  lemma ItemsStep(items: seq<Item>, i: nat)
    requires i < |items|
    ensures ItemsBytes(items[..i + 1]) == ItemsBytes(items[..i]) + ItemBytes(items[i])
    ensures ItemsFault(items[..i + 1]) == if ItemsFault(items[..i]).Some? then ItemsFault(items[..i]) else ItemFault(items[i])
  {
    assert items[..i + 1][..i] == items[..i];
  }

  /**
   * Adding an entry that is neither a file nor a directory (a symbolic
   * link, a socket) anywhere in a directory changes neither its size nor
   * whether it can be measured.
   */
  lemma SpecialEntriesAddNothing(a: seq<Item>, name: string, b: seq<Item>)
    ensures TreeBytes(Dir(a + [Item(name, Special)] + b)) == TreeBytes(Dir(a + b))
    ensures TreeFault(Dir(a + [Item(name, Special)] + b)) == TreeFault(Dir(a + b))
  {
    var x := [Item(name, Special)];
    assert ItemsBytes(x) == 0 && ItemsFault(x) == None by {
      assert x[..0] == [];
      assert ItemBytes(x[0]) == TreeBytes(Special) == 0;
      assert ItemFault(x[0]) == None;
    }
    ItemsAppend(a, x);
    assert ItemsBytes(a + x) == ItemsBytes(a) && ItemsFault(a + x) == ItemsFault(a);
    ItemsAppend(a + x, b);
    ItemsAppend(a, b);
  }

  /**
   * `calculate_folder_size_bytes`: list the directory and add up its
   * entries, descending into subdirectories; the first I/O error ends the
   * walk and is returned.
   */
  method FolderSizeBytes(n: Node) returns (r: Result<nat, IoErrorKind>)
    ensures r.Err? <==> TreeFault(n).Some?
    ensures r.Err? ==> r.error == TreeFault(n).value
    ensures r.Ok? ==> r.value == TreeBytes(n)
    decreases n
  {
    var listing := ListDir(n);
    if listing.Err? {
      return Err(listing.error);
    }
    var items := listing.value;
    var total := 0;
    var i := 0;
    while i < |items|
      invariant 0 <= i <= |items|
      invariant ItemsFault(items[..i]) == None
      invariant total == ItemsBytes(items[..i])
    {
      ItemsStep(items, i);
      ItemsAppend(items[..i + 1], items[i + 1..]);
      assert items[..i + 1] + items[i + 1..] == items;
      match items[i] {
        case BadItem(k) =>
          return Err(k);
        case Item(_, child) =>
          match child {
            case Unstatable(k) =>
              return Err(k);
            case File(d) =>
              total := total + d.size;
            case Special =>
            case _ =>
              var sub := FolderSizeBytes(child);
              if sub.Err? {
                return Err(sub.error);
              }
              total := total + sub.value;
          }
      }
      i := i + 1;
    }
    assert items[..i] == items;
    r := Ok(total);
  }

  /** `format_size`: bytes below 1024, kilobytes below 1024 * 1024, megabytes above. */
  function FormatSize(bytes: nat): (s: SizeText)
    ensures s.Exact? <==> bytes < 1024
    ensures s.Scaled? ==> s.bytes == bytes && (s.unit == Kilobytes <==> bytes < 1024 * 1024)
  {
    if bytes < 1024 then Exact(Strings.DecimalDigits(bytes) + " B")
    else if bytes < 1024 * 1024 then Scaled(bytes, Kilobytes)
    else Scaled(bytes, Megabytes)
  }

  /**
   * A byte count below 1024 is shown as its decimal digits followed by
   * " B", and reading those digits back gives the count.
   */
  lemma FormatSizeBytesRoundTrip(bytes: nat)
    requires bytes < 1024
    ensures var t := FormatSize(bytes).text;
            |t| > 2 && t[|t| - 2..] == " B"
            && (forall i | 0 <= i < |t| - 2 :: Strings.IsDigit(t[i]))
            && Strings.DecimalValue(t[..|t| - 2]) == bytes
  {
    var digits := Strings.DecimalDigits(bytes);
    var t := digits + " B";
    assert t[..|t| - 2] == digits;
    assert t[|t| - 2..] == " B";
    Strings.DecimalRoundTrip(bytes);
  }

  /** One byte count for each unit: bytes, kilobytes and megabytes. */
  lemma FormatSizeExamples()
    ensures FormatSize(512) == Exact("512 B")
    ensures FormatSize(2048) == Scaled(2048, Kilobytes)
    ensures FormatSize(3 * 1024 * 1024) == Scaled(3 * 1024 * 1024, Megabytes)
  {
    assert Strings.DecimalDigits(5) == "5";
    assert Strings.DecimalDigits(51) == "51";
    assert Strings.DecimalDigits(512) == "512";
  }

  /** `calculate_folder_size`: the formatted size, or "Unknown" when any I/O error occurs. */
  method CalculateFolderSize(n: Node) returns (s: SizeText)
    ensures TreeFault(n).Some? ==> s == Exact("Unknown")
    ensures TreeFault(n).None? ==> s == FormatSize(TreeBytes(n))
  {
    var bytes := FolderSizeBytes(n);
    match bytes
    case Ok(b) => s := FormatSize(b);
    case Err(_) => s := Exact("Unknown");
  }

  // ---------------------------------------------------------------------------
  // Scanning the extension root
  // ---------------------------------------------------------------------------

  /** `is_valid_plugin`: the bundle directory holds `CSXS/manifest.xml`. */
  predicate IsValidPlugin(dir: Node)
  {
    Exists(dir, ManifestLocation)
  }

  /** The size a scan reports for a bundle directory. */
  function FolderSizeText(n: Node): SizeText
  {
    if TreeFault(n).Some? then Exact("Unknown") else FormatSize(TreeBytes(n))
  }

  /**
   * The plugin one entry of the extension root stands for: a directory with
   * a manifest that parses, reported under its own path.
   */
  function PluginAt(root: Path, it: Item): Option<Plugin>
  {
    match it
    case BadItem(_) => None
    case Item(name, node) =>
      if !IsDirNode(node) || !IsValidPlugin(node) then None
      else match ManifestAt(node, ManifestLocation)
        case Err(_) => None
        case Ok(info) =>
          Some(Plugin(info.name, info.version, FolderSizeText(node), root + [name], DeterminePluginType(info.bundleId)))
  }

  /** Past a run of good entries, the next entry decides whether enumeration fails there. */
  lemma FirstBadItemAt(items: seq<Item>, i: nat)
    requires i < |items| && FirstBadItem(items[..i]) == None
    ensures items[i].BadItem? ==> FirstBadItem(items) == Some(items[i].kind)
    ensures items[i].Item? ==> FirstBadItem(items[..i + 1]) == None
  {
    var x := items[i];
    assert FirstBadItem([x]) == if x.BadItem? then Some(x.kind) else None by {
      assert [x][1..] == [];
    }
    FirstBadItemAppend(items[..i], items[i..]);
    assert items[..i] + items[i..] == items;
    assert FirstBadItem(items[i..]) == if x.BadItem? then Some(x.kind) else FirstBadItem(items[i + 1..]) by {
      assert items[i..][1..] == items[i + 1..];
    }
    FirstBadItemAppend(items[..i], [x]);
    assert items[..i + 1] == items[..i] + [x];
  }

  /** The plugins a run of entries stands for, in enumeration order. */
  function PluginsIn(root: Path, items: seq<Item>): seq<Plugin>
  {
    FilterMap(items, (it: Item) => PluginAt(root, it))
  }

  /** The first enumeration step that failed, if any. */
  function FirstBadItem(items: seq<Item>): Option<IoErrorKind>
  {
    if items == [] then None
    else if items[0].BadItem? then Some(items[0].kind)
    else FirstBadItem(items[1..])
  }

  /** What `scan_cep_plugins` returns for the filesystem `fs`. */
  function ScanResult(fs: Node): Result<seq<Plugin>, PluginError>
  {
    if !Exists(fs, ExtensionRoot) then Ok([])
    else match ListDir(Lookup(fs, ExtensionRoot).value)
      case Err(k) => Err(FromIoError(k))
      case Ok(items) =>
        match FirstBadItem(items)
        case Some(k) => Err(FromIoError(k))
        case None => Ok(PluginsIn(ExtensionRoot, items))
  }

  lemma {:induction false} FirstBadItemAppend(a: seq<Item>, b: seq<Item>)
    ensures FirstBadItem(a + b) == if FirstBadItem(a).Some? then FirstBadItem(a) else FirstBadItem(b)
    decreases |a|
  {
    if a != [] {
      assert (a + b)[1..] == a[1..] + b;
      assert (a + b)[0] == a[0];
      FirstBadItemAppend(a[1..], b);
    } else {
      assert a + b == b;
    }
  }

  /** Scanning one more entry adds the plugin it stands for, if any, at the end. */
  lemma PluginsInStep(root: Path, items: seq<Item>, i: nat)
    requires i < |items|
    ensures PluginsIn(root, items[..i + 1])
            == PluginsIn(root, items[..i]) + match PluginAt(root, items[i]) { case Some(p) => [p] case None => [] }
  {
    assert items[..i + 1][..i] == items[..i];
  }

  /** A bundle directory whose manifest parses stands for the plugin it describes. */
  lemma PluginAtBundle(root: Path, name: string, node: Node, info: PluginInfo, size: SizeText)
    requires IsDirNode(node) && IsValidPlugin(node) && ManifestAt(node, ManifestLocation) == Ok(info)
    requires size == FolderSizeText(node)
    ensures PluginAt(root, Item(name, node))
            == Some(Plugin(info.name, info.version, size, root + [name], DeterminePluginType(info.bundleId)))
  {
  }

  /** Any other entry stands for no plugin. */
  lemma PluginAtOther(root: Path, name: string, node: Node)
    requires !IsDirNode(node) || !IsValidPlugin(node) || ManifestAt(node, ManifestLocation).Err?
    ensures PluginAt(root, Item(name, node)) == None
  {
  }

  /**
   * A plugin is reported exactly when some entry stands for it: a bundle
   * directory whose manifest parses. It carries that entry's path under
   * the root, the manifest's name and version, and the id's classification.
   */
  lemma PluginsInExactly(root: Path, items: seq<Item>, p: Plugin)
    ensures p in PluginsIn(root, items) <==> exists i | 0 <= i < |items| :: PluginAt(root, items[i]) == Some(p)
    ensures p in PluginsIn(root, items) ==>
              exists name, node, info ::
                Item(name, node) in items && IsDirNode(node) && IsValidPlugin(node)
                && ManifestAt(node, ManifestLocation) == Ok(info)
                && p == Plugin(info.name, info.version, FolderSizeText(node), root + [name], DeterminePluginType(info.bundleId))
  {
    var f := (it: Item) => PluginAt(root, it);
    FilterMapMembers(items, f, p);
    if p in PluginsIn(root, items) {
      var i :| 0 <= i < |items| && f(items[i]) == Some(p);
      assert items[i] in items;
    }
  }

  /**
   * Entries that are not bundles (files, links, directories without a
   * parsable manifest) are skipped without disturbing the others.
   */
  lemma NonPluginEntriesSkipped(root: Path, a: seq<Item>, it: Item, b: seq<Item>)
    requires PluginAt(root, it) == None
    ensures PluginsIn(root, a + [it] + b) == PluginsIn(root, a + b)
  {
    FilterMapSkips(a, it, b, (x: Item) => PluginAt(root, x));
  }

  /** The scan keeps enumeration order: the plugins of consecutive runs of entries follow each other. */
  lemma PluginsInOrder(root: Path, a: seq<Item>, b: seq<Item>)
    ensures PluginsIn(root, a + b) == PluginsIn(root, a) + PluginsIn(root, b)
  {
    FilterMapAppend(a, b, (x: Item) => PluginAt(root, x));
  }

  /** Every reported plugin lives directly under the extension root. */
  lemma ScanPathsUnderRoot(fs: Node)
    requires ScanResult(fs).Ok?
    ensures forall p | p in ScanResult(fs).value ::
              |p.path| == |ExtensionRoot| + 1 && p.path[..|ExtensionRoot|] == ExtensionRoot
  {
    if Exists(fs, ExtensionRoot) {
      var items := ListDir(Lookup(fs, ExtensionRoot).value).value;
      forall p | p in ScanResult(fs).value
        ensures |p.path| == |ExtensionRoot| + 1 && p.path[..|ExtensionRoot|] == ExtensionRoot
      {
        PluginsInExactly(ExtensionRoot, items, p);
        var name, node, info :| Item(name, node) in items && IsDirNode(node) && IsValidPlugin(node)
                && ManifestAt(node, ManifestLocation) == Ok(info)
                && p == Plugin(info.name, info.version, FolderSizeText(node), ExtensionRoot + [name], DeterminePluginType(info.bundleId));
        assert (ExtensionRoot + [name])[..|ExtensionRoot|] == ExtensionRoot;
      }
    }
  }

  /**
   * Every bundle directory the extension root resolves to by name, whose
   * manifest parses, is listed by a scan that succeeds.
   */
  lemma ScanListsEveryBundle(fs: Node, name: string, info: PluginInfo)
    requires ScanResult(fs).Ok?
    requires Lookup(fs, ExtensionRoot + [name]).Some?
    requires var node := Lookup(fs, ExtensionRoot + [name]).value;
             node.Dir? && IsValidPlugin(node) && ManifestAt(node, ManifestLocation) == Ok(info)
    ensures var node := Lookup(fs, ExtensionRoot + [name]).value;
            Plugin(info.name, info.version, FolderSizeText(node), ExtensionRoot + [name], DeterminePluginType(info.bundleId))
              in ScanResult(fs).value
  {
    var node := Lookup(fs, ExtensionRoot + [name]).value;
    LookupAppend(fs, ExtensionRoot, [name]);
    var items := Lookup(fs, ExtensionRoot).value.items;
    assert [name][1..] == [];
    var k := Index(items, name).value;
    assert items[k] == Item(name, node);
    var pl := Plugin(info.name, info.version, FolderSizeText(node), ExtensionRoot + [name], DeterminePluginType(info.bundleId));
    PluginAtBundle(ExtensionRoot, name, node, info, FolderSizeText(node));
    assert ScanResult(fs).value == PluginsIn(ExtensionRoot, items) by {
      assert FirstBadItem(items) == None;
    }
    var f := (it: Item) => PluginAt(ExtensionRoot, it);
    assert PluginsIn(ExtensionRoot, items) == FilterMap(items, f);
    FilterMapMembers(items, f, pl);
    assert f(items[k]) == Some(pl);
  }

  /**
   * The body of the scan loop for one entry of the extension root: skip it
   * unless it is a directory holding a manifest; parse the manifest and
   * skip the entry if that fails; otherwise classify the id and measure
   * the directory.
   */
  method ReadPlugin(name: string, node: Node) returns (plugin: Option<Plugin>)
    ensures plugin == PluginAt(ExtensionRoot, Item(name, node))
    ensures plugin.Some? ==> plugin.value.path == ExtensionRoot + [name]
  {
    if !IsDirNode(node) || !IsValidPlugin(node) {
      PluginAtOther(ExtensionRoot, name, node);
      return None;
    }
    var parsed := ParseManifestXml(node, ManifestLocation);
    if parsed.Err? {
      PluginAtOther(ExtensionRoot, name, node);
      return None;
    }
    var info := parsed.value;
    var pluginType := DeterminePluginType(info.bundleId);
    var size := CalculateFolderSize(node);
    PluginAtBundle(ExtensionRoot, name, node, info, size);
    plugin := Some(Plugin(info.name, info.version, size, ExtensionRoot + [name], pluginType));
  }

  /**
   * `scan_cep_plugins`: a missing root means nothing is installed; a root
   * that cannot be listed, or an enumeration step that fails, fails the
   * scan; every directory entry holding a manifest that parses becomes a
   * plugin, in enumeration order, and every other entry is skipped.
   */
  method ScanCepPlugins(fs: Node) returns (r: Result<seq<Plugin>, PluginError>)
    ensures r == ScanResult(fs)
    ensures !Exists(fs, ExtensionRoot) ==> r == Ok([])
    ensures r.Err? ==> r.error == DirectoryNotFound || r.error == PluginError.PermissionDenied
  {
    if !Exists(fs, ExtensionRoot) {
      return Ok([]);
    }
    var listing := ListDir(Lookup(fs, ExtensionRoot).value);
    if listing.Err? {
      return Err(FromIoError(listing.error));
    }
    var items := listing.value;
    var plugins: seq<Plugin> := [];
    var i := 0;
    while i < |items|
      invariant 0 <= i <= |items|
      invariant FirstBadItem(items[..i]) == None
      invariant plugins == PluginsIn(ExtensionRoot, items[..i])
    {
      FirstBadItemAt(items, i);
      PluginsInStep(ExtensionRoot, items, i);
      match items[i] {
        case BadItem(k) =>
          return Err(FromIoError(k));
        case Item(name, node) =>
          var plugin := ReadPlugin(name, node);
          if plugin.Some? {
            plugins := plugins + [plugin.value];
          } else {
            assert plugins + [] == plugins;
          }
      }
      i := i + 1;
    }
    assert items[..i] == items;
    r := Ok(plugins);
  }
}
