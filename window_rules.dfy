/** The small decision rules written inline in the main window: the name an
    icon is exported under, the folder prefix of a ZIP being imported, the
    manifest that links the two, the choice of source for each target and
    the guard against targets that have no source at all. */
module WindowRules {
  import opened Text
  import opened Paths
  import opened Models

  // ----------------------------------------------------------------------
  // Export file names
  // ----------------------------------------------------------------------

  /** `"_".join(Path(rel).parts)` with every '\' and '/' then replaced by '_'. */
  function FlatName(rel: string): (flat: string)
    ensures '/' !in flat && '\\' !in flat
  {
    var joined := Join(Parts(Parse(rel)), "_");
    var noBackslash := Replace(joined, "\\", "_");
    ReplaceRemovesChar(joined, '\\', "_");
    ReplaceRemovesChar(noBackslash, '/', "_");
    ReplaceKeepsCharOut(noBackslash, "/", "_", '\\');
    Replace(noBackslash, "/", "_")
  }

  /** The file name an icon with `rel_path` `rel` is exported under: the
      flattened path, kept as it is when it already ends in ".png",
      otherwise with its ".png" occurrences removed and ".png" appended.
      It can be put in a single folder: it has no separator of either kind. */
  function SafeName(rel: string): (name: string)
    ensures EndsWith(name, ".png")
    ensures '/' !in name && '\\' !in name
  {
    var flat := FlatName(rel);
    if EndsWith(flat, ".png") then flat
    else
      ReplaceKeepsCharOut(flat, ".png", "", '/');
      ReplaceKeepsCharOut(flat, ".png", "", '\\');
      var stem := Replace(flat, ".png", "");
      assert (stem + ".png")[|stem|..] == ".png";
      stem + ".png"
  }

  /** A name without separators is a single relative name. */
  lemma ParseSingleName(n: string)
    requires '/' !in n && n != "" && n != "."
    ensures Parse(n) == Path(false, [n])
  {
    SplitWord(n, "", '/');
    assert n + "" == n;
    assert Split(n, '/') == [n];
    assert n[0] != '/';
    assert Clean([n]) == [n] + Clean([]);
  }

  /** Exporting is stable: the safe name of a safe name is itself. */
  lemma SafeNameIdempotent(rel: string)
    ensures SafeName(SafeName(rel)) == SafeName(rel)
  {
    var n := SafeName(rel);
    ParseSingleName(n);
    assert Parts(Parse(n)) == [n];
    assert Join([n], "_") == n;
    ReplaceAbsentChar(n, '\\', "_");
    ReplaceAbsentChar(n, '/', "_");
    assert FlatName(n) == n;
  }

  /** The last part of a join ends the joined string. */
  lemma {:induction false} JoinEndsWithLast(ns: seq<string>, sep: string, suffix: string)
    requires |ns| >= 1 && EndsWith(ns[|ns| - 1], suffix)
    ensures EndsWith(Join(ns, sep), suffix)
  {
    if |ns| > 1 {
      JoinEndsWithLast(ns[1..], sep, suffix);
      var tail := Join(ns[1..], sep);
      var whole := ns[0] + sep + tail;
      assert whole[|whole| - |suffix|..] == tail[|tail| - |suffix|..];
    }
  }

  /** For a relative project path whose names hold no '\' and whose file name
      ends in ".png", the exported name is just its names joined by '_'. */
  lemma SafeNameOfProjectPath(p: Path)
    requires !p.absolute && Valid(p) && |p.names| >= 1
    requires forall i :: 0 <= i < |p.names| ==> '\\' !in p.names[i]
    requires EndsWith(p.names[|p.names| - 1], ".png")
    ensures SafeName(Str(p)) == Join(p.names, "_")
  {
    FlatNameOfProjectPath(p);
    JoinEndsWithLast(p.names, "_", ".png");
  }

  /** A relative project path whose names hold no '\' flattens to its names
      joined by '_'. */
  lemma FlatNameOfProjectPath(p: Path)
    requires !p.absolute && Valid(p) && |p.names| >= 1
    requires forall i :: 0 <= i < |p.names| ==> '\\' !in p.names[i]
    ensures FlatName(Str(p)) == Join(p.names, "_")
  {
    ParseStr(p);
    assert Parts(Parse(Str(p))) == p.names;
    var joined := Join(p.names, "_");
    JoinAvoids(p.names, "_", '\\');
    JoinAvoids(p.names, "_", '/');
    ReplaceAbsentChar(joined, '\\', "_");
    ReplaceAbsentChar(joined, '/', "_");
  }

  // ----------------------------------------------------------------------
  // Import from a ZIP
  // ----------------------------------------------------------------------

  /** The folder prefix of the entries in a ZIP, taken from the manifest's
      entry name: everything up to and including its last '/', or "" when
      there is no manifest name or it has no '/'. */
  function ZipPrefix(manifestName: Option<string>): (r: string)
    ensures r == "" || r[|r| - 1] == '/'
    ensures manifestName.None? ==> r == ""
  {
    if manifestName.Some? && Contains(manifestName.value, "/") then
      var name := manifestName.value;
      ContainsChar(name, '/');
      RFindIsLast(name, '/');
      name[..RFind(name, '/')] + "/"
    else
      ""
  }

  /** The prefix is the manifest's folder: it begins the manifest's name, it
      is "" or ends in '/', and what follows it holds no '/'. */
  lemma ZipPrefixIsFolder(manifestName: Option<string>)
    ensures var prefix := ZipPrefix(manifestName);
      (manifestName.None? || '/' !in manifestName.value) <==> prefix == ""
    ensures manifestName.Some? ==>
      var prefix := ZipPrefix(manifestName);
      StartsWith(manifestName.value, prefix) && '/' !in manifestName.value[|prefix|..] &&
      (prefix == "" || prefix[|prefix| - 1] == '/')
  {
    if manifestName.Some? {
      var name := manifestName.value;
      ContainsChar(name, '/');
      if '/' in name {
        RFindIsLast(name, '/');
        var i := RFind(name, '/');
        assert name[..i + 1] == name[..i] + "/";
        var tail := name[i + 1..];
        forall k | 0 <= k < |tail| ensures tail[k] != '/' {
          assert tail[k] == name[i + 1 + k];
        }
      }
    }
  }

  /** The manifest of a folder zipped as a whole sits at `folder/name`; the
      prefix is then `folder/`, so `prefix + exported` names the exported
      file next to it. */
  lemma ZipPrefixOfFolder(folder: string, name: string)
    requires '/' !in name
    ensures ZipPrefix(Some(folder + "/" + name)) == folder + "/"
  {
    var s := folder + "/" + name;
    assert s[|folder|] == '/';
    ContainsChar(s, '/');
    RFindIsLast(s, '/');
    var i := RFind(s, '/');
    assert i == |folder|;
    assert s[..i] == folder;
  }

  /** The manifest's "icons" object: its items in insertion order. */
  type Manifest = seq<(string, string)>

  predicate DistinctKeys(m: Manifest) {
    forall i, j :: 0 <= i < j < |m| ==> m[i].0 != m[j].0
  }

  /** `manifest[key] = value` on a Python dict: an existing key keeps its
      place and takes the new value, a new key goes at the end. */
  function Assign(m: Manifest, key: string, value: string): (r: Manifest)
    ensures |r| == |m| || |r| == |m| + 1
  {
    if m == [] then [(key, value)]
    else if m[0].0 == key then [(key, value)] + m[1..]
    else [m[0]] + Assign(m[1..], key, value)
  }

  /** `manifest.get(key)` */
  function Lookup(m: Manifest, key: string): Option<string> {
    if m == [] then None
    else if m[0].0 == key then Some(m[0].1)
    else Lookup(m[1..], key)
  }

  /** Assignment keeps the keys distinct, makes `key` map to `value` and
      leaves every other key as it was. */
  lemma {:induction false} AssignLookup(m: Manifest, key: string, value: string)
    requires DistinctKeys(m)
    ensures DistinctKeys(Assign(m, key, value))
    ensures Lookup(Assign(m, key, value), key) == Some(value)
    ensures forall k :: k != key ==> Lookup(Assign(m, key, value), k) == Lookup(m, k)
  {
    if m != [] && m[0].0 != key {
      AssignLookup(m[1..], key, value);
      var r := Assign(m[1..], key, value);
      forall j | 0 <= j < |r| ensures r[j].0 != m[0].0 {
        KeyOfAssign(m[1..], key, value, j);
      }
    }
  }

  /** Every key after an assignment was a key before or is the new one. */
  lemma {:induction false} KeyOfAssign(m: Manifest, key: string, value: string, j: int)
    requires DistinctKeys(m)
    requires 0 <= j < |Assign(m, key, value)|
    ensures var k := Assign(m, key, value)[j].0; k == key || exists i :: 0 <= i < |m| && m[i].0 == k
  {
    if m != [] && m[0].0 != key && j > 0 {
      KeyOfAssign(m[1..], key, value, j - 1);
      var k := Assign(m, key, value)[j].0;
      if k != key {
        var i :| 0 <= i < |m[1..]| && m[1..][i].0 == k;
        assert m[i + 1].0 == k;
      }
    }
  }

  /** Each manifest entry is `(k, v)` with `v` what the manifest maps `k` to. */
  lemma {:induction false} LookupFindsEntry(m: Manifest, i: int)
    requires DistinctKeys(m) && 0 <= i < |m|
    ensures Lookup(m, m[i].0) == Some(m[i].1)
  {
    if i > 0 {
      LookupFindsEntry(m[1..], i - 1);
    }
  }

  /** An icon found in the ZIP: its entry, the file it replaces and the
      `rel_path` it was exported from. */
  datatype Found = Found(zipName: string, targetPath: Path, relPath: string)

  /** The entry the import looks for, and the file it replaces. */
  function FoundFor(item: (string, string), prefix: string, root: Path): Found {
    Found(prefix + item.0, JoinStr(root, item.1), item.1)
  }

  /** The icons of the manifest present in the ZIP, in manifest order. */
  function FoundSpec(m: Manifest, zipNames: set<string>, prefix: string, root: Path): seq<Found>
    decreases |m|
  {
    if m == [] then []
    else
      var prev := FoundSpec(m[..|m| - 1], zipNames, prefix, root);
      if prefix + m[|m| - 1].0 in zipNames then prev + [FoundFor(m[|m| - 1], prefix, root)] else prev
  }

  /** The search of `_import_icons`: each manifest entry, looked up as
      `prefix + exported name`, is kept when the ZIP has it. */
  method FindIcons(m: Manifest, zipNames: set<string>, prefix: string, root: Path) returns (found: seq<Found>)
    ensures found == FoundSpec(m, zipNames, prefix, root)
  {
    found := [];
    var i := 0;
    while i < |m|
      invariant 0 <= i <= |m|
      invariant found == FoundSpec(m[..i], zipNames, prefix, root)
    {
      assert m[..i + 1][..i] == m[..i];
      if prefix + m[i].0 in zipNames {
        found := found + [FoundFor(m[i], prefix, root)];
      }
      i := i + 1;
    }
    assert m[..i] == m;
  }

  /** An icon is found exactly when its manifest entry's prefixed name is in
      the ZIP. */
  lemma {:induction false} FoundMembership(m: Manifest, zipNames: set<string>, prefix: string, root: Path, f: Found)
    ensures f in FoundSpec(m, zipNames, prefix, root) <==>
      exists i :: 0 <= i < |m| && prefix + m[i].0 in zipNames && f == FoundFor(m[i], prefix, root)
    decreases |m|
  {
    if m != [] {
      var n := |m| - 1;
      FoundMembership(m[..n], zipNames, prefix, root, f);
      if exists i :: 0 <= i < |m| && prefix + m[i].0 in zipNames && f == FoundFor(m[i], prefix, root) {
        var i :| 0 <= i < |m| && prefix + m[i].0 in zipNames && f == FoundFor(m[i], prefix, root);
        if i < n {
          assert m[..n][i] == m[i];
        }
      }
      if f in FoundSpec(m[..n], zipNames, prefix, root) {
        var i :| 0 <= i < n && prefix + m[..n][i].0 in zipNames && f == FoundFor(m[..n][i], prefix, root);
        assert m[..n][i] == m[i];
      }
    }
  }

  /** `PROJECT_ROOT / rel_path` gives back the target's path, both for a
      target under the root and for one given by an absolute path outside
      it. */
  lemma RelPathRoundTrip(t: IconTarget, root: Path)
    requires Valid(t.path)
    requires RelativeTo(t.path, root).Some? || t.path.absolute
    ensures JoinStr(root, RelPath(t, root)) == t.path
  {
    match RelativeTo(t.path, root)
    case Some(rel) =>
      RelPathStripsRoot(t, root, rel.names);
    case None =>
      ParseStr(t.path);
  }

  /** Export then import: when the manifest maps a target's safe name to its
      `rel_path` and the ZIP holds that name under the prefix, the import
      finds it and writes it back to the target's own path. */
  lemma ExportThenImport(t: IconTarget, root: Path, m: Manifest, zipNames: set<string>, prefix: string)
    requires Valid(t.path)
    requires RelativeTo(t.path, root).Some? || t.path.absolute
    requires DistinctKeys(m)
    requires Lookup(m, SafeName(RelPath(t, root))) == Some(RelPath(t, root))
    requires prefix + SafeName(RelPath(t, root)) in zipNames
    ensures Found(prefix + SafeName(RelPath(t, root)), t.path, RelPath(t, root)) in FoundSpec(m, zipNames, prefix, root)
  {
    var rel := RelPath(t, root);
    var i := LookupIndex(m, SafeName(rel));
    RelPathRoundTrip(t, root);
    FoundMembership(m, zipNames, prefix, root, FoundFor(m[i], prefix, root));
  }

  /** Where a successful lookup comes from. */
  lemma {:induction false} LookupIndex(m: Manifest, key: string) returns (i: int)
    requires Lookup(m, key).Some?
    ensures 0 <= i < |m| && m[i] == (key, Lookup(m, key).value)
  {
    if m[0].0 == key {
      i := 0;
    } else {
      var j := LookupIndex(m[1..], key);
      i := j + 1;
    }
  }

  // ----------------------------------------------------------------------
  // Source selection and the missing-source guard
  // ----------------------------------------------------------------------

  /** What a target is generated from. */
  datatype Source = RasterOverride(path: Path) | Svg(path: Path) | NoSource

  /** A PNG override goes to the raster compositor; otherwise the override,
      or else the default SVG, goes to the SVG compositor. */
  function ChooseSource(t: IconTarget, defaultSvg: Option<Path>): (s: Source)
    ensures s.RasterOverride? <==> OverrideIsPng(t)
    ensures s.RasterOverride? ==> s.path == t.overridePath.value
    ensures s.Svg? ==> if t.overridePath.Some? then s.path == t.overridePath.value else defaultSvg == Some(s.path)
    ensures s == NoSource <==> !HasSource(t, defaultSvg)
  {
    if OverrideIsPng(t) then RasterOverride(t.overridePath.value)
    else if t.overridePath.Some? then Svg(t.overridePath.value)
    else if defaultSvg.Some? then Svg(defaultSvg.value)
    else NoSource
  }

  /** The target has an override, or there is a default SVG. */
  predicate HasSource(t: IconTarget, defaultSvg: Option<Path>) {
    t.overridePath.Some? || defaultSvg.Some?
  }

  /** The targets the guard counts: no override, and no default SVG. */
  function Missing(selected: seq<IconTarget>, defaultSvg: Option<Path>): (r: seq<IconTarget>)
    ensures |r| <= |selected|
    ensures forall t :: t in r ==> t in selected && t.overridePath.None?
    ensures defaultSvg.Some? ==> r == []
    decreases |selected|
  {
    if selected == [] then []
    else
      var prev := Missing(selected[..|selected| - 1], defaultSvg);
      var t := selected[|selected| - 1];
      if t.overridePath.None? && defaultSvg.None? then prev + [t] else prev
  }

  /** The guard lets generation start exactly when every selected target has
      a source; the targets it counts are exactly those that have none. */
  lemma {:induction false} GuardIffEverySourceKnown(selected: seq<IconTarget>, defaultSvg: Option<Path>)
    ensures Missing(selected, defaultSvg) == [] <==>
      forall i :: 0 <= i < |selected| ==> HasSource(selected[i], defaultSvg)
    ensures forall t :: t in Missing(selected, defaultSvg) <==>
      t in selected && ChooseSource(t, defaultSvg) == NoSource
    decreases |selected|
  {
    if selected != [] {
      var n := |selected| - 1;
      var prefix := selected[..n];
      GuardIffEverySourceKnown(prefix, defaultSvg);
      assert selected == prefix + [selected[n]];
      forall i | 0 <= i < n ensures prefix[i] == selected[i] {
      }
    }
  }
}
