/** Adaptive icon layers and notification icons: which files a layer has,
    at which sizes, where they are found, and the bookkeeping of replacing
    them from a PNG or an SVG source with optional per-density overrides.
    The file system is a set of existing paths; loading, rendering and
    saving images are oracles supplied by the caller. */
module AdaptiveIcons {
  import opened Text
  import opened Paths
  import opened Constants

  datatype Layer = Foreground | Background | Notification

  /** The layer's name as the source spells it. */
  function LayerName(layer: Layer): string {
    match layer
    case Foreground => "foreground"
    case Background => "background"
    case Notification => "notification"
  }

  /** `get_layer_filename`: "ic_notification.png" for the notification
      icon, "ic_launcher_<layer>.png" for the two adaptive layers. */
  function LayerFilename(layer: Layer): (f: string)
    ensures layer == Notification <==> f == "ic_notification.png"
    ensures layer != Notification ==> f == "ic_launcher_" + LayerName(layer) + ".png"
  {
    if layer == Notification then "ic_notification.png"
    else "ic_launcher_" + LayerName(layer) + ".png"
  }

  /** The two adaptive layers' files are exactly `ANDROID_ADAPTIVE_ICONS`, in
      order; distinct layers have distinct files, all ending in ".png". */
  lemma LayerFilenamesMatchConstants()
    ensures [LayerFilename(Foreground), LayerFilename(Background)] == AndroidAdaptiveIcons
    ensures forall l1: Layer, l2: Layer :: l1 != l2 ==> LayerFilename(l1) != LayerFilename(l2)
    ensures forall l: Layer :: EndsWith(LayerFilename(l), ".png")
  {
    assert LayerFilename(Foreground) == "ic_launcher_foreground.png";
    assert LayerFilename(Background) == "ic_launcher_background.png";
    assert LayerFilename(Foreground)[12] == 'f' && LayerFilename(Background)[12] == 'b';
  }

  /** `get_layer_sizes`: the 48dp table for the notification icon, the
      108dp table for the adaptive layers. */
  function LayerSizes(layer: Layer): (t: SizeTable)
    ensures layer == Notification ==> t == MipmapSizes
    ensures layer != Notification ==> t == AdaptiveIconSizes
  {
    if layer == Notification then MipmapSizes else AdaptiveIconSizes
  }

  /** Whatever the layer, its table lists the five mipmap folders in the same
      order and grows strictly with density. */
  lemma LayerSizesShape(layer: Layer)
    ensures Keys(LayerSizes(layer)) == Keys(MipmapSizes)
    ensures |LayerSizes(layer)| == 5
    ensures Increasing(LayerSizes(layer))
  {
    SizeTablesIncreasing();
    if layer == Notification {
      assert LayerSizes(layer) == MipmapSizes;
    } else {
      AdaptiveSizesAre108dp();
      assert LayerSizes(layer) == AdaptiveIconSizes;
    }
  }

  /** Sizes grow strictly in declaration order. */
  predicate Increasing(table: SizeTable) {
    forall i, j :: 0 <= i < j < |table| ==> table[i].1 < table[j].1
  }

  /** `get_target_directories` */
  function TargetDirectories(root: Path): seq<Path> {
    [AndroidResDir(root), AssetsAndroidDir(root)]
  }

  // ----------------------------------------------------------------------
  // Target enumeration
  // ----------------------------------------------------------------------

  /** A file to write and its pixel size. */
  type Target = (Path, int)

  /** `base / mipmap_dir / filename` */
  function LayerFile(base: Path, folder: string, filename: string): Path {
    Descend(base, [folder, filename])
  }

  lemma ParentOfLayerFile(base: Path, folder: string, filename: string)
    ensures Parent(LayerFile(base, folder, filename)) == Child(base, folder)
    ensures Parent(Parent(LayerFile(base, folder, filename))) == base
    ensures Name(LayerFile(base, folder, filename)) == filename
  {
    var n := base.names + [folder, filename];
    assert n[..|n| - 1] == base.names + [folder];
    assert (base.names + [folder])[..|base.names|] == base.names;
  }

  /** The targets under one base directory: for each density in table
      order, the layer file, when its density folder exists. */
  function DensityTargets(base: Path, table: SizeTable, filename: string, existing: set<Path>): seq<Target>
    decreases |table|
  {
    if table == [] then []
    else
      var prev := DensityTargets(base, table[..|table| - 1], filename, existing);
      var entry := table[|table| - 1];
      var path := LayerFile(base, entry.0, filename);
      if Parent(path) in existing then prev + [(path, entry.1)] else prev
  }

  /** The targets under every base directory that exists, base by base. */
  function TargetsOf(dirs: seq<Path>, table: SizeTable, filename: string, existing: set<Path>): seq<Target>
    decreases |dirs|
  {
    if dirs == [] then []
    else
      var prev := TargetsOf(dirs[..|dirs| - 1], table, filename, existing);
      var base := dirs[|dirs| - 1];
      if base in existing then prev + DensityTargets(base, table, filename, existing) else prev
  }

  /** What `get_layer_targets` returns. */
  function LayerTargetsSpec(layer: Layer, root: Path, existing: set<Path>): seq<Target> {
    TargetsOf(TargetDirectories(root), LayerSizes(layer), LayerFilename(layer), existing)
  }

  /** `get_layer_targets`: for each target directory that exists, and each
      density of the layer's table whose folder exists, the layer file with
      the density's size. */
  method LayerTargets(layer: Layer, root: Path, existing: set<Path>) returns (targets: seq<Target>)
    ensures targets == LayerTargetsSpec(layer, root, existing)
  {
    var filename := LayerFilename(layer);
    var sizes := LayerSizes(layer);
    var dirs := TargetDirectories(root);
    targets := [];
    var i := 0;
    while i < |dirs|
      invariant 0 <= i <= |dirs|
      invariant targets == TargetsOf(dirs[..i], sizes, filename, existing)
    {
      var base := dirs[i];
      assert dirs[..i + 1][..i] == dirs[..i];
      if base !in existing {
        i := i + 1;
        continue;
      }
      var found := DensityLoop(base, sizes, filename, existing);
      targets := targets + found;
      i := i + 1;
    }
    assert dirs[..|dirs|] == dirs;
  }

  /** The inner loop of `get_layer_targets`: under one base directory, each
      density of the table in order, its layer file when the density folder
      exists. */
  method DensityLoop(base: Path, table: SizeTable, filename: string, existing: set<Path>)
    returns (found: seq<Target>)
    ensures found == DensityTargets(base, table, filename, existing)
  {
    found := [];
    var j := 0;
    while j < |table|
      invariant 0 <= j <= |table|
      invariant found == DensityTargets(base, table[..j], filename, existing)
    {
      assert table[..j + 1][..j] == table[..j];
      var targetPath := LayerFile(base, table[j].0, filename);
      if Parent(targetPath) in existing {
        found := found + [(targetPath, table[j].1)];
      }
      j := j + 1;
    }
    assert table[..|table|] == table;
  }

  /** A target under one base is that base's layer file for some density of
      the table whose folder exists, with that density's size, and every
      such file is a target. */
  lemma {:induction false} DensityTargetsMembership(base: Path, table: SizeTable, filename: string, existing: set<Path>, t: Target)
    ensures t in DensityTargets(base, table, filename, existing) <==>
      exists j :: 0 <= j < |table| && Child(base, table[j].0) in existing &&
                  t == (LayerFile(base, table[j].0, filename), table[j].1)
    decreases |table|
  {
    if table != [] {
      var n := |table| - 1;
      var front := table[..n];
      DensityTargetsMembership(base, front, filename, existing, t);
      ParentOfLayerFile(base, table[n].0, filename);
      if t in DensityTargets(base, table, filename, existing) {
        if t !in DensityTargets(base, front, filename, existing) {
          assert Child(base, table[n].0) in existing && t == (LayerFile(base, table[n].0, filename), table[n].1);
        } else {
          var j :| 0 <= j < |front| && Child(base, front[j].0) in existing &&
                   t == (LayerFile(base, front[j].0, filename), front[j].1);
          assert table[j] == front[j];
        }
      }
      if exists j :: 0 <= j < |table| && Child(base, table[j].0) in existing &&
                     t == (LayerFile(base, table[j].0, filename), table[j].1) {
        var j :| 0 <= j < |table| && Child(base, table[j].0) in existing &&
                 t == (LayerFile(base, table[j].0, filename), table[j].1);
        if j < n {
          assert front[j] == table[j];
        }
      }
    }
  }

  /** `get_layer_targets` includes exactly the layer files of existing
      density folders under existing target directories, each with its
      density's size, and nothing else. */
  lemma {:induction false} TargetsMembership(dirs: seq<Path>, table: SizeTable, filename: string, existing: set<Path>, t: Target)
    ensures t in TargetsOf(dirs, table, filename, existing) <==>
      exists i, j :: 0 <= i < |dirs| && 0 <= j < |table| &&
        dirs[i] in existing && Child(dirs[i], table[j].0) in existing &&
        t == (LayerFile(dirs[i], table[j].0, filename), table[j].1)
    decreases |dirs|
  {
    if dirs != [] {
      var n := |dirs| - 1;
      var front := dirs[..n];
      TargetsMembership(front, table, filename, existing, t);
      DensityTargetsMembership(dirs[n], table, filename, existing, t);
      if t in TargetsOf(dirs, table, filename, existing) {
        if t !in TargetsOf(front, table, filename, existing) {
          var j :| 0 <= j < |table| && Child(dirs[n], table[j].0) in existing &&
                   t == (LayerFile(dirs[n], table[j].0, filename), table[j].1);
          assert dirs[n] in existing;
        } else {
          var i, j :| 0 <= i < |front| && 0 <= j < |table| &&
            front[i] in existing && Child(front[i], table[j].0) in existing &&
            t == (LayerFile(front[i], table[j].0, filename), table[j].1);
          assert dirs[i] == front[i];
        }
      }
      if exists i, j :: 0 <= i < |dirs| && 0 <= j < |table| &&
           dirs[i] in existing && Child(dirs[i], table[j].0) in existing &&
           t == (LayerFile(dirs[i], table[j].0, filename), table[j].1) {
        var i, j :| 0 <= i < |dirs| && 0 <= j < |table| &&
          dirs[i] in existing && Child(dirs[i], table[j].0) in existing &&
          t == (LayerFile(dirs[i], table[j].0, filename), table[j].1);
        if i < n {
          assert front[i] == dirs[i];
        }
      }
    }
  }

  /** Every target lies two levels below `base`, and sizes grow strictly. */
  predicate InOrderUnder(ts: seq<Target>, base: Path) {
    (forall a :: 0 <= a < |ts| ==> Parent(Parent(ts[a].0)) == base) &&
    (forall a, b :: 0 <= a < b < |ts| ==> ts[a].1 < ts[b].1)
  }

  /** Under one base, the targets follow the table: with a strictly growing
      table their sizes grow strictly, and each lies two levels below the
      base and carries the layer's file name. */
  lemma {:induction false} DensityTargetsOrdered(base: Path, table: SizeTable, filename: string, existing: set<Path>)
    requires Increasing(table)
    ensures InOrderUnder(DensityTargets(base, table, filename, existing), base)
    ensures forall t :: t in DensityTargets(base, table, filename, existing) ==> Name(t.0) == filename
    decreases |table|
  {
    if table != [] {
      var n := |table| - 1;
      var front := table[..n];
      assert Increasing(front);
      DensityTargetsOrdered(base, front, filename, existing);
      ParentOfLayerFile(base, table[n].0, filename);
      var prev := DensityTargets(base, front, filename, existing);
      forall a | 0 <= a < |prev| ensures prev[a].1 < table[n].1 {
        DensityTargetsMembership(base, front, filename, existing, prev[a]);
        var j :| 0 <= j < |front| && Child(base, front[j].0) in existing &&
                 prev[a] == (LayerFile(base, front[j].0, filename), front[j].1);
        assert front[j] == table[j];
      }
    }
  }

  /** The targets a layer has under one base directory. */
  function BaseTargets(layer: Layer, base: Path, existing: set<Path>): seq<Target> {
    if base in existing then DensityTargets(base, LayerSizes(layer), LayerFilename(layer), existing) else []
  }

  lemma TargetsOfTwo(d0: Path, d1: Path, table: SizeTable, filename: string, existing: set<Path>)
    ensures TargetsOf([d0, d1], table, filename, existing) ==
      (if d0 in existing then DensityTargets(d0, table, filename, existing) else []) +
      (if d1 in existing then DensityTargets(d1, table, filename, existing) else [])
  {
    var ds := [d0, d1];
    assert ds[..1] == [d0];
    assert [d0][..0] == [];
    assert TargetsOf([], table, filename, existing) == [];
    assert TargetsOf([d0], table, filename, existing) ==
      (if d0 in existing then DensityTargets(d0, table, filename, existing) else []);
    assert TargetsOf(ds, table, filename, existing) ==
      TargetsOf(ds[..1], table, filename, existing) +
      (if d1 in existing then DensityTargets(d1, table, filename, existing) else []);
  }

  /** `get_layer_targets` lists the targets under the Android resource
      directory first, then those under the assets directory; within each,
      densities come in table order, so sizes grow strictly. */
  lemma LayerTargetsOrder(layer: Layer, root: Path, existing: set<Path>)
    ensures var ts := LayerTargetsSpec(layer, root, existing);
      var k := |BaseTargets(layer, AndroidResDir(root), existing)|;
      k <= |ts| && InOrderUnder(ts[..k], AndroidResDir(root)) && InOrderUnder(ts[k..], AssetsAndroidDir(root))
  {
    var table, filename := LayerSizes(layer), LayerFilename(layer);
    LayerSizesShape(layer);
    var part0 := BaseTargets(layer, AndroidResDir(root), existing);
    var part1 := BaseTargets(layer, AssetsAndroidDir(root), existing);
    TargetsOfTwo(AndroidResDir(root), AssetsAndroidDir(root), table, filename, existing);
    DensityTargetsOrdered(AndroidResDir(root), table, filename, existing);
    DensityTargetsOrdered(AssetsAndroidDir(root), table, filename, existing);
    var ts := part0 + part1;
    assert ts[..|part0|] == part0 && ts[|part0|..] == part1;
  }

  // ----------------------------------------------------------------------
  // Preview lookup
  // ----------------------------------------------------------------------

  /** The density folders in order of preference, highest density first. */
  const DensityOrder: seq<string> := ["mipmap-xxxhdpi", "mipmap-xxhdpi", "mipmap-xhdpi", "mipmap-hdpi", "mipmap-mdpi"]

  /** The preference order is the density table read backwards. */
  lemma DensityOrderIsReversedTable()
    ensures |DensityOrder| == |MipmapSizes|
    ensures forall i :: 0 <= i < |DensityOrder| ==> DensityOrder[i] == MipmapSizes[|MipmapSizes| - 1 - i].0
  {
  }

  /** The files the preview lookup tries under one base directory, in order. */
  function PreviewRow(base: Path, filename: string): (row: seq<Path>)
    ensures |row| == |DensityOrder|
    ensures forall j :: 0 <= j < |row| ==> row[j] == LayerFile(base, DensityOrder[j], filename)
  {
    seq(|DensityOrder|, j requires 0 <= j < |DensityOrder| => LayerFile(base, DensityOrder[j], filename))
  }

  /** Every file the preview lookup tries, base by base (skipping base
      directories that do not exist). */
  function PreviewCandidates(dirs: seq<Path>, filename: string, existing: set<Path>): seq<Path>
    decreases |dirs|
  {
    if dirs == [] then []
    else
      var prev := PreviewCandidates(dirs[..|dirs| - 1], filename, existing);
      var base := dirs[|dirs| - 1];
      if base in existing then prev + PreviewRow(base, filename) else prev
  }

  /** The first path of the list that exists. */
  function FirstExisting(ps: seq<Path>, existing: set<Path>): (r: Option<Path>)
    ensures r.None? <==> forall k :: 0 <= k < |ps| ==> ps[k] !in existing
  {
    if ps == [] then None
    else if ps[0] in existing then Some(ps[0])
    else FirstExisting(ps[1..], existing)
  }

  /** A path found is in the list, exists, and only paths that do not exist
      come before it. */
  lemma {:induction false} FirstExistingIsFirst(ps: seq<Path>, existing: set<Path>)
    ensures var r := FirstExisting(ps, existing);
      r.Some? ==> exists k :: 0 <= k < |ps| && ps[k] == r.value && r.value in existing &&
                              forall k' :: 0 <= k' < k ==> ps[k'] !in existing
  {
    if ps != [] && ps[0] !in existing {
      var r := FirstExisting(ps[1..], existing);
      FirstExistingIsFirst(ps[1..], existing);
      if r.Some? {
        var k :| 0 <= k < |ps[1..]| && ps[1..][k] == r.value && r.value in existing &&
                 forall k' :: 0 <= k' < k ==> ps[1..][k'] !in existing;
        forall k' | 0 <= k' < k + 1
          ensures ps[k'] !in existing
        {
          if k' > 0 { assert ps[k'] == ps[1..][k' - 1]; }
        }
        assert ps[k + 1] == r.value;
      }
    }
  }

  /** A path that exists and is preceded only by paths that do not is the
      first existing one. */
  lemma {:induction false} FirstExistingAt(ps: seq<Path>, existing: set<Path>, k: int)
    requires 0 <= k < |ps| && ps[k] in existing
    requires forall k' :: 0 <= k' < k ==> ps[k'] !in existing
    ensures FirstExisting(ps, existing) == Some(ps[k])
    decreases k
  {
    if k > 0 {
      FirstExistingAt(ps[1..], existing, k - 1);
    }
  }

  /** Candidates of a prefix of the base directories come first. */
  lemma {:induction false} PreviewCandidatesPrefix(dirs: seq<Path>, m: int, filename: string, existing: set<Path>)
    requires 0 <= m <= |dirs|
    ensures PreviewCandidates(dirs[..m], filename, existing) <= PreviewCandidates(dirs, filename, existing)
    decreases |dirs| - m
  {
    if m < |dirs| {
      PreviewCandidatesPrefix(dirs, m + 1, filename, existing);
      assert dirs[..m + 1][..m] == dirs[..m];
    } else {
      assert dirs[..m] == dirs;
    }
  }

  /** What `get_layer_preview` returns. */
  function LayerPreviewSpec(layer: Layer, root: Path, existing: set<Path>): Option<Path> {
    FirstExisting(PreviewCandidates(TargetDirectories(root), LayerFilename(layer), existing), existing)
  }

  /** `get_layer_preview`: the first existing layer file, trying the target
      directories in order and, under each existing one, the densities from
      the highest down; None when there is none. */
  method LayerPreview(layer: Layer, root: Path, existing: set<Path>) returns (r: Option<Path>)
    ensures r == LayerPreviewSpec(layer, root, existing)
  {
    var filename := LayerFilename(layer);
    var dirs := TargetDirectories(root);
    var i := 0;
    while i < |dirs|
      invariant 0 <= i <= |dirs|
      invariant forall p :: p in PreviewCandidates(dirs[..i], filename, existing) ==> p !in existing
    {
      var base := dirs[i];
      assert dirs[..i + 1][..i] == dirs[..i];
      if base !in existing {
        i := i + 1;
        continue;
      }
      var found := PreviewInRow(base, filename, existing);
      if found.Some? {
        PreviewFoundInRow(dirs, i, filename, existing);
        return found;
      }
      i := i + 1;
    }
    assert dirs[..|dirs|] == dirs;
    r := None;
  }

  /** The inner loop of `get_layer_preview`: under one base directory, the
      first existing layer file, densities from the highest down. */
  method PreviewInRow(base: Path, filename: string, existing: set<Path>) returns (r: Option<Path>)
    ensures r == FirstExisting(PreviewRow(base, filename), existing)
  {
    var j := 0;
    while j < |DensityOrder|
      invariant 0 <= j <= |DensityOrder|
      invariant forall k :: 0 <= k < j ==> PreviewRow(base, filename)[k] !in existing
    {
      var path := LayerFile(base, DensityOrder[j], filename);
      if path in existing {
        FirstExistingAt(PreviewRow(base, filename), existing, j);
        return Some(path);
      }
      j := j + 1;
    }
    return None;
  }

  /** When no file under the earlier base directories exists, the first
      existing file of the lookup is the first one under `dirs[i]`. */
  lemma PreviewFoundInRow(dirs: seq<Path>, i: int, filename: string, existing: set<Path>)
    requires 0 <= i < |dirs| && dirs[i] in existing
    requires forall p :: p in PreviewCandidates(dirs[..i], filename, existing) ==> p !in existing
    requires FirstExisting(PreviewRow(dirs[i], filename), existing).Some?
    ensures FirstExisting(PreviewCandidates(dirs, filename, existing), existing) ==
            FirstExisting(PreviewRow(dirs[i], filename), existing)
  {
    var row := PreviewRow(dirs[i], filename);
    FirstExistingIsFirst(row, existing);
    var j :| 0 <= j < |row| && row[j] == FirstExisting(row, existing).value && row[j] in existing &&
             forall k' :: 0 <= k' < j ==> row[k'] !in existing;
    var before := PreviewCandidates(dirs[..i], filename, existing);
    var all := PreviewCandidates(dirs, filename, existing);
    PreviewCandidatesPrefix(dirs, i + 1, filename, existing);
    assert dirs[..i + 1][..i] == dirs[..i];
    assert before + row <= all;
    assert all[|before| + j] == row[j];
    forall k' | 0 <= k' < |before| + j ensures all[k'] !in existing {
      if k' < |before| {
        assert all[k'] == before[k'];
      } else {
        assert all[k'] == row[k' - |before|];
      }
    }
    FirstExistingAt(all, existing, |before| + j);
  }

  // ----------------------------------------------------------------------
  // Layer replacement
  // ----------------------------------------------------------------------

  /** The messages the replacement functions report; the text of each is a
      fixed phrase followed by the data carried here. */
  datatype Message =
    | SourceLoadFailed(path: Path)            // "Failed to load source image: <path>"
    | NoTargetDirectories                     // "No target directories found"
    | SaveFailed(path: Path)                  // "Failed to save: <path>"
    | SaveRaised(path: Path, reason: string)  // "<path>: <exception>"
    | InvalidSvg(path: Path)                  // "Invalid SVG file: <path>"
    | SvgLoadFailed(reason: string)           // "Failed to load SVG: <exception>"
    | SvgRenderFailedAt(size: int)            // "Failed to render SVG at <size>x<size>"
    | OverrideRenderFailed(density: string)   // "Failed to render override SVG for <density>"
    | OverrideLoadFailed(density: string, path: Path)  // "Failed to load override for <density>: <path>"
    | SvgRenderFailed(density: string)        // "Failed to render SVG for <density>"
    | NamedSaveFailed(name: string)           // "Failed to save: <name>"
    | NamedSaveRaised(name: string, reason: string)  // "<name>: <exception>"

  /** Where the pixels of a written file come from: a raster file scaled to
      the target size, or an SVG file rendered at the target size. */
  datatype ImageSource = Raster(path: Path) | Vector(path: Path)

  /** A file written: its path, its pixel size and its source. */
  datatype Write = Write(path: Path, size: int, source: ImageSource)

  /** What creating the folder and saving one file comes to: saved, `save`
      returned false, or an exception was raised. */
  datatype SaveResult = Saved | NotSaved | Raised(reason: string)

  /** Reading and validating an SVG file: valid, read but invalid, or an
      exception was raised while reading. */
  datatype SvgCheck = SvgValid | SvgInvalid | SvgError(reason: string)

  /** The outcome for one target: one file written or one message. */
  datatype Step = Wrote(w: Write) | Failed(m: Message)

  /** The files written by a run of steps, in order. */
  function Writes(steps: seq<Step>): seq<Write> {
    if steps == [] then []
    else Writes(steps[..|steps| - 1]) + (match steps[|steps| - 1] case Wrote(w) => [w] case Failed(_) => [])
  }

  /** The messages of a run of steps, in order. */
  function Errors(steps: seq<Step>): seq<Message> {
    if steps == [] then []
    else Errors(steps[..|steps| - 1]) + (match steps[|steps| - 1] case Wrote(_) => [] case Failed(m) => [m])
  }

  /** Every step is one write or one message, never both, never neither. */
  lemma {:induction false} StepsAccounted(steps: seq<Step>)
    ensures |Writes(steps)| + |Errors(steps)| == |steps|
    decreases |steps|
  {
    if steps != [] {
      StepsAccounted(steps[..|steps| - 1]);
    }
  }

  /** Every write of a run is the write of one of its steps. */
  lemma {:induction false} WritesFromSteps(steps: seq<Step>, w: Write)
    requires w in Writes(steps)
    ensures exists k :: 0 <= k < |steps| && steps[k] == Wrote(w)
    decreases |steps|
  {
    var n := |steps| - 1;
    if w in Writes(steps[..n]) {
      WritesFromSteps(steps[..n], w);
      var k :| 0 <= k < n && steps[..n][k] == Wrote(w);
      assert steps[k] == Wrote(w);
    } else {
      assert steps[n] == Wrote(w);
    }
  }

  /** Saving `image` to a target. */
  function SaveStep(target: Target, image: ImageSource, save: Path -> SaveResult): (s: Step)
    ensures s.Wrote? <==> save(target.0) == Saved
    ensures s.Wrote? ==> s.w == Write(target.0, target.1, image)
    ensures save(target.0) == NotSaved ==> s == Failed(SaveFailed(target.0))
    ensures save(target.0).Raised? ==> s == Failed(SaveRaised(target.0, save(target.0).reason))
  {
    match save(target.0)
    case Saved => Wrote(Write(target.0, target.1, image))
    case NotSaved => Failed(SaveFailed(target.0))
    case Raised(reason) => Failed(SaveRaised(target.0, reason))
  }

  /** The result of a replacement: the success count, the messages, and the
      files written. */
  datatype Replacement = Replacement(success: int, errors: seq<Message>, written: seq<Write>)

  /** Each target is accounted for exactly once: the successes are the
      files written, and successes plus messages equal the targets. */
  predicate Accounted(r: Replacement, targets: seq<Target>) {
    r.success == |r.written| && r.success + |r.errors| == |targets|
  }

  /** A run that writes nothing and reports one message. */
  predicate Rejected(r: Replacement, m: Message) {
    r == Replacement(0, [m], [])
  }

  /** Applies `step` to every target in order, counting successes and
      collecting messages, as the loops of the three replacement functions
      do. */
  method RunSteps(targets: seq<Target>, steps: seq<Step>) returns (r: Replacement)
    requires |steps| == |targets|
    ensures r == Replacement(|Writes(steps)|, Errors(steps), Writes(steps))
    ensures Accounted(r, targets)
  {
    var success := 0;
    var errors: seq<Message> := [];
    var written: seq<Write> := [];
    var i := 0;
    while i < |targets|
      invariant 0 <= i <= |targets|
      invariant written == Writes(steps[..i]) && errors == Errors(steps[..i]) && success == |written|
    {
      assert steps[..i + 1][..i] == steps[..i];
      match steps[i] {
        case Wrote(w) =>
          success := success + 1;
          written := written + [w];
        case Failed(m) =>
          errors := errors + [m];
      }
      i := i + 1;
    }
    assert steps[..|steps|] == steps;
    StepsAccounted(steps);
    r := Replacement(success, errors, written);
  }

  /** The steps of `replace_layer`: the loaded source, scaled to each size. */
  function RasterSteps(targets: seq<Target>, sourcePath: Path, save: Path -> SaveResult): (steps: seq<Step>)
    ensures |steps| == |targets|
    ensures forall k :: 0 <= k < |targets| ==> steps[k] == SaveStep(targets[k], Raster(sourcePath), save)
  {
    seq(|targets|, k requires 0 <= k < |targets| => SaveStep(targets[k], Raster(sourcePath), save))
  }

  /** `replace_layer`: a source that does not load, or no targets, end the
      run before anything is written; otherwise every target gets the
      source scaled to its size, and is counted once, as a success or a
      message. */
  method ReplaceLayer(sourcePath: Path, layer: Layer, root: Path, existing: set<Path>,
                      loads: Path -> bool, save: Path -> SaveResult) returns (r: Replacement)
    ensures !loads(sourcePath) ==> Rejected(r, SourceLoadFailed(sourcePath))
    ensures loads(sourcePath) && LayerTargetsSpec(layer, root, existing) == [] ==> Rejected(r, NoTargetDirectories)
    ensures loads(sourcePath) && LayerTargetsSpec(layer, root, existing) != [] ==>
      var targets := LayerTargetsSpec(layer, root, existing);
      var steps := RasterSteps(targets, sourcePath, save);
      Accounted(r, targets) && r.written == Writes(steps) && r.errors == Errors(steps)
  {
    if !loads(sourcePath) {
      return Replacement(0, [SourceLoadFailed(sourcePath)], []);
    }
    var targets := LayerTargets(layer, root, existing);
    if |targets| == 0 {
      return Replacement(0, [NoTargetDirectories], []);
    }
    r := RunSteps(targets, RasterSteps(targets, sourcePath, save));
  }

  /** One target of `replace_layer_from_svg`: render the SVG at the size,
      then save. */
  function SvgStep(target: Target, svgPath: Path, renders: (Path, int) -> bool, save: Path -> SaveResult): Step {
    if !renders(svgPath, target.1) then Failed(SvgRenderFailedAt(target.1))
    else SaveStep(target, Vector(svgPath), save)
  }

  function SvgSteps(targets: seq<Target>, svgPath: Path, renders: (Path, int) -> bool, save: Path -> SaveResult): (steps: seq<Step>)
    ensures |steps| == |targets|
    ensures forall k :: 0 <= k < |targets| ==> steps[k] == SvgStep(targets[k], svgPath, renders, save)
  {
    seq(|targets|, k requires 0 <= k < |targets| => SvgStep(targets[k], svgPath, renders, save))
  }

  /** `replace_layer_from_svg`: an SVG that cannot be read or is invalid, or
      no targets, end the run before anything is written; otherwise each
      target is rendered at its size and saved, and counted once. */
  method ReplaceLayerFromSvg(svgPath: Path, layer: Layer, root: Path, existing: set<Path>,
                             check: Path -> SvgCheck, renders: (Path, int) -> bool,
                             save: Path -> SaveResult) returns (r: Replacement)
    ensures check(svgPath) == SvgInvalid ==> Rejected(r, InvalidSvg(svgPath))
    ensures check(svgPath).SvgError? ==> Rejected(r, SvgLoadFailed(check(svgPath).reason))
    ensures check(svgPath) == SvgValid && LayerTargetsSpec(layer, root, existing) == [] ==> Rejected(r, NoTargetDirectories)
    ensures check(svgPath) == SvgValid && LayerTargetsSpec(layer, root, existing) != [] ==>
      var targets := LayerTargetsSpec(layer, root, existing);
      var steps := SvgSteps(targets, svgPath, renders, save);
      Accounted(r, targets) && r.written == Writes(steps) && r.errors == Errors(steps)
  {
    match check(svgPath)
    case SvgInvalid =>
      return Replacement(0, [InvalidSvg(svgPath)], []);
    case SvgError(reason) =>
      return Replacement(0, [SvgLoadFailed(reason)], []);
    case SvgValid =>
    var targets := LayerTargets(layer, root, existing);
    if |targets| == 0 {
      return Replacement(0, [NoTargetDirectories], []);
    }
    r := RunSteps(targets, SvgSteps(targets, svgPath, renders, save));
  }

  /** `overrides.get(density)` for an optional override table. */
  function OverrideFor(overrides: map<string, Path>, density: string): Option<Path> {
    if density in overrides then Some(overrides[density]) else None
  }

  /** The source of one density in `replace_layer_with_overrides`, or the
      message when it cannot be produced: an existing override first (an
      SVG rendered, anything else loaded as a raster), then the default SVG,
      then the default raster. */
  function SourceFor(target: Target, sourcePath: Path, isSvg: bool, overrides: map<string, Path>,
                     existing: set<Path>, loads: Path -> bool, renders: (Path, int) -> bool): Result<ImageSource, Message>
  {
    var density := Name(Parent(target.0));
    var ov := OverrideFor(overrides, density);
    if ov.Some? && ov.value in existing then
      if LowerEquals(Suffix(Name(ov.value)), ".svg") then
        if renders(ov.value, target.1) then Ok(Vector(ov.value)) else Err(OverrideRenderFailed(density))
      else
        if loads(ov.value) then Ok(Raster(ov.value)) else Err(OverrideLoadFailed(density, ov.value))
    else if isSvg then
      if renders(sourcePath, target.1) then Ok(Vector(sourcePath)) else Err(SvgRenderFailed(density))
    else
      Ok(Raster(sourcePath))
  }

  datatype Result<T, E> = Ok(value: T) | Err(error: E)

  /** Source priority: with an existing override for the density, the
      pixels come from the override and never from the default source;
      without one, they come from the default source, as an SVG exactly
      when the default is an SVG, and a raster default never fails. */
  lemma SourcePriority(target: Target, sourcePath: Path, isSvg: bool, overrides: map<string, Path>,
                       existing: set<Path>, loads: Path -> bool, renders: (Path, int) -> bool)
    ensures var density := Name(Parent(target.0));
      var s := SourceFor(target, sourcePath, isSvg, overrides, existing, loads, renders);
      (density in overrides && overrides[density] in existing ==>
         (s.Ok? ==> s.value.path == overrides[density]) &&
         (s.Ok? <==> if LowerEquals(Suffix(Name(overrides[density])), ".svg")
                     then renders(overrides[density], target.1) else loads(overrides[density]))) &&
      (!(density in overrides && overrides[density] in existing) ==>
         (s.Ok? ==> s.value.path == sourcePath && (s.value.Vector? <==> isSvg)) &&
         (!isSvg ==> s == Ok(Raster(sourcePath))) &&
         (isSvg ==> (s.Ok? <==> renders(sourcePath, target.1))))
  {
  }

  /** One target of `replace_layer_with_overrides`. */
  function OverrideStep(target: Target, sourcePath: Path, isSvg: bool, overrides: map<string, Path>,
                        existing: set<Path>, loads: Path -> bool, renders: (Path, int) -> bool,
                        save: Path -> SaveResult): Step
  {
    match SourceFor(target, sourcePath, isSvg, overrides, existing, loads, renders)
    case Ok(image) => SaveStep(target, image, save)
    case Err(m) => Failed(m)
  }

  function OverrideSteps(targets: seq<Target>, sourcePath: Path, isSvg: bool, overrides: map<string, Path>,
                         existing: set<Path>, loads: Path -> bool, renders: (Path, int) -> bool,
                         save: Path -> SaveResult): (steps: seq<Step>)
    ensures |steps| == |targets|
    ensures forall k :: 0 <= k < |targets| ==>
      steps[k] == OverrideStep(targets[k], sourcePath, isSvg, overrides, existing, loads, renders, save)
  {
    seq(|targets|, k requires 0 <= k < |targets| =>
      OverrideStep(targets[k], sourcePath, isSvg, overrides, existing, loads, renders, save))
  }

  /** `replace_layer_with_overrides`: no targets ends the run first, then a
      raster default that does not load; an SVG default is only rendered per
      target.  Every target is then counted once, and every file written is
      a target, at its size, from the source the priority rule picks. */
  method ReplaceLayerWithOverrides(sourcePath: Path, layer: Layer, overrides: Option<map<string, Path>>, isSvg: bool,
                                   root: Path, existing: set<Path>, loads: Path -> bool,
                                   renders: (Path, int) -> bool, save: Path -> SaveResult) returns (r: Replacement)
    ensures LayerTargetsSpec(layer, root, existing) == [] ==> Rejected(r, NoTargetDirectories)
    ensures LayerTargetsSpec(layer, root, existing) != [] && !isSvg && !loads(sourcePath) ==>
      Rejected(r, SourceLoadFailed(sourcePath))
    ensures LayerTargetsSpec(layer, root, existing) != [] && (isSvg || loads(sourcePath)) ==>
      var targets := LayerTargetsSpec(layer, root, existing);
      var table := if overrides.Some? then overrides.value else map[];
      var steps := OverrideSteps(targets, sourcePath, isSvg, table, existing, loads, renders, save);
      Accounted(r, targets) && r.written == Writes(steps) && r.errors == Errors(steps) &&
      forall w :: w in r.written ==>
        (exists k :: 0 <= k < |targets| && w.path == targets[k].0 && w.size == targets[k].1 &&
                     SourceFor(targets[k], sourcePath, isSvg, table, existing, loads, renders) == Ok(w.source))
  {
    var table := if overrides.Some? then overrides.value else map[];
    var targets := LayerTargets(layer, root, existing);
    if |targets| == 0 {
      return Replacement(0, [NoTargetDirectories], []);
    }
    if !isSvg && !loads(sourcePath) {
      return Replacement(0, [SourceLoadFailed(sourcePath)], []);
    }
    var steps := OverrideSteps(targets, sourcePath, isSvg, table, existing, loads, renders, save);
    r := RunSteps(targets, steps);
    forall w | w in r.written
      ensures exists k :: 0 <= k < |targets| && w.path == targets[k].0 && w.size == targets[k].1 &&
                          SourceFor(targets[k], sourcePath, isSvg, table, existing, loads, renders) == Ok(w.source)
    {
      OverrideWriteFollowsSource(targets, sourcePath, isSvg, table, existing, loads, renders, save, w);
    }
  }

  /** A file written by the override loop is one of the targets, at its
      size, drawn from the source the priority rule picks for it. */
  lemma OverrideWriteFollowsSource(targets: seq<Target>, sourcePath: Path, isSvg: bool, table: map<string, Path>,
                                   existing: set<Path>, loads: Path -> bool, renders: (Path, int) -> bool,
                                   save: Path -> SaveResult, w: Write)
    requires w in Writes(OverrideSteps(targets, sourcePath, isSvg, table, existing, loads, renders, save))
    ensures exists k :: 0 <= k < |targets| && w.path == targets[k].0 && w.size == targets[k].1 &&
                        SourceFor(targets[k], sourcePath, isSvg, table, existing, loads, renders) == Ok(w.source)
  {
    var steps := OverrideSteps(targets, sourcePath, isSvg, table, existing, loads, renders, save);
    WritesFromSteps(steps, w);
    var k :| 0 <= k < |steps| && steps[k] == Wrote(w);
    assert SourceFor(targets[k], sourcePath, isSvg, table, existing, loads, renders) == Ok(w.source);
  }
}
