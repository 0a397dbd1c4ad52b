/** The icon table of the main window: the targets found in the project, one
    checkbox per row, scanning, selection, overrides, and the generation and
    export runs over the checked rows.  Row `i` of the table shows
    `targets[i]`. */
module MainWindow {
  import opened Text
  import opened Paths
  import opened Models
  import opened Constants
  import opened AdaptiveIcons
  import opened WindowRules

  /** The target `_add_icon` creates: square, with the bounds measured from
      the file on disk (None when it does not load) and no override. */
  function NewTarget(path: Path, name: string, size: int, category: string, bounds: Option<IconBounds>): IconTarget {
    IconTarget(name, size, size, path, category, bounds, None)
  }

  lemma AllCheckedAppend(a: nat, b: nat)
    ensures AllChecked(a) + AllChecked(b) == AllChecked(a + b)
  {
  }

  /** `n` rows with their checkbox set. */
  function AllChecked(n: nat): (cs: seq<bool>)
    ensures |cs| == n && forall i :: 0 <= i < n ==> cs[i]
  {
    seq(n, _ => true)
  }

  // ----------------------------------------------------------------------
  // Android scan
  // ----------------------------------------------------------------------

  /** The size given to `file` found in the `j`-th mipmap folder.  As
      written, every file gets the 48dp size of `MIPMAP_SIZES`; sized by
      layer (`layerSized`), the two adaptive layer files get the 108dp size
      of `ADAPTIVE_ICON_SIZES` that the adaptive-layer code writes them at. */
  function ScanSize(j: int, file: string, layerSized: bool): int
    requires 0 <= j < |MipmapSizes|
  {
    if layerSized && file in AndroidAdaptiveIcons then AdaptiveIconSizes[j].1 else MipmapSizes[j].1
  }

  /** The targets found in the `j`-th mipmap folder: each listed file that
      exists, in list order. */
  function FolderScan(base: Path, j: int, files: seq<string>, category: string, existing: set<Path>,
                      boundsOf: Path -> Option<IconBounds>, layerSized: bool): seq<IconTarget>
    requires 0 <= j < |MipmapSizes|
    decreases |files|
  {
    if files == [] then []
    else
      var prev := FolderScan(base, j, files[..|files| - 1], category, existing, boundsOf, layerSized);
      var file := files[|files| - 1];
      var path := LayerFile(base, MipmapSizes[j].0, file);
      if path in existing then prev + [NewTarget(path, file, ScanSize(j, file, layerSized), category, boundsOf(path))]
      else prev
  }

  /** The targets found in the first `n` mipmap folders that exist. */
  function AndroidScan(base: Path, n: nat, files: seq<string>, category: string, existing: set<Path>,
                       boundsOf: Path -> Option<IconBounds>, layerSized: bool): seq<IconTarget>
    requires n <= |MipmapSizes|
  {
    if n == 0 then []
    else
      AndroidScan(base, n - 1, files, category, existing, boundsOf, layerSized) +
      (if Child(base, MipmapSizes[n - 1].0) in existing
       then FolderScan(base, n - 1, files, category, existing, boundsOf, layerSized)
       else [])
  }

  /** `t` is what the scan adds for `file` in the `j`-th mipmap folder. */
  predicate ScanEntry(t: IconTarget, base: Path, j: int, file: string, category: string, existing: set<Path>,
                      boundsOf: Path -> Option<IconBounds>, layerSized: bool)
  {
    0 <= j < |MipmapSizes| &&
    Child(base, MipmapSizes[j].0) in existing &&
    LayerFile(base, MipmapSizes[j].0, file) in existing &&
    t == NewTarget(LayerFile(base, MipmapSizes[j].0, file), file, ScanSize(j, file, layerSized), category,
                   boundsOf(LayerFile(base, MipmapSizes[j].0, file)))
  }

  lemma {:induction false} FolderScanMembership(base: Path, j: int, files: seq<string>, category: string, existing: set<Path>,
                                                boundsOf: Path -> Option<IconBounds>, layerSized: bool, t: IconTarget)
    requires 0 <= j < |MipmapSizes| && Child(base, MipmapSizes[j].0) in existing
    ensures t in FolderScan(base, j, files, category, existing, boundsOf, layerSized) <==>
      exists k :: 0 <= k < |files| && ScanEntry(t, base, j, files[k], category, existing, boundsOf, layerSized)
    decreases |files|
  {
    if files != [] {
      var n := |files| - 1;
      FolderScanMembership(base, j, files[..n], category, existing, boundsOf, layerSized, t);
      if exists k :: 0 <= k < |files| && ScanEntry(t, base, j, files[k], category, existing, boundsOf, layerSized) {
        var k :| 0 <= k < |files| && ScanEntry(t, base, j, files[k], category, existing, boundsOf, layerSized);
        if k < n {
          assert files[..n][k] == files[k];
        }
      }
      if t in FolderScan(base, j, files[..n], category, existing, boundsOf, layerSized) {
        var k :| 0 <= k < n && ScanEntry(t, base, j, files[..n][k], category, existing, boundsOf, layerSized);
        assert files[..n][k] == files[k];
      }
    }
  }

  /** The scan adds exactly the listed files that exist in an existing mipmap
      folder, each with its folder's size. */
  lemma {:induction false} AndroidScanMembership(base: Path, n: nat, files: seq<string>, category: string, existing: set<Path>,
                                                 boundsOf: Path -> Option<IconBounds>, layerSized: bool, t: IconTarget)
    requires n <= |MipmapSizes|
    ensures t in AndroidScan(base, n, files, category, existing, boundsOf, layerSized) <==>
      exists j, k :: 0 <= j < n && 0 <= k < |files| && ScanEntry(t, base, j, files[k], category, existing, boundsOf, layerSized)
  {
    if n > 0 {
      AndroidScanMembership(base, n - 1, files, category, existing, boundsOf, layerSized, t);
      if Child(base, MipmapSizes[n - 1].0) in existing {
        FolderScanMembership(base, n - 1, files, category, existing, boundsOf, layerSized, t);
      } else {
        forall k | 0 <= k < |files|
          ensures !ScanEntry(t, base, n - 1, files[k], category, existing, boundsOf, layerSized)
        {
        }
      }
    }
  }

  /** As written, every target of a folder gets that folder's mipmap size. */
  lemma {:induction false} AsWrittenFolderSizes(base: Path, j: int, files: seq<string>, category: string,
                                                existing: set<Path>, boundsOf: Path -> Option<IconBounds>)
    requires 0 <= j < |MipmapSizes|
    ensures forall t :: t in FolderScan(base, j, files, category, existing, boundsOf, false) ==> t.width == MipmapSizes[j].1
    decreases |files|
  {
    if files != [] {
      AsWrittenFolderSizes(base, j, files[..|files| - 1], category, existing, boundsOf);
    }
  }

  predicate WidthsNondecreasing(s: seq<IconTarget>) {
    forall a, b :: 0 <= a < b < |s| ==> s[a].width <= s[b].width
  }

  /** As written, the scan lists the folders in table order: the sizes it
      gives never decrease along the list. */
  lemma {:induction false} AsWrittenScanInDensityOrder(base: Path, n: nat, files: seq<string>, category: string,
                                                       existing: set<Path>, boundsOf: Path -> Option<IconBounds>)
    requires n <= |MipmapSizes|
    ensures WidthsNondecreasing(AndroidScan(base, n, files, category, existing, boundsOf, false))
    ensures forall t :: t in AndroidScan(base, n, files, category, existing, boundsOf, false) ==>
      n > 0 && t.width <= MipmapSizes[n - 1].1
  {
    SizeTablesIncreasing();
    if n > 0 {
      AsWrittenScanInDensityOrder(base, n - 1, files, category, existing, boundsOf);
      var prev := AndroidScan(base, n - 1, files, category, existing, boundsOf, false);
      var chunk := if Child(base, MipmapSizes[n - 1].0) in existing
        then FolderScan(base, n - 1, files, category, existing, boundsOf, false) else [];
      AsWrittenFolderSizes(base, n - 1, files, category, existing, boundsOf);
      var s := prev + chunk;
      assert forall t :: t in chunk ==> t.width == MipmapSizes[n - 1].1;
      assert forall t :: t in prev ==> t.width <= MipmapSizes[n - 1].1;
      forall a, b | 0 <= a < b < |s| ensures s[a].width <= s[b].width {
        if b < |prev| {
          assert s[a] == prev[a] && s[b] == prev[b];
          assert prev[a].width <= prev[b].width;
        } else if a < |prev| {
          assert s[a] == prev[a] && s[b] == chunk[b - |prev|];
          assert prev[a] in prev && chunk[b - |prev|] in chunk;
        } else {
          assert s[a] == chunk[a - |prev|] && s[b] == chunk[b - |prev|];
          assert chunk[a - |prev|] in chunk && chunk[b - |prev|] in chunk;
        }
      }
    }
  }

  // ----------------------------------------------------------------------
  // iOS scan
  // ----------------------------------------------------------------------

  /** An entry of `Contents.json`'s "images": its file name, if any, and the
      pixel size `int(float(size) * float(scale))` it declares. */
  datatype ContentsImage = ContentsImage(filename: Option<string>, size: int)

  /** What the scan of an appiconset folder reads: the images of its
      `Contents.json` when the file exists, otherwise the folder's "*.png"
      files in sorted order, each with its width when it loads. */
  datatype IosListing = FromContents(images: seq<ContentsImage>) | FromGlob(pngs: seq<(Path, Option<int>)>)

  /** An icon found by the iOS scan: file name, size, path. */
  datatype IosIcon = IosIcon(filename: string, size: int, path: Path)

  /** The images of `Contents.json` with a non-empty file name that exists. */
  function ContentsIcons(base: Path, images: seq<ContentsImage>, existing: set<Path>): seq<IosIcon>
    decreases |images|
  {
    if images == [] then []
    else
      var prev := ContentsIcons(base, images[..|images| - 1], existing);
      var image := images[|images| - 1];
      if image.filename.Some? && image.filename.value != "" && JoinStr(base, image.filename.value) in existing
      then prev + [IosIcon(image.filename.value, image.size, JoinStr(base, image.filename.value))]
      else prev
  }

  /** The PNG files that load, with their width as size. */
  function GlobIcons(pngs: seq<(Path, Option<int>)>): seq<IosIcon>
    decreases |pngs|
  {
    if pngs == [] then []
    else
      var prev := GlobIcons(pngs[..|pngs| - 1]);
      var png := pngs[|pngs| - 1];
      if png.1.Some? then prev + [IosIcon(Name(png.0), png.1.value, png.0)] else prev
  }

  function IosCandidates(base: Path, listing: IosListing, existing: set<Path>): seq<IosIcon> {
    match listing
    case FromContents(images) => ContentsIcons(base, images, existing)
    case FromGlob(pngs) => GlobIcons(pngs)
  }

  /** The sort key `(size, filename)`, compared as Python compares tuples. */
  predicate IconKeyLe(a: IosIcon, b: IosIcon) {
    a.size < b.size || (a.size == b.size && LexLe(a.filename, b.filename))
  }

  predicate SortedByKey(s: seq<IosIcon>) {
    forall i, j :: 0 <= i < j < |s| ==> IconKeyLe(s[i], s[j])
  }

  /** Puts `x` into a sorted list before the first icon whose key is not
      below it. */
  function Insert(x: IosIcon, s: seq<IosIcon>): (r: seq<IosIcon>)
    requires SortedByKey(s)
    ensures SortedByKey(r)
    ensures multiset(r) == multiset(s) + multiset{x}
    decreases |s|
  {
    if s == [] then [x]
    else if IconKeyLe(x, s[0]) then
      assert forall k :: 0 < k < |s| ==> IconKeyLe(s[0], s[k]);
      InsertBefore(x, s);
      [x] + s
    else
      var rest := Insert(x, s[1..]);
      assert s == [s[0]] + s[1..];
      LexLeTotal(x.filename, s[0].filename);
      InsertBehind(s[0], x, s[1..], rest);
      [s[0]] + rest
  }

  /** `x` can go first when its key is at most that of the first icon. */
  lemma InsertBefore(x: IosIcon, s: seq<IosIcon>)
    requires s != [] && SortedByKey(s) && IconKeyLe(x, s[0])
    ensures SortedByKey([x] + s)
  {
    forall k | 0 < k < |s| ensures IconKeyLe(x, s[k]) {
      assert IconKeyLe(s[0], s[k]);
      if x.size == s[0].size == s[k].size {
        LexLeTrans(x.filename, s[0].filename, s[k].filename);
      }
    }
  }

  /** An icon ordered before `x` and before every icon of `s` can lead the
      list `rest` that holds `x` and the icons of `s`. */
  lemma InsertBehind(y: IosIcon, x: IosIcon, s: seq<IosIcon>, rest: seq<IosIcon>)
    requires IconKeyLe(y, x) && SortedByKey([y] + s) && SortedByKey(rest)
    requires multiset(rest) == multiset(s) + multiset{x}
    ensures SortedByKey([y] + rest)
  {
    forall k | 0 <= k < |rest| ensures IconKeyLe(y, rest[k]) {
      assert rest[k] in multiset(rest);
      if rest[k] != x {
        assert rest[k] in multiset(s);
        assert rest[k] in s;
        var i :| 0 <= i < |s| && s[i] == rest[k];
        assert ([y] + s)[0] == y && ([y] + s)[i + 1] == s[i];
      }
    }
  }

  /** `icons.sort(key=lambda x: (x[1], x[0]))`: ascending by size, then by
      file name, and a permutation of the icons found. */
  function SortIcons(icons: seq<IosIcon>): (r: seq<IosIcon>)
    ensures SortedByKey(r)
    ensures multiset(r) == multiset(icons)
  {
    if icons == [] then []
    else
      assert icons == [icons[0]] + icons[1..];
      Insert(icons[0], SortIcons(icons[1..]))
  }

  /** The targets the iOS scan adds, in sorted order. */
  function IosScan(base: Path, category: string, listing: IosListing, existing: set<Path>,
                   boundsOf: Path -> Option<IconBounds>): seq<IconTarget>
  {
    IosTargets(SortIcons(IosCandidates(base, listing, existing)), category, boundsOf)
  }

  /** One checked row per icon, in the order given. */
  function IosTargets(icons: seq<IosIcon>, category: string, boundsOf: Path -> Option<IconBounds>): seq<IconTarget> {
    seq(|icons|, i requires 0 <= i < |icons| =>
      NewTarget(icons[i].path, icons[i].filename, icons[i].size, category, boundsOf(icons[i].path)))
  }

  // ----------------------------------------------------------------------
  // Whole-project scan
  // ----------------------------------------------------------------------

  /** The four categories and the folders scanned for them, in order. */
  function Categories(root: Path): seq<(string, Path)> {
    [("android", AndroidResDir(root)), ("ios", IosAssetsDir(root)),
     ("assets_android", AssetsAndroidDir(root)), ("assets_ios", AssetsIosDir(root))]
  }

  /** What the scan of one category adds: nothing when its folder does not
      exist; the Android scan when the category's name contains "android"
      (every file at its folder's `MIPMAP_SIZES` size, as written); the iOS
      scan otherwise. */
  function CategoryScan(category: string, base: Path, existing: set<Path>, boundsOf: Path -> Option<IconBounds>,
                        listing: Path -> IosListing): seq<IconTarget>
  {
    if base !in existing then []
    else if Contains(category, "android") then AndroidScan(base, 5, AndroidIconFiles, category, existing, boundsOf, false)
    else IosScan(base, category, listing(base), existing, boundsOf)
  }

  /** The targets of the first `n` categories. */
  function ProjectScan(cats: seq<(string, Path)>, existing: set<Path>, boundsOf: Path -> Option<IconBounds>,
                       listing: Path -> IosListing): seq<IconTarget>
    decreases |cats|
  {
    if cats == [] then []
    else
      ProjectScan(cats[..|cats| - 1], existing, boundsOf, listing) +
      CategoryScan(cats[|cats| - 1].0, cats[|cats| - 1].1, existing, boundsOf, listing)
  }

  /** "android" is a substring of exactly the two Android categories. */
  lemma AndroidCategories()
    ensures Contains("android", "android") && Contains("assets_android", "android")
    ensures !Contains("ios", "android") && !Contains("assets_ios", "android")
  {
    assert Contains("android", "android") && Contains("assets_android", "android") by {
      ContainsAt("android", 0, "android");
      ContainsAt("assets_android", 7, "android");
    }
    NotContainsLonger("ios", "android");
    AndroidNotInAssetsIos();
  }

  lemma AndroidNotInAssetsIos()
    ensures !Contains("assets_ios", "android")
  {
    assert "assets_ios"[1..5] == "sset";
    NotContainsAtOffset("assets_ios", "android", 1);
  }

  /** "ios" is a substring of exactly the two iOS categories. */
  lemma IosCategories()
    ensures Contains("ios", "ios") && Contains("assets_ios", "ios")
    ensures !Contains("android", "ios") && !Contains("assets_android", "ios")
  {
    assert Contains("ios", "ios") && Contains("assets_ios", "ios") by {
      ContainsAt("ios", 0, "ios");
      ContainsAt("assets_ios", 7, "ios");
    }
    IosNotInAndroid();
    IosNotInAssetsAndroid();
  }

  lemma IosNotInAndroid()
    ensures !Contains("android", "ios")
  {
    assert "android"[0..5] == "andro";
    NotContainsAtOffset("android", "ios", 0);
  }

  lemma IosNotInAssetsAndroid()
    ensures !Contains("assets_android", "ios")
  {
    assert "assets_android"[0..12] == "assets_andro";
    NotContainsAtOffset("assets_android", "ios", 0);
  }

  /** A pattern found at position `k` is in the text. */
  lemma {:induction false} ContainsAt(s: string, k: nat, sub: string)
    requires k <= |s| && StartsWith(s[k..], sub)
    ensures Contains(s, sub)
    decreases k
  {
    if k > 0 {
      assert s[1..][k - 1..] == s[k..];
      ContainsAt(s[1..], k - 1, sub);
    }
  }

  /** A pattern longer than the text is not in it. */
  lemma {:induction false} NotContainsLonger(s: string, sub: string)
    requires |s| < |sub|
    ensures !Contains(s, sub)
    decreases |s|
  {
    if |s| > 0 {
      NotContainsLonger(s[1..], sub);
    }
  }

  /** A pattern is not in the text when its `k`-th character occurs at none
      of the positions it would take. */
  lemma {:induction false} NotContainsAtOffset(s: string, sub: string, k: nat)
    requires k < |sub|
    requires |sub| <= |s| ==> sub[k] !in s[k..|s| - |sub| + k + 1]
    ensures !Contains(s, sub)
  {
    if |sub| > |s| {
      NotContainsLonger(s, sub);
    } else {
      forall i | k <= i <= |s| - |sub| + k ensures s[i] != sub[k] {
        assert s[i] == s[k..|s| - |sub| + k + 1][i - k];
      }
      NotContainsFrom(s, sub, k);
    }
  }

  lemma {:induction false} NotContainsFrom(s: string, sub: string, k: nat)
    requires k < |sub|
    requires forall i :: k <= i <= |s| - |sub| + k ==> s[i] != sub[k]
    ensures !Contains(s, sub)
    decreases |s|
  {
    if |s| > 0 {
      forall i | k <= i <= |s[1..]| - |sub| + k ensures s[1..][i] != sub[k] {
        assert s[1..][i] == s[i + 1];
      }
      NotContainsFrom(s[1..], sub, k);
    }
    if |sub| <= |s| {
      assert s[..|sub|][k] == s[k];
    }
  }

  // ----------------------------------------------------------------------
  // Selection
  // ----------------------------------------------------------------------

  /** The targets of the checked rows, in table order. */
  function Selected(ts: seq<IconTarget>, cs: seq<bool>): (r: seq<IconTarget>)
    requires |cs| == |ts|
    ensures |r| <= |ts|
    ensures forall t :: t in r ==> t in ts
    decreases |ts|
  {
    if ts == [] then []
    else
      var n := |ts| - 1;
      Selected(ts[..n], cs[..n]) + (if cs[n] then [ts[n]] else [])
  }

  /** A target is selected exactly when some checked row shows it. */
  lemma {:induction false} SelectedMembership(ts: seq<IconTarget>, cs: seq<bool>, t: IconTarget)
    requires |cs| == |ts|
    ensures t in Selected(ts, cs) <==> exists i :: 0 <= i < |ts| && cs[i] && ts[i] == t
    decreases |ts|
  {
    if ts != [] {
      var n := |ts| - 1;
      SelectedMembership(ts[..n], cs[..n], t);
      if exists i :: 0 <= i < |ts| && cs[i] && ts[i] == t {
        var i :| 0 <= i < |ts| && cs[i] && ts[i] == t;
        if i < n {
          assert ts[..n][i] == ts[i] && cs[..n][i] == cs[i];
        }
      }
      if t in Selected(ts[..n], cs[..n]) {
        var i :| 0 <= i < n && cs[..n][i] && ts[..n][i] == t;
        assert ts[..n][i] == ts[i] && cs[..n][i] == cs[i];
      }
    }
  }

  /** Selection keeps table order: the selection of the whole table is the
      selection of any first part followed by that of the rest. */
  lemma {:induction false} SelectedSplit(ts: seq<IconTarget>, cs: seq<bool>, k: int)
    requires |cs| == |ts| && 0 <= k <= |ts|
    ensures Selected(ts, cs) == Selected(ts[..k], cs[..k]) + Selected(ts[k..], cs[k..])
    decreases |ts|
  {
    if k < |ts| {
      var n := |ts| - 1;
      SelectedSplit(ts[..n], cs[..n], k);
      assert ts[..n][..k] == ts[..k] && cs[..n][..k] == cs[..k];
      var ts2, cs2 := ts[k..], cs[k..];
      assert ts2[..|ts2| - 1] == ts[..n][k..] && cs2[..|cs2| - 1] == cs[..n][k..];
      var last := if cs[n] then [ts[n]] else [];
      assert Selected(ts, cs) == Selected(ts[..n], cs[..n]) + last;
      assert ts2[|ts2| - 1] == ts[n] && cs2[|cs2| - 1] == cs[n];
      assert Selected(ts2, cs2) == Selected(ts[..n][k..], cs[..n][k..]) + last;
    } else {
      assert ts[..k] == ts && cs[..k] == cs;
    }
  }

  /** The targets whose category contains `c`, in order. */
  function InCategory(ts: seq<IconTarget>, c: string): seq<IconTarget>
    decreases |ts|
  {
    if ts == [] then []
    else
      var n := |ts| - 1;
      InCategory(ts[..n], c) + (if Contains(ts[n].category, c) then [ts[n]] else [])
  }

  /** Checking rows by category and then collecting the checked rows gives
      the targets of that category, in table order. */
  lemma {:induction false} SelectedAfterCategory(ts: seq<IconTarget>, cs: seq<bool>, c: string)
    requires |cs| == |ts|
    requires forall i :: 0 <= i < |ts| ==> cs[i] == Contains(ts[i].category, c)
    ensures Selected(ts, cs) == InCategory(ts, c)
    decreases |ts|
  {
    if ts != [] {
      var n := |ts| - 1;
      SelectedAfterCategory(ts[..n], cs[..n], c);
    }
  }

  // ----------------------------------------------------------------------
  // Overrides
  // ----------------------------------------------------------------------

  /** The targets with the override of the rows `rows` set to `o`. */
  function WithOverride(ts: seq<IconTarget>, rows: seq<int>, o: Option<Path>): (r: seq<IconTarget>)
    ensures |r| == |ts|
  {
    seq(|ts|, i requires 0 <= i < |ts| => if i in rows then ts[i].(overridePath := o) else ts[i])
  }

  /** The check `_set_override` makes of the chosen file: a ".png" file
      (ignoring case) must load as an image, any other file must be a
      valid SVG. */
  predicate OverrideAccepted(p: Path, loads: Path -> bool, svgValid: Path -> bool) {
    if LowerEquals(Suffix(Name(p)), ".png") then loads(p) else svgValid(p)
  }

  /** Clearing undoes setting: set then cleared on the same rows is the same
      as cleared, and clearing twice is clearing once. */
  lemma ClearUndoesSet(ts: seq<IconTarget>, rows: seq<int>, o: Option<Path>)
    ensures WithOverride(WithOverride(ts, rows, o), rows, None) == WithOverride(ts, rows, None)
    ensures WithOverride(WithOverride(ts, rows, None), rows, None) == WithOverride(ts, rows, None)
  {
  }

  /** After an override is set on a row, generation takes that row from the
      override: the raster compositor for a ".png" file, the SVG compositor
      otherwise, whatever the default SVG. */
  lemma OverrideDecidesSource(ts: seq<IconTarget>, rows: seq<int>, p: Path, i: int, defaultSvg: Option<Path>)
    requires 0 <= i < |ts| && i in rows
    ensures var t := WithOverride(ts, rows, Some(p))[i];
      ChooseSource(t, defaultSvg) ==
        (if LowerEquals(Suffix(Name(p)), ".png") then RasterOverride(p) else Svg(p))
  {
    PngNameIff(Name(p));
  }

  // ----------------------------------------------------------------------
  // Sizes of the adaptive layer files found by the Android scan
  // ----------------------------------------------------------------------

  /** As written, the window's scan of the project lists the mdpi foreground
      layer at 48 px, while the adaptive-layer code targets the very same
      file at 108 px and never at 48 px. */
  lemma AsWrittenForegroundSizeDisagrees(root: Path, existing: set<Path>, boundsOf: Path -> Option<IconBounds>,
                                         listing: Path -> IosListing)
    requires AndroidResDir(root) in existing
    requires Child(AndroidResDir(root), "mipmap-mdpi") in existing
    requires LayerFile(AndroidResDir(root), "mipmap-mdpi", "ic_launcher_foreground.png") in existing
    ensures var path := LayerFile(AndroidResDir(root), "mipmap-mdpi", "ic_launcher_foreground.png");
      NewTarget(path, "ic_launcher_foreground.png", 48, "android", boundsOf(path))
        in ProjectScan(Categories(root), existing, boundsOf, listing) &&
      (path, 108) in LayerTargetsSpec(Foreground, root, existing) &&
      (path, 48) !in LayerTargetsSpec(Foreground, root, existing)
  {
    var base := AndroidResDir(root);
    var file := "ic_launcher_foreground.png";
    var path := LayerFile(base, "mipmap-mdpi", file);
    var t := NewTarget(path, file, 48, "android", boundsOf(path));
    AndroidIconFilesDistinct();
    assert AndroidIconFiles[2] == file;
    assert ScanEntry(t, base, 0, AndroidIconFiles[2], "android", existing, boundsOf, false);
    AndroidScanMembership(base, 5, AndroidIconFiles, "android", existing, boundsOf, false, t);
    AndroidCategories();
    var cats := Categories(root);
    assert t in CategoryScan(cats[0].0, cats[0].1, existing, boundsOf, listing);
    CategoryScanInProject(cats, existing, boundsOf, listing, 0, t);
    LayerFilenamesMatchConstants();
    assert LayerFilename(Foreground) == file;
    var dirs, table := TargetDirectories(root), LayerSizes(Foreground);
    TargetsMembership(dirs, table, file, existing, (path, 108));
    assert dirs[0] == base && table[0] == ("mipmap-mdpi", 108);
    TargetsMembership(dirs, table, file, existing, (path, 48));
    SizeTablesIncreasing();
  }

  /** Sized by layer, every adaptive layer file the scan finds under either
      Android tree is a target of that layer in the adaptive-layer code,
      with the same size. */
  lemma LayerSizedScanAgrees(root: Path, base: Path, category: string, existing: set<Path>,
                             boundsOf: Path -> Option<IconBounds>, layer: Layer, t: IconTarget)
    requires base == AndroidResDir(root) || base == AssetsAndroidDir(root)
    requires base in existing && layer != Notification
    requires t in AndroidScan(base, 5, AndroidIconFiles, category, existing, boundsOf, true)
    requires t.name == LayerFilename(layer)
    ensures (t.path, t.width) in LayerTargetsSpec(layer, root, existing)
  {
    AndroidScanMembership(base, 5, AndroidIconFiles, category, existing, boundsOf, true, t);
    var j, k :| 0 <= j < 5 && 0 <= k < |AndroidIconFiles| &&
      ScanEntry(t, base, j, AndroidIconFiles[k], category, existing, boundsOf, true);
    var file := LayerFilename(layer);
    LayerSizedEntry(j, layer);
    var dirs, table := TargetDirectories(root), LayerSizes(layer);
    var i := if base == AndroidResDir(root) then 0 else 1;
    assert dirs[i] == base;
    assert (t.path, t.width) == (LayerFile(dirs[i], table[j].0, file), table[j].1);
    TargetsMembership(dirs, table, file, existing, (t.path, t.width));
  }

  /** Sized by layer, an adaptive layer file in the `j`-th mipmap folder gets
      the `j`-th entry of the layer's own table, whose folder is the same. */
  lemma LayerSizedEntry(j: int, layer: Layer)
    requires 0 <= j < 5 && layer != Notification
    ensures ScanSize(j, LayerFilename(layer), true) == LayerSizes(layer)[j].1
    ensures LayerSizes(layer)[j].0 == MipmapSizes[j].0
  {
    LayerFilenamesMatchConstants();
    assert LayerFilename(layer) in AndroidAdaptiveIcons;
    AdaptiveSizesAre108dp();
    assert Keys(AdaptiveIconSizes)[j] == Keys(MipmapSizes)[j];
  }

  lemma ProjectScanSnoc(cats: seq<(string, Path)>, existing: set<Path>, boundsOf: Path -> Option<IconBounds>,
                        listing: Path -> IosListing, c: int)
    requires 0 <= c < |cats|
    ensures ProjectScan(cats[..c + 1], existing, boundsOf, listing) ==
      ProjectScan(cats[..c], existing, boundsOf, listing) + CategoryScan(cats[c].0, cats[c].1, existing, boundsOf, listing)
  {
    assert cats[..c + 1][..c] == cats[..c];
  }

  /** What the scan of any one category finds is part of the project scan. */
  lemma CategoryScanInProject(cats: seq<(string, Path)>, existing: set<Path>,
                                                 boundsOf: Path -> Option<IconBounds>, listing: Path -> IosListing,
                                                 c: int, t: IconTarget)
    requires 0 <= c < |cats| && t in CategoryScan(cats[c].0, cats[c].1, existing, boundsOf, listing)
    ensures t in ProjectScan(cats, existing, boundsOf, listing)
  {
    ProjectScanSnoc(cats, existing, boundsOf, listing, c);
    var upTo := ProjectScan(cats[..c + 1], existing, boundsOf, listing);
    assert t in upTo;
    ProjectScanPrefix(cats, existing, boundsOf, listing, c + 1);
    var k :| 0 <= k < |upTo| && upTo[k] == t;
    assert ProjectScan(cats, existing, boundsOf, listing)[k] == t;
  }

  /** The scan of the first `m` categories begins the project scan. */
  lemma {:induction false} ProjectScanPrefix(cats: seq<(string, Path)>, existing: set<Path>,
                                             boundsOf: Path -> Option<IconBounds>, listing: Path -> IosListing,
                                             m: int)
    requires 0 <= m <= |cats|
    ensures ProjectScan(cats[..m], existing, boundsOf, listing) <= ProjectScan(cats, existing, boundsOf, listing)
    decreases |cats|
  {
    if m == |cats| {
      assert cats[..m] == cats;
    } else {
      var n := |cats| - 1;
      assert cats[..n][..m] == cats[..m];
      ProjectScanPrefix(cats[..n], existing, boundsOf, listing, m);
    }
  }

  /** A target is in the project scan exactly when the scan of one of the
      categories finds it. */
  lemma {:induction false} ProjectScanMembership(cats: seq<(string, Path)>, existing: set<Path>,
                                                 boundsOf: Path -> Option<IconBounds>, listing: Path -> IosListing,
                                                 t: IconTarget)
    ensures t in ProjectScan(cats, existing, boundsOf, listing) <==>
      exists c :: 0 <= c < |cats| && t in CategoryScan(cats[c].0, cats[c].1, existing, boundsOf, listing)
    decreases |cats|
  {
    if exists c :: 0 <= c < |cats| && t in CategoryScan(cats[c].0, cats[c].1, existing, boundsOf, listing) {
      var c :| 0 <= c < |cats| && t in CategoryScan(cats[c].0, cats[c].1, existing, boundsOf, listing);
      CategoryScanInProject(cats, existing, boundsOf, listing, c, t);
    }
    if t in ProjectScan(cats, existing, boundsOf, listing) {
      var n := |cats| - 1;
      var prev := ProjectScan(cats[..n], existing, boundsOf, listing);
      assert ProjectScan(cats, existing, boundsOf, listing) ==
        prev + CategoryScan(cats[n].0, cats[n].1, existing, boundsOf, listing);
      if t in prev {
        ProjectScanMembership(cats[..n], existing, boundsOf, listing, t);
        var c :| 0 <= c < n && t in CategoryScan(cats[..n][c].0, cats[..n][c].1, existing, boundsOf, listing);
        assert cats[..n][c] == cats[c];
      } else {
        assert t in CategoryScan(cats[n].0, cats[n].1, existing, boundsOf, listing);
      }
    }
  }

  /** An Android target of the window's scan is a listed file that exists in
      an existing mipmap folder of that category's tree, at the folder's
      `MIPMAP_SIZES` size, adaptive layers included. */
  lemma ScannedAndroidTargetAsWritten(root: Path, existing: set<Path>, boundsOf: Path -> Option<IconBounds>,
                                      listing: Path -> IosListing, c: int, t: IconTarget)
    requires 0 <= c < 4 && Contains(Categories(root)[c].0, "android")
    requires t in CategoryScan(Categories(root)[c].0, Categories(root)[c].1, existing, boundsOf, listing)
    ensures t in ProjectScan(Categories(root), existing, boundsOf, listing)
    ensures exists j, k ::
              0 <= j < 5 && 0 <= k < |AndroidIconFiles| &&
              t.path == LayerFile(Categories(root)[c].1, MipmapSizes[j].0, AndroidIconFiles[k]) &&
              t.path in existing && t.width == t.height == MipmapSizes[j].1
  {
    var cats := Categories(root);
    CategoryScanInProject(cats, existing, boundsOf, listing, c, t);
    AndroidScanMembership(cats[c].1, 5, AndroidIconFiles, cats[c].0, existing, boundsOf, false, t);
  }

  /** Every target of a project scan carries one of the scanned categories. */
  lemma {:induction false} ScannedCategoriesKnown(cats: seq<(string, Path)>, existing: set<Path>,
                                                  boundsOf: Path -> Option<IconBounds>, listing: Path -> IosListing,
                                                  t: IconTarget)
    requires t in ProjectScan(cats, existing, boundsOf, listing)
    ensures exists c :: 0 <= c < |cats| && t.category == cats[c].0
    decreases |cats|
  {
    var n := |cats| - 1;
    var cat, base := cats[n].0, cats[n].1;
    if t in ProjectScan(cats[..n], existing, boundsOf, listing) {
      ScannedCategoriesKnown(cats[..n], existing, boundsOf, listing, t);
      var c :| 0 <= c < n && t.category == cats[..n][c].0;
      assert cats[..n][c] == cats[c];
    } else {
      assert ProjectScan(cats, existing, boundsOf, listing) ==
        ProjectScan(cats[..n], existing, boundsOf, listing) + CategoryScan(cat, base, existing, boundsOf, listing);
      assert t in CategoryScan(cat, base, existing, boundsOf, listing);
      if Contains(cat, "android") {
        AndroidScanMembership(base, 5, AndroidIconFiles, cat, existing, boundsOf, false, t);
        var j, k :| 0 <= j < 5 && 0 <= k < |AndroidIconFiles| &&
          ScanEntry(t, base, j, AndroidIconFiles[k], cat, existing, boundsOf, false);
      } else {
        var icons := SortIcons(IosCandidates(base, listing(base), existing));
        var added := IosScan(base, cat, listing(base), existing, boundsOf);
        var k :| 0 <= k < |added| && added[k] == t;
        assert added[k] == NewTarget(icons[k].path, icons[k].filename, icons[k].size, cat, boundsOf(icons[k].path));
      }
      assert t.category == cats[n].0;
    }
  }

  // ----------------------------------------------------------------------
  // Generation and export
  // ----------------------------------------------------------------------

  /** How one target is drawn: a PNG scaled into its bounds, or an SVG
      cropped to the content bounds measured from its 512-px rendering. */
  datatype Plan = FromPng(source: Path) | FromSvg(source: Path, bounds: IconBounds)

  /** The plan for a target that has a source; `measure` stands for
      rendering an SVG at 512 px and taking its content bounds. */
  function PlanFor(t: IconTarget, defaultSvg: Option<Path>, measure: Path -> IconBounds): (plan: Plan)
    requires HasSource(t, defaultSvg)
    ensures plan.FromPng? <==> OverrideIsPng(t)
    ensures plan.FromSvg? ==> ChooseSource(t, defaultSvg) == Svg(plan.source) && plan.bounds == measure(plan.source)
  {
    match ChooseSource(t, defaultSvg)
    case RasterOverride(p) => FromPng(p)
    case Svg(p) => FromSvg(p, measure(p))
  }

  function PlanImage(plan: Plan): ImageSource {
    match plan
    case FromPng(p) => Raster(p)
    case FromSvg(p, _) => Vector(p)
  }

  predicate HasSources(selected: seq<IconTarget>, defaultSvg: Option<Path>) {
    forall i :: 0 <= i < |selected| ==> HasSource(selected[i], defaultSvg)
  }

  lemma HasSourcesPrefix(selected: seq<IconTarget>, defaultSvg: Option<Path>, n: int)
    requires HasSources(selected, defaultSvg) && 0 <= n <= |selected|
    ensures HasSources(selected[..n], defaultSvg)
  {
    forall k | 0 <= k < n ensures HasSource(selected[..n][k], defaultSvg) {
      assert selected[..n][k] == selected[k];
    }
  }

  predicate NoDuplicates(ps: seq<Path>) {
    forall a, b :: 0 <= a < b < |ps| ==> ps[a] != ps[b]
  }

  /** The save of each selected target in order: drawn from its plan and
      written to `dests[i]` at the target's size. */
  function RenderSteps(selected: seq<IconTarget>, dests: seq<Path>, defaultSvg: Option<Path>,
                       measure: Path -> IconBounds, save: Path -> SaveResult): (steps: seq<Step>)
    requires |dests| == |selected| && HasSources(selected, defaultSvg)
    ensures |steps| == |selected|
    decreases |selected|
  {
    if selected == [] then []
    else
      var n := |selected| - 1;
      HasSourcesPrefix(selected, defaultSvg, n);
      RenderSteps(selected[..n], dests[..n], defaultSvg, measure, save) +
      [RenderStep(selected[n], dests[n], defaultSvg, measure, save)]
  }

  /** The i-th step of a run is the save of the i-th selected target. */
  lemma {:induction false} RenderStepAt(selected: seq<IconTarget>, dests: seq<Path>, defaultSvg: Option<Path>,
                                        measure: Path -> IconBounds, save: Path -> SaveResult, i: int)
    requires |dests| == |selected| && HasSources(selected, defaultSvg) && 0 <= i < |selected|
    ensures RenderSteps(selected, dests, defaultSvg, measure, save)[i] ==
      RenderStep(selected[i], dests[i], defaultSvg, measure, save)
    decreases |selected|
  {
    var n := |selected| - 1;
    if i < n {
      assert selected[..n][i] == selected[i] && dests[..n][i] == dests[i];
      HasSourcesPrefix(selected, defaultSvg, n);
      RenderStepAt(selected[..n], dests[..n], defaultSvg, measure, save, i);
    }
  }

  /** The per-run cache holds exactly the logged paths, each with its
      measured bounds, and no path is logged twice. */
  ghost predicate CacheLog(cache: map<Path, IconBounds>, measured: seq<Path>, measure: Path -> IconBounds) {
    (forall q :: q in cache <==> q in measured) &&
    (forall q :: q in cache ==> cache[q] == measure(q)) &&
    NoDuplicates(measured)
  }

  /** The loop shared by "Generate" and "Export generated": each target is
      drawn from its source and saved; the content bounds of an SVG are
      measured the first time that SVG is met and then taken from the
      per-run cache.  `measured` logs every measurement. */
  method RenderAll(selected: seq<IconTarget>, dests: seq<Path>, defaultSvg: Option<Path>,
                   measure: Path -> IconBounds, save: Path -> SaveResult)
    returns (steps: seq<Step>, measured: seq<Path>, plans: seq<Plan>)
    requires |dests| == |selected| && HasSources(selected, defaultSvg)
    ensures steps == RenderSteps(selected, dests, defaultSvg, measure, save)
    ensures |plans| == |selected|
    ensures forall i :: 0 <= i < |selected| ==>
      plans[i] == PlanFor(selected[i], defaultSvg, measure) &&
      steps[i] == SaveStep((dests[i], selected[i].width), PlanImage(plans[i]), save)
    ensures NoDuplicates(measured)
    ensures forall p :: p in measured <==> p in SvgSources(selected, defaultSvg)
  {
    var cache: map<Path, IconBounds> := map[];
    steps, measured, plans := [], [], [];
    var i := 0;
    while i < |selected|
      invariant 0 <= i <= |selected|
      invariant RunSoFar(selected, dests, defaultSvg, measure, save, i, steps, plans, cache, measured)
    {
      var step, plan, cache', measured';
      step, plan, cache', measured' := RenderOne(selected[i], dests[i], defaultSvg, measure, save, cache, measured);
      RunStep(selected, dests, defaultSvg, measure, save, i, steps, plans, cache, measured, step, plan, cache', measured');
      steps, plans, cache, measured := steps + [step], plans + [plan], cache', measured';
      i := i + 1;
    }
    RunDone(selected, dests, defaultSvg, measure, save, steps, plans, cache, measured);
  }

  /** The state of the loop after its first `i` targets: the steps and plans
      of those targets, and a cache and log of exactly their SVGs. */
  ghost predicate RunSoFar(selected: seq<IconTarget>, dests: seq<Path>, defaultSvg: Option<Path>,
                           measure: Path -> IconBounds, save: Path -> SaveResult, i: int,
                           steps: seq<Step>, plans: seq<Plan>, cache: map<Path, IconBounds>, measured: seq<Path>)
    requires |dests| == |selected| && HasSources(selected, defaultSvg) && 0 <= i <= |selected|
  {
    HasSourcesPrefix(selected, defaultSvg, i);
    steps == RenderSteps(selected[..i], dests[..i], defaultSvg, measure, save) &&
    |plans| == i &&
    (forall k :: 0 <= k < i ==> plans[k] == PlanFor(selected[k], defaultSvg, measure)) &&
    CacheLog(cache, measured, measure) &&
    (forall p :: p in measured <==> p in SvgSources(selected[..i], defaultSvg))
  }

  /** Rendering the next target extends the loop state by that target. */
  lemma RunStep(selected: seq<IconTarget>, dests: seq<Path>, defaultSvg: Option<Path>,
                measure: Path -> IconBounds, save: Path -> SaveResult, i: int,
                steps: seq<Step>, plans: seq<Plan>, cache: map<Path, IconBounds>, measured: seq<Path>,
                step: Step, plan: Plan, cache': map<Path, IconBounds>, measured': seq<Path>)
    requires |dests| == |selected| && HasSources(selected, defaultSvg) && 0 <= i < |selected|
    requires RunSoFar(selected, dests, defaultSvg, measure, save, i, steps, plans, cache, measured)
    requires plan == PlanFor(selected[i], defaultSvg, measure)
    requires step == RenderStep(selected[i], dests[i], defaultSvg, measure, save)
    requires CacheLog(cache', measured', measure)
    requires forall q :: q in measured' <==> q in measured || ChooseSource(selected[i], defaultSvg) == Svg(q)
    ensures RunSoFar(selected, dests, defaultSvg, measure, save, i + 1, steps + [step], plans + [plan], cache', measured')
  {
    HasSourcesPrefix(selected, defaultSvg, i);
    HasSourcesPrefix(selected, defaultSvg, i + 1);
    MeasuredStep(selected, defaultSvg, i, measured, measured');
    RenderStepsSnoc(selected, dests, defaultSvg, measure, save, i);
    PlansSnoc(selected, defaultSvg, measure, i, plans, plan);
  }

  lemma PlansSnoc(selected: seq<IconTarget>, defaultSvg: Option<Path>, measure: Path -> IconBounds,
                  i: int, plans: seq<Plan>, plan: Plan)
    requires HasSources(selected, defaultSvg) && 0 <= i < |selected| && |plans| == i
    requires forall k :: 0 <= k < i ==> plans[k] == PlanFor(selected[k], defaultSvg, measure)
    requires plan == PlanFor(selected[i], defaultSvg, measure)
    ensures forall k :: 0 <= k < i + 1 ==> (plans + [plan])[k] == PlanFor(selected[k], defaultSvg, measure)
  {
  }

  /** After the last target the loop state is the whole run. */
  lemma RunDone(selected: seq<IconTarget>, dests: seq<Path>, defaultSvg: Option<Path>,
                measure: Path -> IconBounds, save: Path -> SaveResult,
                steps: seq<Step>, plans: seq<Plan>, cache: map<Path, IconBounds>, measured: seq<Path>)
    requires |dests| == |selected| && HasSources(selected, defaultSvg)
    requires RunSoFar(selected, dests, defaultSvg, measure, save, |selected|, steps, plans, cache, measured)
    ensures steps == RenderSteps(selected, dests, defaultSvg, measure, save)
    ensures |plans| == |selected|
    ensures forall i :: 0 <= i < |selected| ==>
      plans[i] == PlanFor(selected[i], defaultSvg, measure) &&
      steps[i] == SaveStep((dests[i], selected[i].width), PlanImage(plans[i]), save)
    ensures NoDuplicates(measured)
    ensures forall p :: p in measured <==> p in SvgSources(selected, defaultSvg)
  {
    assert selected[..|selected|] == selected && dests[..|selected|] == dests;
    RenderStepsSaveEach(selected, dests, defaultSvg, measure, save);
  }

  /** Each step of a run saves its target, drawn from the target's plan, to
      its destination at the target's size. */
  lemma RenderStepsSaveEach(selected: seq<IconTarget>, dests: seq<Path>, defaultSvg: Option<Path>,
                            measure: Path -> IconBounds, save: Path -> SaveResult)
    requires |dests| == |selected| && HasSources(selected, defaultSvg)
    ensures forall i :: 0 <= i < |selected| ==>
      RenderSteps(selected, dests, defaultSvg, measure, save)[i] ==
      SaveStep((dests[i], selected[i].width), PlanImage(PlanFor(selected[i], defaultSvg, measure)), save)
  {
    forall i | 0 <= i < |selected|
      ensures RenderSteps(selected, dests, defaultSvg, measure, save)[i] ==
        SaveStep((dests[i], selected[i].width), PlanImage(PlanFor(selected[i], defaultSvg, measure)), save)
    {
      RenderStepAt(selected, dests, defaultSvg, measure, save, i);
    }
  }

  /** The save of one target: drawn from its plan and written to `dest` at
      the target's size. */
  function RenderStep(t: IconTarget, dest: Path, defaultSvg: Option<Path>, measure: Path -> IconBounds,
                      save: Path -> SaveResult): Step
    requires HasSource(t, defaultSvg)
  {
    SaveStep((dest, t.width), PlanImage(PlanFor(t, defaultSvg, measure)), save)
  }

  /** One more target adds its own save at the end of the run. */
  lemma RenderStepsSnoc(selected: seq<IconTarget>, dests: seq<Path>, defaultSvg: Option<Path>,
                        measure: Path -> IconBounds, save: Path -> SaveResult, i: int)
    requires |dests| == |selected| && HasSources(selected, defaultSvg) && 0 <= i < |selected|
    ensures HasSources(selected[..i], defaultSvg) && HasSources(selected[..i + 1], defaultSvg)
    ensures RenderSteps(selected[..i + 1], dests[..i + 1], defaultSvg, measure, save) ==
      RenderSteps(selected[..i], dests[..i], defaultSvg, measure, save) +
      [RenderStep(selected[i], dests[i], defaultSvg, measure, save)]
  {
    assert selected[..i + 1][..i] == selected[..i] && dests[..i + 1][..i] == dests[..i];
    HasSourcesPrefix(selected, defaultSvg, i);
    HasSourcesPrefix(selected, defaultSvg, i + 1);
  }

  /** One target of the loop: its source chosen, an SVG's bounds taken from
      the cache or measured, and the result saved to `dest`. */
  method RenderOne(t: IconTarget, dest: Path, defaultSvg: Option<Path>, measure: Path -> IconBounds,
                   save: Path -> SaveResult, cache: map<Path, IconBounds>, measured: seq<Path>)
    returns (step: Step, plan: Plan, cache': map<Path, IconBounds>, measured': seq<Path>)
    requires HasSource(t, defaultSvg)
    requires CacheLog(cache, measured, measure)
    ensures plan == PlanFor(t, defaultSvg, measure)
    ensures plan.FromSvg? ==> plan.bounds == measure(plan.source)
    ensures step == RenderStep(t, dest, defaultSvg, measure, save)
    ensures step == SaveStep((dest, t.width), PlanImage(plan), save)
    ensures CacheLog(cache', measured', measure)
    ensures forall q :: q in measured' <==> q in measured || ChooseSource(t, defaultSvg) == Svg(q)
  {
    var source := ChooseSource(t, defaultSvg);
    if source.RasterOverride? {
      plan := FromPng(source.path);
      cache', measured' := cache, measured;
    } else {
      var bounds;
      bounds, cache', measured' := CachedBounds(source.path, cache, measured, measure);
      plan := FromSvg(source.path, bounds);
    }
    step := SaveStep((dest, t.width), PlanImage(plan), save);
  }

  /** The per-run cache of content bounds: `p` is measured only when the
      cache does not hold it yet, and the measurement is then logged. */
  method CachedBounds(p: Path, cache: map<Path, IconBounds>, measured: seq<Path>, measure: Path -> IconBounds)
    returns (bounds: IconBounds, cache': map<Path, IconBounds>, measured': seq<Path>)
    requires CacheLog(cache, measured, measure)
    ensures bounds == measure(p)
    ensures CacheLog(cache', measured', measure)
    ensures forall q :: q in measured' <==> q in measured || q == p
  {
    cache', measured' := cache, measured;
    if p !in cache {
      cache' := cache[p := measure(p)];
      measured' := measured + [p];
    }
    bounds := cache'[p];
  }

  /** The SVG files the selected targets are drawn from. */
  function SvgSources(selected: seq<IconTarget>, defaultSvg: Option<Path>): set<Path>
    decreases |selected|
  {
    if selected == [] then {}
    else
      var n := |selected| - 1;
      var s := ChooseSource(selected[n], defaultSvg);
      SvgSources(selected[..n], defaultSvg) + if s.Svg? then {s.path} else {}
  }

  lemma SvgSourcesSnoc(selected: seq<IconTarget>, defaultSvg: Option<Path>, i: int)
    requires 0 <= i < |selected|
    ensures var s := ChooseSource(selected[i], defaultSvg);
      SvgSources(selected[..i + 1], defaultSvg) == SvgSources(selected[..i], defaultSvg) + if s.Svg? then {s.path} else {}
  {
    assert selected[..i + 1][..i] == selected[..i];
  }

  /** One more target adds its SVG, if it is drawn from one, to the files
      measured so far. */
  lemma MeasuredStep(selected: seq<IconTarget>, defaultSvg: Option<Path>, i: int, before: seq<Path>, after: seq<Path>)
    requires 0 <= i < |selected|
    requires forall p :: p in before <==> p in SvgSources(selected[..i], defaultSvg)
    requires forall q :: q in after <==> q in before || ChooseSource(selected[i], defaultSvg) == Svg(q)
    ensures forall p :: p in after <==> p in SvgSources(selected[..i + 1], defaultSvg)
  {
    SvgSourcesSnoc(selected, defaultSvg, i);
  }

  /** An SVG is among the sources exactly when the choice rule picks it for
      some selected target. */
  lemma {:induction false} SvgSourcesMembership(selected: seq<IconTarget>, defaultSvg: Option<Path>, p: Path)
    ensures p in SvgSources(selected, defaultSvg) <==>
      exists k :: 0 <= k < |selected| && ChooseSource(selected[k], defaultSvg) == Svg(p)
    decreases |selected|
  {
    if selected != [] {
      var n := |selected| - 1;
      var prefix := selected[..n];
      SvgSourcesMembership(prefix, defaultSvg, p);
      if p in SvgSources(selected, defaultSvg) {
        if p in SvgSources(prefix, defaultSvg) {
          var k :| 0 <= k < n && ChooseSource(prefix[k], defaultSvg) == Svg(p);
          assert selected[k] == prefix[k];
        } else {
          assert ChooseSource(selected[n], defaultSvg) == Svg(p);
        }
      } else {
        forall k | 0 <= k < |selected| ensures ChooseSource(selected[k], defaultSvg) != Svg(p) {
          if k < n {
            assert selected[k] == prefix[k];
          }
        }
      }
    }
  }

  /** Every file a run writes is one selected target, drawn from the source
      the choice rule gives it and saved successfully at its size. */
  lemma RenderedWritesFollowChoice(selected: seq<IconTarget>, dests: seq<Path>, defaultSvg: Option<Path>,
                                   measure: Path -> IconBounds, save: Path -> SaveResult, w: Write)
    requires |dests| == |selected| && HasSources(selected, defaultSvg)
    requires w in Writes(RenderSteps(selected, dests, defaultSvg, measure, save))
    ensures exists i :: (0 <= i < |selected| && save(dests[i]) == Saved &&
      w == Write(dests[i], selected[i].width, PlanImage(PlanFor(selected[i], defaultSvg, measure))))
  {
    var steps := RenderSteps(selected, dests, defaultSvg, measure, save);
    WritesFromSteps(steps, w);
    var i :| 0 <= i < |steps| && steps[i] == Wrote(w);
    RenderStepAt(selected, dests, defaultSvg, measure, save, i);
  }

  /** The outcome of "Generate": refused for want of targets or sources,
      declined at the confirmation, or run. */
  datatype Generation =
    | NoTargets
    | MissingSources(count: int)
    | Declined
    | Generated(written: seq<Write>, errors: seq<Message>, measured: seq<Path>, drawn: seq<Plan>)

  /** The outcome of "Export generated": refused for want of targets or
      sources, no folder chosen, or run, with the files written to the
      folder counted and entered in the manifest. */
  datatype GeneratedExport =
    | NothingSelected
    | SourcesMissing(count: int)
    | NoFolder
    | Exported(exported: int, manifest: Manifest, errors: seq<Message>, measured: seq<Path>, drawn: seq<Plan>)

  /** "Export generated" reports a failed save by the target's name where
      "Generate" gives the path. */
  function NameMessage(m: Message, name: string): Message {
    match m
    case SaveFailed(_) => NamedSaveFailed(name)
    case SaveRaised(_, reason) => NamedSaveRaised(name, reason)
    case _ => m
  }

  /** The messages of an "Export generated" run, in order: one per failed
      step, naming that step's target. */
  function ExportErrors(selected: seq<IconTarget>, steps: seq<Step>): (ms: seq<Message>)
    requires |steps| == |selected|
    ensures |ms| == |Errors(steps)|
    decreases |steps|
  {
    if steps == [] then []
    else
      var n := |steps| - 1;
      ExportErrors(selected[..n], steps[..n]) +
      match steps[n] case Wrote(_) => [] case Failed(m) => [NameMessage(m, selected[n].name)]
  }

  /** Every message of `ExportErrors` is the renamed message of one failed
      step. */
  lemma {:induction false} ExportErrorsFrom(selected: seq<IconTarget>, steps: seq<Step>, m: Message)
    requires |steps| == |selected| && m in ExportErrors(selected, steps)
    ensures exists i :: 0 <= i < |steps| && steps[i].Failed? && m == NameMessage(steps[i].m, selected[i].name)
    decreases |steps|
  {
    var n := |steps| - 1;
    if m in ExportErrors(selected[..n], steps[..n]) {
      ExportErrorsFrom(selected[..n], steps[..n], m);
      var i :| 0 <= i < n && steps[..n][i].Failed? && m == NameMessage(steps[..n][i].m, selected[..n][i].name);
      assert steps[..n][i] == steps[i] && selected[..n][i] == selected[i];
    }
  }

  /** The message "Export generated" reports for a target whose save into
      `dest` failed. */
  predicate NamesFailedSave(m: Message, t: IconTarget, dest: Path, save: Path -> SaveResult) {
    (save(dest) == NotSaved && m == NamedSaveFailed(t.name)) ||
    (save(dest).Raised? && m == NamedSaveRaised(t.name, save(dest).reason))
  }

  /** Every message of an "Export generated" run names one selected target
      whose save into the folder failed: "Failed to save" when the save
      returned false, the exception's text when it raised. */
  lemma ExportErrorNamesTarget(selected: seq<IconTarget>, dests: seq<Path>, defaultSvg: Option<Path>,
                               measure: Path -> IconBounds, save: Path -> SaveResult, m: Message)
    requires |dests| == |selected| && HasSources(selected, defaultSvg)
    requires m in ExportErrors(selected, RenderSteps(selected, dests, defaultSvg, measure, save))
    ensures exists i :: 0 <= i < |selected| && NamesFailedSave(m, selected[i], dests[i], save)
  {
    var steps := RenderSteps(selected, dests, defaultSvg, measure, save);
    ExportErrorsFrom(selected, steps, m);
    var i :| 0 <= i < |steps| && steps[i].Failed? && m == NameMessage(steps[i].m, selected[i].name);
    RenderStepAt(selected, dests, defaultSvg, measure, save, i);
    FailedStepNamed(selected[i], dests[i], defaultSvg, measure, save, steps[i], m);
  }

  /** A failed save of one target, renamed, names that target's failure. */
  lemma FailedStepNamed(t: IconTarget, dest: Path, defaultSvg: Option<Path>, measure: Path -> IconBounds,
                        save: Path -> SaveResult, step: Step, m: Message)
    requires HasSource(t, defaultSvg)
    requires step == RenderStep(t, dest, defaultSvg, measure, save)
    requires step.Failed? && m == NameMessage(step.m, t.name)
    ensures NamesFailedSave(m, t, dest, save)
  {
  }

  /** The manifest built by assigning `keys[i]` to `values[i]` in order,
      for each `i` whose flag is set. */
  function ManifestOf(keys: seq<string>, values: seq<string>, flags: seq<bool>): Manifest
    requires |values| == |keys| && |flags| == |keys|
    decreases |keys|
  {
    if keys == [] then []
    else
      var n := |keys| - 1;
      var prev := ManifestOf(keys[..n], values[..n], flags[..n]);
      if flags[n] then Assign(prev, keys[n], values[n]) else prev
  }

  lemma ManifestOfSnoc(keys: seq<string>, values: seq<string>, flags: seq<bool>, i: int)
    requires |values| == |keys| && |flags| == |keys| && 0 <= i < |keys|
    ensures ManifestOf(keys[..i + 1], values[..i + 1], flags[..i + 1]) ==
      var prev := ManifestOf(keys[..i], values[..i], flags[..i]);
      if flags[i] then Assign(prev, keys[i], values[i]) else prev
  {
    assert keys[..i + 1][..i] == keys[..i] && values[..i + 1][..i] == values[..i] && flags[..i + 1][..i] == flags[..i];
  }

  /** A manifest built by assignment has one entry per key. */
  lemma {:induction false} ManifestOfDistinct(keys: seq<string>, values: seq<string>, flags: seq<bool>)
    requires |values| == |keys| && |flags| == |keys|
    ensures DistinctKeys(ManifestOf(keys, values, flags))
    decreases |keys|
  {
    if keys != [] {
      var n := |keys| - 1;
      ManifestOfDistinct(keys[..n], values[..n], flags[..n]);
      if flags[n] {
        AssignLookup(ManifestOf(keys[..n], values[..n], flags[..n]), keys[n], values[n]);
      }
    }
  }

  /** A flagged key that no later flagged entry reuses keeps its own value. */
  lemma {:induction false} ManifestOfMaps(keys: seq<string>, values: seq<string>, flags: seq<bool>, i: int)
    requires |values| == |keys| && |flags| == |keys| && 0 <= i < |keys| && flags[i]
    requires forall j :: i < j < |keys| && flags[j] ==> keys[j] != keys[i]
    ensures Lookup(ManifestOf(keys, values, flags), keys[i]) == Some(values[i])
    decreases |keys|
  {
    var n := |keys| - 1;
    var prev := ManifestOf(keys[..n], values[..n], flags[..n]);
    ManifestOfDistinct(keys[..n], values[..n], flags[..n]);
    if i < n {
      assert keys[..n][i] == keys[i] && values[..n][i] == values[i] && flags[..n][i];
      forall j | i < j < n && flags[..n][j] ensures keys[..n][j] != keys[..n][i] {
        assert keys[..n][j] == keys[j] && flags[..n][j] == flags[j];
      }
      ManifestOfMaps(keys[..n], values[..n], flags[..n], i);
      if flags[n] {
        AssignLookup(prev, keys[n], values[n]);
      }
    } else {
      AssignLookup(prev, keys[i], values[i]);
    }
  }

  /** Each target's name in an export folder. */
  function ExportKeys(selected: seq<IconTarget>, root: Path): (ks: seq<string>)
    ensures |ks| == |selected| && forall i :: 0 <= i < |selected| ==> ks[i] == SafeName(RelPath(selected[i], root))
  {
    seq(|selected|, i requires 0 <= i < |selected| => SafeName(RelPath(selected[i], root)))
  }

  /** Each target's `rel_path`. */
  function ExportValues(selected: seq<IconTarget>, root: Path): (vs: seq<string>)
    ensures |vs| == |selected| && forall i :: 0 <= i < |selected| ==> vs[i] == RelPath(selected[i], root)
  {
    seq(|selected|, i requires 0 <= i < |selected| => RelPath(selected[i], root))
  }

  /** The manifest of an export: for each target that was exported, its safe
      name mapped to its `rel_path`. */
  function ExportManifest(selected: seq<IconTarget>, exported: seq<bool>, root: Path): Manifest
    requires |exported| == |selected|
  {
    ManifestOf(ExportKeys(selected, root), ExportValues(selected, root), exported)
  }

  /** The manifest has one entry per name, and an exported target whose safe
      name no later exported target shares is mapped to its own `rel_path`. */
  lemma ExportManifestMapsTarget(selected: seq<IconTarget>, exported: seq<bool>, root: Path, i: int)
    requires |exported| == |selected| && 0 <= i < |selected| && exported[i]
    requires forall j :: i < j < |selected| && exported[j] ==>
      SafeName(RelPath(selected[j], root)) != SafeName(RelPath(selected[i], root))
    ensures DistinctKeys(ExportManifest(selected, exported, root))
    ensures Lookup(ExportManifest(selected, exported, root), SafeName(RelPath(selected[i], root))) ==
      Some(RelPath(selected[i], root))
  {
    var keys, values := ExportKeys(selected, root), ExportValues(selected, root);
    ManifestOfDistinct(keys, values, exported);
    ManifestOfMaps(keys, values, exported, i);
  }

  /** Export, then import of the ZIP made of the export folder: a target
      exported under a name no later target reuses, whose file the ZIP
      holds, is found and written back to its own path. */
  lemma ExportedTargetComesBack(selected: seq<IconTarget>, exported: seq<bool>, root: Path, i: int,
                                zipNames: set<string>, prefix: string)
    requires |exported| == |selected| && 0 <= i < |selected| && exported[i]
    requires forall j :: i < j < |selected| && exported[j] ==>
      SafeName(RelPath(selected[j], root)) != SafeName(RelPath(selected[i], root))
    requires Valid(selected[i].path)
    requires RelativeTo(selected[i].path, root).Some? || selected[i].path.absolute
    requires prefix + SafeName(RelPath(selected[i], root)) in zipNames
    ensures var rel := RelPath(selected[i], root);
      Found(prefix + SafeName(rel), selected[i].path, rel)
        in FoundSpec(ExportManifest(selected, exported, root), zipNames, prefix, root)
  {
    ExportManifestMapsTarget(selected, exported, root, i);
    ExportThenImport(selected[i], root, ExportManifest(selected, exported, root), zipNames, prefix);
  }

  /** The number of `true` flags. */
  function Count(flags: seq<bool>): (n: nat)
    ensures n <= |flags|
  {
    if flags == [] then 0
    else Count(flags[..|flags| - 1]) + (if flags[|flags| - 1] then 1 else 0)
  }

  lemma CountSnoc(flags: seq<bool>, i: int)
    requires 0 <= i < |flags|
    ensures Count(flags[..i + 1]) == Count(flags[..i]) + if flags[i] then 1 else 0
  {
    assert flags[..i + 1][..i] == flags[..i];
  }

  /** Whether each step wrote its file. */
  function WroteFlags(steps: seq<Step>): (ok: seq<bool>)
    ensures |ok| == |steps| && forall i :: 0 <= i < |steps| ==> ok[i] == steps[i].Wrote?
  {
    seq(|steps|, i requires 0 <= i < |steps| => steps[i].Wrote?)
  }

  /** The files counted by an export are the files its steps wrote. */
  lemma {:induction false} CountWroteFlags(steps: seq<Step>)
    ensures Count(WroteFlags(steps)) == |Writes(steps)|
    decreases |steps|
  {
    if steps != [] {
      var n := |steps| - 1;
      CountWroteFlags(steps[..n]);
      assert WroteFlags(steps)[..n] == WroteFlags(steps[..n]);
    }
  }

  /** The destination of each target in an export folder. */
  function ExportPaths(selected: seq<IconTarget>, folder: Path, root: Path): (ps: seq<Path>)
    ensures |ps| == |selected|
    ensures forall i :: 0 <= i < |selected| ==> ps[i] == Child(folder, SafeName(RelPath(selected[i], root)))
  {
    seq(|selected|, i requires 0 <= i < |selected| => Child(folder, SafeName(RelPath(selected[i], root))))
  }

  /** The targets' own paths. */
  function OwnPaths(selected: seq<IconTarget>): (ps: seq<Path>)
    ensures |ps| == |selected| && forall i :: 0 <= i < |selected| ==> ps[i] == selected[i].path
  {
    seq(|selected|, i requires 0 <= i < |selected| => selected[i].path)
  }

  /** Whether copying each target's file to its destination succeeded;
      `copies(source, dest)` stands for `shutil.copy2` not raising. */
  function CopiedFlags(selected: seq<IconTarget>, dests: seq<Path>, copies: (Path, Path) -> bool): (ok: seq<bool>)
    requires |dests| == |selected|
    ensures |ok| == |selected|
    ensures forall i :: 0 <= i < |selected| ==> ok[i] == copies(selected[i].path, dests[i])
  {
    seq(|selected|, i requires 0 <= i < |selected| => copies(selected[i].path, dests[i]))
  }

  /** The copy loop of an export: each target's file is copied to
      `folder / safe name`, and each copy that succeeds is counted and
      entered in the manifest under the target's safe name, later names
      replacing earlier ones. */
  method CopyAll(selected: seq<IconTarget>, folder: Path, root: Path, copies: (Path, Path) -> bool)
    returns (exported: int, m: Manifest)
    ensures var ok := CopiedFlags(selected, ExportPaths(selected, folder, root), copies);
      m == ExportManifest(selected, ok, root) && exported == Count(ok)
  {
    var ok := CopiedFlags(selected, ExportPaths(selected, folder, root), copies);
    exported, m := Tally(ExportKeys(selected, root), ExportValues(selected, root), ok);
  }

  /** The bookkeeping of the copy loop, entry by entry: when `copied[i]`,
      one more file is counted and `keys[i]` is assigned `values[i]`. */
  method Tally(keys: seq<string>, values: seq<string>, copied: seq<bool>) returns (count: int, m: Manifest)
    requires |values| == |keys| && |copied| == |keys|
    ensures m == ManifestOf(keys, values, copied)
    ensures count == Count(copied)
  {
    m := [];
    count := 0;
    var i := 0;
    while i < |keys|
      invariant 0 <= i <= |keys|
      invariant m == ManifestOf(keys[..i], values[..i], copied[..i])
      invariant count == Count(copied[..i])
    {
      ManifestOfSnoc(keys, values, copied, i);
      CountSnoc(copied, i);
      if copied[i] {
        m := Assign(m, keys[i], values[i]);
        count := count + 1;
      }
      i := i + 1;
    }
    assert keys[..i] == keys && values[..i] == values && copied[..i] == copied;
  }

  // ----------------------------------------------------------------------
  // The table
  // ----------------------------------------------------------------------

  class IconTable {
    /** `self.targets`: one target per row. */
    var targets: seq<IconTarget>
    /** The state of each row's checkbox. */
    var checked: seq<bool>

    ghost predicate Valid()
      reads this
    {
      |checked| == |targets|
    }

    constructor ()
      ensures Valid() && targets == [] && checked == []
    {
      targets := [];
      checked := [];
    }

    /** `_add_icon`: appends a new target in a checked row. */
    method AddIcon(path: Path, name: string, size: int, category: string, bounds: Option<IconBounds>)
      requires Valid()
      modifies this
      ensures Valid()
      ensures targets == old(targets) + [NewTarget(path, name, size, category, bounds)]
      ensures checked == old(checked) + [true]
    {
      targets := targets + [NewTarget(path, name, size, category, bounds)];
      checked := checked + [true];
    }

    /** `_scan_android`: for each mipmap folder of `base` in table order,
        each listed file that exists; `files` is `ANDROID_ICON_FILES` in the
        package and a three-name list in the legacy script, and `layerSized`
        chooses between the sizes as written (what the window passes) and
        the corrected sizes by layer. */
    method ScanAndroid(base: Path, category: string, files: seq<string>, existing: set<Path>,
                       boundsOf: Path -> Option<IconBounds>, layerSized: bool)
      requires Valid()
      modifies this
      ensures Valid()
      ensures targets == old(targets) + AndroidScan(base, 5, files, category, existing, boundsOf, layerSized)
      ensures checked == old(checked) + AllChecked(|targets| - |old(targets)|)
    {
      var j := 0;
      while j < 5
        invariant 0 <= j <= 5 && Valid()
        invariant targets == old(targets) + AndroidScan(base, j, files, category, existing, boundsOf, layerSized)
        invariant checked == old(checked) + AllChecked(|targets| - |old(targets)|)
      {
        ghost var found := AndroidScan(base, j, files, category, existing, boundsOf, layerSized);
        if Child(base, MipmapSizes[j].0) in existing {
          ScanFolder(base, j, files, category, existing, boundsOf, layerSized);
          AllCheckedAppend(|found|, |targets| - |old(targets)| - |found|);
        }
        assert AndroidScan(base, j + 1, files, category, existing, boundsOf, layerSized) == found +
          (if Child(base, MipmapSizes[j].0) in existing
           then FolderScan(base, j, files, category, existing, boundsOf, layerSized) else []);
        j := j + 1;
      }
    }

    /** The inner loop of `_scan_android`: each listed file that exists in
        the `j`-th mipmap folder, in list order. */
    method ScanFolder(base: Path, j: int, files: seq<string>, category: string, existing: set<Path>,
                      boundsOf: Path -> Option<IconBounds>, layerSized: bool)
      requires 0 <= j < |MipmapSizes| && Valid()
      modifies this
      ensures Valid()
      ensures targets == old(targets) + FolderScan(base, j, files, category, existing, boundsOf, layerSized)
      ensures checked == old(checked) + AllChecked(|targets| - |old(targets)|)
    {
      var k := 0;
      while k < |files|
        invariant 0 <= k <= |files| && Valid()
        invariant targets == old(targets) + FolderScan(base, j, files[..k], category, existing, boundsOf, layerSized)
        invariant checked == old(checked) + AllChecked(|targets| - |old(targets)|)
      {
        assert files[..k + 1][..k] == files[..k];
        var path := LayerFile(base, MipmapSizes[j].0, files[k]);
        if path in existing {
          AddIcon(path, files[k], ScanSize(j, files[k], layerSized), category, boundsOf(path));
          assert AllChecked(|targets| - |old(targets)|) == AllChecked(|targets| - 1 - |old(targets)|) + [true];
        }
        k := k + 1;
      }
      assert files[..k] == files;
    }

    /** `_scan_ios`: the icons of the listing, sorted by (size, file name). */
    method ScanIos(base: Path, category: string, listing: IosListing, existing: set<Path>,
                   boundsOf: Path -> Option<IconBounds>)
      requires Valid()
      modifies this
      ensures Valid()
      ensures targets == old(targets) + IosScan(base, category, listing, existing, boundsOf)
      ensures checked == old(checked) + AllChecked(|targets| - |old(targets)|)
    {
      var icons := SortIcons(IosCandidates(base, listing, existing));
      AddIosIcons(icons, category, boundsOf);
    }

    /** The loop of `_scan_ios`: one checked row per icon, in order. */
    method AddIosIcons(icons: seq<IosIcon>, category: string, boundsOf: Path -> Option<IconBounds>)
      requires Valid()
      modifies this
      ensures Valid()
      ensures targets == old(targets) + IosTargets(icons, category, boundsOf)
      ensures checked == old(checked) + AllChecked(|icons|)
    {
      ghost var added := IosTargets(icons, category, boundsOf);
      var i := 0;
      while i < |icons|
        invariant 0 <= i <= |icons| && Valid()
        invariant targets == old(targets) + added[..i]
        invariant checked == old(checked) + AllChecked(i)
      {
        AddIcon(icons[i].path, icons[i].filename, icons[i].size, category, boundsOf(icons[i].path));
        assert added[..i + 1] == added[..i] + [added[i]];
        assert AllChecked(i + 1) == AllChecked(i) + [true];
        i := i + 1;
      }
      assert added[..i] == added;
    }

    method ScanCategory(category: string, base: Path, existing: set<Path>,
                        boundsOf: Path -> Option<IconBounds>, listing: Path -> IosListing)
      requires Valid()
      modifies this
      ensures Valid()
      ensures targets == old(targets) + CategoryScan(category, base, existing, boundsOf, listing)
      ensures checked == old(checked) + AllChecked(|targets| - |old(targets)|)
    {
      if base in existing {
        if Contains(category, "android") {
          ScanAndroid(base, category, AndroidIconFiles, existing, boundsOf, false);
        } else {
          ScanIos(base, category, listing(base), existing, boundsOf);
        }
      }
    }

    /** `_scan_targets`: empties the table, then scans the four categories
        in order, each whose folder exists. */
    method ScanTargets(root: Path, existing: set<Path>, boundsOf: Path -> Option<IconBounds>,
                       listing: Path -> IosListing)
      modifies this
      ensures Valid()
      ensures targets == ProjectScan(Categories(root), existing, boundsOf, listing)
      ensures checked == AllChecked(|targets|)
    {
      targets, checked := [], [];
      var cats := Categories(root);
      var c := 0;
      while c < |cats|
        invariant 0 <= c <= |cats| && Valid()
        invariant targets == ProjectScan(cats[..c], existing, boundsOf, listing)
        invariant checked == AllChecked(|targets|)
      {
        ProjectScanSnoc(cats, existing, boundsOf, listing, c);
        ghost var before := targets;
        ScanCategory(cats[c].0, cats[c].1, existing, boundsOf, listing);
        AllCheckedAppend(|before|, |targets| - |before|);
        c := c + 1;
      }
      assert cats[..c] == cats;
    }

    /** `_select_category`: checks exactly the rows whose category contains
        `category`. */
    method SelectCategory(category: string)
      requires Valid()
      modifies this
      ensures Valid() && targets == old(targets)
      ensures forall i :: 0 <= i < |checked| ==> checked[i] == Contains(targets[i].category, category)
    {
      var i := 0;
      while i < |checked|
        invariant 0 <= i <= |checked| && Valid() && targets == old(targets)
        invariant forall k :: 0 <= k < i ==> checked[k] == Contains(targets[k].category, category)
      {
        checked := checked[i := Contains(targets[i].category, category)];
        i := i + 1;
      }
    }

    /** `_get_selected_targets` */
    method SelectedTargets() returns (selected: seq<IconTarget>)
      requires Valid()
      ensures selected == Selected(targets, checked)
    {
      selected := [];
      var i := 0;
      while i < |targets|
        invariant 0 <= i <= |targets|
        invariant selected == Selected(targets[..i], checked[..i])
      {
        assert targets[..i + 1][..i] == targets[..i] && checked[..i + 1][..i] == checked[..i];
        if checked[i] {
          selected := selected + [targets[i]];
        }
        i := i + 1;
      }
      assert targets[..i] == targets && checked[..i] == checked;
    }

    /** Sets the override of the rows `rows` to `o`. */
    method ApplyOverride(rows: seq<int>, o: Option<Path>)
      requires Valid() && forall k :: 0 <= k < |rows| ==> 0 <= rows[k] < |targets|
      modifies this
      ensures Valid() && checked == old(checked)
      ensures targets == WithOverride(old(targets), rows, o)
    {
      var k := 0;
      while k < |rows|
        invariant 0 <= k <= |rows| && Valid() && checked == old(checked)
        invariant targets == WithOverride(old(targets), rows[..k], o)
      {
        var r := rows[k];
        targets := targets[r := targets[r].(overridePath := o)];
        assert forall i :: i in rows[..k + 1] <==> i in rows[..k] || i == r by {
          assert rows[..k + 1] == rows[..k] + [r];
        }
        k := k + 1;
      }
      assert rows[..k] == rows;
    }

    /** `_set_override`: with rows selected and a file chosen that passes
        its check, every selected row takes the file as override; otherwise
        nothing changes. */
    method SetOverride(rows: seq<int>, picked: Option<Path>, loads: Path -> bool, svgValid: Path -> bool)
      returns (applied: bool)
      requires Valid() && forall k :: 0 <= k < |rows| ==> 0 <= rows[k] < |targets|
      modifies this
      ensures Valid() && checked == old(checked)
      ensures applied <==> rows != [] && picked.Some? && OverrideAccepted(picked.value, loads, svgValid)
      ensures targets == if applied then WithOverride(old(targets), rows, picked) else old(targets)
    {
      if rows == [] || picked.None? || !OverrideAccepted(picked.value, loads, svgValid) {
        return false;
      }
      ApplyOverride(rows, picked);
      applied := true;
    }

    /** `_clear_override`: the selected rows lose their override. */
    method ClearOverride(rows: seq<int>)
      requires Valid() && forall k :: 0 <= k < |rows| ==> 0 <= rows[k] < |targets|
      modifies this
      ensures Valid() && checked == old(checked)
      ensures targets == WithOverride(old(targets), rows, None)
    {
      ApplyOverride(rows, None);
    }

    /** `_generate_icons`: refuses an empty selection, and a selection with a
        target that has no source, reporting how many; after confirmation,
        draws and saves every selected target over its own file. */
    method GenerateIcons(defaultSvg: Option<Path>, confirmed: bool, measure: Path -> IconBounds,
                         save: Path -> SaveResult) returns (g: Generation)
      requires Valid()
      ensures Selected(targets, checked) == [] <==> g == NoTargets
      ensures Selected(targets, checked) != [] && Missing(Selected(targets, checked), defaultSvg) != [] ==>
        g == MissingSources(|Missing(Selected(targets, checked), defaultSvg)|)
      ensures g.MissingSources? <==>
        Selected(targets, checked) != [] && Missing(Selected(targets, checked), defaultSvg) != []
      ensures Selected(targets, checked) != [] && Missing(Selected(targets, checked), defaultSvg) == [] ==>
        (g == Declined <==> !confirmed) && (confirmed ==> g.Generated?)
      ensures g.Generated? ==>
        HasSources(Selected(targets, checked), defaultSvg) &&
        var steps := RenderSteps(Selected(targets, checked), OwnPaths(Selected(targets, checked)), defaultSvg, measure, save);
        g.written == Writes(steps) && g.errors == Errors(steps) &&
        |g.written| + |g.errors| == |Selected(targets, checked)| &&
        NoDuplicates(g.measured) &&
        (forall p :: p in g.measured <==> p in SvgSources(Selected(targets, checked), defaultSvg)) &&
        |g.drawn| == |Selected(targets, checked)| &&
        forall i :: 0 <= i < |g.drawn| ==> g.drawn[i] == PlanFor(Selected(targets, checked)[i], defaultSvg, measure)
    {
      var selected := SelectedTargets();
      if selected == [] {
        return NoTargets;
      }
      var missing := Missing(selected, defaultSvg);
      if missing != [] {
        return MissingSources(|missing|);
      }
      if !confirmed {
        return Declined;
      }
      GuardIffEverySourceKnown(selected, defaultSvg);
      var steps, measured, plans := RenderAll(selected, OwnPaths(selected), defaultSvg, measure, save);
      StepsAccounted(steps);
      g := Generated(Writes(steps), Errors(steps), measured, plans);
    }

    /** `_export_icons`: copies every selected target into `folder` under its
        safe name; each copy that succeeds enters the manifest. */
    method ExportIcons(root: Path, folder: Option<Path>, copies: (Path, Path) -> bool)
      returns (exported: int, manifest: Option<Manifest>)
      requires Valid()
      ensures Selected(targets, checked) == [] || folder.None? <==> manifest.None?
      ensures manifest.Some? ==>
        var selected := Selected(targets, checked);
        var ok := CopiedFlags(selected, ExportPaths(selected, folder.value, root), copies);
        manifest.value == ExportManifest(selected, ok, root) && exported == Count(ok)
    {
      var selected := SelectedTargets();
      if selected == [] || folder.None? {
        return 0, None;
      }
      var m;
      exported, m := CopyAll(selected, folder.value, root, copies);
      manifest := Some(m);
    }

    /** `_export_generated_icons`: the same refusals as "Generate", then,
        once a folder is chosen, every selected target is drawn and saved
        into the folder under its safe name; each save that succeeds is
        counted and entered in the manifest. */
    method ExportGeneratedIcons(root: Path, defaultSvg: Option<Path>, folder: Option<Path>,
                                measure: Path -> IconBounds, save: Path -> SaveResult) returns (e: GeneratedExport)
      requires Valid()
      ensures Selected(targets, checked) == [] <==> e == NothingSelected
      ensures Selected(targets, checked) != [] && Missing(Selected(targets, checked), defaultSvg) != [] ==>
        e == SourcesMissing(|Missing(Selected(targets, checked), defaultSvg)|)
      ensures e.SourcesMissing? <==>
        Selected(targets, checked) != [] && Missing(Selected(targets, checked), defaultSvg) != []
      ensures Selected(targets, checked) != [] && Missing(Selected(targets, checked), defaultSvg) == [] ==>
        (e == NoFolder <==> folder.None?) && (folder.Some? ==> e.Exported?)
      ensures e.Exported? ==>
        folder.Some? && HasSources(Selected(targets, checked), defaultSvg) &&
        var selected := Selected(targets, checked);
        var steps := RenderSteps(selected, ExportPaths(selected, folder.value, root), defaultSvg, measure, save);
        e.manifest == ExportManifest(selected, WroteFlags(steps), root) &&
        e.exported == |Writes(steps)| && e.errors == ExportErrors(selected, steps) &&
        e.exported + |e.errors| == |selected| &&
        NoDuplicates(e.measured) &&
        (forall p :: p in e.measured <==> p in SvgSources(selected, defaultSvg)) &&
        |e.drawn| == |selected| &&
        forall i :: 0 <= i < |selected| ==> e.drawn[i] == PlanFor(selected[i], defaultSvg, measure)
    {
      var selected := SelectedTargets();
      if selected == [] {
        return NothingSelected;
      }
      var missing := Missing(selected, defaultSvg);
      if missing != [] {
        return SourcesMissing(|missing|);
      }
      if folder.None? {
        return NoFolder;
      }
      GuardIffEverySourceKnown(selected, defaultSvg);
      var steps, measured, plans := RenderAll(selected, ExportPaths(selected, folder.value, root), defaultSvg, measure, save);
      var exported, m := Tally(ExportKeys(selected, root), ExportValues(selected, root), WroteFlags(steps));
      CountWroteFlags(steps);
      StepsAccounted(steps);
      e := Exported(exported, m, ExportErrors(selected, steps), measured, plans);
    }
  }
}
