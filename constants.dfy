/** Fixed tables of the icon manager: the Android density tables, the icon
    file names and the project directories it scans. */
module Constants {
  import opened Paths

  /** A density table in declaration order: mipmap folder name and pixel size. */
  type SizeTable = seq<(string, int)>

  /** `MIPMAP_SIZES`: legacy launcher icons, 48dp at each density. */
  const MipmapSizes: SizeTable := [
    ("mipmap-mdpi", 48),
    ("mipmap-hdpi", 72),
    ("mipmap-xhdpi", 96),
    ("mipmap-xxhdpi", 144),
    ("mipmap-xxxhdpi", 192)
  ]

  /** `ADAPTIVE_ICON_SIZES`: adaptive icon layers, 108dp at each density. */
  const AdaptiveIconSizes: SizeTable := [
    ("mipmap-mdpi", 108),
    ("mipmap-hdpi", 162),
    ("mipmap-xhdpi", 216),
    ("mipmap-xxhdpi", 324),
    ("mipmap-xxxhdpi", 432)
  ]

  /** Android's density multipliers for mdpi, hdpi, xhdpi, xxhdpi, xxxhdpi. */
  const DensityScales: seq<real> := [1.0, 1.5, 2.0, 3.0, 4.0]

  /** `ANDROID_LEGACY_ICONS` */
  const AndroidLegacyIcons: seq<string> := ["ic_launcher.png", "ic_launcher_round.png"]

  /** `ANDROID_ADAPTIVE_ICONS` */
  const AndroidAdaptiveIcons: seq<string> := ["ic_launcher_foreground.png", "ic_launcher_background.png"]

  /** `ANDROID_ICON_FILES` */
  const AndroidIconFiles: seq<string> := AndroidLegacyIcons + AndroidAdaptiveIcons

  /** The folder names of a table, in order. */
  function Keys(table: SizeTable): (ks: seq<string>)
    ensures |ks| == |table|
    ensures forall i :: 0 <= i < |table| ==> ks[i] == table[i].0
  {
    if table == [] then [] else [table[0].0] + Keys(table[1..])
  }

  /** The project directories, all below the project root (the folder three
      levels above the package, supplied as `root`). */
  function AndroidResDir(root: Path): Path { Descend(root, ["android", "app", "src", "main", "res"]) }
  function IosAssetsDir(root: Path): Path { Descend(root, ["ios", "Mattermost", "Images.xcassets", "AppIcon.appiconset"]) }
  function AssetsAndroidDir(root: Path): Path { Descend(root, ["assets", "base", "release", "icons", "android"]) }
  function AssetsIosDir(root: Path): Path { Descend(root, ["assets", "base", "release", "icons", "ios"]) }

  /** Every mipmap size is 48dp times the density multiplier. */
  lemma MipmapSizesAre48dp()
    ensures |MipmapSizes| == |DensityScales| == 5
    ensures forall i :: 0 <= i < 5 ==> MipmapSizes[i].1 as real == 48.0 * DensityScales[i]
  {
  }

  /** The adaptive table has the mipmap table's folders in the same order,
      and every size is the mipmap size scaled by 108/48. */
  lemma AdaptiveSizesAre108dp()
    ensures Keys(AdaptiveIconSizes) == Keys(MipmapSizes)
    ensures forall i :: 0 <= i < 5 ==> AdaptiveIconSizes[i].1 * 48 == MipmapSizes[i].1 * 108
  {
  }

  /** Both tables grow strictly in declaration order and have distinct keys. */
  lemma SizeTablesIncreasing()
    ensures forall i, j :: 0 <= i < j < 5 ==> MipmapSizes[i].1 < MipmapSizes[j].1
    ensures forall i, j :: 0 <= i < j < 5 ==> AdaptiveIconSizes[i].1 < AdaptiveIconSizes[j].1
    ensures forall i, j :: 0 <= i < j < 5 ==> MipmapSizes[i].0 != MipmapSizes[j].0
  {
  }

  /** `ANDROID_ICON_FILES` is the legacy names then the adaptive names: four
      distinct file names. */
  lemma AndroidIconFilesDistinct()
    ensures |AndroidIconFiles| == 4
    ensures AndroidIconFiles[..2] == AndroidLegacyIcons && AndroidIconFiles[2..] == AndroidAdaptiveIcons
    ensures forall i, j :: 0 <= i < j < 4 ==> AndroidIconFiles[i] != AndroidIconFiles[j]
  {
  }
}
