/** The older single-file icon manager.  Its bounds detector, bounds
    predicates, compositors, checkerboard, selection, source choice and
    generation loop are the package's code over again and are modelled by
    the package's members; this module holds what it does differently. */
module LegacyIconManager {
  import opened Text
  import opened Paths
  import opened Models
  import opened Constants
  import opened MainWindow

  // ----------------------------------------------------------------------
  // The Android scan
  // ----------------------------------------------------------------------

  /** The mipmap table the legacy `_scan_android` writes out inline. */
  const LegacyMipmapSizes: SizeTable := [
    ("mipmap-mdpi", 48),
    ("mipmap-hdpi", 72),
    ("mipmap-xhdpi", 96),
    ("mipmap-xxhdpi", 144),
    ("mipmap-xxxhdpi", 192)
  ]

  /** The file names the legacy `_scan_android` looks for. */
  const LegacyIconFiles: seq<string> := ["ic_launcher.png", "ic_launcher_round.png", "ic_launcher_foreground.png"]

  /** The inline table is `MIPMAP_SIZES`; the file list is the package's
      `ANDROID_ICON_FILES` without its last name, the background layer. */
  lemma LegacyTablesAgree()
    ensures LegacyMipmapSizes == MipmapSizes
    ensures LegacyIconFiles == AndroidIconFiles[..3]
    ensures AndroidIconFiles[3] == "ic_launcher_background.png" && AndroidIconFiles[3] !in LegacyIconFiles
  {
  }

  /** What the legacy `_scan_android` adds for one base directory: the
      package scan over the three names, every file at its mipmap size. */
  function LegacyAndroidScan(base: Path, category: string, existing: set<Path>,
                             boundsOf: Path -> Option<IconBounds>): seq<IconTarget>
  {
    AndroidScan(base, 5, LegacyIconFiles, category, existing, boundsOf, false)
  }

  /** The legacy scan adds exactly the three names that exist in an existing
      mipmap folder, each at its folder's mipmap size; the background layer
      is never listed, whatever exists on disk. */
  lemma LegacyScanMembership(base: Path, category: string, existing: set<Path>,
                             boundsOf: Path -> Option<IconBounds>, t: IconTarget)
    ensures t in LegacyAndroidScan(base, category, existing, boundsOf) <==>
      exists j, k :: 0 <= j < 5 && 0 <= k < 3 && ScanEntry(t, base, j, LegacyIconFiles[k], category, existing, boundsOf, false)
    ensures t in LegacyAndroidScan(base, category, existing, boundsOf) ==>
      t.name != "ic_launcher_background.png" && exists j :: 0 <= j < 5 && t.width == MipmapSizes[j].1
  {
    AndroidScanMembership(base, 5, LegacyIconFiles, category, existing, boundsOf, false, t);
    if t in LegacyAndroidScan(base, category, existing, boundsOf) {
      var j, k :| 0 <= j < 5 && 0 <= k < 3 && ScanEntry(t, base, j, LegacyIconFiles[k], category, existing, boundsOf, false);
      assert t.name == LegacyIconFiles[k] && t.width == MipmapSizes[j].1;
    }
  }

  /** The legacy scan visits the mipmap folders in table order: the sizes it
      gives never decrease along the table. */
  lemma LegacyScanInDensityOrder(base: Path, category: string, existing: set<Path>,
                                 boundsOf: Path -> Option<IconBounds>)
    ensures WidthsNondecreasing(LegacyAndroidScan(base, category, existing, boundsOf))
  {
    AsWrittenScanInDensityOrder(base, 5, LegacyIconFiles, category, existing, boundsOf);
  }

  // ----------------------------------------------------------------------
  // override_is_png
  // ----------------------------------------------------------------------

  /** The legacy `override_is_png` is `override_path and <suffix test>`:
      `None` itself when there is no override, otherwise the test's boolean. */
  function LegacyOverrideIsPng(t: IconTarget): (r: Option<bool>)
    ensures r.None? <==> t.overridePath.None?
  {
    if t.overridePath.None? then None
    else Some(LowerEquals(Suffix(Name(t.overridePath.value)), ".png"))
  }

  /** Python truthiness of the legacy result. */
  predicate Truthy(r: Option<bool>) {
    r.Some? && r.value
  }

  /** Read as a condition, the legacy property agrees with the package's
      `override_is_png` on every target. */
  lemma LegacyOverrideIsPngAgrees(t: IconTarget)
    ensures Truthy(LegacyOverrideIsPng(t)) <==> OverrideIsPng(t)
  {
    if t.overridePath.Some? {
      PngNameIff(Name(t.overridePath.value));
    }
  }

  // ----------------------------------------------------------------------
  // Padding shown for the loaded SVG
  // ----------------------------------------------------------------------

  /** The share of the image, in whole percent, that cropping removes:
      100 minus the box's area as a floored percentage of the image area. */
  function PaddingPercent(b: IconBounds): (pct: int)
    requires b.imageWidth > 0 && b.imageHeight > 0
    ensures b.width >= 0 && b.height >= 0 ==> pct <= 100
    ensures b.width * b.height == b.imageWidth * b.imageHeight ==> pct == 0
  {
    AreaShare(b.width, b.height, b.imageWidth * b.imageHeight);
    100 - (b.width * b.height * 100) / (b.imageWidth * b.imageHeight)
  }

  /** The floored percentage of a box's area in an image's `area` is not
      negative for a box of non-negative sides, and is 100 when the two areas
      are equal. */
  lemma AreaShare(w: int, h: int, area: int)
    requires area > 0
    ensures w >= 0 && h >= 0 ==> (w * h * 100) / area >= 0
    ensures w * h == area ==> (w * h * 100) / area == 100
  {
    var n := w * h;
    if w >= 0 && h >= 0 {
      NonNegProduct(w, h);
    }
    if n == area {
      assert n * 100 == area * 100;
      assert (area * 100) / area == 100;
    }
  }

  lemma NonNegProduct(w: int, h: int)
    requires w >= 0 && h >= 0
    ensures w * h >= 0
  {
  }

  /** For a box inside its image that is not the whole image, the padding
      shown is between 1 and 100 percent; it is 100 exactly when the box
      covers less than 1% of the image. */
  lemma PaddingPercentInRange(b: IconBounds)
    requires Inside(b) && b.imageWidth > 0 && b.imageHeight > 0 && !IsFull(b)
    ensures 1 <= PaddingPercent(b) <= 100
    ensures PaddingPercent(b) == 100 <==> b.width * b.height * 100 < b.imageWidth * b.imageHeight
  {
    var area, image := b.width * b.height, b.imageWidth * b.imageHeight;
    AreaBelowImage(b);
    Percentage(area * 100, image);
  }

  /** Floored division of `n` in [0, 100 d) by `d` lies in [0, 100), and is
      0 exactly when `n < d`. */
  lemma Percentage(n: int, d: int)
    requires 0 < d && 0 <= n < 100 * d
    ensures 0 <= n / d < 100
    ensures n / d == 0 <==> n < d
  {
    var q, r := n / d, n % d;
    assert n == q * d + r && 0 <= r < d;
    if q < 0 {
      MulStrict(0, -q, d);
    }
    if q >= 100 {
      MulMono(100, q, d);
    }
    if q >= 1 {
      MulMono(1, q, d);
    }
  }

  /** A box inside a non-null image that is not the whole image has a
      smaller area than the image. */
  lemma AreaBelowImage(b: IconBounds)
    requires Inside(b) && b.imageWidth > 0 && b.imageHeight > 0 && !IsFull(b)
    ensures 0 <= b.width * b.height < b.imageWidth * b.imageHeight
  {
    var w, h, iw, ih := b.width, b.height, b.imageWidth, b.imageHeight;
    if w < iw {
      MulMono(h, ih, w);
      MulStrict(w, iw, ih);
    } else {
      assert h < ih;
      MulMono(w, iw, h);
      MulStrict(h, ih, iw);
    }
  }

  lemma MulMono(a: int, c: int, k: int)
    requires 0 <= a <= c && 0 <= k
    ensures 0 <= k * a <= k * c && 0 <= a * k <= c * k
  {
  }

  lemma MulStrict(a: int, c: int, k: int)
    requires 0 <= a < c && 0 < k
    ensures a * k < c * k && k * a < k * c
  {
  }
}
