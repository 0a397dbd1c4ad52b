/** The two records of the icon manager: `IconBounds`, the box of visible
    content inside an image, and `IconTarget`, one icon file to regenerate. */
module Models {
  import opened Text
  import opened Paths

  /** Bounding box of non-transparent content in an image of
      `imageWidth` x `imageHeight` pixels. */
  datatype IconBounds = IconBounds(x: int, y: int, width: int, height: int, imageWidth: int, imageHeight: int)

  /** `IconBounds()`: every field defaults to 0. */
  const NoBounds := IconBounds(0, 0, 0, 0, 0, 0)

  /** `is_full`: the box is the whole image, so there is no padding. */
  predicate IsFull(b: IconBounds) {
    b.x == 0 && b.y == 0 && b.width == b.imageWidth && b.height == b.imageHeight
  }

  /** `is_empty`: the box has zero area. */
  predicate IsEmpty(b: IconBounds) {
    b.width == 0 || b.height == 0
  }

  /** The box lies inside its image and has no negative extent. */
  predicate Inside(b: IconBounds) {
    0 <= b.x && 0 <= b.y && 0 <= b.width && 0 <= b.height &&
    b.x + b.width <= b.imageWidth && b.y + b.height <= b.imageHeight
  }

  /** Pixel (px, py) lies in the box. */
  predicate Covers(b: IconBounds, px: int, py: int) {
    b.x <= px < b.x + b.width && b.y <= py < b.y + b.height
  }

  /** The default bounds are at the same time full and empty. */
  lemma NoBoundsFullAndEmpty()
    ensures IsFull(NoBounds) && IsEmpty(NoBounds)
  {
  }

  /** For a box inside a non-null image, `is_full` means exactly that the box
      covers every pixel of the image. */
  lemma FullIffCoversImage(b: IconBounds)
    requires Inside(b) && b.imageWidth >= 1 && b.imageHeight >= 1
    ensures IsFull(b) <==>
      forall px, py :: 0 <= px < b.imageWidth && 0 <= py < b.imageHeight ==> Covers(b, px, py)
  {
    if forall px, py :: 0 <= px < b.imageWidth && 0 <= py < b.imageHeight ==> Covers(b, px, py) {
      assert Covers(b, 0, 0);
      assert Covers(b, b.imageWidth - 1, b.imageHeight - 1);
    }
  }

  /** For a box inside its image, `is_empty` means exactly that the box covers
      no pixel at all. */
  lemma EmptyIffCoversNothing(b: IconBounds)
    requires Inside(b)
    ensures IsEmpty(b) <==> forall px, py :: !Covers(b, px, py)
  {
    if !IsEmpty(b) {
      assert Covers(b, b.x, b.y);
    }
  }

  /** One icon file to generate: its display name, the pixel size it must
      have, where it lives, its category ("android", "ios", "assets_android",
      "assets_ios"), the content bounds measured from the file currently on
      disk, and an optional override source (SVG or PNG). */
  datatype IconTarget = IconTarget(
    name: string,
    width: int,
    height: int,
    path: Path,
    category: string,
    bounds: Option<IconBounds>,
    overridePath: Option<Path>)

  /** `rel_path`: the path relative to the project root when it lies under
      it, otherwise the whole path, as a string. */
  function RelPath(t: IconTarget, root: Path): string {
    match RelativeTo(t.path, root)
    case Some(rel) => Str(rel)
    case None => Str(t.path)
  }

  /** Under the root, `rel_path` is what remains of the path once the root's
      names are stripped: it parses back to exactly those names, and the
      root's string, a '/', and `rel_path` spell the full path. */
  lemma RelPathStripsRoot(t: IconTarget, root: Path, rest: seq<string>)
    requires t.path == Descend(root, rest) && Valid(t.path)
    ensures Parse(RelPath(t, root)) == Path(false, rest)
    ensures root.names != [] && rest != [] ==> Str(root) + "/" + RelPath(t, root) == Str(t.path)
  {
    assert t.path.names[..|root.names|] == root.names;
    assert t.path.names[|root.names|..] == rest;
    var rel := Path(false, rest);
    assert RelativeTo(t.path, root) == Some(rel);
    assert Valid(rel) by {
      forall i | 0 <= i < |rest| ensures ValidName(rest[i]) {
        assert rest[i] == t.path.names[|root.names| + i];
      }
    }
    ParseStr(rel);
    if root.names != [] && rest != [] {
      JoinAppend(root.names, rest, "/");
    }
  }

  /** Outside the root, `rel_path` is the path's own string. */
  lemma RelPathOutsideRoot(t: IconTarget, root: Path)
    requires forall ns :: Descend(root, ns) != t.path
    ensures RelPath(t, root) == Str(t.path)
  {
  }

  /** `override_is_png`: there is an override and its suffix, lower-cased,
      is ".png".  The suffix test is stated through `PngName`, which
      `PngNameIff` proves equal to lower-casing the suffix. */
  function OverrideIsPng(t: IconTarget): bool {
    t.overridePath.Some? && PngName(Name(t.overridePath.value))
  }

  /** The name is longer than four characters and ends, ignoring case, in
      ".png". */
  predicate PngName(n: string) {
    |n| > 4 && LowerEquals(n[|n| - 4..], ".png")
  }

  /** A name passes `PngName` exactly when its suffix (from the last '.',
      which must be neither the first nor the last character), lower-cased,
      is ".png"; a file called just ".png" has no suffix and does not
      count. */
  lemma PngNameIff(n: string)
    ensures PngName(n) <==> Lower(Suffix(n)) == ".png"
    ensures PngName(n) <==> LowerEquals(Suffix(n), ".png")
  {
    var i := RFind(n, '.');
    RFindIsLast(n, '.');
    LowerEqualsIff(Suffix(n), ".png");
    if |n| > 4 {
      LowerEqualsIff(n[|n| - 4..], ".png");
    }
    if Lower(Suffix(n)) == ".png" {
      assert 0 < i < |n| - 1 && Suffix(n) == n[i..];
    }
    if |n| > 4 && Lower(n[|n| - 4..]) == ".png" {
      var tail := n[|n| - 4..];
      assert Lower(tail)[0] == LowerChar(tail[0]) && Lower(tail)[1] == LowerChar(tail[1]);
      assert Lower(tail)[2] == LowerChar(tail[2]) && Lower(tail)[3] == LowerChar(tail[3]);
      assert LowerChar(tail[0]) == '.' && LowerChar(tail[1]) == 'p';
      assert LowerChar(tail[2]) == 'n' && LowerChar(tail[3]) == 'g';
      assert n[|n| - 4] == '.';
      assert n[|n| - 3] != '.' && n[|n| - 2] != '.' && n[|n| - 1] != '.';
      assert i == |n| - 4;
    }
  }

  /** `override_is_png` is the source's test: an override whose suffix,
      lower-cased, is ".png". */
  lemma OverrideIsPngIff(t: IconTarget)
    ensures OverrideIsPng(t) <==>
      t.overridePath.Some? && Lower(Suffix(Name(t.overridePath.value))) == ".png"
  {
    if t.overridePath.Some? {
      PngNameIff(Name(t.overridePath.value));
    }
  }
}
