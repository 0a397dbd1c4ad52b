# Icon manager: content-bounds rendering and its decision rules

This project is a Dafny model of the core of the Mattermost mobile icon
manager, a desktop tool that regenerates the PNG launcher icons of an
Android and iOS project from an SVG (or from per-icon SVG/PNG overrides).
The model covers:

- **Bounds detector** (`Renderer`). `get_image_bounds` is a method with
  nested loops over an `array2<int>` of ARGB32 pixels. It is proved to return
  all zeros for a null image and the whole image when nothing is visible.
  Otherwise it returns the tight box around the pixels whose alpha exceeds 10:
  every visible pixel is inside, each edge holds a visible pixel, and pixels at
  or below the threshold never change the result.
- **Compositor layout** (`Renderer`):
  - the destination rectangle and the crop decision of `render_png_to_bounds`;
  - the integer centring offset of the scaled raster;
  - the cropping transform of `render_svg_cropped` and `render_svg_to_size`,
    in exact `real` arithmetic: bounds mapped back to the SVG's coordinates,
    scale `min(dw/cw, dh/ch)`, and centring.
- **Records** (`Models`): `IconBounds.is_full`/`is_empty`,
  `IconTarget.rel_path` and `override_is_png`.
- **Size tables** (`Constants`) and the **adaptive-layer code**
  (`AdaptiveIcons`):
  - layer file names and size tables;
  - target enumeration and preview lookup over a set of existing paths;
  - the three replacement routines, with the per-density source priority and
    the rule that each target yields one file or one message.
- **Main window** (`MainWindow`, `WindowRules`):
  - the icon table as a class whose methods update `targets` and the row
    check boxes;
  - the Android and iOS scans, selection by category and the selected rows;
  - setting and clearing overrides;
  - the source choice and missing-source guard of generation, and the
    per-run SVG bounds cache;
  - export with its manifest and safe file names, and the ZIP prefix and
    manifest lookup of import.
- **The older single-file tool** (`LegacyIconManager`, `tools/icon_manager.py`).
  Its bounds detector, predicates, compositors, checkerboard, selection and
  generation loop repeat the package's code line for line and are covered by
  the package members. The module models what differs:
  - the inline mipmap table and three-name file list of `_scan_android`;
  - the truthiness of `override_is_png`;
  - the padding percentage shown for a loaded SVG.

  The legacy copies covered by package members are: `get_image_bounds`
  (tools/icon_manager.py:251-283), `is_full` (168-171), the checkerboard
  (236-249), `render_png_to_bounds` (318-357), `render_svg_cropped`
  (359-421), the iOS sort (923-925), selection by category (1134-1141),
  `_generate_icons` (1153-1224) and its bounds cache (1189-1196).

Python's `pathlib` (POSIX flavour) is modelled in `Paths` and the few `str`
operations used in `Text`. Pixel painting, resampling, file system, JSON and
ZIP I/O are replaced by parameters:

- `existing: set<Path>` for what exists on disk;
- `save`, `loads`, `renders` and `svgValid` oracles for outcomes, and
  `copies(source, dest)` for whether copying one file to a destination succeeds;
- `measure` for the SVG bounds measurement;
- `boundsOf` for the bounds of a file on disk;
- `listing` for what an iOS asset folder holds.

The project root is the parameter `root`.

Two consequences of the code are worth stating up front:

- `is_empty` tests for zero area (tools/icon_manager/core/models.py:29-32).
  A fully transparent image gives the full box, not an empty one
  (tools/icon_manager/rendering/renderer.py:59-61). So among detector
  results, `is_empty` holds only for the zero bounds of a null image
  (`Models.NoBoundsFullAndEmpty`, `Renderer.GetImageBounds`).
- A target's bounds are measured from the file on disk
  (tools/icon_manager/ui/main_window.py:274-275). Its canvas size comes
  from the size tables, and nothing checks one against the other. The
  renderers accept any such target. Whether the drawing stays on the canvas
  is stated as an implication from `Renderer.BoundsFitCanvas`.

## Model

| member | source | states |
|---|---|---|
| Models.NoBoundsFullAndEmpty | tools/icon_manager/core/models.py:13-32 | `IconBounds()` is at the same time full and empty |
| Models.FullIffCoversImage | tools/icon_manager/core/models.py:23-27 | for a box inside a non-null image, `is_full` holds exactly when the box covers every pixel of the image |
| Models.EmptyIffCoversNothing | tools/icon_manager/core/models.py:29-32 | for a box inside its image, `is_empty` holds exactly when the box covers no pixel |
| Models.RelPathStripsRoot | tools/icon_manager/core/models.py:46-52 | under the project root, `rel_path` parses back to the names below the root, and root + "/" + `rel_path` spells the full path |
| Models.RelPathOutsideRoot | tools/icon_manager/core/models.py:49-52 | outside the root (`relative_to` raises), `rel_path` is the path's own string |
| Models.PngNameIff | tools/icon_manager/core/models.py:54-57 | the four-character test used by the model is exactly "lower-cased suffix == '.png'", with pathlib's suffix rules (no suffix for ".png" itself or a trailing dot) |
| Models.OverrideIsPngIff | tools/icon_manager/core/models.py:54-57 | `override_is_png` holds iff there is an override and its lower-cased suffix is ".png" (so ".PNG" counts and no override gives false) |
| Constants.MipmapSizesAre48dp | tools/icon_manager/core/constants.py:21-28 | the five mipmap sizes are 48dp times 1, 1.5, 2, 3, 4 |
| Constants.AdaptiveSizesAre108dp | tools/icon_manager/core/constants.py:30-38 | the adaptive table has the same folders in the same order, each size the mipmap size times 108/48 |
| Constants.SizeTablesIncreasing | tools/icon_manager/core/constants.py:22-38 | both tables grow strictly in declaration order and the folder names are distinct |
| Constants.AndroidIconFilesDistinct | tools/icon_manager/core/constants.py:40-53 | `ANDROID_ICON_FILES` is the legacy list followed by the adaptive list: four distinct names |
| Renderer.Alpha | tools/icon_manager/rendering/renderer.py:51-52 | the alpha channel of a pixel value lies in 0..255 |
| Renderer.GetImageBounds | tools/icon_manager/rendering/renderer.py:35-68 | null image gives all zeros; nothing visible gives (0, 0, w, h, w, h); otherwise the box lies in the image, has width and height at least 1, holds every pixel with alpha > 10 and touches one on each edge |
| Renderer.ScanRow | tools/icon_manager/rendering/renderer.py:50-57 | one pass of the inner loop keeps the running min/max and the witness pixels of each edge for the scanned prefix |
| Renderer.RowDone | tools/icon_manager/rendering/renderer.py:49-50 | finishing a row of the scan is starting the next |
| Renderer.CropIffPadding | tools/icon_manager/rendering/renderer.py:119-124 | for detector output, "neither full nor empty" (crop) holds exactly when the image has a visible pixel and some border row or column has none |
| Renderer.OnlyVisiblePixelsMatter | tools/icon_manager/rendering/renderer.py:49-68 | two images of one size with the same visible pixels get the same bounds, whatever the alpha of pixels at or below 10 |
| Renderer.TightBoxWithin | tools/icon_manager/rendering/renderer.py:49-68 | the tight box of an image lies within the tight box of any image that shows at least its visible pixels |
| Renderer.SingleVisiblePixel | tools/icon_manager/rendering/renderer.py:49-68 | one visible pixel at (px, py) gives the box (px, py, 1, 1) |
| Renderer.SolidBlock | tools/icon_manager/rendering/renderer.py:49-68 | a solid block of visible pixels gives exactly that block as the box |
| Renderer.GetSvgContentBounds | tools/icon_manager/rendering/renderer.py:71-82 | the bounds of the 512x512 measuring render meet the detector contract, are 512x512 images and have width and height at least 1 |
| Renderer.AdjacentTilesDiffer | tools/icon_manager/rendering/renderer.py:29 | tiles that share an edge have different colours |
| Renderer.Checkerboard | tools/icon_manager/rendering/renderer.py:21-32 | tiles start at every multiple of the tile size below width and height, and the tile at column c, row r is light iff c + r is even |
| Renderer.DestRect | tools/icon_manager/rendering/renderer.py:112-116 | the destination is the target's bounds unless absent or full, else the whole canvas; with bounds inside the canvas it lies inside the canvas |
| Renderer.Trunc | tools/icon_manager/rendering/renderer.py:137 | `int(r)` truncates toward zero |
| Renderer.DrawOrigin | tools/icon_manager/rendering/renderer.py:131-137 | a raster that fits the requested size is drawn entirely inside the destination; margins on opposite sides differ by at most one pixel, the left/top one being the smaller for a destination at non-negative coordinates |
| Renderer.RenderPngToBounds | tools/icon_manager/rendering/renderer.py:103-140 | the canvas is target.width x target.height; nothing is drawn iff the source is null; otherwise the destination is `DestRect`, the source is cropped to its own bounds iff it has padding, and it is scaled into the destination's size |
| Renderer.ToView | tools/icon_manager/rendering/renderer.py:214-221 | a measured coordinate is carried to the SVG's view by the ratio of view size to measured image size |
| Renderer.Centre | tools/icon_manager/rendering/renderer.py:229-230 | the centring offset leaves equal margins on both sides |
| Renderer.FitScale | tools/icon_manager/rendering/renderer.py:224 | `min(dw/cw, dh/ch)` makes the content fit both sides and fill at least one |
| Renderer.ViewSize | tools/icon_manager/rendering/renderer.py:209-211 | the view is `defaultSize()` when that is not empty, and is positive whenever the measuring image is |
| Renderer.CropTransform | tools/icon_manager/rendering/renderer.py:208-230 | content width and height are positive; the view is `ViewSize`: `defaultSize()`, or the measuring image's size when that is empty; the content box is the measured box scaled to that view; the scaled content fits and fills one side; the margins on opposite sides are equal |
| Renderer.CropTransformMapsContentIntoDest | tools/icon_manager/rendering/renderer.py:232-238 | every point of the content box is sent inside the destination rectangle |
| Renderer.CropTransformFits | tools/icon_manager/rendering/renderer.py:223-230 | the scaled, centred content lies in the destination and fills it in at least one dimension |
| Renderer.CentredFits | tools/icon_manager/rendering/renderer.py:227-230 | a transform that fits, fills one side and centres keeps the content inside the destination |
| Renderer.TransformMapsX | tools/icon_manager/rendering/renderer.py:233-235 | horizontally, the translate-scale-translate transform keeps content points within the destination |
| Renderer.TransformMapsY | tools/icon_manager/rendering/renderer.py:233-235 | vertically, likewise |
| Renderer.FullBoundsTransformIsDirect | tools/icon_manager/rendering/renderer.py:207-241 | with no padding and a destination of the SVG's proportions, the cropping transform is the plain mapping of the SVG onto the destination that the direct branch draws |
| Renderer.RenderSvgCropped | tools/icon_manager/rendering/renderer.py:186-244 | canvas of the target's size; the cropping transform is used iff the SVG's bounds are neither full nor empty, into `DestRect`, where it fits; otherwise the SVG is drawn straight into `DestRect`; any target whose destination has non-negative sides is accepted, and the destination lies on the canvas when the target's bounds fit it |
| Renderer.RenderSvgToSize | tools/icon_manager/rendering/renderer.py:143-183 | size x size canvas; cropped through a fitting transform iff bounds are given and neither full nor empty; otherwise drawn over the whole canvas |
| AdaptiveIcons.LayerFilename | tools/icon_manager/core/adaptive_icons.py:22-26 | "ic_notification.png" exactly for the notification layer, "ic_launcher_<layer>.png" otherwise |
| AdaptiveIcons.LayerFilenamesMatchConstants | tools/icon_manager/core/adaptive_icons.py:22-26 | the foreground and background files are `ANDROID_ADAPTIVE_ICONS`; the three layers' files are distinct PNG names |
| AdaptiveIcons.LayerSizes | tools/icon_manager/core/adaptive_icons.py:29-33 | `MIPMAP_SIZES` for the notification icon, `ADAPTIVE_ICON_SIZES` otherwise |
| AdaptiveIcons.LayerSizesShape | tools/icon_manager/core/adaptive_icons.py:29-33 | each layer's table has the five mipmap folders in order with strictly growing sizes |
| AdaptiveIcons.ParentOfLayerFile | tools/icon_manager/core/adaptive_icons.py:56-57 | `target_path.parent` is the density folder, its parent the base directory, and the file name is the layer's |
| AdaptiveIcons.LayerTargets | tools/icon_manager/core/adaptive_icons.py:41-60 | the nested loop returns the targets of every existing base directory, in order |
| AdaptiveIcons.DensityLoop | tools/icon_manager/core/adaptive_icons.py:55-58 | the inner loop returns the targets of one base directory |
| AdaptiveIcons.DensityTargetsMembership | tools/icon_manager/core/adaptive_icons.py:55-58 | a target under one base is (base/folder/file, size) for a table entry whose folder exists, and every such pair is listed |
| AdaptiveIcons.TargetsMembership | tools/icon_manager/core/adaptive_icons.py:41-60 | `get_layer_targets` lists exactly (base/folder/file, size) for existing base dirs and existing density folders, nothing else |
| AdaptiveIcons.DensityTargetsOrdered | tools/icon_manager/core/adaptive_icons.py:55-58 | under one base the targets follow the table: sizes strictly grow, each file is two levels below the base and named as the layer |
| AdaptiveIcons.TargetsOfTwo | tools/icon_manager/core/adaptive_icons.py:36-38 | the targets of the two directories are those of the resource tree followed by those of the assets tree |
| AdaptiveIcons.LayerTargetsOrder | tools/icon_manager/core/adaptive_icons.py:52-58 | `get_layer_targets` lists the resource tree's targets before the assets tree's, each in table order |
| AdaptiveIcons.DensityOrderIsReversedTable | tools/icon_manager/core/adaptive_icons.py:119 | the preference order is the density table read backwards, highest density first |
| AdaptiveIcons.PreviewRow | tools/icon_manager/core/adaptive_icons.py:124-125 | the files tried under one base are base/folder/file for each folder in preference order |
| AdaptiveIcons.FirstExisting | tools/icon_manager/core/adaptive_icons.py:124-129 | no result exactly when no candidate exists |
| AdaptiveIcons.FirstExistingIsFirst | tools/icon_manager/core/adaptive_icons.py:121-127 | a result is a candidate that exists, and no candidate before it exists |
| AdaptiveIcons.FirstExistingAt | tools/icon_manager/core/adaptive_icons.py:121-127 | an existing candidate preceded only by missing ones is the result |
| AdaptiveIcons.PreviewCandidatesPrefix | tools/icon_manager/core/adaptive_icons.py:121-125 | the candidates of earlier base directories come first |
| AdaptiveIcons.LayerPreview | tools/icon_manager/core/adaptive_icons.py:110-129 | the search with early return gives the first existing file, base dirs in order and densities from xxxhdpi down, or None |
| AdaptiveIcons.PreviewInRow | tools/icon_manager/core/adaptive_icons.py:124-127 | the inner search returns the first existing file under one base |
| AdaptiveIcons.PreviewFoundInRow | tools/icon_manager/core/adaptive_icons.py:121-127 | when nothing under earlier bases exists, the first hit under this base is the overall first |
| AdaptiveIcons.StepsAccounted | tools/icon_manager/core/adaptive_icons.py:87-107 | every target gives one write or one message: writes + messages = targets |
| AdaptiveIcons.WritesFromSteps | tools/icon_manager/core/adaptive_icons.py:87-107 | each file written is the write of one of the steps |
| AdaptiveIcons.SaveStep | tools/icon_manager/core/adaptive_icons.py:96-105 | a save writes the file at the target's size iff it succeeds; a failed save gives "Failed to save", an exception gives its message |
| AdaptiveIcons.RunSteps | tools/icon_manager/core/adaptive_icons.py:84-107 | the loop's success count and error list are the writes and messages of the steps, and success + errors = targets |
| AdaptiveIcons.RasterSteps | tools/icon_manager/core/adaptive_icons.py:87-101 | each target is saved from the loaded source scaled to its size |
| AdaptiveIcons.ReplaceLayer | tools/icon_manager/core/adaptive_icons.py:63-107 | a source that does not load gives (0, [one message]) and no write; no targets gives (0, ["No target directories found"]); otherwise every target is accounted for once |
| AdaptiveIcons.SvgSteps | tools/icon_manager/core/adaptive_icons.py:195-212 | each target is rendered at its size (or reports the failed render) and then saved |
| AdaptiveIcons.ReplaceLayerFromSvg | tools/icon_manager/core/adaptive_icons.py:165-214 | invalid SVG, unreadable SVG and no targets each end the run with one message and no write; otherwise every target is accounted for once |
| AdaptiveIcons.SourcePriority | tools/icon_manager/core/adaptive_icons.py:253-287 | per density: an existing override (SVG rendered, otherwise raster loaded and scaled), else the default SVG, else the default raster |
| AdaptiveIcons.OverrideSteps | tools/icon_manager/core/adaptive_icons.py:252-298 | each target's step follows its source: a failed render or load reports, otherwise the image is saved |
| AdaptiveIcons.ReplaceLayerWithOverrides | tools/icon_manager/core/adaptive_icons.py:217-300 | no targets is checked first, then an unloadable default raster; otherwise every target is accounted for once and each file written is a target at its size from the source the priority picks |
| AdaptiveIcons.OverrideWriteFollowsSource | tools/icon_manager/core/adaptive_icons.py:252-296 | a file written by the override loop is a target, at its size, from the source the priority rule gives |
| MainWindow.AllChecked | tools/icon_manager/ui/main_window.py:291-292 | each added row starts checked |
| MainWindow.IconTable.constructor | tools/icon_manager/ui/main_window.py:44-46 | the window starts with an empty target list and no rows |
| MainWindow.IconTable.AddIcon | tools/icon_manager/ui/main_window.py:272-292 | appends a square target of the given size with the bounds of the file, in a checked row |
| MainWindow.IconTable.ScanAndroid | tools/icon_manager/ui/main_window.py:230-239 | appends the files found, folder by folder in table order, each in a checked row, at the size the sizing flag picks (the window passes the as-written `MIPMAP_SIZES` sizing) |
| MainWindow.IconTable.ScanFolder | tools/icon_manager/ui/main_window.py:236-239 | the inner loop appends each listed file that exists in one folder |
| MainWindow.FolderScanMembership | tools/icon_manager/ui/main_window.py:236-239 | a folder's scan holds exactly one entry per listed file that exists there |
| MainWindow.AndroidScanMembership | tools/icon_manager/ui/main_window.py:232-239 | the scan adds exactly the listed files that exist in an existing mipmap folder |
| MainWindow.AsWrittenFolderSizes | tools/icon_manager/ui/main_window.py:232-239 | as written, every file in a folder gets that folder's `MIPMAP_SIZES` size |
| MainWindow.AsWrittenScanInDensityOrder | tools/icon_manager/ui/main_window.py:232-239 | as written, folders are visited in table order, so sizes never decrease along the scan |
| MainWindow.Insert | tools/icon_manager/ui/main_window.py:268 | inserting into a list sorted by (size, file name) keeps it sorted and adds exactly that icon |
| MainWindow.SortIcons | tools/icon_manager/ui/main_window.py:268 | the icons are sorted ascending by (size, file name) and are a permutation of the input |
| MainWindow.IconTable.ScanIos | tools/icon_manager/ui/main_window.py:241-270 | appends the listed icons that exist (from `Contents.json`, or the PNGs that load), sorted by (size, file name), in checked rows |
| MainWindow.IconTable.AddIosIcons | tools/icon_manager/ui/main_window.py:269-270 | one checked row per icon, in order |
| MainWindow.IconTable.ScanCategory | tools/icon_manager/ui/main_window.py:220-239 | a missing folder adds nothing; a category containing "android" gets the Android scan with every file at its folder's `MIPMAP_SIZES` size, any other the iOS scan |
| MainWindow.IconTable.ScanTargets | tools/icon_manager/ui/main_window.py:208-239 | the table is emptied and then holds the scans of the four categories in order, all rows checked, with the Android files at `MIPMAP_SIZES` sizes as written |
| MainWindow.AndroidCategories | tools/icon_manager/ui/main_window.py:223 | "android" is a substring of "android" and "assets_android" only |
| MainWindow.IosCategories | tools/icon_manager/ui/main_window.py:213-226 | "ios" is a substring of "ios" and "assets_ios" only |
| MainWindow.ProjectScanSnoc | tools/icon_manager/ui/main_window.py:220-226 | each category's scan follows those of the earlier categories |
| MainWindow.ScannedCategoriesKnown | tools/icon_manager/ui/main_window.py:213-226 | every target found carries one of the four categories |
| MainWindow.CategoryScanInProject | tools/icon_manager/ui/main_window.py:220-226 | whatever one category's scan finds is in the project scan |
| MainWindow.ProjectScanPrefix | tools/icon_manager/ui/main_window.py:220-226 | the scan of the first m categories is a prefix of the project scan |
| MainWindow.ProjectScanMembership | tools/icon_manager/ui/main_window.py:208-226 | a target is in the project scan iff the scan of one of the categories finds it |
| MainWindow.ScannedAndroidTargetAsWritten | tools/icon_manager/ui/main_window.py:220-239 | an Android target of the window's scan is in the project scan and is an existing listed file of an existing mipmap folder, square at that folder's `MIPMAP_SIZES` size, adaptive layers included |
| MainWindow.IconTable.SelectCategory | tools/icon_manager/ui/main_window.py:757-764 | a row is checked iff the category is a substring of its target's category, so "android" also checks "assets_android" |
| MainWindow.IconTable.SelectedTargets | tools/icon_manager/ui/main_window.py:766-774 | the targets of the checked rows, in table order |
| MainWindow.Selected | tools/icon_manager/ui/main_window.py:766-774 | the selection holds no more targets than the table, and each one is a target of the table |
| MainWindow.SelectedMembership | tools/icon_manager/ui/main_window.py:766-774 | a target is selected iff some checked row shows it |
| MainWindow.SelectedSplit | tools/icon_manager/ui/main_window.py:766-774 | selection keeps table order: the selection of the table is the selection of a prefix followed by that of the rest |
| MainWindow.SelectedAfterCategory | tools/icon_manager/ui/main_window.py:757-774 | after checking by category, the selected targets are exactly the table's targets of that category, in order |
| MainWindow.WithOverride | tools/icon_manager/ui/main_window.py:425-429 | the table keeps its length when rows get an override (what each row holds is stated by `MainWindow.IconTable.ApplyOverride` and `MainWindow.OverrideDecidesSource`) |
| MainWindow.IconTable.ApplyOverride | tools/icon_manager/ui/main_window.py:425-429 | the given rows get the override; everything else is unchanged |
| MainWindow.IconTable.SetOverride | tools/icon_manager/ui/main_window.py:396-436 | applied iff rows are selected, a file is chosen and it passes the check (a ".png" that loads, otherwise a valid SVG); only then do those rows get it |
| MainWindow.IconTable.ClearOverride | tools/icon_manager/ui/main_window.py:438-454 | the selected rows lose their override; nothing else changes |
| MainWindow.ClearUndoesSet | tools/icon_manager/ui/main_window.py:425-447 | clearing after setting on the same rows is clearing alone, and clearing twice is clearing once |
| MainWindow.OverrideDecidesSource | tools/icon_manager/ui/main_window.py:829-836 | after an override is set on a row, generation draws that row from it: PNG raster iff its suffix is ".png", otherwise as SVG |
| MainWindow.AsWrittenForegroundSizeDisagrees | tools/icon_manager/ui/main_window.py:208-239 | as written, the window's project scan lists the mdpi foreground layer at 48 px, while the adaptive-layer code targets that file at 108 px and never at 48 px |
| MainWindow.LayerSizedScanAgrees | tools/icon_manager/core/adaptive_icons.py:41-60 | with the corrected, layer-aware sizing (`AndroidScan` with the sizing flag set), every adaptive layer file the scan finds is a target of that layer in the adaptive-layer code, with the same size |
| MainWindow.LayerSizedEntry | tools/icon_manager/core/adaptive_icons.py:29-33 | sized by layer, a layer file in the j-th folder gets the j-th size of the layer's own table, whose folder is the same |
| MainWindow.RenderSteps | tools/icon_manager/ui/main_window.py:821-844 | one save step per selected target |
| MainWindow.RenderStepAt | tools/icon_manager/ui/main_window.py:829-841 | the i-th step is the i-th target drawn from its chosen source and saved to its destination |
| MainWindow.RenderStepsSnoc | tools/icon_manager/ui/main_window.py:821-844 | one more target adds its own save at the end of the run |
| MainWindow.PlanFor | tools/icon_manager/ui/main_window.py:829-836 | a PNG plan iff `override_is_png`; an SVG plan draws the chosen SVG cropped to the bounds measured from that SVG |
| MainWindow.RenderStepsSaveEach | tools/icon_manager/ui/main_window.py:829-841 | each step saves its target, drawn from its plan, at its destination and size |
| MainWindow.RenderAll | tools/icon_manager/ui/main_window.py:810-844 | the loop's steps are `RenderSteps`; the i-th plan is the i-th target's (`FromSvg(p, measure(p))` for an SVG source `p`) and the i-th step saves the image of that plan; the SVGs measured are exactly the SVG sources of the selection, each measured once |
| MainWindow.RenderOne | tools/icon_manager/ui/main_window.py:829-836 | one target's plan is its `PlanFor` (an SVG's bounds are the measurement of that SVG, cached or not) and its step saves that plan's image; the cache gains at most its SVG, measured only if not cached |
| MainWindow.CachedBounds | tools/icon_manager/ui/main_window.py:812-817 | the bounds returned are the SVG's; the cache keeps every entry equal to a measurement and gains the path only if it was missing |
| MainWindow.SvgSourcesSnoc | tools/icon_manager/ui/main_window.py:834-835 | one more target adds its SVG, if any, to the sources |
| MainWindow.MeasuredStep | tools/icon_manager/ui/main_window.py:810-817 | one more target keeps "measured = SVG sources so far" |
| MainWindow.SvgSourcesMembership | tools/icon_manager/ui/main_window.py:829-836 | an SVG is measured in a run iff the choice rule picks it for some selected target |
| MainWindow.RenderedWritesFollowChoice | tools/icon_manager/ui/main_window.py:829-841 | every file written is some selected target's destination, drawn from the source the choice rule picks, and its save succeeded |
| MainWindow.IconTable.GenerateIcons | tools/icon_manager/ui/main_window.py:776-844 | refused for missing sources iff the selection is non-empty and some selected target has no source; with a non-empty selection and every source known, declined iff not confirmed and run when confirmed; nothing is written unless run; a run saves each target over its own file drawn from its plan, writes + errors = selected, and each SVG source is measured once |
| MainWindow.ManifestOfSnoc | tools/icon_manager/ui/main_window.py:508-511 | one more entry assigns its key only when its copy succeeded |
| MainWindow.ManifestOfDistinct | tools/icon_manager/ui/main_window.py:510 | the manifest built by dict assignment has one entry per name |
| MainWindow.ManifestOfMaps | tools/icon_manager/ui/main_window.py:510 | a copied entry whose name no later copied entry reuses keeps its value |
| MainWindow.ExportKeys | tools/icon_manager/ui/main_window.py:501-504 | each target's export name is the safe name of its `rel_path` |
| MainWindow.ExportValues | tools/icon_manager/ui/main_window.py:510 | each manifest value is the target's `rel_path` |
| MainWindow.ExportManifestMapsTarget | tools/icon_manager/ui/main_window.py:501-511 | an exported target whose safe name no later exported target shares is mapped to its own `rel_path` |
| MainWindow.ExportedTargetComesBack | tools/icon_manager/ui/main_window.py:669-678 | export then import: such a target, present in the ZIP, is found and written back to its own path |
| MainWindow.Count | tools/icon_manager/ui/main_window.py:511 | the export count is at most the number of targets |
| MainWindow.CountWroteFlags | tools/icon_manager/ui/main_window.py:602-606 | the files counted by the generated export are the files its steps wrote |
| MainWindow.WroteFlags | tools/icon_manager/ui/main_window.py:602-606 | each flag says whether that target's save succeeded |
| MainWindow.ExportPaths | tools/icon_manager/ui/main_window.py:586-591 | each destination is the export folder / the target's safe name |
| MainWindow.OwnPaths | tools/icon_manager/ui/main_window.py:838-840 | "Generate" writes each target over its own path |
| MainWindow.CopiedFlags | tools/icon_manager/ui/main_window.py:506-509 | each flag says whether copying that target's file to its destination succeeded |
| MainWindow.Tally | tools/icon_manager/ui/main_window.py:493-514 | the loop's count is the number of successes and its manifest the assignments of the successes, in order |
| MainWindow.CopyAll | tools/icon_manager/ui/main_window.py:493-514 | the copy loop: each target is copied to export folder / its safe name; manifest and count of the successful copies |
| MainWindow.IconTable.ExportIcons | tools/icon_manager/ui/main_window.py:467-519 | no selection or no folder gives no manifest; otherwise each target is copied to export folder / its safe name, the manifest maps the safe name of each copied target to its `rel_path`, and the count is the copies that succeeded |
| MainWindow.IconTable.ExportGeneratedIcons | tools/icon_manager/ui/main_window.py:532-614 | refused for missing sources iff the selection is non-empty and some selected target has no source; with a non-empty selection and every source known, stopped iff no folder is chosen and run when one is; a run draws each target from its plan into folder / safe name, the manifest and count cover exactly the saves that succeeded, and the errors name the failed targets |
| MainWindow.ExportErrors | tools/icon_manager/ui/main_window.py:596-608 | one message per failed save, in order |
| MainWindow.ExportErrorsFrom | tools/icon_manager/ui/main_window.py:596-608 | each message is the renamed message of one failed step |
| MainWindow.ExportErrorNamesTarget | tools/icon_manager/ui/main_window.py:596-608 | each message of a generated export names a selected target whose save into the folder failed: "Failed to save: name" when the save returned false, "name: exception" when it raised |
| MainWindow.FailedStepNamed | tools/icon_manager/ui/main_window.py:596-608 | the renamed message of one failed save names that target |
| WindowRules.FlatName | tools/icon_manager/ui/main_window.py:501-502 | the joined parts, with both separators replaced, hold neither '/' nor '\' |
| WindowRules.SafeName | tools/icon_manager/ui/main_window.py:501-504 | the export name ends in ".png" and holds neither '/' nor '\' |
| WindowRules.SafeNameIdempotent | tools/icon_manager/ui/main_window.py:501-504 | the safe name of a safe name is itself |
| WindowRules.SafeNameOfProjectPath | tools/icon_manager/ui/main_window.py:586-589 | for a relative ".png" path with no '\' in its names, the safe name is the names joined with '_' |
| WindowRules.FlatNameOfProjectPath | tools/icon_manager/ui/main_window.py:586-587 | a relative path with no '\' flattens to its names joined with '_' |
| WindowRules.ZipPrefix | tools/icon_manager/ui/main_window.py:669-671 | the prefix is empty or ends in '/', and is empty when there is no manifest name |
| WindowRules.ZipPrefixIsFolder | tools/icon_manager/ui/main_window.py:669-671 | the prefix is "" unless the manifest name holds '/'; then it is the name up to and including its last '/' |
| WindowRules.ZipPrefixOfFolder | tools/icon_manager/ui/main_window.py:669-671 | a manifest zipped inside a folder gives that folder and '/' as prefix |
| WindowRules.Assign | tools/icon_manager/ui/main_window.py:510 | dict assignment replaces an entry or adds one |
| WindowRules.AssignLookup | tools/icon_manager/ui/main_window.py:510 | assignment keeps keys distinct, maps the key to the value, and leaves other keys alone |
| WindowRules.KeyOfAssign | tools/icon_manager/ui/main_window.py:510 | every key after an assignment was a key before or is the new one |
| WindowRules.LookupFindsEntry | tools/icon_manager/ui/main_window.py:674 | iterating the manifest's items gives each key with its value |
| WindowRules.FindIcons | tools/icon_manager/ui/main_window.py:673-678 | the loop collects the manifest entries whose prefixed name is in the ZIP, in manifest order |
| WindowRules.FoundMembership | tools/icon_manager/ui/main_window.py:673-678 | an icon is found iff its manifest entry's prefixed name is in the ZIP; its target is root / `rel_path` |
| WindowRules.RelPathRoundTrip | tools/icon_manager/ui/main_window.py:677 | `PROJECT_ROOT / rel_path` gives back the target's path, under the root or absolute |
| WindowRules.ExportThenImport | tools/icon_manager/ui/main_window.py:669-678 | when the manifest maps a target's safe name to its `rel_path` and the ZIP holds the file, import finds it and writes it to the target's own path |
| WindowRules.ChooseSource | tools/icon_manager/ui/main_window.py:829-836 | raster iff `override_is_png`; otherwise the override, or else the default SVG, as SVG; no source iff neither exists |
| WindowRules.Missing | tools/icon_manager/ui/main_window.py:786 | the targets counted are selected targets without an override, at most the selection, and none when there is a default SVG |
| WindowRules.GuardIffEverySourceKnown | tools/icon_manager/ui/main_window.py:782-787 | the guard lets generation start iff every selected target has an override or there is a default SVG; the targets it counts are exactly those without |
| LegacyIconManager.LegacyTablesAgree | tools/icon_manager.py:876-885 | the inline table is `MIPMAP_SIZES`; the file list is `ANDROID_ICON_FILES` without the background layer |
| LegacyIconManager.LegacyScanMembership | tools/icon_manager.py:876-894 | the legacy scan adds exactly the three names that exist in an existing mipmap folder, each at its folder's mipmap size; the background layer is never listed |
| LegacyIconManager.LegacyScanInDensityOrder | tools/icon_manager.py:887-894 | the legacy scan visits densities in table order |
| LegacyIconManager.LegacyOverrideIsPng | tools/icon_manager.py:196-198 | `override_path and ...` is None itself exactly when there is no override |
| LegacyIconManager.LegacyOverrideIsPngAgrees | tools/icon_manager.py:196-198 | read as a condition, the legacy property agrees with the package's `override_is_png` on every target |
| LegacyIconManager.PaddingPercent | tools/icon_manager.py:689-692 | the padding shown is at most 100 for a box with non-negative sides, and 0 when the box's area is the image's |
| LegacyIconManager.PaddingPercentInRange | tools/icon_manager.py:689-692 | for a box inside its image that is not the whole image, the padding shown lies in [1, 100], and is 100 exactly when the box is under 1% of the image |

## Left out

- Pixel painting and resampling (`QPainter`, `QSvgRenderer.render`, `QImage.scaled`, `copy`, `fill`). The compositors return what they draw and where; Qt's aspect-preserving `scaled` is the parameter size `(sw, sh)` of `Renderer.DrawOrigin`, required to fit the requested size.
- `Renderer.RenderPngToBounds` records the requested scale size and not the scaled raster; the draw offset of that raster is stated separately by `Renderer.DrawOrigin`.
- `Renderer.GetSvgContentBounds` takes the 512x512 measuring render as input; rendering the SVG into it is Qt's.
- `Renderer.Checkerboard` gives the tile colours rather than a painted pixmap; `load_icon_preview` (a preview pixmap for the table) is not part of this model.
- Image format conversion to ARGB32 is assumed done: the image is given as ARGB32 pixel values.
- File and archive I/O: `save`, `mkdir`, `shutil.copy2`, ZIP reading and writing back, `manifest.json` and `Contents.json` parsing, `Config.save`/`Config.load`, `_save_config` and `_apply_config`. Their outcomes are parameters (set of existing paths, save/copy/load oracles, the iOS listing).
- `MainWindow.IconTable.ScanIos`: the size of a `Contents.json` entry, `int(float(size) * float(scale))`, is taken as given; float parsing and rounding are not modelled, nor are the `"60x60"`/`"1x"` defaults.
- The manifest's "description", "project_root" and "generated" fields; only its "icons" object is modelled.
- Confirmation dialogs and the folder and file pickers: their answers are parameters. The message boxes and status-bar text, including the counts shown, are left out; error messages are constructors of a `Message` datatype, not formatted strings.
- Progress dialogs, cancellation between targets, `processEvents`, preview refreshes, and opening the output folder.
- The row-to-index indirection of the Qt table: row `i` shows `targets[i]`, which is how `_add_icon` builds it.
- `MainWindow.IconTable.ExportIcons`: a failed copy raises a warning dialog and moves on; only its effect on the count and manifest is modelled.
- The "Generate" guard tests for a loaded default SVG renderer, while the loop uses the default SVG path; the model has one optional default SVG for both.
- `Text.Lower` lower-cases ASCII letters only; Python's full Unicode case mapping is not modelled.
- `Paths` models POSIX pure paths; the special "//" anchor and Windows paths are not modelled.
- The widgets, the adaptive-layer tab, theming and colours are not part of this model.

## Findings

| source | as written | input that shows it | evidently intended | confidence | as-written member | corrected member |
|---|---|---|---|---|---|---|
| tools/icon_manager/ui/main_window.py:232-239 (also tools/icon_manager.py:876-894 for the foreground layer) | the Android scan gives every file in a mipmap folder, including the adaptive `ic_launcher_foreground.png` and `ic_launcher_background.png`, the 48dp size of `MIPMAP_SIZES`, so "Generate" rewrites those layers at 48/72/96/144/192 px | an existing `mipmap-mdpi/ic_launcher_foreground.png` under the Android resource folder is listed at 48 px, while the adaptive-layer code targets the same file at 108 px | the adaptive layers sized from `ADAPTIVE_ICON_SIZES`, as the constants' comments say ("Adaptive icon layers (use ADAPTIVE_ICON_SIZES)") and as the adaptive-layer code writes them | medium; not executed | MainWindow.AsWrittenForegroundSizeDisagrees | MainWindow.LayerSizedScanAgrees |
