# slim_pptx in Dafny

A model of the package-analysis and package-rewriting core of
`New-Release/slim_pptx.py`, a tool that slims down PowerPoint (`.pptx`)
presentations. A `.pptx` file is a ZIP archive of Office Open XML parts. The
tool does four things:

- It resolves each picture's archive file name by comparing the CRC-32 of its
  bytes with the CRC stored for each `ppt/media/` entry.
- It records the pictures of every slide, layout and master, with their crop
  state.
- It follows the relationship parts to find the layouts the slides use and the
  media those layouts reference. From all of this it classifies images as
  unused or as used and cropped, and computes the statistics it reports.
- It writes two derived packages:
  - a *light* version, without the media files of the unused images;
  - a *cropped* version, in which every cropped image is resampled to at most
    150 DPI and the crop markup of its slide is removed, the picture frame
    shrunk by the cropped share.

Each source module has its own Dafny module:

| Dafny module | file | source |
|---|---|---|
| `Wrappers`, `Text` | text.dfy | Python string and posix path operations the code relies on |
| `Crc32`, `Package` | package.dfy | the archive as `zipfile` shows it: ordered entries with stored CRC, size and parsed content |
| `Identity` | identity.dfy | `get_image_filename_from_zip` |
| `Shapes` | shapes.dfy | `get_images_from_shapes` and the blob-keyed dictionary |
| `Relationships` | relationships.dfy | `get_used_layouts_from_rels`, `get_layout_images`, `get_layout_info`, `is_slide_hidden` |
| `Tables` | tables.dfy | `dict.update`, the slide merge, the filtering comprehensions and sums |
| `Analysis` | analysis.dfy | `analyze_pptx` |
| `LightVersion`, `LightVersionProperties` | light_version.dfy | `get_media_files_from_pptx`, `create_light_version` |
| `CropRewrite`, `CropRewriteProperties` | crop_rewrite.dfy, crop_properties.dfy | `emu_to_percentage`, `remove_crop_info_from_slide_xml` |
| `CroppedVersion` | cropped_version.dfy | `crop_image`, `update_pptx_with_cropped_images` |

The loops of the source are methods with loop invariants. Each method is
proved equal to a specification function, and the properties are lemmas about
those functions.

- A Python dictionary keyed by image bytes is a `Table`: its keys in insertion
  order, plus a map. Assignment, `update` and the comprehensions keep that
  order.
- The extracted temporary directory is a map from path to content. The source
  archive is a value, so it is never modified.
- The imaging library is a parameter `decode` that tells what it makes of a
  blob: not an image, or a bitmap with an optional resolution and a size in
  pixels.
- Exceptions caught by the source's handlers become `Option` results. A slide
  rewrite that raises leaves its slide file unchanged.

The crop rewrite is stated for two readings, selected by `Variant`:

- `AsWritten` is the code as it is.
- `Intended` is the code with the three defects listed under Findings
  corrected.

The lemmas show where the two differ, and what the intended rewrite
guarantees.

One more observation about the design, not a defect of a single line:
`crop_image` never removes pixels. It only resamples images above 150 DPI
(`CroppedVersion.CropImageSpec`). Removing the `srcRect` and shrinking the
frame therefore shows the whole image, squeezed into a frame the size of the
visible part, rather than the cropped part.

Cropping is combined across the pictures of one slide only. `cropped` is
set when any picture of a blob on a slide is cropped
(`Shapes.RecordCropped`). Across slides the first slide showing a blob
supplies its entry (New-Release/slim_pptx.py:192-193). An image shown
uncropped on one slide and cropped on a later one is therefore not counted
as used and cropped (`Analysis.UsedAndCroppedSpec`), and its entry names the
first slide.

## Model

| member | source | states |
|---|---|---|
| Text.IndexOf | New-Release/slim_pptx.py:112-114 | the first position where the pattern occurs, and None exactly when it occurs nowhere |
| Text.Before | New-Release/slim_pptx.py:114 | `s.split(p)[0]` is the prefix of `s` up to the first occurrence of `p`: no occurrence starts inside it, it is followed by `p` when `p` occurs, it is all of `s` when `p` does not, and it holds no `p` |
| Text.After | New-Release/slim_pptx.py:114 | the target is exactly the text before the first marker, the marker, then this suffix |
| Text.Basename | New-Release/slim_pptx.py:31 | posix basename: a suffix with no '/', preceded by '/' whenever shorter than the path |
| Text.Stem | New-Release/slim_pptx.py:290 | `splitext(p)[0]` is a prefix of `p`; it drops something exactly when the last path component has a '.' after some other character, and what it drops starts at a '.' of that component and holds no other '.' |
| Text.ExtensionFound | New-Release/slim_pptx.py:290 | the last-'/' and last-'.' test of `splitext` holds exactly when the last path component has a '.' after a character that is not '.' |
| Text.DerivedNameDiffers | New-Release/slim_pptx.py:290-291 | `stem + suffix` never equals the input path when the suffix does not start with '.', so an output never overwrites its input |
| Text.NatToStringInjective | New-Release/slim_pptx.py:157 | distinct slide numbers print differently |
| Text.TemplateInjective | New-Release/slim_pptx.py:422 | `prefix + str(n) + suffix` names a different path for every `n` |
| Crc32.Checksum | New-Release/slim_pptx.py:23 | the CRC-32 of the empty input is 0 |
| Package.Lookup | New-Release/slim_pptx.py:106 | a name is found exactly when some entry carries it, and the entry found carries that name |
| Package.LookupIsLast | New-Release/slim_pptx.py:106 | the entry `zip_ref.read` returns is the last entry with that name |
| Package.Read | New-Release/slim_pptx.py:106 | reading succeeds exactly when the name is in the archive |
| Package.Names | New-Release/slim_pptx.py:132 | `namelist()` holds exactly the names of the entries |
| Package.ExtractAll | New-Release/slim_pptx.py:298-299 | `extractall` writes one file per non-directory name, holding what reading that name gives |
| Identity.MatchFrom | New-Release/slim_pptx.py:27-31 | the scan stops at the first media entry with the blob's CRC, and none before it matches |
| Identity.MatchGivesFirstBasename | New-Release/slim_pptx.py:27-31 | when some `ppt/media/` entry carries the blob's CRC, the answer is the basename of the first such entry |
| Identity.FilenameForIsFirstMedia | New-Release/slim_pptx.py:19-33 | a non-sentinel answer is the basename of the first `ppt/media/` entry, in archive order, whose stored CRC equals the blob's CRC-32 |
| Identity.NoMatchGivesSentinel | New-Release/slim_pptx.py:33 | with no matching media entry the answer is "Image sans nom" |
| Shapes.Table.Put | New-Release/slim_pptx.py:50-60 | `d[b] = v` keeps the dictionary well formed: a new key goes last and an existing key keeps its place |
| Shapes.CropRatio | New-Release/slim_pptx.py:69-70 | the ratio is never above 1 or above the mean of the four crop values, and equals that mean when the mean is at most 1 |
| Shapes.CropRatioExamples | New-Release/slim_pptx.py:69-70 | a uniform 10% crop gives 0.1, no crop gives 0, an over-full crop is capped at 1 |
| Shapes.FirstSightingsSpec | New-Release/slim_pptx.py:42-50 | one key per distinct blob shown by a picture, each once |
| Shapes.LastCropSpec | New-Release/slim_pptx.py:62-68 | the crop kept is that of the last cropped picture of the blob, and there is none exactly when no picture of it is cropped |
| Shapes.RecordSpec | New-Release/slim_pptx.py:44-70 | the entry has the looked-up file name, `used` false and the given slide index; it is `cropped` exactly when some picture of the blob has a crop value above 0, holds the last such crop, and has a ratio of at most 1 (0 with zero crop fields when uncropped) |
| Shapes.RecordCropped | New-Release/slim_pptx.py:62-64 | `cropped` holds exactly when some picture of the blob is cropped |
| Shapes.CroppedNeverReset | New-Release/slim_pptx.py:62-64 | more shapes never reset `cropped` |
| Shapes.Step | New-Release/slim_pptx.py:44-70 | one shape keeps the dictionary well formed and adds a key only for a blob seen for the first time |
| Shapes.StepRecords | New-Release/slim_pptx.py:42-70 | one loop pass keeps the keys equal to the first sightings and every entry equal to its recorded value |
| Shapes.ShapesTable | New-Release/slim_pptx.py:38-75 | the recorder's result is well formed, with an entry exactly for the blobs the container shows |
| Shapes.ShapesTableAt | New-Release/slim_pptx.py:38-75 | each entry of the recorder's result is the recorded value of its blob |
| Shapes.ImagesFromShapes | New-Release/slim_pptx.py:38-75 | the loop builds exactly that table: keys in order of first sighting, one per blob shown, each entry as `RecordSpec` describes |
| Relationships.TargetsOf | New-Release/slim_pptx.py:107 | `ET.fromstring` fails exactly on parts that are not XML |
| Relationships.LayoutIdOf | New-Release/slim_pptx.py:114 | the id is the text after the first layout marker up to its first '.', the next marker or its end: a prefix with no '.' and no marker starting inside it, followed by '.', a marker, or nothing |
| Relationships.LayoutIdOfTarget | New-Release/slim_pptx.py:112-114 | a target `../slideLayouts/slideLayout<id>.xml` yields `id` when `id` has no '.' |
| Relationships.LayoutIdOfExample | New-Release/slim_pptx.py:113-114 | `../slideLayouts/slideLayout88.xml` yields "88" |
| Relationships.IdsInSpec | New-Release/slim_pptx.py:110-115 | the ids collected from one relationship part are exactly the ids of its layout targets |
| Relationships.UsedLayoutsBroken | New-Release/slim_pptx.py:103-122 | one slide relationship part that does not parse makes the answer empty |
| Relationships.UsedLayoutsSpec | New-Release/slim_pptx.py:103-115 | otherwise an id is used exactly when some `ppt/slides/_rels/slide*.xml.rels` part has a layout target naming it |
| Relationships.UsedLayoutsFromRels | New-Release/slim_pptx.py:97-122 | the loop computes exactly the used layouts, including the empty answer of the handler |
| Relationships.MediaNamesSpec | New-Release/slim_pptx.py:138-144 | the media of a layout are exactly the basenames of its `../media/` targets |
| Relationships.LayoutImagesSpec | New-Release/slim_pptx.py:124-150 | a layout is a key only if it is used and has a media target, its set is exactly those basenames, and one unparsable part empties the whole map |
| Relationships.LayoutImages | New-Release/slim_pptx.py:124-150 | the loop over the used ids, in any order, computes exactly that map; a missing part is skipped |
| Relationships.InfoOfSpec | New-Release/slim_pptx.py:365-373 | a used id that some `p:sldLayout` declares gets the name and type of its last declaration, defaulting to "Layout <id>" and "unknown"; no other id gets an entry |
| Relationships.LayoutInfo | New-Release/slim_pptx.py:355-378 | the loop computes that map, and nothing when `ppt/presentation.xml` is missing or not XML |
| Relationships.IsSlideHidden | New-Release/slim_pptx.py:152-166 | a slide is hidden exactly when its part exists, is a slide, and its `show` attribute is exactly "0" |
| Relationships.SlidePartNamesDistinct | New-Release/slim_pptx.py:157 | different slide numbers read different parts |
| Tables.NewKeysSpec | New-Release/slim_pptx.py:192-204 | the keys a dictionary gains are the other's keys it lacks, each once |
| Tables.UpdateValid | New-Release/slim_pptx.py:204 | `dict.update` keeps a dictionary well formed |
| Tables.UpdateEntry | New-Release/slim_pptx.py:204 | after `update` the other dictionary's value wins |
| Tables.TouchTwice | New-Release/slim_pptx.py:194-196 | marking an entry used twice leaves the later hidden flag |
| Tables.MergeValid | New-Release/slim_pptx.py:191-196 | merging a slide's table keeps the slide dictionary well formed |
| Tables.SelectKeys | New-Release/slim_pptx.py:210-213 | a comprehension gives a well-formed dictionary with no more keys than it walked |
| Tables.Select | New-Release/slim_pptx.py:210-216 | a comprehension over a dictionary gives a well-formed dictionary no larger than it |
| Tables.SelectSpec | New-Release/slim_pptx.py:210-216 | the comprehension keeps exactly the entries its test accepts, unchanged |
| Tables.SumCroppedAtMostSizes | New-Release/slim_pptx.py:224 | with every ratio at most 1, the cropped weight is at most the total size of those images |
| Tables.MergedKeys | New-Release/slim_pptx.py:188-196 | every key of the slide dictionary has an entry and every entry a key |
| Tables.MergedSpec | New-Release/slim_pptx.py:188-196 | a blob is a slide image exactly when some slide table holds it; its entry is the FIRST holder's, with `used` set and the hidden flag of the LAST holder |
| Tables.UpdatedValid | New-Release/slim_pptx.py:199-207 | updating with the layout and master tables keeps `all_images` well formed |
| Tables.UpdatedSpec | New-Release/slim_pptx.py:199-207 | a blob is in `all_images` exactly when some table holds it, with the LAST holder's entry |
| Analysis.SlideTables | New-Release/slim_pptx.py:189-190 | slide `k` (from 0) is recorded with slide index `k + 1` |
| Analysis.SlideFlags | New-Release/slim_pptx.py:196 | slide `k` (from 0) is given the hidden flag of part `k + 1` |
| Analysis.SlideImagesHas | New-Release/slim_pptx.py:188-196 | a blob is a slide image exactly when some slide shows it |
| Analysis.SlideImagesEntry | New-Release/slim_pptx.py:188-196 | a slide image's entry is the one recorded for the first slide showing it, with `used` true and the hidden flag of the last slide showing it |
| Analysis.SlideRatiosAtMostOne | New-Release/slim_pptx.py:69-70 | every slide entry's crop ratio is at most 1 |
| Analysis.TouchBlob | New-Release/slim_pptx.py:192-196 | the inner loop body stores the slide's entry only for a new blob, then marks it used with the slide's flag |
| Analysis.MergeSlide | New-Release/slim_pptx.py:191-196 | the inner slide loop computes the merge of the slide's table |
| Analysis.CollectSlideImages | New-Release/slim_pptx.py:187-196 | the slide loop computes the merged slide dictionary |
| Analysis.AllImagesSpec | New-Release/slim_pptx.py:198-207 | a blob is in `all_images` exactly when some layout or master shows it, with the entry recorded for the last one showing it, whose `used` is false |
| Analysis.CollectMasterImages | New-Release/slim_pptx.py:198-207 | the master loop, with layouts before their master, computes `all_images` |
| Analysis.LayoutUsedFilenames | New-Release/slim_pptx.py:180-183 | the loop computes the union of the used layouts' media sets |
| Analysis.Percentage | New-Release/slim_pptx.py:219-221 | 0 with no slide image, otherwise within [0, 100] |
| Analysis.UnusedSpec | New-Release/slim_pptx.py:209-213 | an image is unused exactly when some layout or master shows it and its file name is in no used layout's media, whatever the slides show |
| Analysis.UsedAndCroppedSpec | New-Release/slim_pptx.py:216 | a slide image counts as cropped exactly when a picture of it is cropped on the first slide showing it |
| Analysis.AnalyzePptx | New-Release/slim_pptx.py:168-256 | the report: used layouts, layout media and their union, the unused and used-and-cropped tables, a percentage in [0, 100], a cropped weight at most the cropped images' size, the unused size, and the layout info |
| LightVersion.GetMediaFiles | New-Release/slim_pptx.py:258-282 | fails exactly when `[Content_Types].xml`, `_rels/.rels` or `ppt/_rels/presentation.xml.rels` is missing or not XML; otherwise lists exactly the `ppt/media/` names, with the size of their last entry and `used` false |
| LightVersion.ListMedia | New-Release/slim_pptx.py:275-280 | the listing loop keeps exactly the media names, the last entry's size winning |
| LightVersion.MediaStep | New-Release/slim_pptx.py:276-280 | one entry of `infolist()` keeps the listing equal to the last entries seen |
| LightVersion.LightPath | New-Release/slim_pptx.py:290-291 | the output path ends with ".pptx" and is never the input path |
| LightVersion.MatchingMedia | New-Release/slim_pptx.py:308-311 | the names found for one file name are exactly the media names ending with '/' and it |
| LightVersion.FilesToRemove | New-Release/slim_pptx.py:305-311 | the names to remove are exactly the media names ending with '/' and the file name of some unused image |
| LightVersion.MediaKind | New-Release/slim_pptx.py:316 | a listed media name is a directory of the extracted tree exactly when it is a directory entry, and otherwise an extracted file |
| LightVersion.RemoveFiles | New-Release/slim_pptx.py:314-318 | the removal loop fails exactly on a directory and otherwise removes exactly the listed files |
| LightVersion.LightVersionFromDirectory | New-Release/slim_pptx.py:316-333 | a directory among the names to remove makes the whole operation fail |
| LightVersion.CreateLightVersion | New-Release/slim_pptx.py:284-333 | the method computes exactly the outcome: None on an archive it cannot extract, on a failed listing or on a directory to remove, otherwise the kept files under `<stem>_light.pptx` |
| LightVersionProperties.LightVersionKeepsTheRest | New-Release/slim_pptx.py:284-333 | the output is at `<stem>_light.pptx` and holds every file of the archive except the doomed media files, each with the content of its last entry |
| LightVersionProperties.LightVersionRemovesOnlyDoomedMedia | New-Release/slim_pptx.py:305-318 | every removed file is a `ppt/media/` file doomed by an unused image |
| LightVersionProperties.MissingRequiredPartFails | New-Release/slim_pptx.py:263-272 | a missing or malformed required part makes the operation fail |
| LightVersionProperties.SlashSuffixIsBasename | New-Release/slim_pptx.py:309 | for a file name without '/', the suffix test is exactly a basename test on a longer name |
| LightVersionProperties.DoomedByBasename | New-Release/slim_pptx.py:309 | a media file is removed exactly when its basename is an unused image's file name |
| CropRewrite.Trunc | New-Release/slim_pptx.py:481-482 | `int()` truncates toward zero: the result is within 1 of its argument, on the side of 0 |
| CropRewrite.FirstForSlideFrom | New-Release/slim_pptx.py:446-450 | a match is an image recorded on the slide |
| CropRewrite.FirstForSlideFromSpec | New-Release/slim_pptx.py:446-450 | the match is the first image in dictionary order recorded on the slide, and there is none exactly when no image is |
| CropRewrite.ReadCropValues | New-Release/slim_pptx.py:457-461 | the loop reads exactly the edges the `srcRect` sets, and fails when one is not a number |
| CropRewrite.CropValuesRead | New-Release/slim_pptx.py:457-461 | the values the loop holds once it finishes are the crop values of the `srcRect` |
| CropRewrite.RewritePicture | New-Release/slim_pptx.py:436-510 | the loop body for one picture computes its outcome: rewritten picture, dictionary update, failure |
| CropRewrite.StripFill | New-Release/slim_pptx.py:490-510 | removing the fill's crop attributes and the `srcRect` edges gives the stripped fill, or the failure of `getparent` |
| CropRewrite.FindSlideImage | New-Release/slim_pptx.py:446-450 | the search loop finds the first image recorded on the slide |
| CropRewrite.RewritePictures | New-Release/slim_pptx.py:436-510 | the picture loop computes the pass: stop at the first failure, keep the last update |
| CropRewrite.FoldNext | New-Release/slim_pptx.py:436 | until a picture fails, each picture is one more step of the loop |
| CropRewrite.FailureStops | New-Release/slim_pptx.py:436-517 | once a picture fails, the later pictures change nothing |
| CropRewrite.RemoveCropInfo | New-Release/slim_pptx.py:418-517 | the method gives the files and dictionary of the slide rewrite, and keeps the dictionary well formed |
| CropRewrite.Updated | New-Release/slim_pptx.py:465-470 | the dictionary update keeps the keys, their order and well-formedness |
| CropRewriteProperties.FoldSpec | New-Release/slim_pptx.py:436-517 | a pass fails exactly when some picture fails; otherwise it keeps every picture, rewritten, in order; the update left is one some picture made |
| CropRewriteProperties.IntendedStripsCrop | New-Release/slim_pptx.py:490-510 | a rewritten picture keeps its fill and embed, loses exactly the four crop attributes and the four edges, and is left uncropped |
| CropRewriteProperties.IntendedFailsOnlyOnUnreadable | New-Release/slim_pptx.py:457-482 | the intended rewrite of a picture fails exactly when an offset, or an extent to resize, is not a number, for a picture whose crop is read |
| CropRewriteProperties.IntendedIdempotent | New-Release/slim_pptx.py:436-510 | a second pass over a rewritten picture changes and records nothing |
| CropRewriteProperties.NoEdgeKeepsFrame | New-Release/slim_pptx.py:455-507 | under either reading, a fill without a `srcRect` or with one setting none of l/t/r/b keeps the frame size and records nothing; only the code as written fails, exactly on an empty `srcRect` it finds |
| CropRewriteProperties.UncroppedUnchanged | New-Release/slim_pptx.py:455-503 | a `srcRect` without l/t/r/b gives no values, so no update and no resize, and the fill is kept |
| CropRewriteProperties.OneEdgeValues | New-Release/slim_pptx.py:457-461 | a `srcRect` setting one edge yields that edge's fraction alone |
| CropRewriteProperties.AsWrittenSkipsPresentationFill | New-Release/slim_pptx.py:438 | as written, a picture whose fill is `p:blipFill` is left as it is, and nothing is recorded |
| CropRewriteProperties.AsWrittenFailsOnEdgeOnlySrcRect | New-Release/slim_pptx.py:497-517 | as written, a matched `srcRect` holding only edges makes the picture fail, so the slide is not written |
| CropRewriteProperties.EmuToPercentageScale | New-Release/slim_pptx.py:413-416 | `emu_to_percentage` reads an offset as a hundredth of the fraction it stands for |
| CropRewriteProperties.IntendedCropShrinksFrame | New-Release/slim_pptx.py:457-488 | intended: for non-negative integer offsets leaving part of each axis, the picture does not fail, records each offset over 100000 as its crop, and its frame becomes exactly `int(cx * (1 - l - r))` by `int(cy * (1 - t - b))`, never larger |
| CropRewriteProperties.SrcRectFractionRange | New-Release/slim_pptx.py:413-416 | an offset from 0 to 100000 is a fraction from 0 to 1, and 100000 is the whole picture |
| CropRewriteProperties.ResizeShrinks | New-Release/slim_pptx.py:477-486 | the new extent is non-negative and at most the old one, and an uncropped axis keeps its size |
| CropRewriteProperties.ScaleWithin | New-Release/slim_pptx.py:481-482 | `int(v * (1 - a - b))` lies between 0 and `v`, and is `v` with no crop |
| CropRewriteProperties.LeftCropOnly | New-Release/slim_pptx.py:457-510 | a left-only crop records that fraction on the left and as the ratio (uncapped mean of the edges present); intended: the width shrinks by it, the height stays and the emptied `srcRect` goes; as written: failure |
| CropRewriteProperties.QuarterLeftCrop | New-Release/slim_pptx.py:413-416 | `l="25000"`: as written records 0.0025 and fails; intended records 0.25 and shrinks 1000 to 750 |
| CropRewriteProperties.QuarterLeftCropOfSlidePicture | New-Release/slim_pptx.py:438 | the same crop on a `p:blipFill`: as written untouched, intended shrunk to 750 |
| CropRewriteProperties.RewriteSlideFiles | New-Release/slim_pptx.py:422-513 | the rewrite changes no file but the slide's own, which stays a slide with the same `show`; a missing slide file changes nothing |
| CropRewriteProperties.RewriteSlideTable | New-Release/slim_pptx.py:465-470 | in the dictionary only the matched image's crop fields and ratio change |
| CropRewriteProperties.RewriteSlideFileLocal | New-Release/slim_pptx.py:418-513 | a slide's new file depends only on that file and on whether the matched image is named |
| CropRewriteProperties.RewriteSlideImageLocal | New-Release/slim_pptx.py:446-470 | the matched image's update depends only on the slide's file, its own entry and whether it is named |
| CropRewriteProperties.RewriteSlideAllOrNothing | New-Release/slim_pptx.py:436-517 | one failing picture leaves the files unchanged; otherwise the slide holds every picture, rewritten, in order |
| CropRewriteProperties.UpdatedKeepsMatch | New-Release/slim_pptx.py:446-470 | the update does not change which image a slide matches, or whether it is named |
| CropRewriteProperties.IntendedPassIdempotent | New-Release/slim_pptx.py:436-510 | a second intended pass over a successful pass's pictures keeps them all and records nothing |
| CropRewriteProperties.UpdatedTwice | New-Release/slim_pptx.py:465-470 | taking the same update twice is taking it once |
| CropRewriteProperties.IntendedSlideIdempotent | New-Release/slim_pptx.py:418-517 | rewriting a slide a second time changes neither the files nor the dictionary |
| CroppedVersion.CropImageSpec | New-Release/slim_pptx.py:380-411 | exactly images above 150 DPI (72 when none recorded) whose sides stay non-empty are resampled, each side losing pixels while keeping its physical length to a pixel; every other blob comes back unchanged |
| CroppedVersion.DownsampleShrinks | New-Release/slim_pptx.py:395-396 | `int(side * 150 / dpi)` lies between 0 and the side, and below it for a non-empty side |
| CroppedVersion.DownsampleKeepsLength | New-Release/slim_pptx.py:393-396 | the new side at 150 DPI is the old side's length rounded down to a whole pixel |
| CroppedVersion.ExtractedCoherent | New-Release/slim_pptx.py:531-540 | every path that exists as a file in the extracted tree is one of its files |
| CroppedVersion.WriteOne | New-Release/slim_pptx.py:536-550 | one entry fails exactly when it is cropped and its media path is a directory; a cropped entry whose media file exists is written back through `crop_image` and adds its slide; anything else changes nothing |
| CroppedVersion.WriteCropsFails | New-Release/slim_pptx.py:536-545 | the media loop fails exactly when some cropped entry's media path is a directory |
| CroppedVersion.WriteCropsProcessed | New-Release/slim_pptx.py:547-550 | the processed slides are exactly the slide indexes of the entries written back |
| CroppedVersion.WriteCropsKeys | New-Release/slim_pptx.py:540-545 | writing back creates no file |
| CroppedVersion.WriteCropsUntouched | New-Release/slim_pptx.py:536-545 | a file no written-back entry names keeps its content |
| CroppedVersion.WriteCropsLastWins | New-Release/slim_pptx.py:536-545 | a file several entries name holds the image of the last of them |
| CroppedVersion.CropMediaFiles | New-Release/slim_pptx.py:535-550 | the loop over the dictionary, in insertion order, computes that result |
| CroppedVersion.FailureIsFinal | New-Release/slim_pptx.py:544-545 | once writing one image failed, the whole loop fails |
| CroppedVersion.RewriteSlides | New-Release/slim_pptx.py:553-554 | in whatever order the set is walked, every processed slide ends up rewritten as if it were the only one, and nothing else changes |
| CroppedVersion.SlidePathInjective | New-Release/slim_pptx.py:422 | different slide numbers name different slide files |
| CroppedVersion.SameMatch | New-Release/slim_pptx.py:446-450 | a dictionary differing only in crop fields matches every slide to the same image, named the same way |
| CroppedVersion.SlideStep | New-Release/slim_pptx.py:553-554 | rewriting one more slide keeps every slide rewritten as if alone |
| CroppedVersion.CroppedPath | New-Release/slim_pptx.py:523-524 | the output path ends with "_cropped.pptx" and is never the input path |
| CroppedVersion.CreateCroppedVersion | New-Release/slim_pptx.py:519-569 | None exactly when extraction or a media write fails, and then the dictionary is untouched; otherwise the output at `<stem>_cropped.pptx` holds the written-back files with every processed slide rewritten as if alone, and the dictionary holds those slides' updates |

## Left out

- The Tkinter interface (`on_drop`, `on_create_light_version`, `on_create_cropped_version`, `sort_treeview`, `show_image*`, `draw_dashed_rectangle`, `on_closing`, the widget setup, and the function-attribute state holding the last analysis). It is event plumbing with no logic of the model's kind.
- `extract_image` (lines 77-95). It writes a file and makes no decision.
- The python-pptx object model. The shapes of every slide, layout and master come in as a `Deck` value holding each picture's blob and its four crop fractions.
- The imaging library.
  - Decoding is the `decode` parameter. A resampled image is `Resampled(source, width, height)`, not its encoded bytes.
  - The per-image dimension list of `analyze_pptx` (lines 229-250) needs it and is not computed.
  - Encoder failures other than a side resampled to 0 pixels are not modelled.
  - The horizontal resolution alone decides, as in the source.
- ZIP I/O, the temporary directory and `os.walk`. The archive is a value; `extractall` is a map from path to content.
  - The output is a map, so the order of the entries in the written archive is not modelled.
  - ZIP integrity errors and `zipfile`'s name sanitising are not modelled. An archive with a file name where another entry needs a directory is the only `extractall` failure modelled (`Package.Extractable`).
  - Absolute file names (beginning with '/') and Windows paths are not modelled; paths are posix.
- XML parsing and serialisation. Parts are parsed views holding only what the code reads. ElementTree's rewriting of namespace prefixes on write is not modelled.
- Python floats are exact reals; rounding is not modelled.
- Logging and the formatting of sizes and percentages.
- `zlib.crc32` is implemented bit by bit (`Crc32.Checksum`).
- Crc32.Checksum: no property is proved beyond the empty input, because the lookup only compares checksums for equality.
- LightVersion.MatchingMedia: the media dictionary is walked as a set, so the order of `files_to_remove` is not modelled. Only its members matter to the removals.
- Relationships.LayoutImages and CroppedVersion.RewriteSlides walk their sets in an arbitrary order, as Python's set iteration is unspecified. `CroppedVersion.EachSlideAlone` states the result for every order.
- Analysis.AnalyzePptx: the `used_images_info` list (lines 229-250) is not part of the report, because it needs the imaging library.

## Findings

| source | as written | input that shows it | evidently intended | confidence | as-written member | corrected member |
|---|---|---|---|---|---|---|
| New-Release/slim_pptx.py:416 | `emu_to_percentage` divides a `srcRect` offset by 10,000,000 | `l="25000"` (a quarter of the width, per section 20.1.8.55 of ECMA-376 Part 1) records `crop_left` 0.0025 and would shrink a 1000-wide frame to 997 | divide by 100,000, so 100000 is the whole picture: 0.25 and 750 | high, not executed | CropRewriteProperties.QuarterLeftCrop | CropRewriteProperties.IntendedCropShrinksFrame |
| New-Release/slim_pptx.py:438 | `pic.find('.//a:blipFill')` looks for a DrawingML fill, but a `p:pic` holds its fill as `p:blipFill` (ECMA-376 Part 1, section 19.3.1.4) | a slide picture with `<p:blipFill>` and `<a:srcRect l="25000"/>` keeps its crop and its size, and nothing is recorded | find the picture's fill in either namespace | high, not executed | CropRewriteProperties.AsWrittenSkipsPresentationFill | CropRewriteProperties.QuarterLeftCropOfSlidePicture |
| New-Release/slim_pptx.py:506-507 | an emptied `srcRect` calls `getparent()`, which ElementTree elements lack; the exception skips `tree.write` for the whole slide, after the image's dictionary was already updated | a DrawingML fill whose `srcRect` holds only `l="25000"` | remove the emptied `srcRect` from its fill and write the slide | high, not executed | CropRewriteProperties.AsWrittenFailsOnEdgeOnlySrcRect | CropRewriteProperties.IntendedStripsCrop |
