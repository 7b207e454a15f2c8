/** The cropped version of a presentation: `crop_image` and
    `update_pptx_with_cropped_images` (New-Release/slim_pptx.py:380-411 and
    519-569). The archive is extracted, every cropped image whose media
    file exists is written back through the imaging step, and every slide
    one of them sits on has its crop information removed; the extracted
    tree is then zipped under `<stem>_cropped.pptx`. */
module CroppedVersion {
  import opened Wrappers
  import opened Text
  import opened Package
  import opened Shapes
  import opened CropRewrite
  import opened LightVersion
  import CropRewriteProperties

  /** What the imaging library makes of a blob: not an image it can open,
      or a bitmap with its horizontal resolution, if the file records one,
      and its size in pixels. */
  datatype Decoded = Undecodable | Bitmap(dpi: Option<real>, width: nat, height: nat)

  /** The resolution assumed when the file records none, and the one the
      images are brought down to. */
  const DefaultDpi: real := 72.0
  const TargetDpi: real := 150.0

  /** `int(side * (150 / current_dpi))`. */
  function Downsample(side: nat, dpi: real): int
    requires dpi > TargetDpi
  {
    Trunc(side as real * (TargetDpi / dpi))
  }

  /** `crop_image(blob, info)`: an image above 150 DPI is resampled to 150
      DPI at the same physical size; any other blob, one the library cannot
      open, and one whose new size has a side of 0 pixels (the library
      refuses to resize to it and the handler returns the blob) is written
      back as it is. */
  function CropImage(b: Blob, d: Decoded): Part {
    match d
    case Undecodable => Media(b)
    case Bitmap(dpi, w, h) =>
      var res := dpi.GetOr(DefaultDpi);
      if res > TargetDpi && Downsample(w, res) > 0 && Downsample(h, res) > 0
      then Resampled(b, Downsample(w, res), Downsample(h, res))
      else Media(b)
  }

  /** The imaging step resamples exactly the images whose resolution, or 72
      when none is recorded, is above 150 DPI and whose sides keep at least
      one pixel at 150 DPI. It keeps their physical size: each side becomes
      the whole number of pixels at 150 DPI that fits the side's length,
      so every side loses pixels. */
  lemma CropImageSpec(b: Blob, d: Decoded)
    ensures CropImage(b, d).Resampled? <==>
      d.Bitmap? && d.dpi.GetOr(DefaultDpi) > TargetDpi
      && Downsample(d.width, d.dpi.GetOr(DefaultDpi)) > 0 && Downsample(d.height, d.dpi.GetOr(DefaultDpi)) > 0
    ensures CropImage(b, d).Media? <==> !CropImage(b, d).Resampled?
    ensures CropImage(b, d).Media? ==> CropImage(b, d).bytes == b
    ensures CropImage(b, d).Resampled? ==>
      var r, res := CropImage(b, d), d.dpi.GetOr(DefaultDpi);
      && r.source == b
      && 0 < r.width < d.width && 0 < r.height < d.height
      && r.width as real / TargetDpi <= d.width as real / res < (r.width + 1) as real / TargetDpi
      && r.height as real / TargetDpi <= d.height as real / res < (r.height + 1) as real / TargetDpi
  {
    if d.Bitmap? && d.dpi.GetOr(DefaultDpi) > TargetDpi {
      var res := d.dpi.GetOr(DefaultDpi);
      DownsampleShrinks(d.width, res);
      DownsampleShrinks(d.height, res);
      DownsampleKeepsLength(d.width, res);
      DownsampleKeepsLength(d.height, res);
    }
  }

  lemma DownsampleShrinks(side: nat, dpi: real)
    requires dpi > TargetDpi
    ensures 0 <= Downsample(side, dpi) <= side
    ensures side > 0 ==> Downsample(side, dpi) < side
  {
    var q := TargetDpi / dpi;
    assert q * dpi == TargetDpi;
    assert 0.0 < q < 1.0;
    CropRewriteProperties.NonNegativeProduct(side as real, q);
    CropRewriteProperties.NonNegativeProduct(side as real, 1.0 - q);
    assert side as real * q == side as real - side as real * (1.0 - q);
    if side > 0 {
      PositiveProduct(side as real, 1.0 - q);
    }
  }

  lemma PositiveProduct(p: real, q: real)
    requires 0.0 < p && 0.0 < q
    ensures 0.0 < p * q
  {
  }

  /** The new side, in inches at 150 DPI, is the old side's length in
      inches, rounded down to a whole pixel. */
  lemma DownsampleKeepsLength(side: nat, dpi: real)
    requires dpi > TargetDpi
    ensures var n := Downsample(side, dpi);
      n as real / TargetDpi <= side as real / dpi < (n + 1) as real / TargetDpi
  {
    var n := Downsample(side, dpi);
    var x := side as real * (TargetDpi / dpi);
    DownsampleShrinks(side, dpi);
    assert n as real <= x < n as real + 1.0;
    assert x / TargetDpi == side as real / dpi;
  }

  /** `os.path.join(temp_dir, 'ppt', 'media', info['filename'])`. */
  function MediaPath(info: ImageInfo): string {
    MediaPrefix + info.filename
  }

  /** The slide an image was recorded on, if any. */
  function SlideOf(info: ImageInfo): set<nat> {
    if info.slideIndex.Some? then {info.slideIndex.value} else {}
  }

  /** The extracted archive in the temporary directory: its files, and
      what `os.path.exists` and `os.path.isdir` say of a path in it. */
  datatype Tree = Tree(files: map<string, Part>, kind: string -> PathKind)

  function Extracted(pkg: Package): Tree {
    Tree(ExtractAll(pkg), p => KindOf(pkg, p))
  }

  /** Every path that exists as a file is one of the files. */
  ghost predicate Coherent(tree: Tree) {
    forall p :: tree.kind(p) == File ==> p in tree.files
  }

  lemma ExtractedCoherent(pkg: Package)
    ensures Coherent(Extracted(pkg))
  {
    forall p | Extracted(pkg).kind(p) == File
      ensures p in ExtractAll(pkg)
    {
      assert KindOf(pkg, p) == File;
    }
  }

  /** The entry at position `i` of the dictionary is cropped and its media
      file exists as a file: the loop writes it back. */
  predicate Replaces(tree: Tree, t: Table, i: int) {
    0 <= i < |t.keys| && t.keys[i] in t.info && t.info[t.keys[i]].cropped
    && tree.kind(MediaPath(t.info[t.keys[i]])) == File
  }

  /** The entry at position `i` is written back to the file `m`. */
  predicate Writes(tree: Tree, t: Table, i: int, m: string) {
    Replaces(tree, t, i) && MediaPath(t.info[t.keys[i]]) == m
  }

  /** The entry at position `i` is cropped and its media path is a
      directory: opening it for writing raises. */
  predicate Fails(tree: Tree, t: Table, i: int) {
    0 <= i < |t.keys| && t.keys[i] in t.info && t.info[t.keys[i]].cropped
    && tree.kind(MediaPath(t.info[t.keys[i]])) == Directory
  }

  /** The extracted tree and the processed slides after the loop of lines
      535-550 has visited the first `n` entries of the dictionary; None once
      writing one raised. */
  datatype Written = Written(files: map<string, Part>, processed: set<nat>)

  function WriteCrops(tree: Tree, t: Table, decode: Blob -> Decoded, n: nat): Option<Written>
    requires n <= |t.keys|
  {
    if n == 0 then Some(Written(tree.files, {}))
    else
      match WriteCrops(tree, t, decode, n - 1)
      case None => None
      case Some(w) => WriteOne(tree, t, decode, w, n - 1)
  }

  /** The loop body for the entry at position `i`: a cropped image whose
      media file exists is written back and its slide is processed; a
      missing media file is skipped; a directory raises. */
  function WriteOne(tree: Tree, t: Table, decode: Blob -> Decoded, w: Written, i: nat): (r: Option<Written>)
    requires i < |t.keys|
    ensures r.None? <==> Fails(tree, t, i)
    ensures r.Some? && Replaces(tree, t, i) ==>
      var info := t.info[t.keys[i]];
      r.value == Written(w.files[MediaPath(info) := CropImage(t.keys[i], decode(t.keys[i]))], w.processed + SlideOf(info))
    ensures r.Some? && !Replaces(tree, t, i) ==> r.value == w
  {
    var b := t.keys[i];
    if b !in t.info || !t.info[b].cropped then Some(w)
    else
      var path := MediaPath(t.info[b]);
      match tree.kind(path)
      case Missing => Some(w)
      case Directory => None
      case File => Some(Written(w.files[path := CropImage(b, decode(b))], w.processed + SlideOf(t.info[b])))
  }

  /** The loop fails exactly when a cropped entry's media path is a
      directory. */
  lemma {:induction false} WriteCropsFails(tree: Tree, t: Table, decode: Blob -> Decoded, n: nat)
    requires n <= |t.keys|
    ensures WriteCrops(tree, t, decode, n).None? <==> exists i :: 0 <= i < n && Fails(tree, t, i)
  {
    if n > 0 {
      WriteCropsFails(tree, t, decode, n - 1);
    }
  }

  /** The processed slides are the slides of the entries written back. */
  lemma {:induction false} WriteCropsProcessed(tree: Tree, t: Table, decode: Blob -> Decoded, n: nat)
    requires n <= |t.keys|
    requires WriteCrops(tree, t, decode, n).Some?
    ensures forall k :: k in WriteCrops(tree, t, decode, n).value.processed <==>
              exists i :: 0 <= i < n && Replaces(tree, t, i) && t.info[t.keys[i]].slideIndex == Some(k)
  {
    if n > 0 {
      WriteCropsProcessed(tree, t, decode, n - 1);
      var w, w' := WriteCrops(tree, t, decode, n - 1).value, WriteCrops(tree, t, decode, n).value;
      forall k | k in w'.processed
        ensures exists i :: 0 <= i < n && Replaces(tree, t, i) && t.info[t.keys[i]].slideIndex == Some(k)
      {
        if k !in w.processed {
          assert Replaces(tree, t, n - 1) && t.info[t.keys[n - 1]].slideIndex == Some(k);
        }
      }
    }
  }

  /** The extracted tree keeps its set of files. */
  lemma {:induction false} WriteCropsKeys(tree: Tree, t: Table, decode: Blob -> Decoded, n: nat)
    requires n <= |t.keys| && Coherent(tree)
    requires WriteCrops(tree, t, decode, n).Some?
    ensures WriteCrops(tree, t, decode, n).value.files.Keys == tree.files.Keys
  {
    if n > 0 {
      WriteCropsKeys(tree, t, decode, n - 1);
      if Replaces(tree, t, n - 1) {
        ReplacedIsExtracted(tree, t, n - 1);
      }
    }
  }

  /** A file that no written-back entry names keeps its content. */
  lemma {:induction false} WriteCropsUntouched(tree: Tree, t: Table, decode: Blob -> Decoded, n: nat, m: string)
    requires n <= |t.keys| && Coherent(tree)
    requires WriteCrops(tree, t, decode, n).Some?
    requires m in tree.files && forall i :: 0 <= i < n ==> !Writes(tree, t, i, m)
    ensures m in WriteCrops(tree, t, decode, n).value.files
    ensures WriteCrops(tree, t, decode, n).value.files[m] == tree.files[m]
  {
    if n > 0 {
      WriteCropsUntouched(tree, t, decode, n - 1, m);
      assert !Writes(tree, t, n - 1, m);
    }
  }

  /** A file that written-back entries name holds the image of the last
      of them. */
  lemma {:induction false} WriteCropsLastWins(tree: Tree, t: Table, decode: Blob -> Decoded, n: nat, i: nat, m: string)
    requires n <= |t.keys| && Coherent(tree)
    requires WriteCrops(tree, t, decode, n).Some?
    requires i < n && Writes(tree, t, i, m) && forall j :: i < j < n ==> !Writes(tree, t, j, m)
    ensures m in WriteCrops(tree, t, decode, n).value.files
    ensures WriteCrops(tree, t, decode, n).value.files[m] == CropImage(t.keys[i], decode(t.keys[i]))
  {
    if i < n - 1 {
      WriteCropsLastWins(tree, t, decode, n - 1, i, m);
      assert !Writes(tree, t, n - 1, m);
    }
  }

  /** A media file written back is a file of the extracted tree. */
  lemma ReplacedIsExtracted(tree: Tree, t: Table, i: int)
    requires Coherent(tree) && Replaces(tree, t, i)
    ensures MediaPath(t.info[t.keys[i]]) in tree.files
  {
  }

  /** The loop of lines 535-550 over the dictionary, in insertion order. */
  method CropMediaFiles(tree: Tree, t: Table, decode: Blob -> Decoded) returns (r: Option<Written>)
    ensures r == WriteCrops(tree, t, decode, |t.keys|)
  {
    var files := tree.files;
    var processed: set<nat> := {};
    for i := 0 to |t.keys|
      invariant WriteCrops(tree, t, decode, i) == Some(Written(files, processed))
    {
      var b := t.keys[i];
      if b in t.info && t.info[b].cropped {
        var path := MediaPath(t.info[b]);
        var kind := tree.kind(path);
        if kind == Directory {
          assert Fails(tree, t, i);
          FailureIsFinal(tree, t, decode, i + 1, |t.keys|);
          return None;
        }
        if kind == File {
          assert Replaces(tree, t, i);
          files := files[path := CropImage(b, decode(b))];
          processed := processed + SlideOf(t.info[b]);
        }
      }
    }
    return Some(Written(files, processed));
  }

  lemma {:induction false} FailureIsFinal(tree: Tree, t: Table, decode: Blob -> Decoded, i: nat, n: nat)
    requires i <= n <= |t.keys|
    requires WriteCrops(tree, t, decode, i).None?
    ensures WriteCrops(tree, t, decode, n).None?
    decreases n
  {
    if n > i {
      FailureIsFinal(tree, t, decode, i, n - 1);
    }
  }

  /** A path is the slide file of one of the slides `ks`. */
  ghost predicate IsSlideOf(n: string, ks: set<nat>) {
    exists k :: k in ks && n == SlidePath(k)
  }

  /** An image is the one matched to one of the slides `ks`. */
  ghost predicate MatchedIn(t: Table, b: Blob, ks: set<nat>) {
    exists k :: k in ks && FirstForSlide(t, k) == Some(b)
  }

  /** `files'` and `t'` hold every slide of `ks` rewritten as if it were the
      only one: each slide file of `ks` is the one its own rewrite gives,
      each image matched to a slide of `ks` holds the update of that
      slide's rewrite, and nothing else changed. The order in which the
      slides are taken does not show. */
  ghost predicate EachSlideAlone(variant: Variant, files: map<string, Part>, t: Table, ks: set<nat>,
                                 files': map<string, Part>, t': Table)
    requires t.Valid()
  {
    FilesAlone(variant, files, t, ks, files') && ImagesAlone(variant, files, t, ks, t')
  }

  ghost predicate FilesAlone(variant: Variant, files: map<string, Part>, t: Table, ks: set<nat>, files': map<string, Part>)
    requires t.Valid()
  {
    && files'.Keys == files.Keys
    && (forall k :: k in ks && SlidePath(k) in files ==>
          files'[SlidePath(k)] == RewriteSlide(variant, files, k, t).files[SlidePath(k)])
    && (forall n :: n in files && !IsSlideOf(n, ks) ==> files'[n] == files[n])
  }

  ghost predicate ImagesAlone(variant: Variant, files: map<string, Part>, t: Table, ks: set<nat>, t': Table)
    requires t.Valid()
  {
    && SameImages(t, t')
    && (forall k :: k in ks && FirstForSlide(t, k).Some? ==>
          t'.info[FirstForSlide(t, k).value] == RewriteSlide(variant, files, k, t).table.info[FirstForSlide(t, k).value])
    && (forall b :: b in t.info && !MatchedIn(t, b, ks) ==> t'.info[b] == t.info[b])
  }

  /** The same dictionary up to the crop fields and ratios. */
  ghost predicate SameImages(t: Table, t': Table) {
    && t'.keys == t.keys
    && (forall b :: b in t'.info <==> b in t.info)
    && (forall b :: b in t.info ==> t'.info[b] == t.info[b].(crop := t'.info[b].crop, cropRatio := t'.info[b].cropRatio))
  }

  /** Lines 553-554: `remove_crop_info_from_slide_xml` for every processed
      slide, in the set's own iteration order, which the loop picks
      arbitrarily. */
  method RewriteSlides(variant: Variant, files: map<string, Part>, t: Table, ks: set<nat>)
    returns (files': map<string, Part>, t': Table)
    requires t.Valid()
    ensures t'.Valid()
    ensures EachSlideAlone(variant, files, t, ks, files', t')
  {
    files', t' := files, t;
    var todo := ks;
    ghost var done: set<nat> := {};
    while todo != {}
      invariant todo + done == ks && todo !! done
      invariant t'.Valid()
      invariant EachSlideAlone(variant, files, t, done, files', t')
      decreases todo
    {
      var k :| k in todo;
      ghost var fc, tc := files', t';
      files', t' := RemoveCropInfo(variant, files', k, t');
      SlideStep(variant, files, t, done, fc, tc, k);
      todo := todo - {k};
      done := done + {k};
    }
  }

  lemma SlidePathInjective(a: nat, b: nat)
    requires SlidePath(a) == SlidePath(b)
    ensures a == b
  {
    TemplateInjective("ppt/slides/slide", a, b, ".xml");
  }

  /** A dictionary equal up to crop fields matches every slide to the same
      image, and names it the same way. */
  lemma SameMatch(t: Table, t': Table, k: nat)
    requires t.Valid() && t'.Valid() && SameImages(t, t')
    ensures FirstForSlide(t', k) == FirstForSlide(t, k)
    ensures Named(t', k) == Named(t, k)
  {
    assert forall b :: b in t.info ==> t'.info[b].slideIndex == t.info[b].slideIndex;
    CropRewriteProperties.SameSlideIndexes(t, t', k, 0);
  }

  /** Rewriting one more slide, not yet rewritten, keeps every slide
      rewritten as if alone. */
  lemma SlideStep(variant: Variant, files: map<string, Part>, t: Table, done: set<nat>,
                  fc: map<string, Part>, tc: Table, k: nat)
    requires t.Valid() && tc.Valid() && k !in done
    requires EachSlideAlone(variant, files, t, done, fc, tc)
    ensures var r := RewriteSlide(variant, fc, k, tc);
      EachSlideAlone(variant, files, t, done + {k}, r.files, r.table)
  {
    SameMatch(t, tc, k);
    var path := SlidePath(k);
    assert !IsSlideOf(path, done) by {
      forall k' | k' in done && path == SlidePath(k')
        ensures false
      {
        SlidePathInjective(k, k');
      }
    }
    SlideStepFiles(variant, files, t, done, fc, tc, k);
    if FirstForSlide(t, k).Some? {
      var b := FirstForSlide(t, k).value;
      assert !MatchedIn(t, b, done) by {
        forall k' | k' in done && FirstForSlide(t, k') == Some(b)
          ensures false
        {
        }
      }
    }
    SlideStepImages(variant, files, t, done, fc, tc, k);
  }

  lemma SlideStepFiles(variant: Variant, files: map<string, Part>, t: Table, done: set<nat>,
                       fc: map<string, Part>, tc: Table, k: nat)
    requires t.Valid() && tc.Valid()
    requires FilesAlone(variant, files, t, done, fc)
    requires Named(tc, k) == Named(t, k)
    requires !IsSlideOf(SlidePath(k), done)
    ensures FilesAlone(variant, files, t, done + {k}, RewriteSlide(variant, fc, k, tc).files)
  {
    var path := SlidePath(k);
    var r := RewriteSlide(variant, fc, k, tc).files;
    CropRewriteProperties.RewriteSlideFiles(variant, fc, k, tc);
    if path in files {
      CropRewriteProperties.RewriteSlideFileLocal(variant, fc, tc, files, t, k);
    }
    FilesAloneStep(variant, files, t, done, fc, k, r);
  }

  /** The files of slides already rewritten, and files of no slide of the
      set, are as they were before slide `k`. */
  lemma FilesAloneStep(variant: Variant, files: map<string, Part>, t: Table, done: set<nat>,
                       fc: map<string, Part>, k: nat, r: map<string, Part>)
    requires t.Valid()
    requires FilesAlone(variant, files, t, done, fc)
    requires !IsSlideOf(SlidePath(k), done)
    requires r.Keys == fc.Keys
    requires forall n :: n in fc && n != SlidePath(k) ==> r[n] == fc[n]
    requires SlidePath(k) in files ==> r[SlidePath(k)] == RewriteSlide(variant, files, k, t).files[SlidePath(k)]
    ensures FilesAlone(variant, files, t, done + {k}, r)
  {
    var path := SlidePath(k);
    forall k' | k' in done && SlidePath(k') in files
      ensures r[SlidePath(k')] == RewriteSlide(variant, files, k', t).files[SlidePath(k')]
    {
      assert SlidePath(k') != path;
    }
    forall n | n in files && !IsSlideOf(n, done + {k})
      ensures r[n] == files[n]
    {
      assert n != path && !IsSlideOf(n, done);
    }
  }

  lemma SlideStepImages(variant: Variant, files: map<string, Part>, t: Table, done: set<nat>,
                        fc: map<string, Part>, tc: Table, k: nat)
    requires t.Valid() && tc.Valid()
    requires FilesAlone(variant, files, t, done, fc) && ImagesAlone(variant, files, t, done, tc)
    requires FirstForSlide(tc, k) == FirstForSlide(t, k) && Named(tc, k) == Named(t, k)
    requires !IsSlideOf(SlidePath(k), done)
    requires FirstForSlide(t, k).Some? ==> !MatchedIn(t, FirstForSlide(t, k).value, done)
    ensures ImagesAlone(variant, files, t, done + {k}, RewriteSlide(variant, fc, k, tc).table)
  {
    var r := RewriteSlide(variant, fc, k, tc).table;
    CropRewriteProperties.RewriteSlideTable(variant, fc, k, tc);
    var m := FirstForSlide(t, k);
    if m.Some? {
      CropRewriteProperties.RewriteSlideImageLocal(variant, fc, tc, files, t, k);
    }
    ImagesAloneStep(variant, files, t, done, tc, k, r);
  }

  /** The images matched to slides already rewritten, and those matched to
      no slide of the set, are as they were before slide `k`. */
  lemma ImagesAloneStep(variant: Variant, files: map<string, Part>, t: Table, done: set<nat>, tc: Table, k: nat, r: Table)
    requires t.Valid() && k !in done
    requires ImagesAlone(variant, files, t, done, tc)
    requires SameImages(tc, r)
    requires forall b :: b in tc.info && Some(b) != FirstForSlide(t, k) ==> r.info[b] == tc.info[b]
    requires FirstForSlide(t, k).Some? ==>
      r.info[FirstForSlide(t, k).value] == RewriteSlide(variant, files, k, t).table.info[FirstForSlide(t, k).value]
    ensures ImagesAlone(variant, files, t, done + {k}, r)
  {
    SameImagesTrans(t, tc, r);
    RewrittenImagesKept(variant, files, t, done, tc, k, r);
    OtherImagesKept(t, done, tc, k, r);
  }

  lemma RewrittenImagesKept(variant: Variant, files: map<string, Part>, t: Table, done: set<nat>, tc: Table, k: nat, r: Table)
    requires t.Valid() && k !in done
    requires forall b :: b in t.info ==> b in tc.info && b in r.info
    requires forall k' :: k' in done && FirstForSlide(t, k').Some? ==>
      tc.info[FirstForSlide(t, k').value] == RewriteSlide(variant, files, k', t).table.info[FirstForSlide(t, k').value]
    requires forall b :: b in tc.info && Some(b) != FirstForSlide(t, k) ==> b in r.info && r.info[b] == tc.info[b]
    ensures forall k' :: k' in done && FirstForSlide(t, k').Some? ==>
      r.info[FirstForSlide(t, k').value] == RewriteSlide(variant, files, k', t).table.info[FirstForSlide(t, k').value]
  {
    forall k' | k' in done && FirstForSlide(t, k').Some?
      ensures r.info[FirstForSlide(t, k').value] == tc.info[FirstForSlide(t, k').value]
    {
      assert FirstForSlide(t, k') != FirstForSlide(t, k);
    }
  }

  lemma OtherImagesKept(t: Table, done: set<nat>, tc: Table, k: nat, r: Table)
    requires forall b :: b in t.info && !MatchedIn(t, b, done) ==> b in tc.info && tc.info[b] == t.info[b]
    requires forall b :: b in tc.info && Some(b) != FirstForSlide(t, k) ==> b in r.info && r.info[b] == tc.info[b]
    ensures forall b :: b in t.info && !MatchedIn(t, b, done + {k}) ==> b in r.info && r.info[b] == t.info[b]
  {
    forall b | b in t.info && !MatchedIn(t, b, done + {k})
      ensures b in r.info && r.info[b] == t.info[b]
    {
      assert Some(b) != FirstForSlide(t, k) && !MatchedIn(t, b, done);
    }
  }

  lemma SameImagesTrans(t: Table, t': Table, t'': Table)
    requires SameImages(t, t') && SameImages(t', t'')
    ensures SameImages(t, t'')
  {
  }

  /** `f"{base_name}_cropped.pptx"`: never the input's own name. */
  function CroppedPath(path: string): (out: string)
    ensures out != path
    ensures EndsWith(out, "_cropped.pptx")
  {
    DerivedNameDiffers(path, "_cropped.pptx");
    Stem(path) + "_cropped.pptx"
  }

  /** `update_pptx_with_cropped_images(file_path, cropped_images)`: the
      archive written and the dictionary as the call leaves it, which the
      slide rewrites update in place; None when extracting the archive or
      writing an image back raises. */
  method CreateCroppedVersion(variant: Variant, pkg: Package, path: string, t: Table, decode: Blob -> Decoded)
    returns (r: Option<Output>, t': Table)
    requires t.Valid()
    ensures t'.Valid()
    ensures r.None? <==> !Extractable(pkg) || WriteCrops(Extracted(pkg), t, decode, |t.keys|).None?
    ensures r.None? ==> t' == t
    ensures r.Some? ==>
      var w := WriteCrops(Extracted(pkg), t, decode, |t.keys|).value;
      && r.value.path == CroppedPath(path)
      && EachSlideAlone(variant, w.files, t, w.processed, r.value.files, t')
  {
    t' := t;
    var outputPath := CroppedPath(path);
    if !Extractable(pkg) {
      return None, t';
    }
    var written := CropMediaFiles(Extracted(pkg), t, decode);
    if written.None? {
      return None, t';
    }
    var files;
    files, t' := RewriteSlides(variant, written.value.files, t, written.value.processed);
    r := Some(Output(outputPath, files));
  }
}
