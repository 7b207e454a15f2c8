/** The classification and statistics of `analyze_pptx`
    (New-Release/slim_pptx.py:168-256): slide images merged slide by slide,
    the images of every layout and master, the unused and the used-and-cropped
    images, and the figures computed from them. */
module Analysis {
  import opened Wrappers
  import opened Package
  import opened Shapes
  import opened Tables
  import Identity
  import Relationships

  /** What the object model exposes: the shapes of every slide in order, and
      for every slide master the shapes of its layouts and its own shapes. */
  datatype Master = Master(layouts: seq<seq<Shape>>, shapes: seq<Shape>)

  datatype Deck = Deck(slides: seq<seq<Shape>>, masters: seq<Master>)

  /** The archive name of a blob: the CRC lookup in the package. */
  function NameOf(pkg: Package): Blob -> string {
    b => Identity.FilenameFor(pkg, b)
  }

  // ---------------------------------------------------------------------
  // Which containers show a blob

  /** The first of the containers `cs[..n]` showing `b`, or -1 when none does. */
  ghost function FirstBelow(cs: seq<seq<Shape>>, b: Blob, n: nat): (f: int)
    requires n <= |cs|
    ensures -1 <= f < n
    ensures f >= 0 ==> Shows(cs[f], b) && forall d :: 0 <= d < f ==> !Shows(cs[d], b)
    ensures f == -1 ==> forall d :: 0 <= d < n ==> !Shows(cs[d], b)
  {
    if n == 0 then -1
    else
      var f := FirstBelow(cs, b, n - 1);
      if f >= 0 then f else if Shows(cs[n - 1], b) then n - 1 else -1
  }

  /** The last of the containers `cs[..n]` showing `b`, or -1 when none does. */
  ghost function LastBelow(cs: seq<seq<Shape>>, b: Blob, n: nat): (l: int)
    requires n <= |cs|
    ensures -1 <= l < n
    ensures l >= 0 ==> Shows(cs[l], b) && forall d :: l < d < n ==> !Shows(cs[d], b)
    ensures l == -1 ==> forall d :: 0 <= d < n ==> !Shows(cs[d], b)
  {
    if n == 0 then -1
    else if Shows(cs[n - 1], b) then n - 1
    else LastBelow(cs, b, n - 1)
  }

  /** Looking at a prefix of the containers gives the same answer. */
  lemma {:induction false} LastBelowPrefix(cs: seq<seq<Shape>>, m: nat, b: Blob, n: nat)
    requires n <= m <= |cs|
    ensures LastBelow(cs[..m], b, n) == LastBelow(cs, b, n)
  {
    if n > 0 {
      LastBelowPrefix(cs, m, b, n - 1);
      assert cs[..m][n - 1] == cs[n - 1];
    }
  }

  /** When table `k` is the one recorded for container `k`, the first and the
      last table holding a blob are the first and the last container showing it. */
  lemma HoldersAreShowers(ts: seq<Table>, cs: seq<seq<Shape>>, b: Blob)
    requires |ts| == |cs|
    requires forall k :: 0 <= k < |ts| ==> (b in ts[k].info <==> Shows(cs[k], b))
    ensures FirstHolder(ts, b, |ts|) == FirstBelow(cs, b, |cs|)
    ensures LastHolder(ts, b, |ts|) == LastBelow(cs, b, |cs|)
  {
  }

  // ---------------------------------------------------------------------
  // Slide images (New-Release/slim_pptx.py:187-196)

  /** The table `get_images_from_shapes` records for every slide; slide `k`
      (counted from 0) is recorded with slide index `k + 1`. */
  ghost function SlideTables(nameOf: Blob -> string, slides: seq<seq<Shape>>): (ts: seq<Table>)
    ensures |ts| == |slides| && AllValid(ts)
    ensures forall k :: 0 <= k < |ts| ==> ts[k] == ShapesTable(nameOf, slides[k], Some(k + 1))
  {
    seq(|slides|, k requires 0 <= k < |slides| => ShapesTable(nameOf, slides[k], Some(k + 1)))
  }

  /** The hidden flag of every slide, read from its part. */
  function SlideFlags(pkg: Package, count: nat): (hs: seq<bool>)
    ensures |hs| == count
    ensures forall k :: 0 <= k < count ==> hs[k] == Relationships.IsSlideHidden(pkg, k + 1)
  {
    seq(count, k requires 0 <= k < count => Relationships.IsSlideHidden(pkg, k + 1))
  }

  /** `slide_images` once every slide is merged in, slide `k` with the hidden
      flag `hs[k]`. */
  ghost function SlideImages(hs: seq<bool>, nameOf: Blob -> string, slides: seq<seq<Shape>>): Table
    requires |hs| == |slides|
  {
    Merged(hs, SlideTables(nameOf, slides), |slides|)
  }

  /** The first and the last slide table holding a blob are the first and the
      last slide showing it. */
  lemma SlideHolders(nameOf: Blob -> string, slides: seq<seq<Shape>>, b: Blob)
    ensures FirstHolder(SlideTables(nameOf, slides), b, |slides|) == FirstBelow(slides, b, |slides|)
    ensures LastHolder(SlideTables(nameOf, slides), b, |slides|) == LastBelow(slides, b, |slides|)
  {
    HoldersAreShowers(SlideTables(nameOf, slides), slides, b);
  }

  /** Every key of `slide_images` has an entry and every entry a key. */
  lemma SlideImagesKeys(hs: seq<bool>, nameOf: Blob -> string, slides: seq<seq<Shape>>, b: Blob)
    requires |hs| == |slides|
    ensures b in SlideImages(hs, nameOf, slides).keys <==> b in SlideImages(hs, nameOf, slides).info
  {
    MergedKeys(hs, SlideTables(nameOf, slides), |slides|, b);
  }

  /** A blob is a slide image exactly when some slide shows it. */
  lemma SlideImagesHas(hs: seq<bool>, nameOf: Blob -> string, slides: seq<seq<Shape>>, b: Blob)
    requires |hs| == |slides|
    ensures b in SlideImages(hs, nameOf, slides).info <==> FirstBelow(slides, b, |slides|) >= 0
  {
    MergedSpec(hs, SlideTables(nameOf, slides), |slides|, b);
    SlideHolders(nameOf, slides, b);
  }

  /** The entry of a slide image is the one recorded for the FIRST slide
      showing it, `f`, with `used` set and the hidden flag of the LAST slide
      showing it, `l`. */
  lemma SlideImagesEntry(hs: seq<bool>, nameOf: Blob -> string, slides: seq<seq<Shape>>, b: Blob) returns (f: nat, l: nat)
    requires |hs| == |slides|
    requires b in SlideImages(hs, nameOf, slides).info
    ensures f == FirstBelow(slides, b, |slides|) && l == LastBelow(slides, b, |slides|)
    ensures f < |slides| && l < |slides|
    ensures SlideImages(hs, nameOf, slides).info[b] == Touch(Record(nameOf, slides[f], Some(f + 1), b), hs[l])
  {
    SlideImagesHolders(hs, nameOf, slides, b);
    f, l := FirstBelow(slides, b, |slides|), LastBelow(slides, b, |slides|);
    SlideTableEntry(nameOf, slides, f, b);
  }

  /** The entry of a slide image in terms of the slide tables. */
  lemma SlideImagesHolders(hs: seq<bool>, nameOf: Blob -> string, slides: seq<seq<Shape>>, b: Blob)
    requires |hs| == |slides|
    requires b in SlideImages(hs, nameOf, slides).info
    ensures 0 <= FirstBelow(slides, b, |slides|) && 0 <= LastBelow(slides, b, |slides|)
    ensures SlideImages(hs, nameOf, slides).info[b]
            == Touch(SlideTables(nameOf, slides)[FirstBelow(slides, b, |slides|)].info[b], hs[LastBelow(slides, b, |slides|)])
  {
    MergedSpec(hs, SlideTables(nameOf, slides), |slides|, b);
    SlideHolders(nameOf, slides, b);
  }

  lemma SlideTableEntry(nameOf: Blob -> string, slides: seq<seq<Shape>>, k: nat, b: Blob)
    requires k < |slides| && b in SlideTables(nameOf, slides)[k].info
    ensures SlideTables(nameOf, slides)[k].info[b] == Record(nameOf, slides[k], Some(k + 1), b)
  {
    ShapesTableAt(nameOf, slides[k], Some(k + 1), b);
  }

  /** Three assignments to one key leave the last value. */
  lemma PutPut(t: Table, b: Blob, v: ImageInfo, w: ImageInfo)
    requires t.Valid()
    ensures t.Put(b, v).Put(b, w) == t.Put(b, w)
  {
  }

  /** The body of the inner slide loop for one blob: the slide's entry is
      stored if the blob is new, then marked used and given the hidden flag. */
  method TouchBlob(images: Table, blob: Blob, info: ImageInfo, hidden: bool) returns (r: Table)
    requires images.Valid()
    ensures r.Valid()
    ensures r == images.Put(blob, Touch(if blob in images.info then images.info[blob] else info, hidden))
  {
    ghost var base := if blob in images.info then images.info[blob] else info;
    r := images;
    if blob !in r.info {
      r := r.Put(blob, info);
    }
    r := r.Put(blob, r.info[blob].(used := true));
    r := r.Put(blob, r.info[blob].(isHidden := Some(hidden)));
    if blob in images.info {
      PutPut(images, blob, base.(used := true), Touch(base, hidden));
    } else {
      PutPut(images, blob, base, base.(used := true));
      PutPut(images, blob, base.(used := true), Touch(base, hidden));
    }
  }

  /** The inner loop of the slide loop: every blob of the slide's table is
      touched in the slide dictionary, in the table's order. */
  method MergeSlide(images: Table, slideShapes: Table, hidden: bool) returns (r: Table)
    requires images.Valid() && slideShapes.Valid()
    ensures r.Valid() && r == Merge(images, slideShapes, hidden)
  {
    r := images;
    ghost var done: set<Blob> := {};
    for j := 0 to |slideShapes.keys|
      invariant r.Valid()
      invariant r.keys == images.keys + NewKeys(slideShapes.keys[..j], images.info)
      invariant forall b :: b in done <==> b in slideShapes.keys[..j]
      invariant EntriesUpTo(images, slideShapes, hidden, done, r)
    {
      var blob := slideShapes.keys[j];
      ghost var before := r;
      assert blob in slideShapes.info;
      r := TouchBlob(r, blob, slideShapes.info[blob], hidden);
      MergeLoopStep(images, slideShapes, hidden, j, done, before, blob, r);
      done := done + {blob};
    }
    DoneAll(slideShapes, done);
    assert slideShapes.keys[..|slideShapes.keys|] == slideShapes.keys;
    EntriesAll(images, slideShapes, hidden, r);
  }

  /** The slide loop of `analyze_pptx`. */
  method CollectSlideImages(pkg: Package, nameOf: Blob -> string, slides: seq<seq<Shape>>) returns (images: Table)
    ensures images == SlideImages(SlideFlags(pkg, |slides|), nameOf, slides)
    ensures images.Valid()
  {
    ghost var ts, hs := SlideTables(nameOf, slides), SlideFlags(pkg, |slides|);
    images := EmptyTable;
    for k := 0 to |slides|
      invariant images == Merged(hs, ts, k) && images.Valid()
    {
      var slideShapes := ImagesFromShapes(nameOf, slides[k], Some(k + 1));
      var hidden := Relationships.IsSlideHidden(pkg, k + 1);
      images := MergeSlide(images, slideShapes, hidden);
    }
  }

  // ---------------------------------------------------------------------
  // Layout and master images (New-Release/slim_pptx.py:198-207)

  /** The containers in the order the code visits them: for every master,
      its layouts, then the master itself. */
  function Containers(masters: seq<Master>): (cs: seq<seq<Shape>>)
    decreases |masters|
  {
    if masters == [] then []
    else
      var m := masters[|masters| - 1];
      Containers(masters[..|masters| - 1]) + m.layouts + [m.shapes]
  }

  lemma ContainersStep(masters: seq<Master>, m: nat)
    requires m < |masters|
    ensures Containers(masters[..m + 1]) == Containers(masters[..m]) + masters[m].layouts + [masters[m].shapes]
  {
    assert masters[..m + 1][..m] == masters[..m];
  }

  /** The table recorded for every layout or master, without a slide index. */
  ghost function ContainerTables(nameOf: Blob -> string, cs: seq<seq<Shape>>): (ts: seq<Table>)
    ensures |ts| == |cs| && AllValid(ts)
    ensures forall k :: 0 <= k < |ts| ==> ts[k] == ShapesTable(nameOf, cs[k], None)
  {
    seq(|cs|, k requires 0 <= k < |cs| => ShapesTable(nameOf, cs[k], None))
  }

  /** `all_images` after updating it with the tables of the containers `cs`. */
  ghost function AllImages(nameOf: Blob -> string, cs: seq<seq<Shape>>): Table {
    Updated(ContainerTables(nameOf, cs), |cs|)
  }

  lemma AllImagesStep(nameOf: Blob -> string, cs: seq<seq<Shape>>, c: seq<Shape>)
    ensures AllImages(nameOf, cs + [c]) == Update(AllImages(nameOf, cs), ShapesTable(nameOf, c, None))
  {
    var ts, us := ContainerTables(nameOf, cs + [c]), ContainerTables(nameOf, cs);
    UpdatedPrefix(ts, us, |cs|);
  }

  /** A blob is in `all_images` exactly when some layout or master shows it,
      and its entry is the one recorded for the LAST container showing it,
      since `update` overwrites; in particular `used` is false there. */
  lemma AllImagesSpec(nameOf: Blob -> string, cs: seq<seq<Shape>>, b: Blob)
    ensures AllImages(nameOf, cs).Valid()
    ensures b in AllImages(nameOf, cs).info <==> LastBelow(cs, b, |cs|) >= 0
    ensures b in AllImages(nameOf, cs).info ==>
              0 <= LastBelow(cs, b, |cs|)
              && AllImages(nameOf, cs).info[b] == Record(nameOf, cs[LastBelow(cs, b, |cs|)], None, b)
  {
    var ts := ContainerTables(nameOf, cs);
    UpdatedValid(ts, |cs|);
    UpdatedSpec(ts, |cs|, b);
    HoldersAreShowers(ts, cs, b);
    var l := LastBelow(cs, b, |cs|);
    if l >= 0 {
      ShapesTableAt(nameOf, cs[l], None, b);
    }
  }

  /** One more layout of the current master. */
  lemma LayoutStep(nameOf: Blob -> string, done: seq<seq<Shape>>, layouts: seq<seq<Shape>>, l: nat)
    requires l < |layouts|
    ensures AllImages(nameOf, done + layouts[..l + 1])
            == Update(AllImages(nameOf, done + layouts[..l]), ShapesTable(nameOf, layouts[l], None))
  {
    assert done + layouts[..l + 1] == done + layouts[..l] + [layouts[l]];
    AllImagesStep(nameOf, done + layouts[..l], layouts[l]);
  }

  /** The master itself, after its layouts. */
  lemma MasterStep(nameOf: Blob -> string, masters: seq<Master>, m: nat)
    requires m < |masters|
    ensures AllImages(nameOf, Containers(masters[..m + 1]))
            == Update(AllImages(nameOf, Containers(masters[..m]) + masters[m].layouts[..|masters[m].layouts|]),
                      ShapesTable(nameOf, masters[m].shapes, None))
  {
    var layouts := masters[m].layouts;
    assert layouts[..|layouts|] == layouts;
    AllImagesStep(nameOf, Containers(masters[..m]) + layouts, masters[m].shapes);
    ContainersStep(masters, m);
  }

  lemma PrefixEnds<T>(s: seq<T>, done: seq<T>)
    ensures done + s[..0] == done && s[..|s|] == s
  {
  }

  /** The master loop of `analyze_pptx`. */
  method CollectMasterImages(nameOf: Blob -> string, masters: seq<Master>) returns (images: Table)
    ensures images == AllImages(nameOf, Containers(masters))
  {
    images := EmptyTable;
    for m := 0 to |masters|
      invariant images == AllImages(nameOf, Containers(masters[..m]))
    {
      ghost var done := Containers(masters[..m]);
      var layouts := masters[m].layouts;
      PrefixEnds(layouts, done);
      for l := 0 to |layouts|
        invariant images == AllImages(nameOf, done + layouts[..l])
      {
        var layoutShapes := ImagesFromShapes(nameOf, layouts[l], None);
        images := Update(images, layoutShapes);
        LayoutStep(nameOf, done, layouts, l);
      }
      var masterShapes := ImagesFromShapes(nameOf, masters[m].shapes, None);
      images := Update(images, masterShapes);
      MasterStep(nameOf, masters, m);
    }
    PrefixEnds(masters, []);
  }

  // ---------------------------------------------------------------------
  // Classification and statistics (New-Release/slim_pptx.py:178-227)

  /** The union of the media sets of the used layouts. */
  ghost function MediaUnion(layoutImages: map<string, set<string>>): set<string> {
    set id, f | id in layoutImages && f in layoutImages[id] :: f
  }

  /** The loop building `layout_used_filenames`. */
  method LayoutUsedFilenames(layoutImages: map<string, set<string>>) returns (names: set<string>)
    ensures names == MediaUnion(layoutImages)
  {
    names := {};
    var todo := layoutImages.Keys;
    while todo != {}
      invariant todo <= layoutImages.Keys
      invariant forall f :: f in names <==> exists id :: id in layoutImages && id !in todo && f in layoutImages[id]
      decreases todo
    {
      var id :| id in todo;
      names := names + layoutImages[id];
      todo := todo - {id};
    }
  }

  /** The test of the `unused_images` comprehension. */
  function NotUsedIn(names: set<string>): ImageInfo -> bool {
    (i: ImageInfo) => !i.used && i.filename !in names
  }

  /** The test of the `used_and_cropped_images` comprehension. */
  function IsCroppedEntry(i: ImageInfo): bool {
    i.cropped
  }

  /** `cropped_count / total_used_images * 100`, or 0 with no slide image. */
  function Percentage(count: nat, total: nat): (r: real)
    ensures total == 0 ==> r == 0.0
    ensures count <= total ==> 0.0 <= r <= 100.0
  {
    if total > 0 then (count as real) / (total as real) * 100.0 else 0.0
  }

  /** An image is unused exactly when some layout or master shows it and its
      file name is not among the media of the used layouts: the `used` flag
      of `all_images` is never set, so whether a slide shows it plays no part. */
  lemma UnusedSpec(nameOf: Blob -> string, masters: seq<Master>, names: set<string>, b: Blob)
    ensures var cs := Containers(masters);
            b in Select(AllImages(nameOf, cs), NotUsedIn(names)).info
            <==> (exists c :: 0 <= c < |cs| && Shows(cs[c], b)) && nameOf(b) !in names
  {
    var cs := Containers(masters);
    AllImagesSpec(nameOf, cs, b);
    SelectSpec(AllImages(nameOf, cs), NotUsedIn(names), b);
    var l := LastBelow(cs, b, |cs|);
    if l >= 0 {
      RecordSpec(nameOf, cs[l], None, b);
    }
  }

  /** A slide image counts as cropped exactly when a picture of it is cropped
      on the FIRST slide showing it: the entry kept is that slide's. */
  lemma UsedAndCroppedSpec(hs: seq<bool>, nameOf: Blob -> string, slides: seq<seq<Shape>>, b: Blob)
    requires |hs| == |slides|
    ensures b in Select(SlideImages(hs, nameOf, slides), IsCroppedEntry).info
            <==> FirstBelow(slides, b, |slides|) >= 0
                 && exists j :: CroppedPictureAt(slides[FirstBelow(slides, b, |slides|)], j, b)
  {
    var images := SlideImages(hs, nameOf, slides);
    SlideImagesKeys(hs, nameOf, slides, b);
    SlideImagesHas(hs, nameOf, slides, b);
    SelectSpec(images, IsCroppedEntry, b);
    if FirstBelow(slides, b, |slides|) >= 0 {
      var f, l := SlideImagesEntry(hs, nameOf, slides, b);
      RecordCropped(nameOf, slides[f], Some(f + 1), b);
    }
  }

  /** Every slide entry has a crop ratio of at most 1. */
  lemma SlideRatiosAtMostOne(hs: seq<bool>, nameOf: Blob -> string, slides: seq<seq<Shape>>, b: Blob)
    requires |hs| == |slides|
    requires b in SlideImages(hs, nameOf, slides).info
    ensures SlideImages(hs, nameOf, slides).info[b].cropRatio <= 1.0
  {
    var f, l := SlideImagesEntry(hs, nameOf, slides, b);
    RecordCropped(nameOf, slides[f], Some(f + 1), b);
  }

  /** What `analyze_pptx` returns, less the per-image dimension list that
      needs the imaging library. */
  datatype Report = Report(
    path: string,
    unused: Table,
    percentageCropped: real,
    totalCroppedSize: real,
    totalUnusedSize: nat,
    usedAndCropped: Table,
    usedLayoutIds: set<string>,
    layoutImages: map<string, set<string>>,
    layoutInfo: map<string, Relationships.LayoutMeta>,
    layoutUsedFilenames: set<string>)

  /** `analyze_pptx(file_path)`. */
  method AnalyzePptx(pkg: Package, path: string, deck: Deck) returns (r: Report)
    ensures r.path == path
    ensures r.usedLayoutIds == Relationships.UsedLayouts(pkg)
    ensures r.layoutImages == Relationships.LayoutImagesOf(pkg, r.usedLayoutIds)
    ensures r.layoutUsedFilenames == MediaUnion(r.layoutImages)
    ensures r.usedAndCropped == Select(SlideImages(SlideFlags(pkg, |deck.slides|), NameOf(pkg), deck.slides), IsCroppedEntry)
    ensures r.unused == Select(AllImages(NameOf(pkg), Containers(deck.masters)), NotUsedIn(r.layoutUsedFilenames))
    ensures r.percentageCropped
            == Percentage(|r.usedAndCropped.keys|, |SlideImages(SlideFlags(pkg, |deck.slides|), NameOf(pkg), deck.slides).keys|)
    ensures 0.0 <= r.percentageCropped <= 100.0
    ensures r.totalCroppedSize == SumCropped(r.usedAndCropped, r.usedAndCropped.keys)
    ensures r.totalCroppedSize <= SumSizes(r.usedAndCropped.keys) as real
    ensures r.totalUnusedSize == SumSizes(r.unused.keys)
    ensures r.layoutInfo
            == match Relationships.LayoutDecls(pkg)
               case None => map[]
               case Some(ds) => Relationships.InfoOf(ds, r.usedLayoutIds)
  {
    var nameOf := NameOf(pkg);
    var usedLayoutIds := Relationships.UsedLayoutsFromRels(pkg);
    var layoutImages := Relationships.LayoutImages(pkg, usedLayoutIds);
    var layoutUsedFilenames := LayoutUsedFilenames(layoutImages);
    var slideImages := CollectSlideImages(pkg, nameOf, deck.slides);
    var allImages := CollectMasterImages(nameOf, deck.masters);
    var unused := Select(allImages, NotUsedIn(layoutUsedFilenames));
    var usedAndCropped := Select(slideImages, IsCroppedEntry);
    var percentage := Percentage(|usedAndCropped.keys|, |slideImages.keys|);
    forall b | b in usedAndCropped.keys
      ensures b in usedAndCropped.info && usedAndCropped.info[b].cropRatio <= 1.0
    {
      SelectSpec(slideImages, IsCroppedEntry, b);
      SlideRatiosAtMostOne(SlideFlags(pkg, |deck.slides|), nameOf, deck.slides, b);
    }
    SumCroppedAtMostSizes(usedAndCropped, usedAndCropped.keys);
    var totalCropped := SumCropped(usedAndCropped, usedAndCropped.keys);
    var totalUnused := SumSizes(unused.keys);
    var layoutInfo := Relationships.LayoutInfo(pkg, usedLayoutIds);
    r := Report(path, unused, percentage, totalCropped, totalUnused, usedAndCropped,
                usedLayoutIds, layoutImages, layoutInfo, layoutUsedFilenames);
  }
}
