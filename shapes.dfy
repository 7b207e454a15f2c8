/** Recording the pictures of one container (a slide, a layout or a master):
    `get_images_from_shapes` (New-Release/slim_pptx.py:38-75). The shapes come
    from the object model as a list; a picture carries its image blob and the
    four crop fractions the object model reads from its `srcRect`. The archive
    name of a blob is looked up by `nameOf`, which the analysis instantiates
    with the CRC lookup of the package (`Identity.FilenameFor`). */
module Shapes {
  import opened Wrappers
  import opened Package

  datatype Crop = Crop(left: real, top: real, right: real, bottom: real)

  const NoCrop: Crop := Crop(0.0, 0.0, 0.0, 0.0)

  /** A shape of the container; only pictures have an image. */
  datatype Shape = Picture(blob: Blob, crop: Crop) | NonPicture

  /** The dictionary the code keeps per image blob. `isHidden` is absent
      until the slide merge of the analysis sets it. */
  datatype ImageInfo = ImageInfo(
    used: bool,
    cropped: bool,
    cropRatio: real,
    filename: string,
    crop: Crop,
    slideIndex: Option<nat>,
    isHidden: Option<bool>)

  /** A Python dict keyed by blob: its keys in insertion order and its values. */
  datatype Table = Table(keys: seq<Blob>, info: map<Blob, ImageInfo>) {
    ghost predicate Valid() {
      && (forall i, j :: 0 <= i < j < |keys| ==> keys[i] != keys[j])
      && (forall b :: b in info <==> b in keys)
    }

    /** `d[b] = v`: a new key goes last, an existing key keeps its place. */
    function Put(b: Blob, v: ImageInfo): (t: Table)
      requires Valid()
      ensures t.Valid()
      ensures t.info == info[b := v]
      ensures t.keys == if b in info then keys else keys + [b]
    {
      if b in info then Table(keys, info[b := v]) else Table(keys + [b], info[b := v])
    }
  }

  const EmptyTable: Table := Table([], map[])

  /** The test the code applies to a picture's crop. */
  predicate IsCropped(c: Crop) {
    c.left > 0.0 || c.top > 0.0 || c.right > 0.0 || c.bottom > 0.0
  }

  /** `min((l + r + t + b) / 4, 1.0)`. */
  function CropRatio(c: Crop): (r: real)
    ensures r <= 1.0
    ensures r <= (c.left + c.right + c.top + c.bottom) / 4.0
    ensures (c.left + c.right + c.top + c.bottom) / 4.0 <= 1.0 ==> r == (c.left + c.right + c.top + c.bottom) / 4.0
  {
    var mean := (c.left + c.right + c.top + c.bottom) / 4.0;
    if mean < 1.0 then mean else 1.0
  }

  /** The ratios quoted for a site: a uniform 10% crop gives 0.1, no crop 0. */
  lemma CropRatioExamples()
    ensures CropRatio(Crop(0.1, 0.1, 0.1, 0.1)) == 0.1
    ensures CropRatio(NoCrop) == 0.0
    ensures CropRatio(Crop(1.0, 1.0, 1.0, 1.5)) == 1.0
  {
  }

  predicate PictureAt(shapes: seq<Shape>, j: int, b: Blob) {
    0 <= j < |shapes| && shapes[j].Picture? && shapes[j].blob == b
  }

  predicate CroppedPictureAt(shapes: seq<Shape>, j: int, b: Blob) {
    PictureAt(shapes, j, b) && IsCropped(shapes[j].crop)
  }

  /** Some picture of the container shows `b`. */
  ghost predicate Shows(shapes: seq<Shape>, b: Blob) {
    exists j :: PictureAt(shapes, j, b)
  }

  /** The distinct blobs in order of first sighting. */
  function FirstSightings(shapes: seq<Shape>): seq<Blob> {
    if shapes == [] then []
    else
      var prev := FirstSightings(shapes[..|shapes| - 1]);
      var s := shapes[|shapes| - 1];
      if s.Picture? && s.blob !in prev then prev + [s.blob] else prev
  }

  /** The crop of the last cropped picture showing `b`. */
  function LastCrop(shapes: seq<Shape>, b: Blob): Option<Crop> {
    if shapes == [] then None
    else
      var s := shapes[|shapes| - 1];
      if s.Picture? && s.blob == b && IsCropped(s.crop) then Some(s.crop)
      else LastCrop(shapes[..|shapes| - 1], b)
  }

  /** The dictionary entry created at a blob's first sighting. */
  function Fresh(filename: string, slideIndex: Option<nat>): ImageInfo {
    ImageInfo(false, false, 0.0, filename, NoCrop, slideIndex, None)
  }

  /** The entry the recorder holds for `b` once it has seen `shapes`, defined
      from the last cropped picture of `b` rather than step by step. */
  function Record(nameOf: Blob -> string, shapes: seq<Shape>, slideIndex: Option<nat>, b: Blob): ImageInfo {
    var base := Fresh(nameOf(b), slideIndex);
    match LastCrop(shapes, b)
    case None => base
    case Some(c) => base.(cropped := true, crop := c, cropRatio := CropRatio(c))
  }

  lemma {:induction false} FirstSightingsSpec(shapes: seq<Shape>)
    ensures forall i, j :: 0 <= i < j < |FirstSightings(shapes)| ==> FirstSightings(shapes)[i] != FirstSightings(shapes)[j]
    ensures forall b :: b in FirstSightings(shapes) <==> Shows(shapes, b)
  {
    if shapes != [] {
      var front := shapes[..|shapes| - 1];
      FirstSightingsSpec(front);
      forall b | Shows(front, b) ensures Shows(shapes, b) {
        var j :| PictureAt(front, j, b);
        assert PictureAt(shapes, j, b);
      }
      forall b | Shows(shapes, b) && !PictureAt(shapes, |shapes| - 1, b) ensures Shows(front, b) {
        var j :| PictureAt(shapes, j, b);
        assert PictureAt(front, j, b);
      }
      if shapes[|shapes| - 1].Picture? {
        assert PictureAt(shapes, |shapes| - 1, shapes[|shapes| - 1].blob);
      }
    }
  }

  /** The last cropped picture: `LastCrop` names the crop of a cropped picture
      of `b` after which no picture of `b` is cropped, and is None exactly when
      no picture of `b` is cropped. */
  lemma {:induction false} LastCropSpec(shapes: seq<Shape>, b: Blob)
    ensures LastCrop(shapes, b).None? <==> forall j :: !CroppedPictureAt(shapes, j, b)
    ensures LastCrop(shapes, b).Some? ==>
              exists j :: CroppedPictureAt(shapes, j, b) && shapes[j].crop == LastCrop(shapes, b).value
                          && forall k :: j < k < |shapes| ==> !CroppedPictureAt(shapes, k, b)
  {
    if shapes != [] {
      var n := |shapes| - 1;
      var front := shapes[..n];
      LastCropSpec(front, b);
      forall j | CroppedPictureAt(front, j, b) ensures CroppedPictureAt(shapes, j, b) { }
      forall j | j < n && CroppedPictureAt(shapes, j, b) ensures CroppedPictureAt(front, j, b) { }
      if !CroppedPictureAt(shapes, n, b) && LastCrop(front, b).Some? {
        var j :| CroppedPictureAt(front, j, b) && front[j].crop == LastCrop(front, b).value
                 && forall k :: j < k < |front| ==> !CroppedPictureAt(front, k, b);
        assert CroppedPictureAt(shapes, j, b);
      }
    }
  }

  /** The recorded entry: file name from `nameOf`, `used` false, the
      given slide index; `cropped` exactly when some picture of `b` has a crop
      value above zero; the crop fields of the last such picture; a ratio
      never above 1; zero crop fields when nothing was cropped. */
  lemma RecordSpec(nameOf: Blob -> string, shapes: seq<Shape>, slideIndex: Option<nat>, b: Blob)
    ensures var r := Record(nameOf, shapes, slideIndex, b);
            && r.filename == nameOf(b)
            && !r.used && r.slideIndex == slideIndex && r.isHidden.None?
            && r.cropRatio <= 1.0
            && (r.cropped <==> exists j :: CroppedPictureAt(shapes, j, b))
            && (r.cropped ==> exists j :: CroppedPictureAt(shapes, j, b) && r.crop == shapes[j].crop
                                          && r.cropRatio == CropRatio(shapes[j].crop)
                                          && forall k :: j < k < |shapes| ==> !CroppedPictureAt(shapes, k, b))
            && (!r.cropped ==> r.crop == NoCrop && r.cropRatio == 0.0)
  {
    LastCropSpec(shapes, b);
  }

  /** The flag alone: an entry is cropped exactly when some picture is. */
  lemma RecordCropped(nameOf: Blob -> string, shapes: seq<Shape>, slideIndex: Option<nat>, b: Blob)
    ensures Record(nameOf, shapes, slideIndex, b).cropped <==> exists j :: CroppedPictureAt(shapes, j, b)
    ensures Record(nameOf, shapes, slideIndex, b).cropRatio <= 1.0
  {
    RecordSpec(nameOf, shapes, slideIndex, b);
  }

  /** `cropped` is never reset: further shapes can only keep it true. */
  lemma CroppedNeverReset(nameOf: Blob -> string, shapes: seq<Shape>, more: seq<Shape>, slideIndex: Option<nat>, b: Blob)
    requires Record(nameOf, shapes, slideIndex, b).cropped
    ensures Record(nameOf, shapes + more, slideIndex, b).cropped
  {
    RecordSpec(nameOf, shapes, slideIndex, b);
    var j :| CroppedPictureAt(shapes, j, b);
    assert CroppedPictureAt(shapes + more, j, b);
    RecordSpec(nameOf, shapes + more, slideIndex, b);
  }

  lemma PrefixStep(shapes: seq<Shape>, i: nat, b: Blob)
    requires i < |shapes|
    ensures LastCrop(shapes[..i + 1], b)
            == if CroppedPictureAt(shapes, i, b) then Some(shapes[i].crop) else LastCrop(shapes[..i], b)
    ensures FirstSightings(shapes[..i + 1])
            == if shapes[i].Picture? && shapes[i].blob !in FirstSightings(shapes[..i])
               then FirstSightings(shapes[..i]) + [shapes[i].blob] else FirstSightings(shapes[..i])
  {
    assert shapes[..i + 1][..i] == shapes[..i];
  }

  /** The entries after one more shape, as the loop body of the recorder
      leaves them. */
  function Observe(nameOf: Blob -> string, m: map<Blob, ImageInfo>, s: Shape, slideIndex: Option<nat>): map<Blob, ImageInfo> {
    match s
    case NonPicture => m
    case Picture(blob, c) =>
      var m1 := if blob in m then m else m[blob := Fresh(nameOf(blob), slideIndex)];
      if IsCropped(c) then m1[blob := m1[blob].(cropped := true, crop := c, cropRatio := CropRatio(c))] else m1
  }

  /** The table after one more shape: the entries `Observe` gives, and a
      blob seen for the first time appended to the keys. */
  function Step(nameOf: Blob -> string, t: Table, s: Shape, slideIndex: Option<nat>): (t': Table)
    requires t.Valid()
    ensures t'.Valid()
    ensures t'.info == Observe(nameOf, t.info, s, slideIndex)
    ensures t'.keys == if s.Picture? && s.blob !in t.info then t.keys + [s.blob] else t.keys
  {
    match s
    case NonPicture => t
    case Picture(blob, c) =>
      var t1 := if blob in t.info then t else t.Put(blob, Fresh(nameOf(blob), slideIndex));
      if IsCropped(c) then t1.Put(blob, t1.info[blob].(cropped := true, crop := c, cropRatio := CropRatio(c))) else t1
  }

  /** The entry of `b` equals `Record` for the shapes seen, or `b` has no
      entry and no cropped picture yet. */
  ghost predicate RecordedAt(nameOf: Blob -> string, shapes: seq<Shape>, slideIndex: Option<nat>, m: map<Blob, ImageInfo>, b: Blob) {
    (b in m ==> m[b] == Record(nameOf, shapes, slideIndex, b)) && (b !in m ==> LastCrop(shapes, b).None?)
  }

  ghost predicate Recorded(nameOf: Blob -> string, shapes: seq<Shape>, slideIndex: Option<nat>, m: map<Blob, ImageInfo>) {
    forall b :: RecordedAt(nameOf, shapes, slideIndex, m, b)
  }

  lemma ObserveRecordsAt(nameOf: Blob -> string, shapes: seq<Shape>, i: nat, slideIndex: Option<nat>, m: map<Blob, ImageInfo>, b: Blob)
    requires i < |shapes|
    requires RecordedAt(nameOf, shapes[..i], slideIndex, m, b)
    ensures RecordedAt(nameOf, shapes[..i + 1], slideIndex, Observe(nameOf, m, shapes[i], slideIndex), b)
  {
    PrefixStep(shapes, i, b);
  }

  /** One step keeps the keys equal to the first sightings and the entries
      equal to `Record`. */
  lemma StepRecords(nameOf: Blob -> string, shapes: seq<Shape>, i: nat, slideIndex: Option<nat>, t: Table)
    requires i < |shapes| && t.Valid()
    requires t.keys == FirstSightings(shapes[..i])
    requires Recorded(nameOf, shapes[..i], slideIndex, t.info)
    ensures Step(nameOf, t, shapes[i], slideIndex).keys == FirstSightings(shapes[..i + 1])
    ensures Recorded(nameOf, shapes[..i + 1], slideIndex, Step(nameOf, t, shapes[i], slideIndex).info)
  {
    PrefixStep(shapes, i, []);
    var next, m' := shapes[..i + 1], Step(nameOf, t, shapes[i], slideIndex).info;
    forall b ensures RecordedAt(nameOf, next, slideIndex, m', b) {
      ObserveRecordsAt(nameOf, shapes, i, slideIndex, t.info, b);
    }
  }

  /** The table the recorder returns, stated without the loop. */
  ghost function ShapesTable(nameOf: Blob -> string, shapes: seq<Shape>, slideIndex: Option<nat>): (t: Table)
    ensures t.Valid()
    ensures forall b :: b in t.info <==> Shows(shapes, b)
  {
    FirstSightingsSpec(shapes);
    Table(FirstSightings(shapes), map b | b in FirstSightings(shapes) :: Record(nameOf, shapes, slideIndex, b))
  }

  lemma ShapesTableAt(nameOf: Blob -> string, shapes: seq<Shape>, slideIndex: Option<nat>, b: Blob)
    requires b in ShapesTable(nameOf, shapes, slideIndex).info
    ensures ShapesTable(nameOf, shapes, slideIndex).info[b] == Record(nameOf, shapes, slideIndex, b)
  {
  }

  /** `get_images_from_shapes`: one entry per distinct blob, in order of first
      sighting, each equal to `Record`. */
  method ImagesFromShapes(nameOf: Blob -> string, shapes: seq<Shape>, slideIndex: Option<nat>) returns (t: Table)
    ensures t.Valid()
    ensures t.keys == FirstSightings(shapes)
    ensures forall b :: b in t.info <==> Shows(shapes, b)
    ensures forall b :: b in t.info ==> t.info[b] == Record(nameOf, shapes, slideIndex, b)
    ensures t == ShapesTable(nameOf, shapes, slideIndex)
  {
    t := EmptyTable;
    var i := 0;
    while i < |shapes|
      invariant 0 <= i <= |shapes|
      invariant t.Valid()
      invariant t.keys == FirstSightings(shapes[..i])
      invariant Recorded(nameOf, shapes[..i], slideIndex, t.info)
    {
      ghost var t0 := t;
      if shapes[i].Picture? {
        var blob, c := shapes[i].blob, shapes[i].crop;
        if blob !in t.info {
          t := t.Put(blob, Fresh(nameOf(blob), slideIndex));
        }
        if IsCropped(c) {
          var entry := t.info[blob];
          t := t.Put(blob, entry.(cropped := true, crop := c, cropRatio := CropRatio(c)));
        }
      }
      assert t == Step(nameOf, t0, shapes[i], slideIndex);
      StepRecords(nameOf, shapes, i, slideIndex, t0);
      i := i + 1;
    }
    assert shapes[..|shapes|] == shapes;
    FirstSightingsSpec(shapes);
    forall b | b in t.info ensures t.info[b] == Record(nameOf, shapes, slideIndex, b) {
      assert RecordedAt(nameOf, shapes, slideIndex, t.info, b);
    }
    assert t.info == ShapesTable(nameOf, shapes, slideIndex).info;
  }
}
