/** Baking the crops into one slide: `emu_to_percentage` and
    `remove_crop_info_from_slide_xml` (New-Release/slim_pptx.py:413-517).
    The slide part is the parsed view of `ppt/slides/slide{k}.xml`: its
    `p:pic` elements in document order. The rewrite is stated for two
    readings: the code as written, and the code with the three defects
    listed under Findings in README.md corrected. */
module CropRewrite {
  import opened Wrappers
  import opened Text
  import opened Package
  import opened Shapes

  /** Which rewrite: the code as written, or the intended one. */
  datatype Variant = AsWritten | Intended

  /** `int(x)` on a float: truncation toward zero. */
  function Trunc(x: real): (n: int)
    ensures x >= 0.0 ==> 0 <= n && n as real <= x < n as real + 1.0
    ensures x < 0.0 ==> n <= 0 && n as real - 1.0 < x <= n as real
  {
    if x >= 0.0 then x.Floor else -((-x).Floor)
  }

  /** `float(text)`: None for the ValueError of a non-numeric attribute. */
  function ToFloat(v: Numeral): Option<real> {
    match v
    case Integer(i) => Some(i as real)
    case Decimal(r) => Some(r)
    case NotANumber => None
  }

  /** `emu_to_percentage(text)`: the attribute divided by 10,000,000. */
  function EmuToPercentage(v: Numeral): Option<real> {
    match ToFloat(v)
    case None => None
    case Some(x) => Some(x / 10000000.0)
  }

  /** The `srcRect` offsets are thousandths of a percent of the picture
      (ECMA-376 Part 1, section 20.1.8.55), so the fraction of the picture
      an offset removes is the attribute divided by 100,000. */
  function SrcRectFraction(v: Numeral): Option<real> {
    match ToFloat(v)
    case None => None
    case Some(x) => Some(x / 100000.0)
  }

  function Fraction(variant: Variant, v: Numeral): Option<real> {
    if variant.AsWritten? then EmuToPercentage(v) else SrcRectFraction(v)
  }

  /** The four `srcRect` edges, in the order the code visits them. */
  const EdgeNames: seq<string> := ["l", "t", "r", "b"]
  const Edges: set<string> := {"l", "t", "r", "b"}

  /** The crop attributes the code pops from the fill. */
  const FillCropAttrs: set<string> := {"cropLeft", "cropTop", "cropRight", "cropBottom"}

  /** `crop_values`: every edge the `srcRect` sets, read as a fraction; None
      when one of them is not a number (the conversion raises). */
  function CropValues(variant: Variant, attrs: map<string, Numeral>): Option<map<string, real>> {
    if exists e :: e in Edges && e in attrs && Fraction(variant, attrs[e]).None? then None
    else Some(map e | e in Edges && e in attrs :: Fraction(variant, attrs[e]).value)
  }

  /** `crop_values.get(e, 0)`. */
  function Get(m: map<string, real>, e: string): real {
    if e in m then m[e] else 0.0
  }

  /** The crop fields written into the image's dictionary. */
  function CropOf(m: map<string, real>): Crop {
    Crop(Get(m, "l"), Get(m, "t"), Get(m, "r"), Get(m, "b"))
  }

  /** `sum(crop_values.values()) / len(crop_values)`. */
  function Mean(m: map<string, real>): real
    requires |m| > 0
  {
    (Get(m, "l") + Get(m, "t") + Get(m, "r") + Get(m, "b")) / (|m| as real)
  }

  /** The dictionary update of lines 465-470: the crop fields and the ratio. */
  datatype CropUpdate = CropUpdate(crop: Crop, ratio: real)

  function Apply(info: ImageInfo, u: CropUpdate): ImageInfo {
    info.(crop := u.crop, cropRatio := u.ratio)
  }

  /** `int(ext.get(name, 0))`: 0 when absent, None for the ValueError of an
      attribute that is not an integer literal. */
  function ExtentValue(v: Option<Numeral>): Option<int> {
    match v
    case None => Some(0)
    case Some(Integer(i)) => Some(i)
    case Some(_) => None
  }

  /** The new `cx`/`cy`: `int(cx * (1 - l - r))` and `int(cy * (1 - t - b))`,
      written back as integer literals. */
  function Resize(ext: Extent, c: Crop): Option<Extent> {
    match (ExtentValue(ext.cx), ExtentValue(ext.cy))
    case (Some(w), Some(h)) =>
      Some(Extent(Some(Integer(Scale(w, c.left, c.right))), Some(Integer(Scale(h, c.top, c.bottom)))))
    case _ => None
  }

  /** One side once the crop's two offsets on that axis are cut away. */
  function Scale(v: int, a: real, b: real): int {
    Trunc(v as real * (1.0 - a - b))
  }

  /** `pic.find('.//a:blipFill', ns)`: as written only a DrawingML fill is
      found, while a picture's own fill is the PresentationML `p:blipFill`;
      the intended search finds the picture's fill in either namespace. */
  function FindFill(variant: Variant, pic: Pic): Option<BlipFill> {
    match pic.fill
    case None => None
    case Some(f) => if variant.AsWritten? && f.ns != DrawingFill then None else Some(f)
  }

  /** What one pass of the loop body does to a picture: the rewritten
      picture, the update made to the matched image's dictionary, and
      whether an exception left the loop (the slide is then not written). */
  datatype PicOutcome = PicOutcome(pic: Pic, update: Option<CropUpdate>, failed: bool)

  /** Lines 440-470: the crop values read from the `srcRect` when the fill
      has a blip with an `r:embed`, the image name is set and the `srcRect`
      exists; no values otherwise. None when reading one raises. */
  function ReadStage(variant: Variant, f: BlipFill, named: bool): Option<map<string, real>> {
    if f.embed != "" && named && f.srcRect.Some? then CropValues(variant, f.srcRect.value) else Some(map[])
  }

  /** The dictionary update made when some value was read. */
  function UpdateOf(m: map<string, real>): Option<CropUpdate> {
    if |m| > 0 then Some(CropUpdate(CropOf(m), Mean(m))) else None
  }

  /** Lines 472-488: the extent after the resize; None when reading `cx` or
      `cy` raises. */
  function ResizeStage(ext: Option<Extent>, m: map<string, real>): Option<Option<Extent>> {
    if |m| > 0 && ext.Some? then
      (match Resize(ext.value, CropOf(m))
       case None => None
       case Some(e) => Some(Some(e)))
    else Some(ext)
  }

  /** Lines 490-510: the fill without its crop attributes and without the
      `srcRect` edges. An emptied `srcRect` is dropped in the intended
      rewrite; as written, `srcRect.getparent()` raises (None) because
      ElementTree elements have no parent link. */
  function Strip(variant: Variant, f: BlipFill): Option<BlipFill> {
    var attrs := f.attrs - FillCropAttrs;
    match f.srcRect
    case None => Some(f.(attrs := attrs))
    case Some(r) =>
      if r - Edges != map[] then Some(f.(attrs := attrs, srcRect := Some(r - Edges)))
      else if variant.AsWritten? then None
      else Some(f.(attrs := attrs, srcRect := None))
  }

  /** The loop body of lines 436-510 for one `p:pic`; `named` says that the
      lookup of lines 446-450 found a non-empty file name. */
  function RewritePic(variant: Variant, pic: Pic, named: bool): PicOutcome {
    match FindFill(variant, pic)
    case None => PicOutcome(pic, None, false)
    case Some(f) =>
      match ReadStage(variant, f, named)
      case None => PicOutcome(pic, None, true)
      case Some(m) =>
        match ResizeStage(pic.ext, m)
        case None => PicOutcome(pic, UpdateOf(m), true)
        case Some(ext) =>
          match Strip(variant, f)
          case None => PicOutcome(pic, UpdateOf(m), true)
          case Some(f') => PicOutcome(Pic(Some(f'), ext), UpdateOf(m), false)
  }

  /** The loop over the slide's pictures up to picture `n`, given the
      outcome of the loop body for each: the pictures rewritten so far, the
      last dictionary update and whether a pass failed (the loop stops at
      the first failure). */
  datatype Pass = Pass(pics: seq<Pic>, update: Option<CropUpdate>, failed: bool)

  function Fold(os: seq<PicOutcome>, n: nat): Pass
    requires n <= |os|
  {
    if n == 0 then Pass([], None, false)
    else
      var p := Fold(os, n - 1);
      if p.failed then p else Step(p, os[n - 1])
  }

  /** One more picture: kept when its pass succeeded, and its update, if
      any, replaces the previous one. */
  function Step(p: Pass, o: PicOutcome): Pass {
    Pass(if o.failed then p.pics else p.pics + [o.pic],
         if o.update.Some? then o.update else p.update,
         o.failed)
  }

  /** The loop body's outcome for every picture of the slide. */
  function Outcomes(variant: Variant, pics: seq<Pic>, named: bool): seq<PicOutcome> {
    seq(|pics|, i requires 0 <= i < |pics| => RewritePic(variant, pics[i], named))
  }

  function PassPics(variant: Variant, pics: seq<Pic>, named: bool): Pass {
    Fold(Outcomes(variant, pics, named), |pics|)
  }

  /** `os.path.join(temp_dir, 'ppt', 'slides', f'slide{k}.xml')`. */
  function SlidePath(k: nat): string {
    "ppt/slides/slide" + NatToString(k) + ".xml"
  }

  /** The loop of lines 446-450 from key `i` on: the first image whose slide
      index is `k`. */
  function FirstForSlideFrom(t: Table, k: nat, i: nat): (r: Option<Blob>)
    requires i <= |t.keys|
    ensures r.Some? ==> r.value in t.info && t.info[r.value].slideIndex == Some(k)
    decreases |t.keys| - i
  {
    if i == |t.keys| then None
    else if t.keys[i] in t.info && t.info[t.keys[i]].slideIndex == Some(k) then Some(t.keys[i])
    else FirstForSlideFrom(t, k, i + 1)
  }

  /** The match is the first image from key `i` on whose slide index is
      `k`, and there is none exactly when no image from there on has it. */
  lemma {:induction false} FirstForSlideFromSpec(t: Table, k: nat, i: nat)
    requires i <= |t.keys|
    ensures var r := FirstForSlideFrom(t, k, i);
      && (r.Some? ==> exists j :: i <= j < |t.keys| && t.keys[j] == r.value
                                 && forall l :: i <= l < j && t.keys[l] in t.info ==> t.info[t.keys[l]].slideIndex != Some(k))
      && (r.None? <==> forall j :: i <= j < |t.keys| && t.keys[j] in t.info ==> t.info[t.keys[j]].slideIndex != Some(k))
    decreases |t.keys| - i
  {
    if i < |t.keys| {
      FirstForSlideFromSpec(t, k, i + 1);
    }
  }

  function FirstForSlide(t: Table, k: nat): Option<Blob> {
    FirstForSlideFrom(t, k, 0)
  }

  /** The image name the rewrite works with is set and not empty. */
  predicate Named(t: Table, k: nat) {
    FirstForSlide(t, k).Some? && t.info[FirstForSlide(t, k).value].filename != ""
  }

  /** The extracted files and the cropped-images dictionary after the call. */
  datatype SlideResult = SlideResult(files: map<string, Part>, table: Table)

  /** `remove_crop_info_from_slide_xml(temp_dir, k, cropped_images)`: a
      missing slide file, or one that is not a slide, is left as it is; a
      failed pass leaves the file unchanged; the matched image's dictionary
      keeps the updates made before any failure. */
  function RewriteSlide(variant: Variant, files: map<string, Part>, k: nat, t: Table): SlideResult
    requires t.Valid()
  {
    var path := SlidePath(k);
    if path !in files || !files[path].Slide? then SlideResult(files, t)
    else
      var slide := files[path];
      var p := PassPics(variant, slide.pics, Named(t, k));
      SlideResult(if p.failed then files else files[path := Slide(slide.show, p.pics)],
                  Updated(t, FirstForSlide(t, k), p.update))
  }

  /** The `for attr in ['l', 't', 'r', 'b']` loop building `crop_values`. */
  method ReadCropValues(variant: Variant, attrs: map<string, Numeral>) returns (r: Option<map<string, real>>)
    ensures r == CropValues(variant, attrs)
  {
    var m: map<string, real> := map[];
    for i := 0 to |EdgeNames|
      invariant forall e :: e in m <==> e in EdgeNames[..i] && e in attrs
      invariant forall e :: e in m ==> Fraction(variant, attrs[e]) == Some(m[e])
      invariant forall j :: 0 <= j < i && EdgeNames[j] in attrs ==> Fraction(variant, attrs[EdgeNames[j]]).Some?
    {
      var e := EdgeNames[i];
      if e in attrs {
        var v := Fraction(variant, attrs[e]);
        if v.None? {
          return None;
        }
        m := m[e := v.value];
      }
    }
    assert EdgeNames[..|EdgeNames|] == EdgeNames;
    CropValuesRead(variant, attrs, m);
    return Some(m);
  }

  /** The loop's result is the map `crop_values` defines. */
  lemma CropValuesRead(variant: Variant, attrs: map<string, Numeral>, m: map<string, real>)
    requires forall e :: e in m <==> e in EdgeNames && e in attrs
    requires forall e :: e in m ==> Fraction(variant, attrs[e]) == Some(m[e])
    requires forall j :: 0 <= j < |EdgeNames| && EdgeNames[j] in attrs ==> Fraction(variant, attrs[EdgeNames[j]]).Some?
    ensures CropValues(variant, attrs) == Some(m)
  {
    forall e | e in Edges
      ensures e == EdgeNames[0] || e == EdgeNames[1] || e == EdgeNames[2] || e == EdgeNames[3]
      ensures e in EdgeNames
    {
    }
    forall e | e in EdgeNames
      ensures e in Edges
    {
    }
    var spec := map e | e in Edges && e in attrs :: Fraction(variant, attrs[e]).value;
    assert spec.Keys == m.Keys;
    assert spec == m;
  }

  /** The loop body for one picture, changing the picture's fill and extent
      step by step as the code does. */
  method RewritePicture(variant: Variant, pic: Pic, named: bool) returns (o: PicOutcome)
    ensures o == RewritePic(variant, pic, named)
  {
    var fill := FindFill(variant, pic);
    if fill.None? {
      return PicOutcome(pic, None, false);
    }
    var f := fill.value;
    var values: Option<map<string, real>> := Some(map[]);
    if f.embed != "" && named && f.srcRect.Some? {
      values := ReadCropValues(variant, f.srcRect.value);
    }
    if values.None? {
      return PicOutcome(pic, None, true);
    }
    var m := values.value;
    var update := UpdateOf(m);
    var ext := pic.ext;
    if |m| > 0 && ext.Some? {
      var resized := Resize(ext.value, CropOf(m));
      if resized.None? {
        return PicOutcome(pic, update, true);
      }
      ext := resized;
    }
    var stripped := StripFill(variant, f);
    if stripped.None? {
      return PicOutcome(pic, update, true);
    }
    return PicOutcome(Pic(stripped, ext), update, false);
  }

  /** The two attribute-popping loops of lines 490-503 and the removal of an
      emptied `srcRect`. */
  method StripFill(variant: Variant, f: BlipFill) returns (r: Option<BlipFill>)
    ensures r == Strip(variant, f)
  {
    var g := f.(attrs := f.attrs - FillCropAttrs);
    if g.srcRect.Some? {
      g := g.(srcRect := Some(g.srcRect.value - Edges));
      if g.srcRect.value == map[] {
        if variant.AsWritten? {
          // `srcRect.getparent()` raises: ElementTree elements have no parent link
          return None;
        }
        g := g.(srcRect := None);
      }
    }
    return Some(g);
  }

  /** The loop of lines 446-450. */
  method FindSlideImage(t: Table, k: nat) returns (r: Option<Blob>)
    ensures r == FirstForSlide(t, k)
  {
    var i := 0;
    while i < |t.keys|
      invariant i <= |t.keys|
      invariant FirstForSlideFrom(t, k, i) == FirstForSlide(t, k)
    {
      var b := t.keys[i];
      if b in t.info && t.info[b].slideIndex == Some(k) {
        return Some(b);
      }
      i := i + 1;
    }
    return None;
  }

  /** The `for pic in root.findall('.//p:pic', ns)` loop: each picture is
      rewritten in turn and the first exception leaves the loop. Every crop
      update overwrites all the fields the previous one wrote, so the
      matched dictionary ends up with the last one (`Updated`). */
  method RewritePictures(variant: Variant, pics: seq<Pic>, named: bool) returns (p: Pass)
    ensures p == PassPics(variant, pics, named)
  {
    ghost var os := Outcomes(variant, pics, named);
    p := Pass([], None, false);
    for i := 0 to |pics|
      invariant p == Fold(os, i) && !p.failed
    {
      var o := RewritePicture(variant, pics[i], named);
      FoldNext(os, i, o);
      p := Step(p, o);
      if p.failed {
        FailureStops(os, i + 1, |os|);
        return;
      }
    }
  }

  /** Until a pass fails, each picture is one more step of the loop. */
  lemma FoldNext(os: seq<PicOutcome>, i: nat, o: PicOutcome)
    requires i < |os| && o == os[i] && !Fold(os, i).failed
    ensures Fold(os, i + 1) == Step(Fold(os, i), o)
  {
  }

  /** Once a pass failed, the later pictures are not visited. */
  lemma {:induction false} FailureStops(os: seq<PicOutcome>, i: nat, n: nat)
    requires i <= n <= |os|
    requires Fold(os, i).failed
    ensures Fold(os, n) == Fold(os, i)
    decreases n
  {
    if n > i {
      FailureStops(os, i, n - 1);
    }
  }

  /** `remove_crop_info_from_slide_xml(temp_dir, k, cropped_images)`. */
  method RemoveCropInfo(variant: Variant, files: map<string, Part>, k: nat, t: Table) returns (files': map<string, Part>, t': Table)
    requires t.Valid()
    ensures t'.Valid()
    ensures SlideResult(files', t') == RewriteSlide(variant, files, k, t)
  {
    files', t' := files, t;
    var path := SlidePath(k);
    if path !in files || !files[path].Slide? {
      return;
    }
    var slide := files[path];
    var matched := FindSlideImage(t, k);
    var named := matched.Some? && t.info[matched.value].filename != "";
    var p := RewritePictures(variant, slide.pics, named);
    t' := Updated(t, matched, p.update);
    if !p.failed {
      files' := files[path := Slide(slide.show, p.pics)];
    }
  }

  /** The table once the matched image's dictionary took `u`, if any. */
  function Updated(t: Table, matched: Option<Blob>, u: Option<CropUpdate>): (r: Table)
    requires t.Valid()
    ensures r.Valid() && r.keys == t.keys
    ensures forall b :: b in r.info <==> b in t.info
  {
    if u.Some? && matched.Some? && matched.value in t.info then t.Put(matched.value, Apply(t.info[matched.value], u.value)) else t
  }
}
