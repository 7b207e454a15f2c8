/** What the crop rewrite of New-Release/slim_pptx.py:413-517 promises about
    a slide, and where the code as written departs from it. */
module CropRewriteProperties {
  import opened Wrappers
  import opened Package
  import opened Shapes
  import opened CropRewrite

  /** The loop over the pictures stops at the first failing one. It fails
      exactly when some picture's pass failed. Otherwise every picture is
      kept, rewritten, in document order. The update it leaves behind is
      one that some picture made. */
  lemma {:induction false} FoldSpec(os: seq<PicOutcome>, n: nat)
    requires n <= |os|
    ensures Fold(os, n).failed <==> exists i :: 0 <= i < n && os[i].failed
    ensures !Fold(os, n).failed ==>
              |Fold(os, n).pics| == n && forall i :: 0 <= i < n ==> Fold(os, n).pics[i] == os[i].pic
    ensures Fold(os, n).update.Some? ==> exists i :: 0 <= i < n && os[i].update == Fold(os, n).update
  {
    if n > 0 {
      FoldSpec(os, n - 1);
    }
  }

  /** A picture whose fill carries no crop: no crop attribute on the fill,
      and a `srcRect`, if any, that has attributes and none of them an edge. */
  predicate Uncropped(f: BlipFill) {
    && (forall a :: a in FillCropAttrs ==> a !in f.attrs)
    && (f.srcRect.Some? ==> f.srcRect.value != map[] && forall e :: e in Edges ==> e !in f.srcRect.value)
  }

  /** The intended rewrite leaves no crop behind in a picture it rewrites:
      the fill loses its crop attributes and the `srcRect` its edges, an
      emptied `srcRect` goes, and the rest of the fill is kept. */
  lemma IntendedStripsCrop(pic: Pic, named: bool)
    requires pic.fill.Some?
    requires !RewritePic(Intended, pic, named).failed
    ensures var f, g := pic.fill.value, RewritePic(Intended, pic, named).pic.fill;
      && g.Some? && Uncropped(g.value)
      && g.value.ns == f.ns && g.value.embed == f.embed
      && g.value.attrs == f.attrs - FillCropAttrs
      && (g.value.srcRect.Some? ==> f.srcRect.Some? && g.value.srcRect.value == f.srcRect.value - Edges)
  {
  }

  /** An offset or an extent that cannot be read as a number. */
  predicate Unreadable(pic: Pic) {
    pic.fill.Some? &&
    var f := pic.fill.value;
    f.srcRect.Some? &&
    ((exists e :: e in Edges && e in f.srcRect.value && ToFloat(f.srcRect.value[e]).None?)
     || ((exists e :: e in Edges && e in f.srcRect.value) && pic.ext.Some?
         && (ExtentValue(pic.ext.value.cx).None? || ExtentValue(pic.ext.value.cy).None?)))
  }

  /** The intended rewrite of a picture fails only where reading a number
      raises: an offset or an extent that is not a number, for a picture
      whose crop the loop reads. */
  lemma IntendedFailsOnlyOnUnreadable(pic: Pic, named: bool)
    ensures RewritePic(Intended, pic, named).failed <==>
              pic.fill.Some? && pic.fill.value.embed != "" && named && Unreadable(pic)
  {
    if pic.fill.Some? && pic.fill.value.embed != "" && named && pic.fill.value.srcRect.Some? {
      var r := pic.fill.value.srcRect.value;
      if CropValues(Intended, r).Some? {
        var m := CropValues(Intended, r).value;
        if exists e :: e in Edges && e in r {
          var e :| e in Edges && e in r;
          assert e in m;
        } else {
          assert m == map[];
        }
      }
    }
  }

  /** A second intended pass over a picture the first pass rewrote changes
      nothing and records nothing. */
  lemma IntendedIdempotent(pic: Pic, named: bool)
    requires !RewritePic(Intended, pic, named).failed
    ensures var q := RewritePic(Intended, pic, named).pic;
      RewritePic(Intended, q, named) == PicOutcome(q, None, false)
  {
    var q := RewritePic(Intended, pic, named).pic;
    if pic.fill.Some? {
      IntendedStripsCrop(pic, named);
      UncroppedUnchanged(q.fill.value, named);
    }
  }

  /** The intended rewrite leaves an uncropped fill as it is. */
  lemma UncroppedUnchanged(f: BlipFill, named: bool)
    requires Uncropped(f)
    ensures ReadStage(Intended, f, named) == Some(map[])
    ensures Strip(Intended, f) == Some(f)
  {
    if f.srcRect.Some? {
      var r := f.srcRect.value;
      NoEdgeNoValues(Intended, r);
      assert r - Edges == r;
    }
    assert f.attrs - FillCropAttrs == f.attrs;
  }

  lemma NoEdgeNoValues(variant: Variant, r: map<string, Numeral>)
    requires forall e :: e in Edges ==> e !in r
    ensures CropValues(variant, r) == Some(map[])
  {
    var m := CropValues(variant, r).value;
    assert forall e :: e !in m;
  }

  /** A picture whose fill has no `srcRect`, or one that sets none of
      l/t/r/b, keeps its size and records nothing, under either reading.
      Only the code as written fails, on the empty `srcRect` it tries to
      drop. */
  lemma NoEdgeKeepsFrame(variant: Variant, pic: Pic, named: bool)
    requires pic.fill.Some?
    requires var f := pic.fill.value; f.srcRect.None? || forall e :: e in Edges ==> e !in f.srcRect.value
    ensures var o := RewritePic(variant, pic, named);
      && o.pic.ext == pic.ext && o.update == None
      && (o.failed <==> variant.AsWritten? && FindFill(variant, pic).Some? && pic.fill.value.srcRect == Some(map[]))
  {
    var f := pic.fill.value;
    if FindFill(variant, pic).Some? {
      if f.srcRect.Some? {
        NoEdgeNoValues(variant, f.srcRect.value);
        assert f.srcRect.value - Edges == f.srcRect.value;
      }
      assert ReadStage(variant, f, named) == Some(map[]);
    }
  }

  /** The offset a `srcRect` gives an edge when it is an integer literal, 0
      when the edge is absent. */
  function Offset(r: map<string, Numeral>, e: string): int {
    if e in r && r[e].Integer? then r[e].i else 0
  }

  /** The intended rewrite of a picture whose `srcRect` sets some edges, all
      as non-negative integer offsets leaving part of each axis: the crop
      recorded is each offset over 100000, the frame shrinks by exactly
      those shares, and it never grows. */
  lemma IntendedCropShrinksFrame(f: BlipFill, w: int, h: int)
    requires f.embed != "" && f.srcRect.Some?
    requires var r := f.srcRect.value;
      && (exists e :: e in Edges && e in r)
      && (forall e :: e in Edges && e in r ==> r[e].Integer? && r[e].i >= 0)
      && Offset(r, "l") + Offset(r, "r") <= 100000 && Offset(r, "t") + Offset(r, "b") <= 100000
    requires 0 <= w && 0 <= h
    ensures var r := f.srcRect.value;
      var c := Crop(Offset(r, "l") as real / 100000.0, Offset(r, "t") as real / 100000.0,
                    Offset(r, "r") as real / 100000.0, Offset(r, "b") as real / 100000.0);
      var o := RewritePic(Intended, Pic(Some(f), Some(Extent(Some(Integer(w)), Some(Integer(h))))), true);
      && !o.failed && o.update.Some? && o.update.value.crop == c
      && o.pic.ext == Some(Extent(Some(Integer(Scale(w, c.left, c.right))), Some(Integer(Scale(h, c.top, c.bottom)))))
      && 0 <= Scale(w, c.left, c.right) <= w && 0 <= Scale(h, c.top, c.bottom) <= h
  {
    var r := f.srcRect.value;
    var c := Crop(Offset(r, "l") as real / 100000.0, Offset(r, "t") as real / 100000.0,
                  Offset(r, "r") as real / 100000.0, Offset(r, "b") as real / 100000.0);
    assert CropValues(Intended, r).Some?;
    var m := CropValues(Intended, r).value;
    forall e | e in Edges
      ensures Get(m, e) == Offset(r, e) as real / 100000.0
    {
    }
    assert CropOf(m) == c;
    var e :| e in Edges && e in r;
    assert e in m;
    assert |m| > 0;
    assert ReadStage(Intended, f, true) == Some(m);
    var ext' := Extent(Some(Integer(Scale(w, c.left, c.right))), Some(Integer(Scale(h, c.top, c.bottom))));
    assert Resize(Extent(Some(Integer(w)), Some(Integer(h))), c) == Some(ext');
    assert Strip(Intended, f).Some?;
    ScaleWithin(w, c.left, c.right);
    ScaleWithin(h, c.top, c.bottom);
  }

  /** A `srcRect` setting one edge yields that edge's fraction alone. */
  lemma OneEdgeValues(variant: Variant, e: string, v: Numeral)
    requires e in Edges && Fraction(variant, v).Some?
    ensures CropValues(variant, map[e := v]) == Some(map[e := Fraction(variant, v).value])
  {
    var m := CropValues(variant, map[e := v]).value;
    assert forall d :: d in m <==> d == e;
    assert m == map[e := Fraction(variant, v).value];
  }

  /** A picture whose fill is `p:blipFill`, as every PresentationML picture's
      is, is never matched by the code as written: it keeps its crop and
      its size, and nothing is recorded. */
  lemma AsWrittenSkipsPresentationFill(pic: Pic, named: bool)
    requires pic.fill.Some? && pic.fill.value.ns == PresentationFill
    ensures RewritePic(AsWritten, pic, named) == PicOutcome(pic, None, false)
  {
  }

  /** A `srcRect` that holds only edges, as every crop PowerPoint writes
      does, makes the code as written raise once the edges are removed,
      for every picture it matches: the slide is then not written back. */
  lemma AsWrittenFailsOnEdgeOnlySrcRect(pic: Pic, named: bool)
    requires pic.fill.Some? && pic.fill.value.ns == DrawingFill
    requires pic.fill.value.srcRect.Some?
    requires forall a :: a in pic.fill.value.srcRect.value ==> a in Edges
    ensures RewritePic(AsWritten, pic, named).failed
  {
    var r := pic.fill.value.srcRect.value;
    assert r - Edges == map[];
  }

  /** The offsets as read by `emu_to_percentage` are a hundredth of the
      fractions of the picture they stand for. */
  lemma EmuToPercentageScale(v: Numeral)
    ensures EmuToPercentage(v).Some? <==> SrcRectFraction(v).Some?
    ensures EmuToPercentage(v).Some? ==> EmuToPercentage(v).value * 100.0 == SrcRectFraction(v).value
  {
  }

  /** An offset between 0 and 100000 crops between none and all of the
      picture; 100000 is the whole picture. */
  lemma SrcRectFractionRange(x: int)
    requires 0 <= x <= 100000
    ensures var r := SrcRectFraction(Integer(x)).value; 0.0 <= r <= 1.0
    ensures SrcRectFraction(Integer(100000)) == Some(1.0)
  {
  }

  /** The new size keeps the share of the picture the crop leaves: for a
      non-negative size and a crop that leaves between none and all of the
      picture on each axis, the new size is non-negative and no larger; an
      uncropped axis keeps its size. */
  lemma ResizeShrinks(w: int, h: int, c: Crop)
    requires 0 <= w && 0 <= h
    requires 0.0 <= c.left && 0.0 <= c.right && c.left + c.right <= 1.0
    requires 0.0 <= c.top && 0.0 <= c.bottom && c.top + c.bottom <= 1.0
    ensures var r := Resize(Extent(Some(Integer(w)), Some(Integer(h))), c);
      && r.Some? && r.value.cx.Some? && r.value.cx.value.Integer? && r.value.cy.Some? && r.value.cy.value.Integer?
      && 0 <= r.value.cx.value.i <= w && 0 <= r.value.cy.value.i <= h
      && (c.left == c.right == 0.0 ==> r.value.cx.value.i == w)
      && (c.top == c.bottom == 0.0 ==> r.value.cy.value.i == h)
  {
    assert ExtentValue(Some(Integer(w))) == Some(w) && ExtentValue(Some(Integer(h))) == Some(h);
    ScaleWithin(w, c.left, c.right);
    ScaleWithin(h, c.top, c.bottom);
  }

  lemma ScaleWithin(v: int, a: real, b: real)
    requires 0 <= v && 0.0 <= a && 0.0 <= b && a + b <= 1.0
    ensures 0 <= Scale(v, a, b) <= v
    ensures a == b == 0.0 ==> Scale(v, a, b) == v
  {
    var w, s := v as real, 1.0 - a - b;
    Distribute(w, a, b);
    NonNegativeProduct(w, a + b);
    NonNegativeProduct(w, s);
  }

  lemma NonNegativeProduct(p: real, q: real)
    requires 0.0 <= p && 0.0 <= q
    ensures 0.0 <= p * q
  {
  }

  lemma Distribute(w: real, a: real, b: real)
    ensures w * (1.0 - a - b) == w - w * (a + b)
  {
  }

  /** A crop on the left edge only: the recorded crop is that fraction on
      the left and 0 elsewhere, the ratio is that fraction (the mean is
      over the edges set, and nothing caps it), and the width shrinks by
      that share while the height is kept. The intended rewrite then drops
      the emptied `srcRect`; the code as written records the same update
      with a hundredth of the fraction and then raises. */
  lemma LeftCropOnly(variant: Variant, show: bool, embed: string, x: int, w: int, h: int)
    requires embed != ""
    ensures
      var f := BlipFill(DrawingFill, map[], embed, Some(map["l" := Integer(x)]));
      var o := RewritePic(variant, Pic(Some(f), Some(Extent(Some(Integer(w)), Some(Integer(h))))), true);
      var fr := Fraction(variant, Integer(x)).value;
      && o.update == Some(CropUpdate(Crop(fr, 0.0, 0.0, 0.0), fr))
      && (variant.Intended? ==>
            !o.failed && o.pic == Pic(Some(f.(srcRect := None)), Some(Extent(Some(Integer(Scale(w, fr, 0.0))), Some(Integer(h))))))
      && (variant.AsWritten? ==> o.failed)
  {
    var f := BlipFill(DrawingFill, map[], embed, Some(map["l" := Integer(x)]));
    var ext := Extent(Some(Integer(w)), Some(Integer(h)));
    var fr := Fraction(variant, Integer(x)).value;
    var m := map["l" := fr];
    OneEdgeValues(variant, "l", Integer(x));
    assert ReadStage(variant, f, true) == Some(m);
    assert |m| == 1 && CropOf(m) == Crop(fr, 0.0, 0.0, 0.0);
    assert UpdateOf(m) == Some(CropUpdate(Crop(fr, 0.0, 0.0, 0.0), fr));
    assert Scale(h, 0.0, 0.0) == h;
    var ext' := Extent(Some(Integer(Scale(w, fr, 0.0))), Some(Integer(h)));
    assert ExtentValue(ext.cx) == Some(w) && ExtentValue(ext.cy) == Some(h);
    assert Resize(ext, Crop(fr, 0.0, 0.0, 0.0)) == Some(ext');
    assert ResizeStage(Some(ext), m) == Some(Some(ext'));
    assert map["l" := Integer(x)] - Edges == map[];
    assert Strip(variant, f) == if variant.AsWritten? then None else Some(f.(srcRect := None));
  }

  /** A quarter of the width cropped from the left of a DrawingML fill
      (`l="25000"`): the code as written records 0.0025 and raises, the
      intended rewrite records 0.25 and shrinks 1000 to 750. */
  lemma QuarterLeftCrop()
    ensures var f := BlipFill(DrawingFill, map[], "rId2", Some(map["l" := Integer(25000)]));
      var pic := Pic(Some(f), Some(Extent(Some(Integer(1000)), Some(Integer(1000)))));
      && RewritePic(AsWritten, pic, true) == PicOutcome(pic, Some(CropUpdate(Crop(0.0025, 0.0, 0.0, 0.0), 0.0025)), true)
      && RewritePic(Intended, pic, true)
         == PicOutcome(Pic(Some(f.(srcRect := None)), Some(Extent(Some(Integer(750)), Some(Integer(1000))))),
                       Some(CropUpdate(Crop(0.25, 0.0, 0.0, 0.0), 0.25)), false)
  {
    LeftCropOnly(AsWritten, false, "rId2", 25000, 1000, 1000);
    LeftCropOnly(Intended, false, "rId2", 25000, 1000, 1000);
    assert Scale(1000, 0.25, 0.0) == 750;
  }

  /** The same picture with its PresentationML fill `p:blipFill`: the code
      as written leaves it cropped, the intended rewrite shrinks it. */
  lemma QuarterLeftCropOfSlidePicture()
    ensures var f := BlipFill(PresentationFill, map[], "rId2", Some(map["l" := Integer(25000)]));
      var pic := Pic(Some(f), Some(Extent(Some(Integer(1000)), Some(Integer(1000)))));
      && RewritePic(AsWritten, pic, true) == PicOutcome(pic, None, false)
      && RewritePic(Intended, pic, true).pic.ext == Some(Extent(Some(Integer(750)), Some(Integer(1000))))
  {
    var f := BlipFill(PresentationFill, map[], "rId2", Some(map["l" := Integer(25000)]));
    var m := map["l" := 0.25];
    OneEdgeValues(Intended, "l", Integer(25000));
    assert |m| == 1 && CropOf(m) == Crop(0.25, 0.0, 0.0, 0.0);
    assert Scale(1000, 0.25, 0.0) == 750 && Scale(1000, 0.0, 0.0) == 1000;
  }

  /** The rewrite touches no file but the slide's own part, and keeps it a
      slide with the same visibility: a missing slide file leaves both the
      files and the cropped-images dictionary as they were. */
  lemma RewriteSlideFiles(variant: Variant, files: map<string, Part>, k: nat, t: Table)
    requires t.Valid()
    ensures var r := RewriteSlide(variant, files, k, t);
      && r.files.Keys == files.Keys
      && (forall n :: n in files && n != SlidePath(k) ==> r.files[n] == files[n])
      && (SlidePath(k) in files && files[SlidePath(k)].Slide? ==>
            r.files[SlidePath(k)].Slide? && r.files[SlidePath(k)].show == files[SlidePath(k)].show)
      && (SlidePath(k) !in files ==> r == SlideResult(files, t))
  {
  }

  /** In the cropped-images dictionary the rewrite changes nothing but the
      crop fields and the ratio of the image matched to the slide. */
  lemma RewriteSlideTable(variant: Variant, files: map<string, Part>, k: nat, t: Table)
    requires t.Valid()
    ensures var r := RewriteSlide(variant, files, k, t);
      && r.table.keys == t.keys
      && (forall b :: b in r.table.info <==> b in t.info)
      && (forall b :: b in t.info && Some(b) != FirstForSlide(t, k) ==> r.table.info[b] == t.info[b])
      && (forall b :: b in t.info ==>
            r.table.info[b] == t.info[b].(crop := r.table.info[b].crop, cropRatio := r.table.info[b].cropRatio))
  {
  }

  /** The rewrite of a slide's file reads nothing but that file and
      whether the image matched to the slide is named. */
  lemma RewriteSlideFileLocal(variant: Variant, f1: map<string, Part>, t1: Table, f2: map<string, Part>, t2: Table, k: nat)
    requires t1.Valid() && t2.Valid()
    requires SlidePath(k) in f1 && SlidePath(k) in f2 && f1[SlidePath(k)] == f2[SlidePath(k)]
    requires Named(t1, k) == Named(t2, k)
    ensures RewriteSlide(variant, f1, k, t1).files[SlidePath(k)] == RewriteSlide(variant, f2, k, t2).files[SlidePath(k)]
  {
  }

  /** The update of the image matched to a slide reads nothing but the
      slide's file, that image's own dictionary and whether it is named. */
  lemma RewriteSlideImageLocal(variant: Variant, f1: map<string, Part>, t1: Table, f2: map<string, Part>, t2: Table, k: nat)
    requires t1.Valid() && t2.Valid()
    requires SlidePath(k) in f1 <==> SlidePath(k) in f2
    requires SlidePath(k) in f1 ==> f1[SlidePath(k)] == f2[SlidePath(k)]
    requires FirstForSlide(t1, k) == FirstForSlide(t2, k) && Named(t1, k) == Named(t2, k)
    requires FirstForSlide(t1, k).Some?
    requires t1.info[FirstForSlide(t1, k).value] == t2.info[FirstForSlide(t1, k).value]
    ensures RewriteSlide(variant, f1, k, t1).table.info[FirstForSlide(t1, k).value]
         == RewriteSlide(variant, f2, k, t2).table.info[FirstForSlide(t1, k).value]
  {
  }

  /** The pass leaves the slide's file as it was when any picture's pass
      failed, and otherwise holds every picture, rewritten, in order. */
  lemma RewriteSlideAllOrNothing(variant: Variant, files: map<string, Part>, k: nat, t: Table)
    requires t.Valid()
    requires SlidePath(k) in files && files[SlidePath(k)].Slide?
    ensures var pics := files[SlidePath(k)].pics;
      var os := Outcomes(variant, pics, Named(t, k));
      var r := RewriteSlide(variant, files, k, t);
      && ((exists i :: 0 <= i < |pics| && os[i].failed) ==> r.files == files)
      && ((forall i :: 0 <= i < |pics| ==> !os[i].failed) ==>
            |r.files[SlidePath(k)].pics| == |pics|
            && forall i :: 0 <= i < |pics| ==> r.files[SlidePath(k)].pics[i] == RewritePic(variant, pics[i], Named(t, k)).pic)
  {
    var pics := files[SlidePath(k)].pics;
    FoldSpec(Outcomes(variant, pics, Named(t, k)), |pics|);
  }

  /** The rewrite does not change which image is matched to a slide, nor
      whether it is named. */
  lemma UpdatedKeepsMatch(t: Table, matched: Option<Blob>, u: Option<CropUpdate>, k: nat)
    requires t.Valid()
    ensures FirstForSlide(Updated(t, matched, u), k) == FirstForSlide(t, k)
    ensures Named(Updated(t, matched, u), k) == Named(t, k)
  {
    var t' := Updated(t, matched, u);
    assert forall b :: b in t.info ==> t'.info[b].slideIndex == t.info[b].slideIndex && t'.info[b].filename == t.info[b].filename;
    SameSlideIndexes(t, t', k, 0);
  }

  lemma {:induction false} SameSlideIndexes(t: Table, t': Table, k: nat, i: nat)
    requires i <= |t.keys| && t'.keys == t.keys
    requires forall b :: b in t'.info <==> b in t.info
    requires forall b :: b in t.info ==> t'.info[b].slideIndex == t.info[b].slideIndex
    ensures FirstForSlideFrom(t', k, i) == FirstForSlideFrom(t, k, i)
    decreases |t.keys| - i
  {
    if i < |t.keys| {
      SameSlideIndexes(t, t', k, i + 1);
    }
  }

  /** A second intended pass over the pictures a successful pass produced
      keeps every one of them and records nothing. */
  lemma IntendedPassIdempotent(pics: seq<Pic>, named: bool)
    requires !PassPics(Intended, pics, named).failed
    ensures var q := PassPics(Intended, pics, named).pics;
      PassPics(Intended, q, named) == Pass(q, None, false)
  {
    var os := Outcomes(Intended, pics, named);
    FoldSpec(os, |pics|);
    var q := PassPics(Intended, pics, named).pics;
    var os' := Outcomes(Intended, q, named);
    forall i | 0 <= i < |q|
      ensures os'[i] == PicOutcome(q[i], None, false)
    {
      assert !os[i].failed;
      IntendedIdempotent(pics[i], named);
    }
    FoldSpec(os', |q|);
    assert PassPics(Intended, q, named).pics == q;
  }

  /** Taking the same update twice is taking it once. */
  lemma UpdatedTwice(t: Table, matched: Option<Blob>, u: Option<CropUpdate>)
    requires t.Valid()
    ensures Updated(Updated(t, matched, u), matched, u) == Updated(t, matched, u)
  {
    if u.Some? && matched.Some? && matched.value in t.info {
      var t1 := Updated(t, matched, u);
      assert t1.info[matched.value := Apply(t1.info[matched.value], u.value)] == t1.info;
    }
  }

  /** Running the intended rewrite of a slide a second time changes
      neither the files nor the cropped-images dictionary. */
  lemma IntendedSlideIdempotent(files: map<string, Part>, k: nat, t: Table)
    requires t.Valid()
    ensures var r := RewriteSlide(Intended, files, k, t);
      RewriteSlide(Intended, r.files, k, r.table) == r
  {
    var path := SlidePath(k);
    if path in files && files[path].Slide? {
      var pics := files[path].pics;
      var named := Named(t, k);
      var p := PassPics(Intended, pics, named);
      UpdatedKeepsMatch(t, FirstForSlide(t, k), p.update, k);
      if p.failed {
        UpdatedTwice(t, FirstForSlide(t, k), p.update);
      } else {
        IntendedPassIdempotent(pics, named);
      }
    }
  }
}
