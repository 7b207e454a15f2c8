/** Reading the package's relationship graph by string matching on
    relationship targets (Office Open XML package relationships, ECMA-376
    Part 2, section 9.3): which slide layouts the slides use, which media files
    those layouts reference, the layout declarations of the presentation part,
    and the slide-hidden flag (New-Release/slim_pptx.py:97-166, 355-378). */
module Relationships {
  import opened Wrappers
  import opened Text
  import opened Package

  /** The Relationship targets of a part, or None when `ET.fromstring`
      rejects it; a well-formed part of another kind has none. */
  function TargetsOf(p: Part): (r: Option<seq<string>>)
    ensures r.None? <==> !IsXml(p)
  {
    match p
    case Rels(ts) => Some(ts)
    case Media(_) => None
    case Resampled(_, _, _) => None
    case _ => Some([])
  }

  // ---------------------------------------------------------------------
  // Used layouts (New-Release/slim_pptx.py:97-122)

  const LayoutMarker: string := "slideLayouts/slideLayout"

  predicate IsSlideRelsName(name: string) {
    StartsWith(name, "ppt/slides/_rels/slide") && EndsWith(name, ".xml.rels")
  }

  /** `target.split('slideLayouts/slideLayout')[1].split('.')[0]`: the text
      after the first marker, up to its first '.', the next marker or its
      end, whichever comes first. */
  function LayoutIdOf(target: string): (id: string)
    requires Contains(target, LayoutMarker)
    ensures '.' !in id
    ensures StartsWith(After(target, LayoutMarker), id)
    ensures var a := After(target, LayoutMarker);
      && (forall k :: 0 <= k < |id| ==> !At(a, LayoutMarker, k))
      && (|id| == |a| || a[|id|] == '.' || At(a, LayoutMarker, |id|))
  {
    var a := After(target, LayoutMarker);
    CutBeforeDot(a, LayoutMarker);
    Before(Before(a, LayoutMarker), ".")
  }

  /** The text of `a` before the first `m` and then before the first '.'
      holds no '.', and ends where `a` ends, at a '.' or at an `m`. */
  lemma CutBeforeDot(a: string, m: string)
    ensures var id := Before(Before(a, m), ".");
      && '.' !in id && StartsWith(a, id)
      && (forall k :: 0 <= k < |id| ==> !At(a, m, k))
      && (|id| == |a| || a[|id|] == '.' || At(a, m, |id|))
  {
    var piece := Before(a, m);
    var id := Before(piece, ".");
    assert a[..|id|] == piece[..|id|] == id;
    forall k | 0 <= k < |id|
      ensures id[k] != '.'
    {
      assert !At(piece, ".", k);
      assert piece[..|id|][k] == piece[k] == id[k];
      assert piece[k..k + 1] == [id[k]];
    }
    if Contains(piece, ".") {
      assert piece[..|id| + 1] == id + ".";
      assert a[|id|] == piece[|id|] == '.';
    } else if Contains(a, m) {
      assert a[..|piece| + |m|] == piece + m;
      assert a[|id|..|id| + |m|] == m;
    }
  }

  /** A target `../slideLayouts/slideLayout<id>.xml` gives `id`, for an id
      without a '.' (the text after the marker is cut at its first '.'). */
  lemma LayoutIdOfTarget(id: string)
    requires '.' !in id && !Contains(id + ".xml", LayoutMarker)
    ensures Contains("../" + LayoutMarker + id + ".xml", LayoutMarker)
    ensures LayoutIdOf("../" + LayoutMarker + id + ".xml") == id
  {
    var t := "../" + LayoutMarker + id + ".xml";
    var n := |LayoutMarker|;
    assert t[3..3 + n] == LayoutMarker;
    assert At(t, LayoutMarker, 3);
    forall k | 0 <= k < 3
      ensures !At(t, LayoutMarker, k)
    {
      assert t[k] == "../"[k] != LayoutMarker[0];
    }
    assert IndexOf(t, LayoutMarker) == Some(3);
    var a := After(t, LayoutMarker);
    assert a == id + ".xml";
    assert Before(a, LayoutMarker) == a;
    assert a[|id|] == '.';
    assert At(a, ".", |id|);
    forall k | 0 <= k < |id|
      ensures !At(a, ".", k)
    {
      assert a[k] == id[k] != '.';
    }
    assert IndexOf(a, ".") == Some(|id|);
    assert a[..|id|] == id;
  }

  /** `../slideLayouts/slideLayout88.xml` names layout "88". */
  lemma LayoutIdOfExample()
    ensures Contains("../" + LayoutMarker + "88" + ".xml", LayoutMarker)
    ensures LayoutIdOf("../" + LayoutMarker + "88" + ".xml") == "88"
  {
    assert |"88" + ".xml"| < |LayoutMarker|;
    LayoutIdOfTarget("88");
  }

  /** The targets of the slide relationship part read for entry `i`. */
  function SlideRelsTargets(pkg: Package, i: nat): Option<seq<string>>
    requires i < |pkg|
  {
    assert HasName(pkg, pkg[i].name);
    TargetsOf(Read(pkg, pkg[i].name).value)
  }

  /** The layout ids named by a list of relationship targets. */
  function IdsIn(targets: seq<string>): set<string>
    decreases |targets|
  {
    if targets == [] then {}
    else
      var last := targets[|targets| - 1];
      IdsIn(targets[..|targets| - 1]) + (if Contains(last, LayoutMarker) then {LayoutIdOf(last)} else {})
  }

  /** `IdsIn` collects the id of every layout target, and nothing else. */
  lemma {:induction false} IdsInSpec(targets: seq<string>)
    ensures forall t :: t in targets && Contains(t, LayoutMarker) ==> LayoutIdOf(t) in IdsIn(targets)
    ensures forall id :: id in IdsIn(targets) ==> exists t :: t in targets && Contains(t, LayoutMarker) && LayoutIdOf(t) == id
    decreases |targets|
  {
    if targets != [] {
      var front := targets[..|targets| - 1];
      IdsInSpec(front);
      assert targets == front + [targets[|targets| - 1]];
    }
  }

  lemma IdsInStep(targets: seq<string>, k: nat)
    requires k < |targets|
    ensures IdsIn(targets[..k + 1])
            == IdsIn(targets[..k]) + (if Contains(targets[k], LayoutMarker) then {LayoutIdOf(targets[k])} else {})
  {
    assert targets[..k + 1][..k] == targets[..k];
  }

  /** What entry `i` contributes: nothing unless it is a slide relationship
      part, None when that part does not parse. */
  function EntryIds(pkg: Package, i: nat): Option<set<string>>
    requires i < |pkg|
  {
    if !IsSlideRelsName(pkg[i].name) then Some({})
    else
      match SlideRelsTargets(pkg, i)
      case None => None
      case Some(ts) => Some(IdsIn(ts))
  }

  ghost function EntriesIds(pkg: Package): (parts: seq<Option<set<string>>>)
    ensures |parts| == |pkg|
  {
    seq(|pkg|, i requires 0 <= i < |pkg| => EntryIds(pkg, i))
  }

  /** The union of the contributions, or None once one of them is None. */
  function Accumulate(parts: seq<Option<set<string>>>): Option<set<string>>
    decreases |parts|
  {
    if parts == [] then Some({})
    else
      match Accumulate(parts[..|parts| - 1])
      case None => None
      case Some(acc) =>
        match parts[|parts| - 1]
        case None => None
        case Some(e) => Some(acc + e)
  }

  lemma AccumulateStep(parts: seq<Option<set<string>>>, i: nat, acc: set<string>, e: set<string>)
    requires i < |parts| && Accumulate(parts[..i]) == Some(acc) && parts[i] == Some(e)
    ensures Accumulate(parts[..i + 1]) == Some(acc + e)
  {
    assert parts[..i + 1][..i] == parts[..i];
  }

  lemma {:induction false} AccumulateNone(parts: seq<Option<set<string>>>)
    ensures Accumulate(parts).None? <==> exists i :: 0 <= i < |parts| && parts[i].None?
    decreases |parts|
  {
    if parts != [] {
      var n := |parts| - 1;
      var front := parts[..n];
      AccumulateNone(front);
      if exists i :: 0 <= i < |parts| && parts[i].None? {
        var i :| 0 <= i < |parts| && parts[i].None?;
        if i < n {
          assert front[i].None?;
        }
      }
      if exists i :: 0 <= i < |front| && front[i].None? {
        var i :| 0 <= i < |front| && front[i].None?;
        assert parts[i].None?;
      }
    }
  }

  lemma {:induction false} AccumulateIds(parts: seq<Option<set<string>>>, id: string)
    requires Accumulate(parts).Some?
    ensures id in Accumulate(parts).value <==> exists i :: 0 <= i < |parts| && parts[i].Some? && id in parts[i].value
    decreases |parts|
  {
    if parts != [] {
      var n := |parts| - 1;
      var front := parts[..n];
      AccumulateIds(front, id);
      if exists i :: 0 <= i < |parts| && parts[i].Some? && id in parts[i].value {
        var i :| 0 <= i < |parts| && parts[i].Some? && id in parts[i].value;
        if i < n {
          assert front[i] == parts[i];
        }
      }
      if exists i :: 0 <= i < |front| && front[i].Some? && id in front[i].value {
        var i :| 0 <= i < |front| && front[i].Some? && id in front[i].value;
        assert parts[i] == front[i];
      }
    }
  }

  /** The used layout ids: the exception handler answers an empty set. */
  ghost function UsedLayouts(pkg: Package): set<string> {
    Accumulate(EntriesIds(pkg)).GetOr({})
  }

  /** Entry `i` is a slide relationship part that does not parse. */
  ghost predicate BrokenAt(pkg: Package, i: int) {
    0 <= i < |pkg| && IsSlideRelsName(pkg[i].name) && SlideRelsTargets(pkg, i).None?
  }

  /** Entry `i` is a slide relationship part with a layout target naming `id`. */
  ghost predicate NamedAt(pkg: Package, i: int, id: string) {
    && 0 <= i < |pkg| && IsSlideRelsName(pkg[i].name) && SlideRelsTargets(pkg, i).Some?
    && exists t :: t in SlideRelsTargets(pkg, i).value && Contains(t, LayoutMarker) && LayoutIdOf(t) == id
  }

  /** One slide relationship part that is not well-formed XML empties the
      answer. */
  lemma UsedLayoutsBroken(pkg: Package, i: int)
    requires BrokenAt(pkg, i)
    ensures UsedLayouts(pkg) == {}
  {
    var parts := EntriesIds(pkg);
    AccumulateNone(parts);
    assert parts[i].None?;
  }

  lemma EntryIdsNamed(pkg: Package, i: int, id: string)
    requires 0 <= i < |pkg| && !BrokenAt(pkg, i)
    ensures EntryIds(pkg, i).Some?
    ensures id in EntryIds(pkg, i).value <==> NamedAt(pkg, i, id)
  {
    if IsSlideRelsName(pkg[i].name) {
      IdsInSpec(SlideRelsTargets(pkg, i).value);
    }
  }

  /** Otherwise an id is answered exactly when it is read from a layout
      target (`slideLayouts/slideLayout<id>.`) of a part named
      `ppt/slides/_rels/slide*.xml.rels`. */
  lemma UsedLayoutsSpec(pkg: Package, id: string)
    requires forall i :: 0 <= i < |pkg| ==> !BrokenAt(pkg, i)
    ensures id in UsedLayouts(pkg) <==> exists i :: 0 <= i < |pkg| && NamedAt(pkg, i, id)
  {
    var parts := EntriesIds(pkg);
    AccumulateNone(parts);
    forall i | 0 <= i < |pkg| ensures parts[i].Some? && (id in parts[i].value <==> NamedAt(pkg, i, id)) {
      EntryIdsNamed(pkg, i, id);
    }
    AccumulateIds(parts, id);
  }

  /** `get_used_layouts_from_rels`. */
  method UsedLayoutsFromRels(pkg: Package) returns (ids: set<string>)
    ensures ids == UsedLayouts(pkg)
  {
    ghost var parts := EntriesIds(pkg);
    ids := {};
    for i := 0 to |pkg|
      invariant Accumulate(parts[..i]) == Some(ids)
    {
      ghost var ids0 := ids;
      assert parts[i] == EntryIds(pkg, i);
      if IsSlideRelsName(pkg[i].name) {
        var parsed := SlideRelsTargets(pkg, i);
        if parsed.None? {
          AccumulateNone(parts);
          return {};
        }
        var targets := parsed.value;
        for k := 0 to |targets|
          invariant ids == ids0 + IdsIn(targets[..k])
        {
          IdsInStep(targets, k);
          if Contains(targets[k], LayoutMarker) {
            ids := ids + {LayoutIdOf(targets[k])};
          }
        }
        assert targets[..|targets|] == targets;
        AccumulateStep(parts, i, ids0, IdsIn(targets));
      } else {
        AccumulateStep(parts, i, ids0, {});
        assert ids0 + {} == ids0;
      }
    }
    assert parts[..|pkg|] == parts;
  }

  // ---------------------------------------------------------------------
  // Media of the used layouts (New-Release/slim_pptx.py:124-150)

  const MediaTargetPrefix: string := "../media/"

  function LayoutRelsName(id: string): string {
    "ppt/slideLayouts/_rels/slideLayout" + id + ".xml.rels"
  }

  /** The base names of the `../media/` targets of a relationship list. */
  function MediaNames(targets: seq<string>): set<string>
    decreases |targets|
  {
    if targets == [] then {}
    else
      var last := targets[|targets| - 1];
      MediaNames(targets[..|targets| - 1]) + (if StartsWith(last, MediaTargetPrefix) then {Basename(last)} else {})
  }

  /** `MediaNames` collects the base name of every media target, and nothing else. */
  lemma {:induction false} MediaNamesSpec(targets: seq<string>)
    ensures forall t :: t in targets && StartsWith(t, MediaTargetPrefix) ==> Basename(t) in MediaNames(targets)
    ensures forall f :: f in MediaNames(targets) ==> exists t :: t in targets && StartsWith(t, MediaTargetPrefix) && Basename(t) == f
    decreases |targets|
  {
    if targets != [] {
      var front := targets[..|targets| - 1];
      MediaNamesSpec(front);
      assert targets == front + [targets[|targets| - 1]];
    }
  }

  lemma MediaNamesStep(targets: seq<string>, k: nat)
    requires k < |targets|
    ensures MediaNames(targets[..k + 1])
            == MediaNames(targets[..k]) + (if StartsWith(targets[k], MediaTargetPrefix) then {Basename(targets[k])} else {})
  {
    assert targets[..k + 1][..k] == targets[..k];
  }

  /** The targets of a layout's relationship part: none when the part is
      missing, None when it is not well-formed XML. */
  function LayoutRelsTargets(pkg: Package, id: string): Option<seq<string>> {
    match Read(pkg, LayoutRelsName(id))
    case None => Some([])
    case Some(p) => TargetsOf(p)
  }

  /** The media of one layout, or None when its relationship part does not parse. */
  function LayoutMedia(pkg: Package, id: string): Option<set<string>> {
    match LayoutRelsTargets(pkg, id)
    case None => None
    case Some(ts) => Some(MediaNames(ts))
  }

  /** The layout-to-media map: a key for every used layout with at least one
      media target, or the empty map when one of the parts does not parse. */
  ghost function LayoutImagesOf(pkg: Package, ids: set<string>): map<string, set<string>> {
    if forall id :: id in ids ==> LayoutMedia(pkg, id).Some?
    then map id | id in ids && LayoutMedia(pkg, id).Some? && LayoutMedia(pkg, id).value != {} :: LayoutMedia(pkg, id).value
    else map[]
  }

  /** A media set holds exactly the base names of the `../media/` targets of
      that layout's own relationship part, and no key maps to an empty set;
      one unparsable part empties the whole map. */
  lemma LayoutImagesSpec(pkg: Package, ids: set<string>, id: string)
    ensures (exists other :: other in ids && LayoutRelsTargets(pkg, other).None?) ==> LayoutImagesOf(pkg, ids) == map[]
    ensures id in LayoutImagesOf(pkg, ids) ==>
              && id in ids && LayoutRelsTargets(pkg, id).Some? && LayoutImagesOf(pkg, ids)[id] != {}
              && forall f :: f in LayoutImagesOf(pkg, ids)[id]
                   <==> exists t :: t in LayoutRelsTargets(pkg, id).value && StartsWith(t, MediaTargetPrefix) && Basename(t) == f
  {
    if id in LayoutImagesOf(pkg, ids) {
      MediaNamesSpec(LayoutRelsTargets(pkg, id).value);
    }
  }

  /** `images` is the layout-to-media map of the layouts in `done`. */
  ghost predicate ImagesOfDone(pkg: Package, done: set<string>, images: map<string, set<string>>) {
    && (forall id :: id in done ==> LayoutMedia(pkg, id).Some?)
    && (forall id :: id in images <==> id in done && LayoutMedia(pkg, id).value != {})
    && (forall id :: id in images ==> images[id] == LayoutMedia(pkg, id).value)
  }

  lemma ImagesStep(pkg: Package, done: set<string>, images: map<string, set<string>>, id: string, found: set<string>)
    requires ImagesOfDone(pkg, done, images) && LayoutMedia(pkg, id) == Some(found)
    ensures ImagesOfDone(pkg, done + {id}, if found != {} then images[id := found] else images)
  {
  }

  lemma ImagesDone(pkg: Package, ids: set<string>, images: map<string, set<string>>)
    requires ImagesOfDone(pkg, ids, images)
    ensures images == LayoutImagesOf(pkg, ids)
  {
  }

  /** `get_layout_images`. The ids are visited in an unspecified order. */
  method LayoutImages(pkg: Package, ids: set<string>) returns (images: map<string, set<string>>)
    ensures images == LayoutImagesOf(pkg, ids)
  {
    images := map[];
    var todo := ids;
    while todo != {}
      invariant todo <= ids
      invariant ImagesOfDone(pkg, ids - todo, images)
      decreases todo
    {
      var id :| id in todo;
      var relsPath := LayoutRelsName(id);
      var found: set<string> := {};
      if HasName(pkg, relsPath) {
        var parsed := TargetsOf(Read(pkg, relsPath).value);
        if parsed.None? {
          assert LayoutRelsTargets(pkg, id).None?;
          return map[];
        }
        var targets := parsed.value;
        for k := 0 to |targets|
          invariant found == MediaNames(targets[..k])
        {
          MediaNamesStep(targets, k);
          if StartsWith(targets[k], MediaTargetPrefix) {
            found := found + {Basename(targets[k])};
          }
        }
        assert targets[..|targets|] == targets;
      }
      ImagesStep(pkg, ids - todo, images, id, found);
      if found != {} {
        images := images[id := found];
      }
      assert ids - (todo - {id}) == (ids - todo) + {id};
      todo := todo - {id};
    }
    ImagesDone(pkg, ids, images);
  }

  // ---------------------------------------------------------------------
  // Layout declarations of the presentation part (New-Release/slim_pptx.py:355-378)

  datatype LayoutMeta = LayoutMeta(name: string, kind: string)

  /** `layout.get('id', '')`. */
  function DeclId(d: LayoutDecl): string {
    d.id.GetOr("")
  }

  /** The name defaults to "Layout <id>" and the type to "unknown". */
  function MetaOf(d: LayoutDecl): LayoutMeta {
    LayoutMeta(d.name.GetOr("Layout " + DeclId(d)), d.kind.GetOr("unknown"))
  }

  /** The `p:sldLayout` declarations of `ppt/presentation.xml`, or None when
      the part is missing or not well-formed XML. */
  function LayoutDecls(pkg: Package): Option<seq<LayoutDecl>> {
    match Read(pkg, "ppt/presentation.xml")
    case None => None
    case Some(p) =>
      match p
      case Presentation(ds) => Some(ds)
      case Media(_) => None
      case Resampled(_, _, _) => None
      case _ => Some([])
  }

  /** The entries the loop writes for the declarations `ds`, in order. */
  function InfoOf(ds: seq<LayoutDecl>, ids: set<string>): map<string, LayoutMeta>
    decreases |ds|
  {
    if ds == [] then map[]
    else
      var d := ds[|ds| - 1];
      var m := InfoOf(ds[..|ds| - 1], ids);
      if DeclId(d) in ids then m[DeclId(d) := MetaOf(d)] else m
  }

  /** The declaration at `k` is the last one with id `id`. */
  predicate LastDeclFor(ds: seq<LayoutDecl>, k: int, id: string) {
    0 <= k < |ds| && DeclId(ds[k]) == id && forall j :: k < j < |ds| ==> DeclId(ds[j]) != id
  }

  /** A used id that some declaration carries gets the name and type of its
      last declaration, and no other id gets an entry. */
  lemma {:induction false} InfoOfSpec(ds: seq<LayoutDecl>, ids: set<string>, id: string)
    ensures id in InfoOf(ds, ids) <==> id in ids && exists k :: 0 <= k < |ds| && DeclId(ds[k]) == id
    ensures id in InfoOf(ds, ids) ==> exists k :: LastDeclFor(ds, k, id) && InfoOf(ds, ids)[id] == MetaOf(ds[k])
    decreases |ds|
  {
    if ds != [] {
      var n := |ds| - 1;
      var front := ds[..n];
      InfoOfSpec(front, ids, id);
      if id != DeclId(ds[n]) {
        if exists k :: 0 <= k < |ds| && DeclId(ds[k]) == id {
          var k :| 0 <= k < |ds| && DeclId(ds[k]) == id;
          assert DeclId(front[k]) == id;
        }
        if id in InfoOf(ds, ids) {
          var k :| LastDeclFor(front, k, id) && InfoOf(front, ids)[id] == MetaOf(front[k]);
          assert LastDeclFor(ds, k, id);
        }
      } else if id in ids {
        assert LastDeclFor(ds, n, id);
      }
    }
  }

  /** `get_layout_info`: nothing on a missing or malformed presentation
      part, otherwise the entries `InfoOf` describes. */
  method LayoutInfo(pkg: Package, ids: set<string>) returns (info: map<string, LayoutMeta>)
    ensures info == match LayoutDecls(pkg) case None => map[] case Some(ds) => InfoOf(ds, ids)
  {
    info := map[];
    var decls := LayoutDecls(pkg);
    if decls.None? {
      return;
    }
    var ds := decls.value;
    for k := 0 to |ds|
      invariant info == InfoOf(ds[..k], ids)
    {
      assert ds[..k + 1][..k] == ds[..k];
      var id := DeclId(ds[k]);
      if id in ids {
        info := info[id := MetaOf(ds[k])];
      }
    }
    assert ds[..|ds|] == ds;
  }

  // ---------------------------------------------------------------------
  // Hidden slides (New-Release/slim_pptx.py:152-166)

  function SlidePartName(n: nat): string {
    "ppt/slides/slide" + NatToString(n) + ".xml"
  }

  /** `is_slide_hidden(pptx_path, n)`: only a slide root whose `show`
      attribute reads exactly "0" is hidden; a missing part, a missing
      attribute or a part that does not parse reads as visible. */
  function IsSlideHidden(pkg: Package, n: nat): (hidden: bool)
    ensures hidden <==> exists pics :: Read(pkg, SlidePartName(n)) == Some(Slide(Some("0"), pics))
  {
    match Read(pkg, SlidePartName(n))
    case Some(Slide(show, _)) => show == Some("0")
    case _ => false
  }

  /** Slide numbers name distinct parts, so each slide's flag reads its own part. */
  lemma SlidePartNamesDistinct(a: nat, b: nat)
    requires a != b
    ensures SlidePartName(a) != SlidePartName(b)
  {
    if SlidePartName(a) == SlidePartName(b) {
      TemplateInjective("ppt/slides/slide", a, b, ".xml");
    }
  }
}
