/** The light version: `get_media_files_from_pptx` lists the media entries of
    the package and `create_light_version` writes a copy of the package
    without the media files of the unused images
    (New-Release/slim_pptx.py:258-333). The temporary directory the code
    extracts into is the map of extracted files; the output archive is the
    content of that map once the removals are done. */
module LightVersion {
  import opened Wrappers
  import opened Text
  import opened Package
  import opened Shapes

  /** The dictionary `get_media_files_from_pptx` stores per media name. */
  datatype MediaFile = MediaFile(size: nat, used: bool)

  /** A derived package: the path it is written to and its files. */
  datatype Output = Output(path: string, files: map<string, Part>)

  const MediaPrefix: string := "ppt/media/"
  const ContentTypes: string := "[Content_Types].xml"
  const RootRels: string := "_rels/.rels"
  const PresentationRels: string := "ppt/_rels/presentation.xml.rels"

  /** `ET.fromstring(zip_ref.read(name))` succeeds. */
  predicate Parses(pkg: Package, name: string) {
    Read(pkg, name).Some? && IsXml(Read(pkg, name).value)
  }

  /** The three parts the listing reads and parses before it looks at the
      media; a missing or malformed one raises. */
  predicate HasRequiredParts(pkg: Package) {
    Parses(pkg, ContentTypes) && Parses(pkg, RootRels) && Parses(pkg, PresentationRels)
  }

  /** A name the listing keeps: some entry carries it and it lies under
      `ppt/media/`. */
  predicate IsMediaName(pkg: Package, n: string) {
    HasName(pkg, n) && StartsWith(n, MediaPrefix)
  }

  /** `get_media_files_from_pptx(path)`; None stands for the exception a
      missing or malformed required part raises. */
  method GetMediaFiles(pkg: Package) returns (r: Option<map<string, MediaFile>>)
    ensures r.Some? <==> HasRequiredParts(pkg)
    ensures r.Some? ==> forall n :: n in r.value <==> IsMediaName(pkg, n)
    ensures r.Some? ==> forall n :: n in r.value ==> Lookup(pkg, n).Some? && r.value[n] == MediaFile(Lookup(pkg, n).value.size, false)
  {
    if !Parses(pkg, ContentTypes) || !Parses(pkg, RootRels) || !Parses(pkg, PresentationRels) {
      return None;
    }
    var media := ListMedia(pkg);
    return Some(media);
  }

  /** The loop over `infolist()`: a later entry with a name already listed
      overwrites its size. */
  method ListMedia(pkg: Package) returns (media: map<string, MediaFile>)
    ensures forall n :: n in media <==> IsMediaName(pkg, n)
    ensures forall n :: n in media ==> Lookup(pkg, n).Some? && media[n] == MediaFile(Lookup(pkg, n).value.size, false)
  {
    media := map[];
    for i := 0 to |pkg|
      invariant forall n :: n in media <==> StartsWith(n, MediaPrefix) && LastIndexOfName(pkg, n, i) >= 0
      invariant forall n :: n in media ==> media[n] == MediaFile(pkg[LastIndexOfName(pkg, n, i)].size, false)
    {
      media := MediaStep(pkg, media, i);
    }
    MediaKeys(pkg, media);
  }

  /** One turn of the listing loop: entry `i` overwrites its name when it is
      a media name. */
  function MediaStep(pkg: Package, media: map<string, MediaFile>, i: nat): (next: map<string, MediaFile>)
    requires i < |pkg|
    requires forall n :: n in media <==> StartsWith(n, MediaPrefix) && LastIndexOfName(pkg, n, i) >= 0
    requires forall n :: n in media ==> media[n] == MediaFile(pkg[LastIndexOfName(pkg, n, i)].size, false)
    ensures forall n :: n in next <==> StartsWith(n, MediaPrefix) && LastIndexOfName(pkg, n, i + 1) >= 0
    ensures forall n :: n in next ==> next[n] == MediaFile(pkg[LastIndexOfName(pkg, n, i + 1)].size, false)
  {
    if StartsWith(pkg[i].name, MediaPrefix) then media[pkg[i].name := MediaFile(pkg[i].size, false)] else media
  }

  /** A name occurs in the archive exactly when a last entry carries it. */
  lemma HasNameByLastIndex(pkg: Package, n: string)
    ensures HasName(pkg, n) <==> LastIndexOfName(pkg, n, |pkg|) >= 0
  {
    if HasName(pkg, n) {
      var i :| 0 <= i < |pkg| && pkg[i].name == n;
      assert LastIndexOfName(pkg, n, |pkg|) >= i;
    }
  }

  lemma MediaKeys(pkg: Package, media: map<string, MediaFile>)
    requires forall n :: n in media <==> StartsWith(n, MediaPrefix) && LastIndexOfName(pkg, n, |pkg|) >= 0
    ensures forall n :: n in media <==> IsMediaName(pkg, n)
  {
    forall n {
      HasNameByLastIndex(pkg, n);
    }
  }

  /** The file names of the unused images, as the removal loop reads them. */
  function UnusedFilenames(unused: Table): set<string> {
    set b | b in unused.info :: unused.info[b].filename
  }

  lemma UnusedFilenamesSpec(unused: Table)
    ensures forall b :: b in unused.info ==> unused.info[b].filename in UnusedFilenames(unused)
    ensures forall f :: f in UnusedFilenames(unused) ==> exists b :: b in unused.info && unused.info[b].filename == f
  {
  }

  /** `media_file.endswith(f"/{info['filename']}")` for some unused image. */
  predicate Doomed(name: string, filenames: set<string>) {
    exists f :: f in filenames && EndsWith(name, "/" + f)
  }

  /** `splitext(path)[0] + "_light.pptx"`. */
  function LightPath(path: string): (out: string)
    ensures out != path
    ensures EndsWith(out, ".pptx")
  {
    DerivedNameDiffers(path, "_light.pptx");
    Stem(path) + "_light.pptx"
  }

  /** The outcome of `create_light_version`. It fails (None) when the package
      cannot be extracted, when the media listing raises, or when a name
      marked for removal is a directory of the extracted tree (`os.remove`
      refuses a directory); otherwise the output holds every extracted file
      except the doomed media files. */
  ghost function Outcome(pkg: Package, path: string, unused: Table): Option<Output> {
    if !Extractable(pkg) || !HasRequiredParts(pkg) then None
    else if exists n :: IsMediaName(pkg, n) && Doomed(n, UnusedFilenames(unused)) && IsDirectoryName(n) then None
    else Some(Output(LightPath(path), Kept(pkg, unused)))
  }

  /** The inner loop of `files_to_remove` for one file name `f`: the media
      names ending with '/' and `f`. The media dictionary is walked as a set,
      so the order of the list is not modelled; only its members matter to
      the removals. */
  method MatchingMedia(media: set<string>, f: string) returns (found: seq<string>)
    ensures forall n :: n in found <==> n in media && EndsWith(n, "/" + f)
  {
    found := [];
    var rest := media;
    while rest != {}
      invariant rest <= media
      invariant forall n :: n in found <==> n in media && n !in rest && EndsWith(n, "/" + f)
      decreases |rest|
    {
      var m :| m in rest;
      if EndsWith(m, "/" + f) {
        found := found + [m];
      }
      rest := rest - {m};
    }
  }

  /** The file names of the first `i` unused images reach exactly the names
      of the whole table once `i` is the number of keys. */
  lemma AllKeysDoomed(media: set<string>, unused: Table, toRemove: seq<string>)
    requires unused.Valid()
    requires forall n :: n in toRemove <==> n in media && exists k :: 0 <= k < |unused.keys| && EndsWith(n, "/" + unused.info[unused.keys[k]].filename)
    ensures forall n :: n in toRemove <==> n in media && Doomed(n, UnusedFilenames(unused))
  {
    forall n {
      DoomedByKey(unused, n);
    }
  }

  /** A name is doomed by the table exactly when it is doomed by the file
      name of one of its keys. */
  lemma DoomedByKey(unused: Table, n: string)
    requires unused.Valid()
    ensures Doomed(n, UnusedFilenames(unused)) <==> exists k :: 0 <= k < |unused.keys| && EndsWith(n, "/" + unused.info[unused.keys[k]].filename)
  {
    UnusedFilenamesSpec(unused);
    if Doomed(n, UnusedFilenames(unused)) {
      var f :| f in UnusedFilenames(unused) && EndsWith(n, "/" + f);
      var b :| b in unused.info && unused.info[b].filename == f;
      var k :| 0 <= k < |unused.keys| && unused.keys[k] == b;
    }
  }

  /** `files_to_remove`: for each unused image in turn, every media name
      ending with '/' and its file name. */
  method FilesToRemove(media: set<string>, unused: Table) returns (toRemove: seq<string>)
    requires unused.Valid()
    ensures forall n :: n in toRemove <==> n in media && Doomed(n, UnusedFilenames(unused))
  {
    toRemove := [];
    for i := 0 to |unused.keys|
      invariant forall n :: n in toRemove <==> n in media && exists k :: 0 <= k < i && EndsWith(n, "/" + unused.info[unused.keys[k]].filename)
    {
      var found := MatchingMedia(media, unused.info[unused.keys[i]].filename);
      toRemove := toRemove + found;
    }
    AllKeysDoomed(media, unused, toRemove);
  }

  /** A doomed media name is a directory of the extracted tree exactly when
      it is a directory entry; any other media name is an extracted file. */
  lemma MediaKind(pkg: Package, n: string)
    requires HasName(pkg, n)
    ensures KindOf(pkg, n) == Directory <==> IsDirectoryName(n)
    ensures !IsDirectoryName(n) ==> n in ExtractAll(pkg)
  {
    if IsDirectoryName(n) {
      var i :| 0 <= i < |pkg| && pkg[i].name == n;
      assert StartsWith(pkg[i].name, n);
    }
  }

  /** The removal loop over the extracted files `all` of `pkg`: a name still
      present is deleted, a name that is a directory makes `os.remove` raise,
      and a name already deleted is skipped. */
  method RemoveFiles(pkg: Package, all: map<string, Part>, toRemove: seq<string>) returns (r: Option<map<string, Part>>)
    requires forall k :: 0 <= k < |toRemove| ==> (KindOf(pkg, toRemove[k]) == Directory <==> IsDirectoryName(toRemove[k]))
    requires forall k :: 0 <= k < |toRemove| && !IsDirectoryName(toRemove[k]) ==> toRemove[k] in all
    requires forall n :: n in all ==> !IsDirectoryName(n)
    ensures r.None? <==> exists k :: 0 <= k < |toRemove| && IsDirectoryName(toRemove[k])
    ensures r.Some? ==> r.value == all - Elems(toRemove)
  {
    var files := all;
    for j := 0 to |toRemove|
      invariant files == all - Elems(toRemove[..j])
      invariant forall k :: 0 <= k < j ==> !IsDirectoryName(toRemove[k])
    {
      var name := toRemove[j];
      RemoveStep(all, toRemove, j);
      if name in files {
        files := files - {name};
      } else if KindOf(pkg, name) == Directory {
        return None;
      }
    }
    assert toRemove[..|toRemove|] == toRemove;
    return Some(files);
  }

  /** The members of a sequence. */
  function Elems(s: seq<string>): set<string> {
    set x | x in s
  }

  /** Removing name `j` from the files left after the first `j` removals, or
      skipping it when it is already absent, leaves the files left after
      `j + 1` removals. */
  lemma RemoveStep(all: map<string, Part>, toRemove: seq<string>, j: nat)
    requires j < |toRemove|
    ensures (all - Elems(toRemove[..j])) - {toRemove[j]} == all - Elems(toRemove[..j + 1])
    ensures toRemove[j] !in all - Elems(toRemove[..j]) ==> all - Elems(toRemove[..j]) == all - Elems(toRemove[..j + 1])
  {
    assert toRemove[..j + 1] == toRemove[..j] + [toRemove[j]];
    assert Elems(toRemove[..j + 1]) == Elems(toRemove[..j]) + {toRemove[j]};
  }

  /** The files left once every name of `toRemove` is gone. */
  ghost function Kept(pkg: Package, unused: Table): map<string, Part> {
    map n | n in ExtractAll(pkg) && !(IsMediaName(pkg, n) && Doomed(n, UnusedFilenames(unused))) :: ExtractAll(pkg)[n]
  }

  lemma KeptIs(pkg: Package, unused: Table, toRemove: seq<string>, files: map<string, Part>)
    requires forall n :: n in toRemove <==> IsMediaName(pkg, n) && Doomed(n, UnusedFilenames(unused))
    requires files == ExtractAll(pkg) - Elems(toRemove)
    ensures Kept(pkg, unused) == files
  {
    var kept := Kept(pkg, unused);
    assert kept.Keys == files.Keys;
  }

  lemma NoDoomedDirectory(pkg: Package, unused: Table, toRemove: seq<string>)
    requires forall n :: n in toRemove <==> IsMediaName(pkg, n) && Doomed(n, UnusedFilenames(unused))
    requires !exists k :: 0 <= k < |toRemove| && IsDirectoryName(toRemove[k])
    ensures !exists n :: IsMediaName(pkg, n) && Doomed(n, UnusedFilenames(unused)) && IsDirectoryName(n)
  {
    forall n | IsMediaName(pkg, n) && Doomed(n, UnusedFilenames(unused))
      ensures !IsDirectoryName(n)
    {
      assert n in toRemove;
    }
  }

  /** A directory among the removals makes the whole operation fail. */
  lemma LightVersionFromDirectory(pkg: Package, path: string, unused: Table, toRemove: seq<string>)
    requires forall n :: n in toRemove <==> IsMediaName(pkg, n) && Doomed(n, UnusedFilenames(unused))
    requires exists k :: 0 <= k < |toRemove| && IsDirectoryName(toRemove[k])
    ensures Outcome(pkg, path, unused) == None
  {
    var k :| 0 <= k < |toRemove| && IsDirectoryName(toRemove[k]);
    assert toRemove[k] in toRemove;
  }

  /** `create_light_version(path, unused_images)`. */
  method CreateLightVersion(pkg: Package, path: string, unused: Table) returns (r: Option<Output>)
    requires unused.Valid()
    ensures r == Outcome(pkg, path, unused)
  {
    var outputPath := LightPath(path);
    if !Extractable(pkg) {
      return None;
    }
    var media := GetMediaFiles(pkg);
    if media.None? {
      return None;
    }
    var toRemove := FilesToRemove(media.value.Keys, unused);
    assert forall k :: 0 <= k < |toRemove| ==> toRemove[k] in media.value;
    forall k | 0 <= k < |toRemove| {
      MediaKind(pkg, toRemove[k]);
    }
    var files := RemoveFiles(pkg, ExtractAll(pkg), toRemove);
    if files.None? {
      LightVersionFromDirectory(pkg, path, unused, toRemove);
      return None;
    }
    NoDoomedDirectory(pkg, unused, toRemove);
    KeptIs(pkg, unused, toRemove, files.value);
    r := Some(Output(outputPath, files.value));
  }
}

/** What the light version promises, stated on the archive itself. */
module LightVersionProperties {
  import opened Wrappers
  import opened Text
  import opened Package
  import opened Shapes
  import opened LightVersion

  /** The output is written next to the input under `<stem>_light.pptx`; it
      holds every file of the archive (the last entry of each non-directory
      name) except the media files doomed by an unused image, unchanged. */
  lemma LightVersionKeepsTheRest(pkg: Package, path: string, unused: Table)
    requires Outcome(pkg, path, unused).Some?
    ensures Outcome(pkg, path, unused).value.path == Stem(path) + "_light.pptx"
    ensures forall n :: n in Outcome(pkg, path, unused).value.files <==>
      HasName(pkg, n) && !IsDirectoryName(n) && !(StartsWith(n, MediaPrefix) && Doomed(n, UnusedFilenames(unused)))
    ensures forall n :: n in Outcome(pkg, path, unused).value.files ==>
      Some(Outcome(pkg, path, unused).value.files[n]) == Read(pkg, n)
  {
  }

  /** Only media files are ever removed, and each removed one is doomed. */
  lemma LightVersionRemovesOnlyDoomedMedia(pkg: Package, path: string, unused: Table, n: string)
    requires Outcome(pkg, path, unused).Some?
    requires n in ExtractAll(pkg) && n !in Outcome(pkg, path, unused).value.files
    ensures StartsWith(n, MediaPrefix) && Doomed(n, UnusedFilenames(unused))
  {
  }

  /** A missing or malformed `[Content_Types].xml`, `_rels/.rels` or
      `ppt/_rels/presentation.xml.rels` makes the operation fail. */
  lemma MissingRequiredPartFails(pkg: Package, path: string, unused: Table)
    requires !Parses(pkg, ContentTypes) || !Parses(pkg, RootRels) || !Parses(pkg, PresentationRels)
    ensures Outcome(pkg, path, unused) == None
  {
  }

  /** For a file name without '/', the suffix test is a base-name test: the
      name ends with '/' and `f` exactly when it is longer than `f` and its
      base name is `f`. */
  lemma SlashSuffixIsBasename(n: string, f: string)
    requires '/' !in f
    ensures EndsWith(n, "/" + f) <==> |f| < |n| && Basename(n) == f
  {
    if EndsWith(n, "/" + f) {
      SlashSuffixGivesBasename(n, f);
    }
    if |f| < |n| && Basename(n) == f {
      var m := |n|;
      assert n[m - |f| - 1] == '/';
      assert n[m - |f| - 1..] == [n[m - |f| - 1]] + n[m - |f|..];
    }
  }

  lemma SlashSuffixGivesBasename(n: string, f: string)
    requires '/' !in f
    requires EndsWith(n, "/" + f)
    ensures |f| < |n| && Basename(n) == f
  {
    var m, r := |n|, Basename(n);
    assert n[m - |f| - 1] == ("/" + f)[0] == '/';
    assert n[m - |f|..] == ("/" + f)[1..] == f;
    assert r == n[m - |r|..];
    if |r| > |f| {
      assert false;
    } else if |r| < |f| {
      assert false;
    } else {
      assert r == f;
    }
  }

  /** A media file is removed exactly when its base name is the file name of
      an unused image, as long as no unused file name holds a '/' (base names
      and the sentinel never do). */
  lemma DoomedByBasename(n: string, filenames: set<string>)
    requires StartsWith(n, MediaPrefix)
    requires forall f :: f in filenames ==> '/' !in f
    ensures Doomed(n, filenames) <==> Basename(n) in filenames
  {
    assert n[9] == '/';
    if Basename(n) == n {
      assert false;
    }
    forall f | f in filenames {
      SlashSuffixIsBasename(n, f);
    }
  }
}
