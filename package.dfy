/** CRC-32 as zlib computes it (reflected polynomial 0xEDB88320, initial value
    and final xor 0xFFFFFFFF), over the raw bytes of an image. */
module Crc32 {
  function Shift(c: bv32, k: nat): bv32
    decreases k
  {
    if k == 0 then c
    else Shift(if c & 1 == 1 then (c >> 1) ^ 0xEDB8_8320 else c >> 1, k - 1)
  }

  function Update(c: bv32, data: seq<bv8>): bv32
    decreases |data|
  {
    if data == [] then c else Update(Shift(c ^ (data[0] as bv32), 8), data[1..])
  }

  /** `zlib.crc32(data) & 0xFFFFFFFF`; on a 32-bit value the mask changes nothing. */
  function Checksum(data: seq<bv8>): (c: bv32)
    ensures data == [] ==> c == 0
  {
    (Update(0xFFFF_FFFF, data) ^ 0xFFFF_FFFF) & 0xFFFF_FFFF
  }
}

/** The presentation package as the code sees it through `zipfile`: an ordered
    list of archive entries, each with its stored CRC-32 (section 4.4.7 of the
    PKWARE ZIP APPNOTE), its stored uncompressed size and its content, the XML
    parts already parsed into the few elements the code reads. */
module Package {
  import opened Wrappers
  import opened Text

  type Blob = seq<bv8>

  /** The text of a numeric XML attribute, as Python's `float()` and `int()`
      read it: an integer literal is accepted by both, a decimal literal such as
      "1.5" only by `float()`, anything else by neither. */
  datatype Numeral = Integer(i: int) | Decimal(r: real) | NotANumber

  /** A `blipFill` element found under a `p:pic` is either the PresentationML
      `p:blipFill` (ECMA-376 Part 1, 19.3.1.4) or the DrawingML `a:blipFill`
      (20.1.8.14); the two differ only in their namespace. */
  datatype FillNamespace = PresentationFill | DrawingFill

  /** A picture fill: its own attributes, the `r:embed` of its `a:blip` (empty
      when there is no blip or no embed attribute) and the attributes of its
      `a:srcRect` child, if it has one (20.1.8.55). */
  datatype BlipFill = BlipFill(
    ns: FillNamespace,
    attrs: map<string, string>,
    embed: string,
    srcRect: Option<map<string, Numeral>>)

  /** The `cx`/`cy` attributes of the `a:ext` inside the picture's `a:xfrm`. */
  datatype Extent = Extent(cx: Option<Numeral>, cy: Option<Numeral>)

  /** One `p:pic` element: its first blip fill and the extent of its transform
      (None when it has no `a:xfrm` or the transform has no `a:ext`). */
  datatype Pic = Pic(fill: Option<BlipFill>, ext: Option<Extent>)

  /** A `p:sldLayout` element of `ppt/presentation.xml`, with its optional
      `id`, `name` and `type` attributes. */
  datatype LayoutDecl = LayoutDecl(id: Option<string>, name: Option<string>, kind: Option<string>)

  /** The content of one archive entry. */
  datatype Part =
    | Media(bytes: Blob)                            // binary content, not well-formed XML
    | Rels(targets: seq<string>)                    // the Target of every Relationship element ("" when absent)
    | Slide(show: Option<string>, pics: seq<Pic>)   // a slide root: its `show` attribute and its p:pic elements in document order
    | Presentation(layouts: seq<LayoutDecl>)        // the p:sldLayout elements of presentation.xml
    | OtherXml                                      // any other well-formed XML
    | Resampled(source: Blob, width: int, height: int) // what the imaging library writes when it resizes `source`

  datatype Entry = Entry(name: string, crc: bv32, size: nat, part: Part)

  type Package = seq<Entry>

  /** `ET.fromstring` accepts the content. */
  predicate IsXml(p: Part) {
    !p.Media? && !p.Resampled?
  }

  predicate HasName(pkg: Package, name: string) {
    exists i :: 0 <= i < |pkg| && pkg[i].name == name
  }

  /** The index of the last entry before `n` carrying `name`, or -1. */
  function LastIndexOfName(pkg: Package, name: string, n: nat): (k: int)
    requires n <= |pkg|
    ensures -1 <= k < n
    ensures k >= 0 ==> pkg[k].name == name
    ensures forall j :: k < j < n ==> pkg[j].name != name
    decreases n
  {
    if n == 0 then -1
    else if pkg[n - 1].name == name then n - 1
    else LastIndexOfName(pkg, name, n - 1)
  }

  /** `zip_ref.getinfo(name)`: the LAST entry carrying `name`, since zipfile
      indexes entries by name and a later duplicate replaces an earlier one. */
  function Lookup(pkg: Package, name: string): (r: Option<Entry>)
    ensures r.Some? <==> HasName(pkg, name)
    ensures r.Some? ==> r.value.name == name
  {
    var k := LastIndexOfName(pkg, name, |pkg|);
    if k < 0 then None else Some(pkg[k])
  }

  /** `Lookup` finds the last entry carrying the name. */
  lemma LookupIsLast(pkg: Package, name: string)
    requires HasName(pkg, name)
    ensures exists i :: 0 <= i < |pkg| && pkg[i] == Lookup(pkg, name).value
                        && forall j :: i < j < |pkg| ==> pkg[j].name != name
  {
    var k := LastIndexOfName(pkg, name, |pkg|);
    assert pkg[k] == Lookup(pkg, name).value;
  }

  /** `zip_ref.read(name)`. */
  function Read(pkg: Package, name: string): (r: Option<Part>)
    ensures r.Some? <==> HasName(pkg, name)
  {
    match Lookup(pkg, name)
    case None => None
    case Some(e) => Some(e.part)
  }

  predicate IsDirectoryName(name: string) {
    EndsWith(name, "/")
  }

  /** Every name of the archive. */
  function Names(pkg: Package): (s: set<string>)
    ensures forall n :: n in s <==> HasName(pkg, n)
  {
    set i | 0 <= i < |pkg| :: pkg[i].name
  }

  /** `extractall` can write the archive out: no file entry stands where
      another entry needs a directory. */
  predicate Extractable(pkg: Package) {
    forall i, j :: 0 <= i < |pkg| && 0 <= j < |pkg| && !IsDirectoryName(pkg[i].name)
      ==> !StartsWith(pkg[j].name, pkg[i].name + "/")
  }

  /** The files `extractall` writes: one per non-directory name, holding the
      content of the last entry with that name. */
  function ExtractAll(pkg: Package): (files: map<string, Part>)
    ensures forall n :: n in files <==> HasName(pkg, n) && !IsDirectoryName(n)
    ensures forall n :: n in files ==> Some(files[n]) == Read(pkg, n)
  {
    map n | n in Names(pkg) && !IsDirectoryName(n) :: Read(pkg, n).value
  }

  /** `os.path.isdir` on the extracted tree for a path with no trailing '/':
      some entry lies below it. */
  predicate DirectoryExists(pkg: Package, path: string) {
    exists i :: 0 <= i < |pkg| && StartsWith(pkg[i].name, path + "/")
  }

  /** `os.path.exists` on the extracted tree, followed by whether the path is
      a directory there (trailing '/' paths name directories). */
  datatype PathKind = Missing | File | Directory

  function KindOf(pkg: Package, path: string): PathKind {
    if IsDirectoryName(path) then
      (if exists i :: 0 <= i < |pkg| && StartsWith(pkg[i].name, path) then Directory else Missing)
    else if path in ExtractAll(pkg) then File
    else if DirectoryExists(pkg, path) then Directory
    else Missing
  }
}
