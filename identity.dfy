/** Resolving an image's archive file name from its bytes: the object model
    exposes only the image blob, so the code compares the blob's CRC-32 with
    the CRC stored for each `ppt/media/` entry
    (New-Release/slim_pptx.py:19-36). */
module Identity {
  import opened Text
  import opened Package
  import Crc32

  /** The value returned when no media entry matches. */
  const Unnamed: string := "Image sans nom"

  const MediaDir: string := "ppt/media/"

  /** Entry `i` is a media entry whose stored CRC is `crc`. */
  predicate MediaMatch(pkg: Package, i: int, crc: bv32) {
    0 <= i < |pkg| && StartsWith(pkg[i].name, MediaDir) && pkg[i].crc == crc
  }

  /** The scan of `infolist()` from entry `from` on: the index of the first
      media entry whose stored CRC is `crc`, or -1 when there is none. */
  function MatchFrom(pkg: Package, crc: bv32, from: nat): (k: int)
    requires from <= |pkg|
    ensures k == -1 || (from <= k && MediaMatch(pkg, k, crc))
    ensures forall j :: from <= j < |pkg| && (k == -1 || j < k) ==> !MediaMatch(pkg, j, crc)
    decreases |pkg| - from
  {
    if from == |pkg| then -1
    else if StartsWith(pkg[from].name, MediaDir) && pkg[from].crc == crc then from
    else MatchFrom(pkg, crc, from + 1)
  }

  /** The loop returns the base name of the first match, and the sentinel
      when the loop finishes without one. */
  function FirstMatch(pkg: Package, crc: bv32): string {
    var k := MatchFrom(pkg, crc, 0);
    if k < 0 then Unnamed else Basename(pkg[k].name)
  }

  /** `get_image_filename_from_zip(pptx_path, image_blob)`. */
  function FilenameFor(pkg: Package, blob: Blob): string {
    FirstMatch(pkg, Crc32.Checksum(blob))
  }

  /** Only media entries are ever named: a result other than the sentinel is
      the base name of a `ppt/media/` entry whose stored CRC equals the blob's,
      and no earlier media entry has that CRC. */
  lemma FilenameForIsFirstMedia(pkg: Package, blob: Blob)
    requires FilenameFor(pkg, blob) != Unnamed
    ensures exists i :: MediaMatch(pkg, i, Crc32.Checksum(blob))
                        && (forall j :: 0 <= j < i ==> !MediaMatch(pkg, j, Crc32.Checksum(blob)))
                        && FilenameFor(pkg, blob) == Basename(pkg[i].name)
  {
  }

  /** When some media entry carries the blob's CRC, the answer is the base
      name of the first such entry in archive order. */
  lemma MatchGivesFirstBasename(pkg: Package, blob: Blob, i: int)
    requires MediaMatch(pkg, i, Crc32.Checksum(blob))
    requires forall j :: 0 <= j < i ==> !MediaMatch(pkg, j, Crc32.Checksum(blob))
    ensures FilenameFor(pkg, blob) == Basename(pkg[i].name)
  {
  }

  /** With no media entry carrying the blob's CRC, the lookup answers the
      sentinel rather than failing. */
  lemma NoMatchGivesSentinel(pkg: Package, blob: Blob)
    requires forall i :: 0 <= i < |pkg| && StartsWith(pkg[i].name, MediaDir) ==> pkg[i].crc != Crc32.Checksum(blob)
    ensures FilenameFor(pkg, blob) == Unnamed
  {
  }
}
