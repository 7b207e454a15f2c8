/** Whole-dictionary operations on the blob-keyed tables of the analysis:
    `dict.update`, the merge of a slide's table into the slide dictionary,
    and dictionary comprehensions that keep some entries
    (New-Release/slim_pptx.py:189-216). */
module Tables {
  import opened Wrappers
  import opened Package
  import opened Shapes

  predicate Distinct(keys: seq<Blob>) {
    forall i, j :: 0 <= i < j < |keys| ==> keys[i] != keys[j]
  }

  /** The keys of `keys` that `m` lacks, in their order: where the keys a
      dictionary gains from another one go. */
  function NewKeys(keys: seq<Blob>, m: map<Blob, ImageInfo>): seq<Blob>
    decreases |keys|
  {
    if keys == [] then []
    else
      var b := keys[|keys| - 1];
      var front := NewKeys(keys[..|keys| - 1], m);
      if b in m then front else front + [b]
  }

  /** The new keys are the keys of `keys` that `m` lacks, each once. */
  lemma {:induction false} NewKeysSpec(keys: seq<Blob>, m: map<Blob, ImageInfo>)
    ensures forall b :: b in NewKeys(keys, m) <==> b in keys && b !in m
    ensures Distinct(keys) ==> Distinct(NewKeys(keys, m))
    decreases |keys|
  {
    if keys != [] {
      var front := keys[..|keys| - 1];
      NewKeysSpec(front, m);
      assert keys == front + [keys[|keys| - 1]];
    }
  }

  /** `t.update(u)`: an existing key keeps its place, a new key goes last in
      `u`'s order, and the value of `u` wins. */
  function Update(t: Table, u: Table): Table {
    Table(t.keys + NewKeys(u.keys, t.info),
          t.info + u.info)
  }

  /** Appending keys that are distinct and new keeps a table well formed. */
  lemma AppendValid(t: Table, extra: seq<Blob>, info: map<Blob, ImageInfo>)
    requires t.Valid() && Distinct(extra)
    requires forall b :: b in extra ==> b !in t.info
    requires forall b :: b in info <==> b in t.info || b in extra
    ensures Table(t.keys + extra, info).Valid()
  {
    var keys := t.keys + extra;
    forall i, j | 0 <= i < j < |keys| ensures keys[i] != keys[j] {
      if j < |t.keys| {
      } else if i < |t.keys| {
        assert keys[j] in extra;
      } else {
        assert keys[i] == extra[i - |t.keys|] && keys[j] == extra[j - |t.keys|];
      }
    }
  }

  lemma UpdateValid(t: Table, u: Table)
    requires t.Valid() && u.Valid()
    ensures Update(t, u).Valid()
  {
    NewKeysSpec(u.keys, t.info);
    AppendValid(t, NewKeys(u.keys, t.info), Update(t, u).info);
  }

  /** The entry a slide merge leaves for a blob of the slide: the entry already
      in the slide dictionary if there is one, else the slide's own, with
      `used` set and `is_hidden` overwritten by the slide's flag. */
  function Touch(i: ImageInfo, hidden: bool): ImageInfo {
    i.(used := true, isHidden := Some(hidden))
  }

  lemma TouchTwice(i: ImageInfo, h1: bool, h2: bool)
    ensures Touch(Touch(i, h1), h2) == Touch(i, h2)
  {
  }

  /** Merging one slide's table `st` into the slide dictionary `t`: a blob new
      to `t` is added last with the slide's entry, every blob of the slide is
      touched, and the blobs of `t` the slide lacks are left alone. */
  function Merge(t: Table, st: Table, hidden: bool): Table {
    Table(t.keys + NewKeys(st.keys, t.info),
          t.info + map b | b in st.info :: Touch(if b in t.info then t.info[b] else st.info[b], hidden))
  }

  lemma MergeValid(t: Table, st: Table, hidden: bool)
    requires t.Valid() && st.Valid()
    ensures Merge(t, st, hidden).Valid()
  {
    NewKeysSpec(st.keys, t.info);
    AppendValid(t, NewKeys(st.keys, t.info), Merge(t, st, hidden).info);
  }

  lemma NewKeysStep(keys: seq<Blob>, m: map<Blob, ImageInfo>, j: nat)
    requires j < |keys|
    ensures NewKeys(keys[..j + 1], m) == NewKeys(keys[..j], m) + (if keys[j] in m then [] else [keys[j]])
  {
    assert keys[..j + 1][..j] == keys[..j];
  }

  /** The entries of `t` once the loop over the slide's table `st` has
      handled the blobs `done`: those are touched, the others are `before`'s. */
  ghost predicate EntriesUpTo(before: Table, st: Table, hidden: bool, done: set<Blob>, t: Table) {
    && done <= st.info.Keys
    && forall b :: (b in t.info <==> b in before.info || b in done)
                   && (b in t.info ==>
                         t.info[b] == if b !in done then before.info[b]
                                      else Touch(if b in before.info then before.info[b] else st.info[b], hidden))
  }

  /** One more blob of the slide: a `Put` of its touched entry. */
  lemma EntriesStep(before: Table, st: Table, hidden: bool, done: set<Blob>, t: Table, b: Blob)
    requires t.Valid() && b !in done && b in st.info
    requires EntriesUpTo(before, st, hidden, done, t)
    ensures EntriesUpTo(before, st, hidden, done + {b}, t.Put(b, Touch(if b in t.info then t.info[b] else st.info[b], hidden)))
  {
  }

  /** The keys after one more blob: appended exactly when it is new. */
  lemma KeysStep(before: Table, st: Table, j: nat, t: Table, v: ImageInfo)
    requires t.Valid() && j < |st.keys|
    requires t.keys == before.keys + NewKeys(st.keys[..j], before.info)
    requires st.keys[j] in t.info <==> st.keys[j] in before.info
    ensures t.Put(st.keys[j], v).keys == before.keys + NewKeys(st.keys[..j + 1], before.info)
  {
    NewKeysStep(st.keys, before.info, j);
  }

  /** The blobs handled after one more key of a well-formed table; the key
      was not handled before. */
  lemma DoneStep(st: Table, j: nat, done: set<Blob>)
    requires st.Valid() && j < |st.keys|
    requires forall b :: b in done <==> b in st.keys[..j]
    ensures st.keys[j] !in done && st.keys[j] in st.info
    ensures forall b :: b in done + {st.keys[j]} <==> b in st.keys[..j + 1]
  {
    assert st.keys[..j + 1] == st.keys[..j] + [st.keys[j]];
  }

  /** One pass of the loop merging the slide's table `st` into `before`: the
      `Put` of the touched entry of key `j` keeps the loop's invariants. */
  lemma MergeLoopStep(before: Table, st: Table, hidden: bool, j: nat, done: set<Blob>, t: Table, b: Blob, next: Table)
    requires t.Valid() && st.Valid() && j < |st.keys| && b == st.keys[j]
    requires t.keys == before.keys + NewKeys(st.keys[..j], before.info)
    requires forall x :: x in done <==> x in st.keys[..j]
    requires EntriesUpTo(before, st, hidden, done, t)
    requires next == t.Put(b, Touch(if b in t.info then t.info[b] else st.info[b], hidden))
    ensures next.keys == before.keys + NewKeys(st.keys[..j + 1], before.info)
    ensures forall x :: x in done + {b} <==> x in st.keys[..j + 1]
    ensures EntriesUpTo(before, st, hidden, done + {b}, next)
  {
    DoneStep(st, j, done);
    KeysStep(before, st, j, t, Touch(if b in t.info then t.info[b] else st.info[b], hidden));
    EntriesStep(before, st, hidden, done, t, b);
  }

  /** Once every key is handled, the handled blobs are the table's. */
  lemma DoneAll(st: Table, done: set<Blob>)
    requires st.Valid()
    requires forall b :: b in done <==> b in st.keys[..|st.keys|]
    ensures done == st.info.Keys
  {
    assert st.keys[..|st.keys|] == st.keys;
  }

  /** Once every blob is handled the loop has computed `Merge`. */
  lemma EntriesAll(before: Table, st: Table, hidden: bool, t: Table)
    requires t.keys == before.keys + NewKeys(st.keys, before.info)
    requires EntriesUpTo(before, st, hidden, st.info.Keys, t)
    ensures t == Merge(before, st, hidden)
  {
    EntriesInfo(before, st, hidden, t);
  }

  lemma EntriesInfo(before: Table, st: Table, hidden: bool, t: Table)
    requires EntriesUpTo(before, st, hidden, st.info.Keys, t)
    ensures t.info == Merge(before, st, hidden).info
  {
    var m := Merge(before, st, hidden).info;
    forall b ensures (b in t.info <==> b in m) && (b in t.info ==> t.info[b] == m[b]) {
    }
  }

  /** `{blob: info for blob, info in t.items() if keep(info)}`, walking the
      keys `keys`. */
  function SelectKeys(t: Table, keys: seq<Blob>, keep: ImageInfo -> bool): (r: Table)
    ensures r.Valid()
    ensures |r.keys| <= |keys|
    decreases |keys|
  {
    if keys == [] then EmptyTable
    else
      var b := keys[|keys| - 1];
      var r := SelectKeys(t, keys[..|keys| - 1], keep);
      if b in t.info && keep(t.info[b]) then r.Put(b, t.info[b]) else r
  }

  function Select(t: Table, keep: ImageInfo -> bool): (r: Table)
    ensures r.Valid()
    ensures |r.keys| <= |t.keys|
  {
    SelectKeys(t, t.keys, keep)
  }

  lemma {:induction false} SelectKeysSpec(t: Table, keys: seq<Blob>, keep: ImageInfo -> bool, b: Blob)
    ensures b in SelectKeys(t, keys, keep).info <==> b in keys && b in t.info && keep(t.info[b])
    ensures b in SelectKeys(t, keys, keep).info ==> SelectKeys(t, keys, keep).info[b] == t.info[b]
    decreases |keys|
  {
    if keys != [] {
      var front := keys[..|keys| - 1];
      SelectKeysSpec(t, front, keep, b);
      assert keys == front + [keys[|keys| - 1]];
    }
  }

  /** The comprehension keeps exactly the entries `keep` accepts, unchanged. */
  lemma SelectSpec(t: Table, keep: ImageInfo -> bool, b: Blob)
    requires b in t.keys <==> b in t.info
    ensures b in Select(t, keep).info <==> b in t.info && keep(t.info[b])
    ensures b in Select(t, keep).info ==> Select(t, keep).info[b] == t.info[b]
  {
    SelectKeysSpec(t, t.keys, keep, b);
  }

  /** `sum(len(blob) for blob in t.keys())`. */
  function SumSizes(keys: seq<Blob>): nat
    decreases |keys|
  {
    if keys == [] then 0 else SumSizes(keys[..|keys| - 1]) + |keys[|keys| - 1]|
  }

  /** `sum(len(blob) * info["crop_ratio"] for blob, info in t.items())`. */
  function SumCropped(t: Table, keys: seq<Blob>): real
    requires forall b :: b in keys ==> b in t.info
    decreases |keys|
  {
    if keys == [] then 0.0
    else
      var b := keys[|keys| - 1];
      SumCropped(t, keys[..|keys| - 1]) + (|b| as real) * t.info[b].cropRatio
  }

  lemma AddAtMost(a: real, b: real, c: real, d: real)
    requires a <= c && b <= d
    ensures a + b <= c + d
  {
  }

  lemma ScaledAtMost(x: real, r: real)
    requires 0.0 <= x && r <= 1.0
    ensures x * r <= x
  {
    assert x * r <= x * 1.0;
  }

  /** With every ratio at most 1, the cropped weight never exceeds the size
      of the images it is computed from. */
  lemma {:induction false} SumCroppedAtMostSizes(t: Table, keys: seq<Blob>)
    requires forall b :: b in keys ==> b in t.info && t.info[b].cropRatio <= 1.0
    ensures SumCropped(t, keys) <= SumSizes(keys) as real
    decreases |keys|
  {
    if keys != [] {
      var b := keys[|keys| - 1];
      var front := keys[..|keys| - 1];
      SumCroppedAtMostSizes(t, front);
      var w := (|b| as real) * t.info[b].cropRatio;
      ScaledAtMost(|b| as real, t.info[b].cropRatio);
      assert SumCropped(t, keys) == SumCropped(t, front) + w;
      assert SumSizes(keys) as real == SumSizes(front) as real + |b| as real;
      AddAtMost(SumCropped(t, front), w, SumSizes(front) as real, |b| as real);
    }
  }

  // ---------------------------------------------------------------------
  // Folds over the tables of a run of containers

  ghost predicate AllValid(ts: seq<Table>) {
    forall k :: 0 <= k < |ts| ==> ts[k].Valid()
  }

  /** The first of `ts[..n]` holding `b`, or -1 when none does. */
  function FirstHolder(ts: seq<Table>, b: Blob, n: nat): (f: int)
    requires n <= |ts|
    ensures -1 <= f < n
    ensures f >= 0 ==> b in ts[f].info && forall d :: 0 <= d < f ==> b !in ts[d].info
    ensures f == -1 ==> forall d :: 0 <= d < n ==> b !in ts[d].info
  {
    if n == 0 then -1
    else
      var f := FirstHolder(ts, b, n - 1);
      if f >= 0 then f else if b in ts[n - 1].info then n - 1 else -1
  }

  /** The last of `ts[..n]` holding `b`, or -1 when none does. */
  function LastHolder(ts: seq<Table>, b: Blob, n: nat): (l: int)
    requires n <= |ts|
    ensures -1 <= l < n
    ensures l >= 0 ==> b in ts[l].info && forall d :: l < d < n ==> b !in ts[d].info
    ensures l == -1 ==> forall d :: 0 <= d < n ==> b !in ts[d].info
  {
    if n == 0 then -1
    else if b in ts[n - 1].info then n - 1
    else LastHolder(ts, b, n - 1)
  }

  /** The slide dictionary after merging `ts[..n]`, table `k` with the hidden
      flag `hs[k]`. */
  ghost function Merged(hs: seq<bool>, ts: seq<Table>, n: nat): Table
    requires n <= |ts| && |hs| == |ts|
  {
    if n == 0 then EmptyTable else Merge(Merged(hs, ts, n - 1), ts[n - 1], hs[n - 1])
  }

  lemma MergeKeys(t: Table, st: Table, hidden: bool, b: Blob)
    requires st.Valid() && (b in t.keys <==> b in t.info)
    ensures b in Merge(t, st, hidden).keys <==> b in Merge(t, st, hidden).info
  {
    NewKeysSpec(st.keys, t.info);
  }

  /** Every key of the merged dictionary has an entry and every entry a key. */
  lemma {:induction false} MergedKeys(hs: seq<bool>, ts: seq<Table>, n: nat, b: Blob)
    requires n <= |ts| && |hs| == |ts| && AllValid(ts)
    ensures b in Merged(hs, ts, n).keys <==> b in Merged(hs, ts, n).info
  {
    if n > 0 {
      MergedKeys(hs, ts, n - 1, b);
      var st := ts[n - 1];
      assert st.Valid();
      MergeKeys(Merged(hs, ts, n - 1), st, hs[n - 1], b);
    }
  }

  /** The entry the merges of `ts[..n]` leave for `b`, one blob at a time. */
  function MergedEntry(hs: seq<bool>, ts: seq<Table>, n: nat, b: Blob): Option<ImageInfo>
    requires n <= |ts| && |hs| == |ts|
  {
    if n == 0 then None
    else
      var prev := MergedEntry(hs, ts, n - 1, b);
      if b in ts[n - 1].info then Some(Touch(if prev.Some? then prev.value else ts[n - 1].info[b], hs[n - 1]))
      else prev
  }

  lemma {:induction false} MergedEntryIs(hs: seq<bool>, ts: seq<Table>, n: nat, b: Blob)
    requires n <= |ts| && |hs| == |ts|
    ensures b in Merged(hs, ts, n).info <==> MergedEntry(hs, ts, n, b).Some?
    ensures b in Merged(hs, ts, n).info ==> Merged(hs, ts, n).info[b] == MergedEntry(hs, ts, n, b).value
  {
    if n > 0 {
      MergedEntryIs(hs, ts, n - 1, b);
    }
  }

  /** A blob has an entry exactly when some table holds it; the entry is the
      FIRST holder's, touched with the flag of the LAST holder. */
  lemma {:induction false} MergedEntrySpec(hs: seq<bool>, ts: seq<Table>, n: nat, b: Blob)
    requires n <= |ts| && |hs| == |ts|
    ensures MergedEntry(hs, ts, n, b).Some? <==> FirstHolder(ts, b, n) >= 0
    ensures MergedEntry(hs, ts, n, b).Some? ==>
              && 0 <= FirstHolder(ts, b, n) && 0 <= LastHolder(ts, b, n)
              && MergedEntry(hs, ts, n, b).value == Touch(ts[FirstHolder(ts, b, n)].info[b], hs[LastHolder(ts, b, n)])
  {
    if n > 0 {
      MergedEntrySpec(hs, ts, n - 1, b);
      var prev := MergedEntry(hs, ts, n - 1, b);
      if prev.Some? && b in ts[n - 1].info {
        TouchTwice(ts[FirstHolder(ts, b, n - 1)].info[b], hs[LastHolder(ts, b, n - 1)], hs[n - 1]);
      }
    }
  }

  /** The merged dictionary holds `b` exactly when some table does, with the
      FIRST holder's entry touched with the flag of the LAST holder. */
  lemma MergedSpec(hs: seq<bool>, ts: seq<Table>, n: nat, b: Blob)
    requires n <= |ts| && |hs| == |ts|
    ensures b in Merged(hs, ts, n).info <==> FirstHolder(ts, b, n) >= 0
    ensures b in Merged(hs, ts, n).info ==>
              && 0 <= FirstHolder(ts, b, n) && 0 <= LastHolder(ts, b, n)
              && Merged(hs, ts, n).info[b] == Touch(ts[FirstHolder(ts, b, n)].info[b], hs[LastHolder(ts, b, n)])
  {
    MergedEntryIs(hs, ts, n, b);
    MergedEntrySpec(hs, ts, n, b);
  }

  /** `all_images` after updating it with `ts[..n]` in order. */
  ghost function Updated(ts: seq<Table>, n: nat): Table
    requires n <= |ts|
  {
    if n == 0 then EmptyTable else Update(Updated(ts, n - 1), ts[n - 1])
  }

  /** Updating with well-formed tables gives a well-formed dictionary. */
  lemma {:induction false} UpdatedValid(ts: seq<Table>, n: nat)
    requires n <= |ts| && AllValid(ts)
    ensures Updated(ts, n).Valid()
  {
    if n > 0 {
      UpdatedValid(ts, n - 1);
      UpdateValid(Updated(ts, n - 1), ts[n - 1]);
    }
  }

  /** Only the first `n` tables matter. */
  lemma {:induction false} UpdatedPrefix(ts: seq<Table>, us: seq<Table>, n: nat)
    requires n <= |ts| && n <= |us|
    requires forall k :: 0 <= k < n ==> ts[k] == us[k]
    ensures Updated(ts, n) == Updated(us, n)
  {
    if n > 0 {
      UpdatedPrefix(ts, us, n - 1);
    }
  }

  /** One `update`: the entry of `u` wins. */
  lemma UpdateEntry(t: Table, u: Table, b: Blob)
    ensures b in Update(t, u).info <==> b in t.info || b in u.info
    ensures b in Update(t, u).info ==> Update(t, u).info[b] == if b in u.info then u.info[b] else t.info[b]
  {
  }

  /** An updated blob is present exactly when some table holds it, and its
      entry is the LAST holder's. */
  lemma {:induction false} UpdatedSpec(ts: seq<Table>, n: nat, b: Blob)
    requires n <= |ts|
    ensures b in Updated(ts, n).info <==> LastHolder(ts, b, n) >= 0
    ensures b in Updated(ts, n).info ==>
              0 <= LastHolder(ts, b, n) && Updated(ts, n).info[b] == ts[LastHolder(ts, b, n)].info[b]
  {
    if n > 0 {
      UpdatedSpec(ts, n - 1, b);
      UpdateEntry(Updated(ts, n - 1), ts[n - 1], b);
    }
  }
}
