/** Log files of a backup, and the choice of the files a conversion reads. */
module LogFiles {

  import opened ByteStrings
  import opened Sorting

  /** A log file: what the container lists about it, and the bytes a read returns. */
  datatype LogFile = LogFile(
    beginVersion: int,
    endVersion: int,
    blockSize: nat,
    fileSize: nat,
    tagId: int,
    contents: Bytes)
  {
    /** Same tag, and a version range inside that of `other`. */
    predicate IsSubset(other: LogFile) {
      beginVersion >= other.beginVersion && endVersion <= other.endVersion && tagId == other.tagId
    }
  }

  function RangeKey(f: LogFile): SortKey {
    Key(f.beginVersion, f.endVersion)
  }

  predicate Overlaps(f: LogFile, begin: int, end: int) {
    f.beginVersion <= end && f.endVersion >= begin && f.tagId >= 0 && f.fileSize > 0
  }

  // ---------- What the choice is about ----------

  predicate HasVersion(f: LogFile, v: int) {
    f.beginVersion <= v <= f.endVersion
  }

  /** `g` has the tag of `f` and every version of it. */
  ghost predicate Covers(g: LogFile, f: LogFile) {
    g.tagId == f.tagId && forall v :: HasVersion(f, v) ==> HasVersion(g, v)
  }

  /** A log of the partitioned format that is not empty and has version `v`. */
  predicate Logs(f: LogFile, v: int) {
    f.tagId >= 0 && f.fileSize > 0 && HasVersion(f, v)
  }

  lemma IsSubsetIff(f: LogFile, g: LogFile)
    requires f.beginVersion <= f.endVersion
    ensures f.IsSubset(g) <==> Covers(g, f)
  {
    assert HasVersion(f, f.beginVersion) && HasVersion(f, f.endVersion);
  }

  lemma OverlapsIff(f: LogFile, begin: int, end: int)
    requires f.beginVersion <= f.endVersion && begin <= end
    ensures Overlaps(f, begin, end) <==> exists v :: begin <= v <= end && Logs(f, v)
  {
    if Overlaps(f, begin, end) {
      assert Logs(f, if f.beginVersion <= begin then begin else f.beginVersion);
    }
  }

  /** Some file of `kept` has the tag of `f` and all its versions. */
  ghost predicate Covered(f: LogFile, kept: seq<LogFile>) {
    exists k :: 0 <= k < |kept| && Covers(kept[k], f)
  }

  /** No file is covered by the one after it. */
  ghost predicate NeighboursDiffer(kept: seq<LogFile>) {
    forall k :: 0 <= k < |kept| - 1 ==> !kept[k].IsSubset(kept[k + 1])
  }

  /**
   * The files to read: those overlapping the range, in order, without each file whose
   * successor covers it.  No version of the range is lost for any tag: a file dropped because of a file that
   * is dropped in turn is covered by whatever is kept at the end of the chain.
   */
  method GetRelevantLogFiles(files: seq<LogFile>, begin: int, end: int) returns (kept: seq<LogFile>)
    ensures forall f, v :: f in files && begin <= v <= end && Logs(f, v) ==> Covered(f, kept)
    ensures forall f :: f in files && Overlaps(f, begin, end) ==> Covered(f, kept)
    ensures forall f :: f in kept ==> Overlaps(f, begin, end)
    ensures multiset(kept) <= multiset(files)
    ensures SortedByKey(kept, RangeKey) && NeighboursDiffer(kept)
    ensures forall i, j :: 0 <= i < j < |kept| ==>
              kept[i].beginVersion < kept[j].beginVersion ||
              (kept[i].beginVersion == kept[j].beginVersion && kept[i].endVersion <= kept[j].endVersion)
  {
    hide Covers, NeighboursDiffer, Overlapping;
    var filtered := FilterOverlapping(files, begin, end);
    SortSorts(filtered, RangeKey);
    kept := DropCovered(Sort(filtered, RangeKey));
    forall f | f in files && Overlaps(f, begin, end) ensures Covered(f, kept) {
      assert f in multiset(files);
      assert f in multiset(Sort(filtered, RangeKey));
    }
    forall f | f in kept ensures Overlaps(f, begin, end) { assert f in multiset(kept); assert f in multiset(filtered); }
  }

  method DropCovered(sorted: seq<LogFile>) returns (kept: seq<LogFile>)
    requires SortedByKey(sorted, RangeKey)
    ensures forall k :: 0 <= k < |sorted| ==> Covered(sorted[k], kept)
    ensures multiset(kept) <= multiset(sorted)
    ensures SortedByKey(kept, RangeKey) && NeighboursDiffer(kept)
  {
    kept := [];
    var i, j := 0, 1;
    if sorted != [] { StartDropping(sorted); }
    while j < |sorted|
      invariant i == j - 1 && (i < |sorted| ==> Dropping(sorted, i, kept))
      invariant i >= |sorted| ==> sorted == kept == []
    {
      hide Dropping, SortedByKey;
      if !sorted[i].IsSubset(sorted[j]) {
        KeepFile(sorted, i, kept);
        kept := kept + [sorted[i]];
      } else {
        DropFile(sorted, i, kept);
      }
      i, j := j, j + 1;
    }
    if i < |sorted| {
      KeepLast(sorted, kept);
      kept := kept + [sorted[i]];
    }
  }

  /** With files up to `i` looked at: each is covered by a kept file or by the file at `i`, and no kept file by the next. */
  ghost predicate Dropping(sorted: seq<LogFile>, i: nat, kept: seq<LogFile>)
    requires i < |sorted|
  {
    && multiset(kept) <= multiset(sorted[..i])
    && SortedByKey(kept + [sorted[i]], RangeKey)
    && NeighboursDiffer(kept + [sorted[i]])
    && forall k :: 0 <= k <= i ==> Covered(sorted[k], kept + [sorted[i]])
  }

  lemma StartDropping(sorted: seq<LogFile>)
    requires sorted != []
    ensures Dropping(sorted, 0, [])
  {
    assert Covers(([] + [sorted[0]])[0], sorted[0]);
  }

  lemma KeepFile(sorted: seq<LogFile>, i: nat, kept: seq<LogFile>)
    requires SortedByKey(sorted, RangeKey) && i + 1 < |sorted| && Dropping(sorted, i, kept)
    requires !sorted[i].IsSubset(sorted[i + 1])
    ensures Dropping(sorted, i + 1, kept + [sorted[i]])
  {
    var now := kept + [sorted[i]];
    assert sorted[..i + 1] == sorted[..i] + [sorted[i]];
    FromSorted(sorted, i + 1, now);
    forall k | 0 <= k <= i + 1 ensures Covered(sorted[k], now + [sorted[i + 1]]) {
      if k <= i {
        var m :| 0 <= m < |now| && Covers(now[m], sorted[k]);
        assert Covers((now + [sorted[i + 1]])[m], sorted[k]);
      } else {
        assert Covers((now + [sorted[i + 1]])[|now|], sorted[k]);
      }
    }
  }

  lemma DropFile(sorted: seq<LogFile>, i: nat, kept: seq<LogFile>)
    requires SortedByKey(sorted, RangeKey) && i + 1 < |sorted| && Dropping(sorted, i, kept)
    requires sorted[i].IsSubset(sorted[i + 1])
    ensures Dropping(sorted, i + 1, kept)
  {
    var now, next := kept + [sorted[i]], kept + [sorted[i + 1]];
    assert sorted[..i + 1] == sorted[..i] + [sorted[i]];
    ReplaceLast(kept, sorted[i], sorted[i + 1]);
    hide SortedByKey, NeighboursDiffer;
    forall k | 0 <= k <= i + 1 ensures Covered(sorted[k], next) {
      if k <= i {
        var m :| 0 <= m < |now| && Covers(now[m], sorted[k]);
        assert Covers(next[m], sorted[k]);
      } else {
        assert Covers(next[|kept|], sorted[k]);
      }
    }
  }

  /** The last file gives way to one that covers it. */
  lemma ReplaceLast(kept: seq<LogFile>, g: LogFile, h: LogFile)
    requires SortedByKey(kept + [g], RangeKey) && NeighboursDiffer(kept + [g])
    requires KeyAtMost(RangeKey(g), RangeKey(h)) && g.IsSubset(h)
    ensures SortedByKey(kept + [h], RangeKey) && NeighboursDiffer(kept + [h])
  {
    var now, next := kept + [g], kept + [h];
    forall k | 0 <= k < |kept| ensures now[k] == next[k] == kept[k] && KeyAtMost(RangeKey(kept[k]), RangeKey(g)) {
      assert now[|kept|] == g;
    }
    forall k | 0 <= k < |next| - 1 ensures !next[k].IsSubset(next[k + 1]) {
      assert !now[k].IsSubset(now[k + 1]);
      if k == |kept| - 1 { StillNotCovered(kept[k], g, h); }
    }
  }

  lemma KeepLast(sorted: seq<LogFile>, kept: seq<LogFile>)
    requires sorted != [] && Dropping(sorted, |sorted| - 1, kept)
    ensures var all := kept + [sorted[|sorted| - 1]];
            && multiset(all) <= multiset(sorted) && SortedByKey(all, RangeKey) && NeighboursDiffer(all)
            && forall k :: 0 <= k < |sorted| ==> Covered(sorted[k], all)
  {
    assert sorted == sorted[..|sorted| - 1] + [sorted[|sorted| - 1]];
  }

  /** Files in order, all from before `i`, stay in order when the file at `i` is added. */
  lemma FromSorted(sorted: seq<LogFile>, i: nat, kept: seq<LogFile>)
    requires SortedByKey(sorted, RangeKey) && i < |sorted|
    requires multiset(kept) <= multiset(sorted[..i]) && SortedByKey(kept, RangeKey)
    ensures SortedByKey(kept + [sorted[i]], RangeKey)
  {
    forall m | 0 <= m < |kept| ensures KeyAtMost(RangeKey(kept[m]), RangeKey(sorted[i])) {
      assert kept[m] in multiset(kept);
      assert kept[m] in sorted[..i];
    }
  }

  /** In sorted order, a file that is not covered by the next is not covered by one that covers the next. */
  lemma StillNotCovered(f: LogFile, g: LogFile, h: LogFile)
    requires KeyAtMost(RangeKey(f), RangeKey(g)) && KeyAtMost(RangeKey(g), RangeKey(h))
    requires !f.IsSubset(g) && g.IsSubset(h)
    ensures !f.IsSubset(h)
  {
  }

  /** The files that overlap the range, in the order of the list. */
  function Overlapping(files: seq<LogFile>, begin: int, end: int): seq<LogFile> {
    if files == [] then [] else
      var last := |files| - 1;
      Overlapping(files[..last], begin, end) + if Overlaps(files[last], begin, end) then [files[last]] else []
  }

  /** Each file that overlaps the range occurs as often as in the list, and no other. */
  lemma {:induction false} OverlappingCount(files: seq<LogFile>, begin: int, end: int, f: LogFile)
    ensures multiset(Overlapping(files, begin, end))[f] == if Overlaps(f, begin, end) then multiset(files)[f] else 0
  {
    if files != [] {
      var last := |files| - 1;
      OverlappingCount(files[..last], begin, end, f);
      assert files == files[..last] + [files[last]];
    }
  }

  method FilterOverlapping(files: seq<LogFile>, begin: int, end: int) returns (filtered: seq<LogFile>)
    ensures filtered == Overlapping(files, begin, end)
    ensures forall f :: multiset(filtered)[f] == if Overlaps(f, begin, end) then multiset(files)[f] else 0
  {
    hide Overlaps;
    filtered := [];
    for i := 0 to |files|
      invariant filtered == Overlapping(files[..i], begin, end)
    {
      assert files[..i + 1][..i] == files[..i];
      if Overlaps(files[i], begin, end) {
        filtered := filtered + [files[i]];
      }
    }
    assert files[..|files|] == files;
    forall f: LogFile ensures multiset(filtered)[f] == if Overlaps(f, begin, end) then multiset(files)[f] else 0 {
      OverlappingCount(files, begin, end, f);
    }
  }
}
