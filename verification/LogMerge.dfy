/** The k-way merge of the log files of a backup by (version, sub). */
module LogMerge {

  import opened Readers
  import opened Sorting
  import opened LogFiles
  import opened PartitionedLog
  import opened FileProgresses

  // ---------- Merging lists of messages ----------

  ghost function Union(lists: seq<seq<Message>>): multiset<Message> {
    if lists == [] then multiset{} else multiset(lists[0]) + Union(lists[1..])
  }

  /** Every list is nonempty and sorted, and the lists come in order of their heads. */
  ghost predicate InMergeOrder(lists: seq<seq<Message>>) {
    && (forall i :: 0 <= i < |lists| ==> lists[i] != [] && Sorted(lists[i]))
    && forall i, j :: 0 <= i < j < |lists| ==> MessageAtMost(lists[i][0], lists[j][0])
  }

  lemma {:induction false} UnionAppend(a: seq<seq<Message>>, b: seq<seq<Message>>)
    ensures Union(a + b) == Union(a) + Union(b)
  {
    if a == [] {
      assert a + b == b;
    } else {
      assert (a + b)[1..] == a[1..] + b;
      calc {
        Union(a + b);
        multiset(a[0]) + Union(a[1..] + b);
        { UnionAppend(a[1..], b); }
        multiset(a[0]) + (Union(a[1..]) + Union(b));
        Union(a) + Union(b);
      }
    }
  }

  lemma UnionSwap(before: seq<seq<Message>>, x: seq<Message>, y: seq<Message>, after: seq<seq<Message>>)
    ensures Union(before + [x, y] + after) == Union(before + [y, x] + after)
  {
    UnionAppend(before + [x, y], after);
    UnionAppend(before + [y, x], after);
    UnionAppend(before, [x, y]);
    UnionAppend(before, [y, x]);
    UnionOfTwo(x, y);
    UnionOfTwo(y, x);
  }

  lemma UnionOfTwo(a: seq<Message>, b: seq<Message>)
    ensures Union([a, b]) == multiset(a) + multiset(b)
  {
    assert [a, b][1..] == [b] && [b][1..] == [];
    assert Union([b]) == multiset(b) + Union([]);
  }

  lemma {:induction false} UnionMember(lists: seq<seq<Message>>, m: Message) returns (i: nat)
    requires m in Union(lists)
    ensures i < |lists| && m in lists[i]
  {
    if m in lists[0] {
      i := 0;
    } else {
      i := UnionMember(lists[1..], m);
      i := i + 1;
    }
  }

  /** In merge order, the head of the first list is a least message of all. */
  lemma HeadIsLeast(lists: seq<seq<Message>>)
    requires InMergeOrder(lists) && lists != []
    ensures forall m :: m in Union(lists) ==> MessageAtMost(lists[0][0], m)
  {
    forall m | m in Union(lists) ensures MessageAtMost(lists[0][0], m) {
      var i := UnionMember(lists, m);
      var k :| 0 <= k < |lists[i]| && lists[i][k] == m;
    }
  }

  /** The two elements at `i - 1` and `i` exchanged, as `std::swap` does. */
  function Swapped<T>(s: seq<T>, i: nat): (r: seq<T>)
    requires 0 < i < |s|
    ensures |r| == |s| && r[i - 1] == s[i] && r[i] == s[i - 1]
    ensures forall k :: 0 <= k < |s| && k != i - 1 && k != i ==> r[k] == s[k]
  {
    s[i - 1 := s[i]][i := s[i - 1]]
  }

  lemma SwappedMultiset<T>(s: seq<T>, i: nat)
    requires 0 < i < |s|
    ensures multiset(Swapped(s, i)) == multiset(s)
  {
  }

  /** In merge order but for the list at `i`, whose head may be too large for its place. */
  ghost predicate InMergeOrderExcept(lists: seq<seq<Message>>, i: nat) {
    && (forall k :: 0 <= k < |lists| ==> lists[k] != [] && Sorted(lists[k]))
    && forall j, k :: 0 <= j < k < |lists| && j != i ==> MessageAtMost(lists[j][0], lists[k][0])
  }

  lemma UnionSwapped(lists: seq<seq<Message>>, i: nat)
    requires 0 < i < |lists|
    ensures Union(Swapped(lists, i)) == Union(lists)
  {
    hide Union, Swapped;
    assert lists == lists[..i - 1] + [lists[i - 1], lists[i]] + lists[i + 1..];
    assert Swapped(lists, i) == lists[..i - 1] + [lists[i], lists[i - 1]] + lists[i + 1..];
    UnionSwap(lists[..i - 1], lists[i - 1], lists[i], lists[i + 1..]);
  }

  /** Swapping the misplaced list with a smaller neighbour moves it one place up. */
  lemma MoveUp(lists: seq<seq<Message>>, i: nat)
    requires 0 < i < |lists| && InMergeOrderExcept(lists, i - 1)
    requires !MessageAtMost(lists[i - 1][0], lists[i][0])
    ensures InMergeOrderExcept(Swapped(lists, i), i)
  {
    hide Swapped, Sorted;
  }

  lemma InPlace(lists: seq<seq<Message>>, i: nat)
    requires 0 < i <= |lists| && InMergeOrderExcept(lists, i - 1)
    requires i < |lists| ==> MessageAtMost(lists[i - 1][0], lists[i][0])
    ensures InMergeOrder(lists)
  {
    forall j, k | 0 <= j < k < |lists| ensures MessageAtMost(lists[j][0], lists[k][0]) {
      if j == i - 1 && k > i {
        assert MessageAtMost(lists[i][0], lists[k][0]);
      }
    }
  }

  /** Taking the head of the first list: that list may now be out of place, or gone. */
  lemma PopHead(lists: seq<seq<Message>>)
    requires InMergeOrder(lists) && lists != []
    ensures var rest := lists[0][1..];
            && Union(lists) == Union([rest] + lists[1..]) + multiset{lists[0][0]}
            && (rest == [] ==> Union([rest] + lists[1..]) == Union(lists[1..]) && InMergeOrder(lists[1..]))
            && (rest != [] ==> InMergeOrderExcept([rest] + lists[1..], 0))
  {
    hide InMergeOrder, InMergeOrderExcept, Sorted, MessageAtMost;
    OrderWithoutHead(lists);
    var rest := lists[0][1..];
    assert lists[0] == [lists[0][0]] + rest;
    assert ([rest] + lists[1..])[1..] == lists[1..];
  }

  lemma OrderWithoutHead(lists: seq<seq<Message>>)
    requires InMergeOrder(lists) && lists != []
    ensures lists[0] != [] && InMergeOrder(lists[1..])
    ensures lists[0][1..] != [] ==> InMergeOrderExcept([lists[0][1..]] + lists[1..], 0)
  {
    hide MessageAtMost;
    SortedTail(lists[0]);
  }

  // ---------- The merge of the open files ----------

  /** `FileProgress::operator<=`: by first buffered message, files without one last. */
  predicate HeadAtMost(a: FileProgress, b: FileProgress) reads a, b {
    b.mutations == [] || (a.mutations != [] && MessageAtMost(a.mutations[0], b.mutations[0]))
  }

  ghost function Lists(fps: seq<FileProgress>, max: int): (lists: seq<seq<Message>>)
    reads fps
    ensures |lists| == |fps| && forall i :: 0 <= i < |fps| ==> lists[i] == fps[i].Pending(max)
  {
    if fps == [] then [] else [fps[0].Pending(max)] + Lists(fps[1..], max)
  }

  ghost predicate NoRepeats(fps: seq<FileProgress>) {
    forall fp :: fp in fps ==> multiset(fps)[fp] <= 1
  }

  lemma NoRepeatsCons(fps: seq<FileProgress>)
    requires NoRepeats(fps) && fps != []
    ensures fps[0] !in fps[1..] && NoRepeats(fps[1..])
  {
    assert fps == [fps[0]] + fps[1..];
    assert multiset(fps)[fps[0]] <= 1;
    NoRepeatsSub(fps[1..], fps);
  }

  lemma NoRepeatsSnoc(fps: seq<FileProgress>, fp: FileProgress)
    requires NoRepeats(fps) && fp !in fps
    ensures NoRepeats(fps + [fp])
  {
    assert multiset(fps)[fp] == 0;
  }

  lemma NoRepeatsSub(a: seq<FileProgress>, b: seq<FileProgress>)
    requires multiset(a) <= multiset(b) && NoRepeats(b)
    ensures NoRepeats(a)
  {
    forall fp | fp in a ensures multiset(a)[fp] <= 1 { assert fp in multiset(a); assert fp in b; }
  }

  /** The files decode in order, and none of them is exhausted. */
  ghost predicate Loaded(fps: seq<FileProgress>, max: int) reads fps {
    forall i :: 0 <= i < |fps| ==> fps[i].Valid(max) && fps[i].mutations != []
  }

  /** Whatever the files hold: each has a message at hand. */
  ghost predicate AllOpen(fps: seq<FileProgress>) reads fps {
    forall i :: 0 <= i < |fps| ==> fps[i].offset <= fps[i].file.fileSize && fps[i].mutations != []
  }

  ghost predicate AllReady(fps: seq<FileProgress>) reads fps {
    forall i :: 0 <= i < |fps| ==> fps[i].Ready()
  }

  /** What is left to do for all files. */
  ghost function Work(fps: seq<FileProgress>): nat reads fps {
    if fps == [] then 0 else fps[0].Left() + Work(fps[1..])
  }

  lemma {:induction false} WorkSwapped(fps: seq<FileProgress>, i: nat)
    requires 0 < i < |fps|
    ensures Work(Swapped(fps, i)) == Work(fps)
    decreases i
  {
    hide FileProgress.Left;
    var r := Swapped(fps, i);
    if i == 1 {
      assert r[1..][1..] == fps[1..][1..];
      assert Work(r[1..]) == r[1].Left() + Work(r[1..][1..]) && Work(fps[1..]) == fps[1].Left() + Work(fps[1..][1..]);
    } else {
      WorkSwapped(fps[1..], i - 1);
      assert r[1..] == Swapped(fps[1..], i - 1);
    }
  }

  /** The first file aside, all have a message at hand: so has the first, or it is exhausted. */
  lemma OpenCons(fps: seq<FileProgress>, max: int)
    requires fps != [] && AllOpen(fps[1..]) && fps[0].Ready()
    ensures !fps[0].Empty() ==> AllOpen(fps) && fps[0].mutations != [] && fps[0].Pending(max) != []
    ensures Work(fps[1..]) <= Work(fps)
  {
    assert fps == [fps[0]] + fps[1..];
  }

  lemma WorkCons(fps: seq<FileProgress>)
    requires fps != []
    ensures Work(fps) == fps[0].Left() + Work(fps[1..])
    ensures AllOpen(fps) ==> AllOpen(fps[1..]) && fps[0].offset <= fps[0].file.fileSize && fps[0].mutations != []
  {
  }

  lemma UnionWithoutEmpty(lists: seq<seq<Message>>)
    requires lists != [] && lists[0] == []
    ensures Union(lists) == Union(lists[1..])
  {
  }

  lemma ReadySub(a: seq<FileProgress>, b: seq<FileProgress>)
    requires multiset(a) <= multiset(b)
    ensures AllOpen(b) ==> AllOpen(a)
    ensures AllReady(b) ==> AllReady(a)
  {
    hide FileProgress.Ready;
    forall i | 0 <= i < |a| ensures exists k :: 0 <= k < |b| && b[k] == a[i] {
      assert a[i] in multiset(a);
      assert a[i] in multiset(b);
    }
  }

  lemma ListsCons(fps: seq<FileProgress>, max: int)
    requires fps != []
    ensures Lists(fps, max)[0] == fps[0].Pending(max) && Lists(fps, max)[1..] == Lists(fps[1..], max)
  {
  }

  lemma LoadedCons(fps: seq<FileProgress>, max: int)
    requires fps != [] && fps[0].Valid(max) && fps[0].mutations != [] && Loaded(fps[1..], max)
    ensures Loaded(fps, max)
  {
    hide FileProgress.Valid;
    assert fps == [fps[0]] + fps[1..];
  }

  lemma HeadsOfLists(fps: seq<FileProgress>, max: int)
    requires Loaded(fps, max)
    ensures forall i :: 0 <= i < |fps| ==>
              && fps[i].offset <= fps[i].file.fileSize
              && fps[i].mutations != [] && Lists(fps, max)[i] != []
              && fps[i].mutations[0] == Lists(fps, max)[i][0]
  {
  }

  lemma SwappedFiles(fps: seq<FileProgress>, i: nat, max: int)
    requires 0 < i < |fps| && NoRepeats(fps) && Loaded(fps, max)
    ensures var r := Swapped(fps, i);
            && NoRepeats(r) && Loaded(r, max) && multiset(r) == multiset(fps) && |r| == |fps|
            && Lists(r, max) == Swapped(Lists(fps, max), i)
  {
    hide FileProgress.Valid, FileProgress.Pending, Swapped, Lists;
    SwappedMultiset(fps, i);
  }

  lemma SwappedOpen(fps: seq<FileProgress>, i: nat)
    requires 0 < i < |fps| && NoRepeats(fps) && AllOpen(fps)
    ensures var r := Swapped(fps, i); NoRepeats(r) && AllOpen(r) && multiset(r) == multiset(fps)
  {
    SwappedMultiset(fps, i);
    ReadySub(Swapped(fps, i), fps);
    NoRepeatsSub(Swapped(fps, i), fps);
  }

  /** What taking the first message of the first file does to files in order. */
  lemma MergeHead(fps: seq<FileProgress>, max: int)
    requires fps != [] && Loaded(fps, max) && InMergeOrder(Lists(fps, max))
    ensures var lists := Lists(fps, max); var rest := lists[0][1..];
            && Loaded(fps[1..], max) && fps[0].Valid(max) && fps[0].mutations != []
            && lists != [] && lists[0] == fps[0].Pending(max) && lists[1..] == Lists(fps[1..], max)
            && lists[0] != [] && lists[0][0] == fps[0].mutations[0]
            && (forall m :: m in Union(lists) ==> MessageAtMost(lists[0][0], m))
            && Union(lists) == Union([rest] + lists[1..]) + multiset{lists[0][0]}
            && (rest == [] ==> Union([rest] + lists[1..]) == Union(lists[1..]) && InMergeOrder(lists[1..]))
            && (rest != [] ==> InMergeOrderExcept([rest] + lists[1..], 0))
  {
    hide FileProgress.Valid, FileProgress.Pending, InMergeOrder, InMergeOrderExcept, Union, Lists, MessageAtMost;
    HeadsOfLists(fps, max);
    HeadIsLeast(Lists(fps, max));
    PopHead(Lists(fps, max));
    ListsCons(fps, max);
  }

  /** Takes the first buffered message of a file, and reads on when the buffer runs empty. */
  method TakeFirst(fp: FileProgress, max: int) returns (r: Result<Message>)
    requires fp.offset <= fp.file.fileSize && fp.mutations != []
    modifies fp
    ensures r.Ok? ==> r.value == old(fp.mutations[0]) && fp.Ready() && fp.Left() < old(fp.Left())
    ensures old(fp.Valid(max)) ==>
              && r.Ok? && fp.Valid(max)
              && fp.Pending(max) == old(fp.Pending(max))[1..]
              && (fp.Empty() ==> fp.Pending(max) == [])
  {
    hide FileMessages;
    var data := fp.mutations[0];
    fp.mutations := fp.mutations[1..];
    if fp.mutations == [] {
      var decoded := fp.DecodeToVersion(0, max);
      if decoded.Err? {
        return Err(decoded.error);
      }
    }
    if fp.eof && fp.Valid(max) { InRangeNothing(fp.unread, 0, max); }
    return Ok(data);
  }

  // ---------- Opening the files ----------

  ghost predicate AllWellFormed(files: seq<LogFile>) {
    forall i :: 0 <= i < |files| ==> WellFormed(files[i])
  }

  /** The messages of all files with a version in [begin, end), file after file. */
  ghost function AllInRange(files: seq<LogFile>, begin: int, end: int): seq<Message>
    requires AllWellFormed(files)
  {
    if files == [] then [] else
      var last := |files| - 1;
      assert WellFormed(files[last]);
      AllInRange(files[..last], begin, end) + InRange(FileMessages(files[last], 0).value, begin, end)
  }

  /** Files read up to their first message in the range, or to their end. */
  ghost predicate Opened(fps: seq<FileProgress>, max: int) reads fps {
    forall i :: 0 <= i < |fps| ==>
      fps[i].Valid(max) && (fps[i].mutations == [] ==> fps[i].eof) && Sorted(fps[i].Pending(max))
  }

  lemma AllInRangeSnoc(files: seq<LogFile>, f: LogFile, begin: int, end: int)
    requires AllWellFormed(files)
    requires WellFormed(f)
    ensures AllInRange(files + [f], begin, end)
         == AllInRange(files, begin, end) + InRange(FileMessages(f, 0).value, begin, end)
    ensures AllInRange([], begin, end) == []
  {
    assert (files + [f])[..|files|] == files;
  }

  lemma NothingOpened(begin: int, end: int)
    ensures NoRepeats([]) && Opened([], end) && Union(Lists([], end)) == multiset(AllInRange([], begin, end))
  {
  }

  lemma {:induction false} ListsAppend(a: seq<FileProgress>, b: seq<FileProgress>, max: int)
    ensures Lists(a + b, max) == Lists(a, max) + Lists(b, max)
  {
  }

  lemma OpenedSnoc(fps: seq<FileProgress>, fp: FileProgress, max: int)
    requires Opened(fps, max)
    requires fp.Valid(max) && (fp.mutations == [] ==> fp.eof) && Sorted(fp.Pending(max))
    ensures Opened(fps + [fp], max)
    ensures Union(Lists(fps + [fp], max)) == Union(Lists(fps, max)) + multiset(fp.Pending(max))
  {
    hide FileProgress.Valid, FileProgress.Pending, Sorted;
    assert Lists([fp], max) == [fp.Pending(max)] && Union([fp.Pending(max)]) == multiset(fp.Pending(max));
    hide Lists, Union;
    ListsAppend(fps, [fp], max);
    UnionAppend(Lists(fps, max), Lists([fp], max));
  }

  /** The messages to come do not depend on the order of the files. */
  lemma {:induction false} UnionPermuted(a: seq<FileProgress>, b: seq<FileProgress>, max: int)
    requires multiset(a) == multiset(b)
    ensures Union(Lists(a, max)) == Union(Lists(b, max))
    decreases |a|
  {
    if a == [] {
      assert b == [];
    } else {
      assert a[0] in multiset(b);
      var j :| 0 <= j < |b| && b[j] == a[0];
      var rest := b[..j] + b[j + 1..];
      assert a == [a[0]] + a[1..];
      assert b == b[..j] + [b[j]] + b[j + 1..];
      assert multiset(a[1..]) == multiset(a) - multiset{a[0]};
      assert multiset(rest) == multiset(b) - multiset{b[j]};
      UnionPermuted(a[1..], rest, max);
      UnionOfParts(b, j, max);
    }
  }

  /** Where a file stands in the list does not matter. */
  lemma UnionOfParts(b: seq<FileProgress>, j: nat, max: int)
    requires j < |b|
    ensures Union(Lists(b, max)) == multiset(b[j].Pending(max)) + Union(Lists(b[..j] + b[j + 1..], max))
  {
    assert b == b[..j] + ([b[j]] + b[j + 1..]);
    ListsAppend(b[..j], [b[j]] + b[j + 1..], max);
    ListsAppend([b[j]], b[j + 1..], max);
    ListsAppend(b[..j], b[j + 1..], max);
    UnionAppend(Lists(b[..j], max), Lists([b[j]] + b[j + 1..], max));
    UnionAppend(Lists([b[j]], max), Lists(b[j + 1..], max));
    UnionAppend(Lists(b[..j], max), Lists(b[j + 1..], max));
  }

  ghost predicate HeadsSorted(fps: seq<FileProgress>) reads fps {
    forall i, j :: 0 <= i < j < |fps| ==> HeadAtMost(fps[i], fps[j])
  }

  function InsertByHead(fp: FileProgress, fps: seq<FileProgress>): (r: seq<FileProgress>)
    reads fp, fps
    ensures multiset(r) == multiset(fps) + multiset{fp}
  {
    if fps == [] || HeadAtMost(fp, fps[0]) then [fp] + fps
    else
      assert fps == [fps[0]] + fps[1..];
      [fps[0]] + InsertByHead(fp, fps[1..])
  }

  lemma {:induction false} InsertByHeadSorts(fp: FileProgress, fps: seq<FileProgress>)
    requires HeadsSorted(fps)
    ensures HeadsSorted(InsertByHead(fp, fps))
  {
    if fps != [] && !HeadAtMost(fp, fps[0]) {
      InsertByHeadSorts(fp, fps[1..]);
      var rest := InsertByHead(fp, fps[1..]);
      forall k | 0 <= k < |rest| ensures HeadAtMost(fps[0], rest[k]) {
        assert rest[k] in multiset(rest);
        assert rest[k] == fp || rest[k] in fps[1..];
      }
    }
  }

  /** `std::sort` by head: a rearrangement of the files in order of heads. */
  method SortFiles(fps: seq<FileProgress>) returns (sorted: seq<FileProgress>)
    ensures multiset(sorted) == multiset(fps) && HeadsSorted(sorted)
  {
    hide HeadsSorted, InsertByHead;
    sorted := [];
    NoHeads();
    for i := 0 to |fps|
      invariant multiset(sorted) == multiset(fps[..i]) && HeadsSorted(sorted)
    {
      assert fps[..i + 1] == fps[..i] + [fps[i]];
      InsertByHeadSorts(fps[i], sorted);
      sorted := InsertByHead(fps[i], sorted);
    }
    assert fps[..|fps|] == fps;
  }

  lemma NoHeads()
    ensures HeadsSorted([])
  {
  }

  lemma SortedFiles(fps: seq<FileProgress>, sorted: seq<FileProgress>, max: int)
    requires multiset(sorted) == multiset(fps) && Opened(fps, max)
    ensures Opened(sorted, max)
    ensures Union(Lists(sorted, max)) == Union(Lists(fps, max))
  {
    hide Union, Lists, FileProgress.Valid, FileProgress.Pending;
    UnionPermuted(sorted, fps, max);
    forall i | 0 <= i < |sorted|
      ensures exists k :: 0 <= k < |fps| && fps[k] == sorted[i]
    {
      assert sorted[i] in multiset(fps);
    }
  }

  lemma DropLast(fps: seq<FileProgress>)
    requires fps != []
    ensures multiset(fps[..|fps| - 1]) <= multiset(fps)
    ensures HeadsSorted(fps) ==> HeadsSorted(fps[..|fps| - 1])
  {
    assert fps == fps[..|fps| - 1] + [fps[|fps| - 1]];
  }

  lemma DropEmpty(fps: seq<FileProgress>, max: int)
    requires fps != [] && Opened(fps, max) && fps[|fps| - 1].Empty()
    ensures Opened(fps[..|fps| - 1], max)
    ensures Union(Lists(fps[..|fps| - 1], max)) == Union(Lists(fps, max))
  {
    hide FileProgress.Valid, FileProgress.Pending, FileProgress.Empty, Sorted, Lists, Union;
    var last := |fps| - 1;
    NothingPending(fps[last], max);
    UnionOfParts(fps, last, max);
    assert fps[..last] + fps[last + 1..] == fps[..last];
  }

  lemma NothingPending(fp: FileProgress, max: int)
    requires fp.Valid(max) && fp.Empty()
    ensures fp.Pending(max) == []
  {
    InRangeNothing(fp.unread, 0, max);
  }

  /** In order of heads with a message in the last file, every file has one. */
  lemma AllLoaded(fps: seq<FileProgress>, max: int)
    requires Opened(fps, max) && HeadsSorted(fps) && (fps != [] ==> !fps[|fps| - 1].Empty())
    ensures Loaded(fps, max) && InMergeOrder(Lists(fps, max))
  {
    hide FileProgress.Valid, Sorted, InRange, Lists;
    forall i | 0 <= i < |fps| ensures fps[i].mutations != [] {
      if i < |fps| - 1 { assert HeadAtMost(fps[i], fps[|fps| - 1]); }
    }
  }

  method OpenFile(file: LogFile, begin: int, end: int) returns (fp: FileProgress, r: Result<()>)
    ensures fresh(fp)
    ensures r.Ok? ==> fp.Ready()
    ensures WellFormed(file) ==>
              && r.Ok? && fp.Valid(end)
              && fp.Pending(end) == InRange(FileMessages(file, 0).value, begin, end)
              && Sorted(fp.Pending(end))
  {
    fp := new FileProgress(file);
    r := fp.DecodeToVersion(begin, end);
    if WellFormed(file) {
      InRangeSorted(FileMessages(file, 0).value, begin, end);
      if fp.mutations == [] {
        InRangeNothing(fp.unread, 0, end);
        InRangeNothing(fp.unread, begin, end);
      } else {
        InRangeLowerBound(fp.unread, 0, begin, end);
      }
    }
  }

  method OpenEach(files: seq<LogFile>, begin: int, end: int) returns (fps: seq<FileProgress>, r: Result<()>)
    ensures forall fp :: fp in fps ==> fresh(fp)
    ensures r.Ok? ==> NoRepeats(fps) && AllReady(fps)
    ensures AllWellFormed(files) ==>
              && r.Ok? && Opened(fps, end)
              && Union(Lists(fps, end)) == multiset(AllInRange(files, begin, end))
  {
    hide AllInRange, Union, Lists, Opened, FileProgress.Valid, FileProgress.Pending, FileProgress.Ready, WellFormed, NoRepeats;
    NothingOpened(begin, end);
    fps := [];
    for i := 0 to |files|
      invariant forall fp :: fp in fps ==> fresh(fp)
      invariant NoRepeats(fps) && AllReady(fps)
      invariant AllWellFormed(files) ==>
                  && Opened(fps, end)
                  && Union(Lists(fps, end)) == multiset(AllInRange(files[..i], begin, end))
    {
      var fp, result := OpenFile(files[i], begin, end);
      if result.Err? {
        return fps, Err(result.error);
      }
      assert files[..i + 1] == files[..i] + [files[i]];
      if AllWellFormed(files) {
        AllInRangeSnoc(files[..i], files[i], begin, end);
        OpenedSnoc(fps, fp, end);
      }
      NoRepeatsSnoc(fps, fp);
      fps := fps + [fp];
    }
    assert files[..|files|] == files;
    r := Ok(());
  }

  /** Pops files off the end of the list while they are exhausted. */
  method DropExhausted(fps: seq<FileProgress>, ghost max: int) returns (r: seq<FileProgress>)
    requires HeadsSorted(fps)
    ensures multiset(r) <= multiset(fps)
    ensures AllReady(fps) ==> AllOpen(r)
    ensures Opened(fps, max) ==>
              && Loaded(r, max) && InMergeOrder(Lists(r, max))
              && Union(Lists(r, max)) == Union(Lists(fps, max))
  {
    hide Union, Lists, Opened, HeadsSorted, InMergeOrder, Loaded;
    r := fps;
    while r != [] && r[|r| - 1].Empty()
      invariant HeadsSorted(r) && multiset(r) <= multiset(fps)
      invariant Opened(fps, max) ==> Opened(r, max) && Union(Lists(r, max)) == Union(Lists(fps, max))
    {
      if Opened(fps, max) { DropEmpty(r, max); }
      DropLast(r);
      r := r[..|r| - 1];
    }
    ReadySub(r, fps);
    if AllReady(fps) { AllHaveHeads(r); }
    if Opened(fps, max) { AllLoaded(r, max); }
  }

  lemma AllHaveHeads(fps: seq<FileProgress>)
    requires AllReady(fps) && HeadsSorted(fps) && (fps != [] ==> !fps[|fps| - 1].Empty())
    ensures AllOpen(fps)
  {
    forall i | 0 <= i < |fps| ensures fps[i].mutations != [] {
      assert i < |fps| - 1 ==> HeadAtMost(fps[i], fps[|fps| - 1]);
    }
  }

  class MutationFilesReadProgress {
    const files: seq<LogFile>
    const beginVersion: int
    const endVersion: int
    var fileProgress: seq<FileProgress>

    constructor (files: seq<LogFile>, begin: int, end: int)
      ensures this.files == files && beginVersion == begin && endVersion == end && fileProgress == []
    {
      this.files, beginVersion, endVersion, fileProgress := files, begin, end, [];
    }

    /** Whatever the files hold: none is listed twice, and each has a message at hand. */
    ghost predicate Open() reads this, fileProgress {
      NoRepeats(fileProgress) && AllOpen(fileProgress)
    }

    /** No file is exhausted or listed twice, and the list is in order of heads. */
    ghost predicate Valid() reads this, fileProgress {
      && NoRepeats(fileProgress)
      && Loaded(fileProgress, endVersion)
      && InMergeOrder(Lists(fileProgress, endVersion))
    }

    ghost function Files(): set<FileProgress> reads this {
      set fp | fp in fileProgress
    }

    /** The messages not yet delivered. */
    ghost function ToCome(): multiset<Message> reads this, fileProgress {
      Union(Lists(fileProgress, endVersion))
    }

    method HasMutations() returns (b: bool)
      ensures b <==> exists i :: 0 <= i < |fileProgress| && !fileProgress[i].Empty()
      ensures Open() ==> (b <==> fileProgress != [])
      ensures Valid() ==> (b <==> fileProgress != []) && (b <==> ToCome() != multiset{})
    {
      NothingToCome();
      for i := 0 to |fileProgress|
        invariant forall k :: 0 <= k < i ==> fileProgress[k].Empty()
      {
        if !fileProgress[i].Empty() {
          return true;
        }
      }
      return false;
    }

    lemma NothingToCome()
      ensures Valid() ==> (ToCome() == multiset{} <==> fileProgress == [])
    {
      if Valid() && fileProgress != [] {
        var lists := Lists(fileProgress, endVersion);
        assert lists[0][0] in Union(lists);
      }
    }

    /**
     * Delivers the first message.  Whatever the files hold, the assertion at the start and what it needs next time
     * hold, and less is left to do.  If the files are in order, it delivers a least undelivered message and keeps
     * the list in order.
     */
    method GetNextMutation() returns (r: Result<Message>)
      requires Open() && fileProgress != []
      modifies this, Files()
      ensures r.Ok? ==> Open() && Files() <= old(Files()) && Work(fileProgress) < old(Work(fileProgress))
      ensures old(Valid()) ==>
                && r.Ok? && Valid()
                && old(ToCome()) == ToCome() + multiset{r.value}
                && forall m :: m in old(ToCome()) ==> MessageAtMost(r.value, m)
    {
      hide FileProgress.Valid, FileProgress.Pending, FileProgress.Left, FileProgress.Ready,
           InMergeOrder, InMergeOrderExcept, Union, Lists, Loaded, AllOpen, Work, NoRepeats;
      NoRepeatsCons(fileProgress);
      WorkCons(fileProgress);
      ghost var inOrder, lists := Valid(), Lists(fileProgress, endVersion);
      if inOrder {
        MergeHead(fileProgress, endVersion);
      }
      var fp := fileProgress[0];
      var data := TakeFirst(fp, endVersion);
      if data.Err? {
        return data;
      }
      WorkCons(fileProgress);
      if inOrder {
        ListsCons(fileProgress, endVersion);
        assert Lists(fileProgress, endVersion) == [lists[0][1..]] + lists[1..];
      }
      PlaceFirst(inOrder);
      forall fp | fp in fileProgress ensures fp in old(fileProgress) { assert fp in multiset(fileProgress); }
      return data;
    }

    /**
     * Restores the order after the first file changed: drops it when exhausted, else moves it up.  `inOrder` says
     * that the other files are in order.
     */
    method PlaceFirst(ghost inOrder: bool)
      requires fileProgress != [] && NoRepeats(fileProgress) && AllOpen(fileProgress[1..]) && fileProgress[0].Ready()
      requires inOrder ==>
                 && Loaded(fileProgress[1..], endVersion) && fileProgress[0].Valid(endVersion)
                 && (fileProgress[0].Empty() ==> fileProgress[0].Pending(endVersion) == [])
                 && if fileProgress[0].Pending(endVersion) == [] then InMergeOrder(Lists(fileProgress[1..], endVersion))
                    else InMergeOrderExcept(Lists(fileProgress, endVersion), 0)
      modifies this`fileProgress
      ensures Open() && multiset(fileProgress) <= old(multiset(fileProgress)) && Work(fileProgress) <= old(Work(fileProgress))
      ensures inOrder ==> Valid() && ToCome() == old(ToCome())
    {
      hide FileProgress.Valid, FileProgress.Pending, FileProgress.Ready, FileProgress.Empty, InMergeOrder, InMergeOrderExcept,
           Lists, Loaded, Union, AllOpen, Work, NoRepeats;
      ListsCons(fileProgress, endVersion);
      NoRepeatsCons(fileProgress);
      OpenCons(fileProgress, endVersion);
      assert fileProgress == [fileProgress[0]] + fileProgress[1..];
      if fileProgress[0].Empty() {
        if inOrder { UnionWithoutEmpty(Lists(fileProgress, endVersion)); }
        fileProgress := fileProgress[1..];
      } else {
        if inOrder { LoadedCons(fileProgress, endVersion); }
        KeepSorted(inOrder);
      }
    }

    method KeepSorted(ghost inOrder: bool)
      requires fileProgress != [] && Open()
      requires inOrder ==> Loaded(fileProgress, endVersion) && InMergeOrderExcept(Lists(fileProgress, endVersion), 0)
      modifies this`fileProgress
      ensures Open() && multiset(fileProgress) == old(multiset(fileProgress)) && Work(fileProgress) == old(Work(fileProgress))
      ensures inOrder ==> Valid() && ToCome() == old(ToCome())
    {
      hide NoRepeats, Loaded, Lists, Swapped, InMergeOrderExcept, InMergeOrder, Union, AllOpen, Work;
      var i := 1;
      while i < |fileProgress|
        invariant 1 <= i <= |fileProgress|
        invariant Open() && multiset(fileProgress) == old(multiset(fileProgress)) && Work(fileProgress) == old(Work(fileProgress))
        invariant inOrder ==>
                    && Loaded(fileProgress, endVersion) && ToCome() == old(ToCome())
                    && InMergeOrderExcept(Lists(fileProgress, endVersion), i - 1)
      {
        if inOrder { HeadsOfLists(fileProgress, endVersion); }
        if HeadAtMost(fileProgress[i - 1], fileProgress[i]) {
          break;
        }
        if inOrder {
          MoveUp(Lists(fileProgress, endVersion), i);
          UnionSwapped(Lists(fileProgress, endVersion), i);
          SwappedFiles(fileProgress, i, endVersion);
        }
        SwappedOpen(fileProgress, i);
        WorkSwapped(fileProgress, i);
        fileProgress := Swapped(fileProgress, i);
        i := i + 1;
      }
      if inOrder { InPlace(Lists(fileProgress, endVersion), i); }
    }

    /** Sorts the files by head and drops those without messages. */
    method SortAndRemoveEmpty()
      modifies this`fileProgress
      ensures multiset(fileProgress) <= old(multiset(fileProgress))
      ensures old(NoRepeats(fileProgress) && AllReady(fileProgress)) ==> Open()
      ensures old(NoRepeats(fileProgress) && Opened(fileProgress, endVersion)) ==> Valid() && ToCome() == old(ToCome())
    {
      hide Union, Lists, NoRepeats, Opened, HeadsSorted, InMergeOrder, Loaded, AllReady, AllOpen;
      var sorted := SortFiles(fileProgress);
      var kept := DropExhausted(sorted, endVersion);
      ReadySub(sorted, fileProgress);
      if NoRepeats(fileProgress) { NoRepeatsSub(kept, fileProgress); }
      if NoRepeats(fileProgress) && Opened(fileProgress, endVersion) {
        SortedFiles(fileProgress, sorted, endVersion);
      }
      fileProgress := kept;
    }

    /**
     * Opens all files and reads each up to the first message in the range; afterwards exactly
     * the messages of all files with a version in the range are to come.
     */
    method OpenLogFiles() returns (r: Result<()>)
      requires fileProgress == []
      modifies this
      ensures r.Ok? ==> Open()
      ensures AllWellFormed(files) ==>
                r.Ok? && Valid() && ToCome() == multiset(AllInRange(files, beginVersion, endVersion))
      ensures forall fp :: fp in fileProgress ==> fresh(fp)
    {
      hide AllInRange, AllWellFormed, Union, Lists, Opened, NoRepeats, InMergeOrder, Loaded, AllReady, AllOpen;
      fileProgress, r := OpenEach(files, beginVersion, endVersion);
      if r.Ok? {
        ghost var all := fileProgress;
        SortAndRemoveEmpty();
        forall fp | fp in fileProgress ensures fp in all { assert fp in multiset(fileProgress); }
      }
    }
  }
}
