/** The converter: merges partitioned logs into one file of per-version batches. */
module LogConversion {

  import opened ByteStrings
  import opened Readers
  import opened Sorting
  import opened LogFiles
  import opened PartitionedLog
  import opened LogMerge
  import opened BackupFiles
  import opened MutationLogFormat
  import opened MutationBatches
  import opened LogFileWriters

  // ---------- Batches ----------

  /** Consecutive messages of one version. */
  datatype Batch = Batch(version: int, messages: seq<Message>)

  function AddToBatches(batches: seq<Batch>, m: Message): seq<Batch> {
    if batches != [] && batches[|batches| - 1].version == m.version then
      var last := |batches| - 1;
      batches[..last] + [Batch(m.version, batches[last].messages + [m])]
    else
      batches + [Batch(m.version, [m])]
  }

  function Batches(stream: seq<Message>): seq<Batch> {
    if stream == [] then [] else AddToBatches(Batches(stream[..|stream| - 1]), stream[|stream| - 1])
  }

  /** The messages of one version. */
  function OfVersion(ms: seq<Message>, v: int): seq<Message> {
    InRange(ms, v, v + 1)
  }

  /** The versions of the batches increase. */
  ghost predicate Increasing(batches: seq<Batch>) {
    forall i, j :: 0 <= i < j < |batches| ==> batches[i].version < batches[j].version
  }

  /** The batches hold, by version, exactly the messages of the stream. */
  ghost predicate BatchesOf(batches: seq<Batch>, stream: seq<Message>) {
    && Increasing(batches)
    && (forall i :: 0 <= i < |batches| ==>
          batches[i].messages == OfVersion(stream, batches[i].version) && batches[i].messages != [])
    && (forall m :: m in stream ==> exists i :: 0 <= i < |batches| && batches[i].version == m.version)
  }

  /** Grouping a sorted stream by runs of equal versions groups it by version. */
  lemma {:induction false} BatchesGroup(stream: seq<Message>)
    requires Sorted(stream)
    ensures BatchesOf(Batches(stream), stream)
  {
    hide BatchesOf, AddToBatches;
    if stream == [] {
      NoBatches();
    }
    if stream != [] {
      var last := |stream| - 1;
      var front, m := stream[..last], stream[last];
      assert stream == front + [m];
      SortedParts(front, [m]);
      BatchesGroup(front);
      BatchesGroupStep(front, m, Batches(front));
    }
  }

  lemma NoBatches()
    ensures BatchesOf([], [])
  {
  }

  lemma OfVersionSnoc(front: seq<Message>, m: Message, v: int)
    ensures OfVersion(front + [m], v) == if v == m.version then OfVersion(front, v) + [m] else OfVersion(front, v)
  {
    InRangeAppend(front, [m], v, v + 1);
    assert InRange([], v, v + 1) == [];
    assert InRange([m], v, v + 1) == if v == m.version then [m] else [];
    assert OfVersion(front, v) + [] == OfVersion(front, v);
  }

  lemma BatchesGroupStep(front: seq<Message>, m: Message, batches: seq<Batch>)
    requires BatchesOf(batches, front)
    requires forall x :: x in front ==> MessageAtMost(x, m)
    ensures BatchesOf(AddToBatches(batches, m), front + [m])
  {
    hide InRange, OfVersion;
    var more := AddToBatches(batches, m);
    forall i | 0 <= i < |batches| ensures batches[i].version <= m.version {
      BatchVersionInStream(batches, front, i);
    }
    forall i | 0 <= i < |more|
      ensures more[i].messages == OfVersion(front + [m], more[i].version) && more[i].messages != []
    {
      OfVersionSnoc(front, m, more[i].version);
      if i == |batches| { NoneOfVersion(batches, front, m); }
    }
    forall x | x in front + [m] ensures exists i :: 0 <= i < |more| && more[i].version == x.version {
      if x in front {
        var i :| 0 <= i < |batches| && batches[i].version == x.version;
        assert more[i].version == x.version;
      } else {
        assert more[|more| - 1].version == x.version;
      }
    }
  }

  lemma BatchVersionInStream(batches: seq<Batch>, stream: seq<Message>, i: nat)
    requires BatchesOf(batches, stream) && i < |batches|
    ensures exists m :: m in stream && m.version == batches[i].version
  {
    InRangeMembers(stream, batches[i].version, batches[i].version + 1);
    assert batches[i].messages[0] in stream;
  }

  /** A version larger than that of the last batch is new. */
  lemma NoneOfVersion(batches: seq<Batch>, front: seq<Message>, m: Message)
    requires BatchesOf(batches, front)
    requires batches == [] || batches[|batches| - 1].version != m.version
    requires forall i :: 0 <= i < |batches| ==> batches[i].version <= m.version
    ensures OfVersion(front, m.version) == []
  {
    forall x | x in front ensures x.version != m.version {
      var i :| 0 <= i < |batches| && batches[i].version == x.version;
      var last := |batches| - 1;
      assert batches[i].version <= batches[last].version;
    }
    InRangeNothing(front, m.version, m.version + 1);
  }

  // ---------- What is written ----------

  /** The mutations of a batch, deserialized. */
  function Mutations(decode: Bytes -> Mutation, ms: seq<Message>): (r: seq<Mutation>)
    ensures |r| == |ms|
  {
    if ms == [] then [] else Mutations(decode, ms[..|ms| - 1]) + [decode(ms[|ms| - 1].payload)]
  }

  lemma MutationsSnoc(decode: Bytes -> Mutation, ms: seq<Message>, m: Message)
    ensures Mutations(decode, ms + [m]) == Mutations(decode, ms) + [decode(m.payload)]
    ensures Mutations(decode, [m]) == [decode(m.payload)]
  {
    assert (ms + [m])[..|ms|] == ms;
    assert [m][..0] == [];
  }

  function BatchValue(f: Format, decode: Bytes -> Mutation, b: Batch): Bytes {
    Serialize(f, Mutations(decode, b.messages))
  }

  /** A batch can be written: its length is a 32-bit integer, and its first part fits into a block. */
  predicate Writable(f: Format, decode: Bytes -> Mutation, blockSize: nat, b: Batch) {
    && |BatchValue(f, decode, b)| < PARTS_LIMIT
    && RECORD_OVERHEAD + PartLength(f, BatchValue(f, decode, b)) <= blockSize
  }

  ghost predicate AllWritable(f: Format, decode: Bytes -> Mutation, blockSize: nat, batches: seq<Batch>) {
    forall i :: 0 <= i < |batches| ==> Writable(f, decode, blockSize, batches[i])
  }

  /** The records of all batches, in order. */
  ghost function Records(f: Format, decode: Bytes -> Mutation, batches: seq<Batch>): seq<KeyValue>
    requires ValidFormat(f)
  {
    if batches == [] then [] else
      var b := batches[|batches| - 1];
      Records(f, decode, batches[..|batches| - 1]) + Parts(f, b.version, 0, BatchValue(f, decode, b))
  }

  /** Writes one batch, unless its length overflows. */
  method WriteBatch(writer: LogFileWriter, f: Format, version: int, list: seq<Mutation>,
                    ghost decode: Bytes -> Mutation, ghost b: Batch, ghost batches: seq<Batch>)
    returns (r: Result<()>)
    requires writer.Valid() && ValidFormat(f) && b.version == version && list == Mutations(decode, b.messages)
    requires writer.Written() == Records(f, decode, batches)
    modifies writer, writer.file
    ensures r.Ok? <==> Writable(f, decode, writer.blockSize, b)
    ensures r.Ok? ==> writer.Valid() && writer.Written() == Records(f, decode, batches + [b])
  {
    hide Serialize, LogFileWriter.Valid, Parts, Flatten;
    assert (batches + [b])[..|batches|] == batches;
    if |Serialize(f, list)| >= PARTS_LIMIT {
      return Err(SizeOverflow);
    }
    r := writer.AddMutation(f, version, list);
  }

  // ---------- Conversion ----------

  /** Delivered messages, and messages to come that are none of them smaller. */
  ghost predicate Delivered(stream: seq<Message>, toCome: multiset<Message>, all: multiset<Message>) {
    && Sorted(stream)
    && multiset(stream) + toCome == all
    && forall x, y :: x in stream && y in toCome ==> MessageAtMost(x, y)
  }

  lemma DeliverNext(stream: seq<Message>, before: multiset<Message>, after: multiset<Message>, all: multiset<Message>, m: Message)
    requires Delivered(stream, before, all)
    requires before == after + multiset{m} && forall y :: y in before ==> MessageAtMost(m, y)
    ensures Delivered(stream + [m], after, all)
  {
    forall i | 0 <= i < |stream| ensures MessageAtMost(stream[i], m) {
      assert stream[i] in stream && m in before;
    }
  }

  /** The finished batches and the one being collected. */
  ghost function Collected(done: seq<Batch>, version: int, current: seq<Message>): seq<Batch> {
    if current == [] then done else done + [Batch(version, current)]
  }

  lemma CollectNext(stream: seq<Message>, done: seq<Batch>, version: int, current: seq<Message>, m: Message)
    requires Batches(stream) == Collected(done, version, current) && (current == [] ==> stream == [])
    ensures if current != [] && version == m.version
            then Batches(stream + [m]) == Collected(done, version, current + [m])
            else Batches(stream + [m]) == Collected(Collected(done, version, current), m.version, [m])
  {
    assert (stream + [m])[..|stream|] == stream;
    if current != [] {
      var all := done + [Batch(version, current)];
      assert all[..|done|] == done && all[|done|] == Batch(version, current);
    }
  }

  /** The batch holds all messages of its version, of which there is one. */
  ghost predicate WholeVersion(b: Batch, all: multiset<Message>) {
    b.messages != [] && forall x :: multiset(b.messages)[x] == if x.version == b.version then all[x] else 0
  }

  /** There is a version whose messages, as a batch, cannot be written. */
  ghost predicate CannotWrite(f: Format, decode: Bytes -> Mutation, blockSize: nat, all: multiset<Message>) {
    exists b: Batch :: WholeVersion(b, all) && !Writable(f, decode, blockSize, b)
  }

  /** The length of messages as serialized mutations. */
  function EncodedLength(decode: Bytes -> Mutation, ms: seq<Message>): nat {
    |EncodeMutations(Mutations(decode, ms))|
  }

  lemma {:induction false} EncodedLengthAppend(decode: Bytes -> Mutation, a: seq<Message>, b: seq<Message>)
    ensures EncodedLength(decode, a + b) == EncodedLength(decode, a) + EncodedLength(decode, b)
  {
    if b == [] {
      assert a + b == a;
    } else {
      var last := |b| - 1;
      EncodedLengthAppend(decode, a, b[..last]);
      assert a + b == (a + b[..last]) + [b[last]] && b == b[..last] + [b[last]];
      EncodedLengthSnoc(decode, a + b[..last], b[last]);
      EncodedLengthSnoc(decode, b[..last], b[last]);
    }
  }

  lemma EncodedLengthSnoc(decode: Bytes -> Mutation, ms: seq<Message>, m: Message)
    ensures EncodedLength(decode, ms + [m]) == EncodedLength(decode, ms) + |EncodeMutation(decode(m.payload))|
  {
    MutationsSnoc(decode, ms, m);
    var list := Mutations(decode, ms);
    assert (list + [decode(m.payload)])[..|list|] == list;
  }

  /** The length does not depend on the order of the messages. */
  lemma {:induction false} EncodedLengthPermuted(decode: Bytes -> Mutation, a: seq<Message>, b: seq<Message>)
    requires multiset(a) == multiset(b)
    ensures EncodedLength(decode, a) == EncodedLength(decode, b)
    decreases |a|
  {
    hide EncodedLength;
    if a == [] {
      assert |multiset(b)| == 0;
      assert b == [];
    } else {
      assert a[0] in multiset(b);
      var k :| 0 <= k < |b| && b[k] == a[0];
      SameWithout(a, b, k);
      EncodedLengthWithout(decode, a, 0);
      EncodedLengthWithout(decode, b, k);
      EncodedLengthPermuted(decode, a[..0] + a[1..], b[..k] + b[k + 1..]);
    }
  }

  lemma EncodedLengthWithout(decode: Bytes -> Mutation, s: seq<Message>, k: nat)
    requires k < |s|
    ensures EncodedLength(decode, s) == EncodedLength(decode, [s[k]]) + EncodedLength(decode, s[..k] + s[k + 1..])
  {
    hide EncodedLength;
    EncodedLengthAppend(decode, s[..k], s[k..]);
    EncodedLengthAppend(decode, [s[k]], s[k + 1..]);
    EncodedLengthAppend(decode, s[..k], s[k + 1..]);
    assert s == s[..k] + s[k..] && s[k..] == [s[k]] + s[k + 1..];
  }

  /** If all batches of a stream can be written, then so can the messages of each version in any order. */
  lemma AllCanBeWritten(f: Format, decode: Bytes -> Mutation, blockSize: nat, stream: seq<Message>)
    requires Sorted(stream) && AllWritable(f, decode, blockSize, Batches(stream))
    ensures !CannotWrite(f, decode, blockSize, multiset(stream))
  {
    hide Sorted, Batches, InRange, Writable;
    BatchesGroup(stream);
    forall b: Batch | WholeVersion(b, multiset(stream)) ensures Writable(f, decode, blockSize, b) {
      var m := b.messages[0];
      assert m in multiset(b.messages);
      assert m in multiset(stream) && m.version == b.version;
      var i :| 0 <= i < |Batches(stream)| && Batches(stream)[i].version == b.version;
      SameWritable(f, decode, blockSize, stream, Batches(stream)[i], b);
    }
  }

  lemma SameWritable(f: Format, decode: Bytes -> Mutation, blockSize: nat, stream: seq<Message>, a: Batch, b: Batch)
    requires a.version == b.version && a.messages == OfVersion(stream, a.version) && WholeVersion(b, multiset(stream))
    ensures Writable(f, decode, blockSize, a) <==> Writable(f, decode, blockSize, b)
  {
    hide InRange, Serialize, Mutations, EncodeMutations;
    forall x: Message ensures multiset(a.messages)[x] == multiset(b.messages)[x] {
      InRangeMultiset(stream, b.version, b.version + 1, x);
    }
    EncodedLengthPermuted(decode, a.messages, b.messages);
  }

  /** The state of the grouping loop: `stream` was delivered, `done` written and `current` is being collected. */
  ghost predicate Grouping(stream: seq<Message>, done: seq<Batch>, version: int, current: seq<Message>) {
    Batches(stream) == Collected(done, version, current) && (current == [] ==> stream == [])
  }

  lemma GroupStep(stream: seq<Message>, done: seq<Batch>, version: int, current: seq<Message>, m: Message)
    requires Grouping(stream, done, version, current)
    ensures if current != [] && version == m.version then Grouping(stream + [m], done, version, current + [m])
            else Grouping(stream + [m], Collected(done, version, current), m.version, [m])
  {
    hide Batches;
    CollectNext(stream, done, version, current, m);
  }

  /** The same step when the files are in order: a batch that is finished is whole. */
  lemma DeliverStep(stream: seq<Message>, done: seq<Batch>, version: int, current: seq<Message>,
                    before: multiset<Message>, after: multiset<Message>, all: multiset<Message>, m: Message)
    requires Delivered(stream, before, all) && Grouping(stream, done, version, current)
    requires before == after + multiset{m} && forall y :: y in before ==> MessageAtMost(m, y)
    ensures Delivered(stream + [m], after, all)
    ensures current != [] && version != m.version ==> WholeVersion(Batch(version, current), all)
  {
    hide Sorted, Grouping, MessageAtMost, WholeVersion;
    if current != [] && version != m.version {
      NoneToCome(stream, done, version, current, before, all, m);
      CollectedWhole(stream, done, version, current, before, all);
    }
    DeliverNext(stream, before, after, all, m);
  }

  lemma StartGrouping(f: Format, decode: Bytes -> Mutation, all: multiset<Message>)
    requires ValidFormat(f)
    ensures Grouping([], [], -1, []) && Delivered([], all, all) && Records(f, decode, []) == []
  {
  }

  /** When no message of its version is to come, the batch being collected holds all of them. */
  lemma CollectedWhole(stream: seq<Message>, done: seq<Batch>, version: int, current: seq<Message>,
                       toCome: multiset<Message>, all: multiset<Message>)
    requires Delivered(stream, toCome, all) && Grouping(stream, done, version, current) && current != []
    requires forall y :: y in toCome ==> y.version != version
    ensures WholeVersion(Batch(version, current), all)
  {
    hide Sorted, Batches, InRange, MessageAtMost;
    BatchesGroup(stream);
    assert Batches(stream)[|done|] == Batch(version, current);
    assert current == InRange(stream, version, version + 1);
    forall x ensures multiset(current)[x] == if x.version == version then all[x] else 0 {
      InRangeMultiset(stream, version, version + 1, x);
      assert x.version == version ==> x !in toCome;
    }
  }

  /** After a message of another version none of the version collected is to come. */
  lemma NoneToCome(stream: seq<Message>, done: seq<Batch>, version: int, current: seq<Message>,
                   toCome: multiset<Message>, all: multiset<Message>, m: Message)
    requires Delivered(stream, toCome, all) && Grouping(stream, done, version, current) && current != [] && m.version != version
    requires m in toCome && forall y :: y in toCome ==> MessageAtMost(m, y)
    ensures forall y :: y in toCome ==> y.version != version
  {
    hide Batches;
    BatchesGroup(stream);
    assert Batches(stream)[|done|] == Batch(version, current);
    InRangeMembers(stream, version, version + 1);
    assert current[0] in stream && current[0].version == version;
    assert MessageAtMost(current[0], m);
  }

  /** Adds one message to the batch being collected; a message of another version first writes that batch out. */
  method Collect(writer: LogFileWriter, f: Format, decode: Bytes -> Mutation, version: int, list: seq<Mutation>, m: Message,
                 ghost done: seq<Batch>, ghost current: seq<Message>)
    returns (r: Result<()>, list': seq<Mutation>, version': int, ghost done': seq<Batch>, ghost current': seq<Message>)
    requires writer.Valid() && ValidFormat(f)
    requires writer.Written() == Records(f, decode, done)
    requires list == Mutations(decode, current)
    requires AllWritable(f, decode, writer.blockSize, done)
    modifies writer, writer.file
    ensures list' == Mutations(decode, current') && version' == m.version
    ensures if current != [] && version == m.version then done' == done && current' == current + [m]
            else done' == Collected(done, version, current) && current' == [m]
    ensures r.Ok? ==>
              && writer.Valid() && writer.Written() == Records(f, decode, done')
              && AllWritable(f, decode, writer.blockSize, done')
    ensures r.Err? ==> current != [] && version != m.version && !Writable(f, decode, writer.blockSize, Batch(version, current))
  {
    hide LogFileWriter.Valid, LogFileWriter.Written, Records, Writable, ValidFormat, Mutations;
    MutationsSnoc(decode, current, m);
    assert [] + [m] == [m] && [] + [decode(m.payload)] == [decode(m.payload)];
    r, list', done', current' := Ok(()), list, done, current;
    if list != [] && version != m.version {
      r := WriteBatch(writer, f, version, list, decode, Batch(version, current), done);
      done' := done + [Batch(version, current)];
      list', current' := [], [];
    }
    list' := list' + [decode(m.payload)];
    current' := current' + [m];
    version' := m.version;
  }

  /**
   * Takes the messages, collects them by version and writes every batch.  This ends whatever the files hold; if they
   * are in order, then all messages to come are delivered in order, and it fails exactly if some version cannot be written.
   */
  method WriteBatches(progress: MutationFilesReadProgress, writer: LogFileWriter, f: Format, decode: Bytes -> Mutation)
    returns (r: Result<()>, ghost stream: seq<Message>)
    requires progress.Open()
    requires writer.Valid() && writer.Written() == [] && ValidFormat(f)
    modifies progress, progress.Files(), writer, writer.file
    ensures r.Ok? ==>
              && writer.Valid() && writer.Written() == Records(f, decode, Batches(stream))
              && AllWritable(f, decode, writer.blockSize, Batches(stream))
    ensures old(progress.Valid()) ==>
              && (r.Ok? ==> Sorted(stream) && multiset(stream) == old(progress.ToCome()))
              && (r.Err? <==> CannotWrite(f, decode, writer.blockSize, old(progress.ToCome())))
  {
    hide LogFileWriter.Valid, LogFileWriter.Written, MutationFilesReadProgress.Valid, MutationFilesReadProgress.ToCome,
         MutationFilesReadProgress.Open, MutationFilesReadProgress.Files, Work, Sorted, Batches, Records, Writable, Grouping,
         Delivered, ValidFormat, MessageAtMost, Mutations, WholeVersion;
    ghost var inOrder, all := progress.Valid(), progress.ToCome();
    stream := [];
    ghost var done: seq<Batch>, current: seq<Message> := [], [];
    var list: seq<Mutation>, version := [], -1;
    StartGrouping(f, decode, all);
    var more := progress.HasMutations();
    while more
      invariant progress.Open() && progress.Files() <= old(progress.Files()) && (more <==> progress.fileProgress != [])
      invariant inOrder ==>
                  && progress.Valid() && (more <==> progress.ToCome() != multiset{})
                  && Delivered(stream, progress.ToCome(), all)
      invariant Grouping(stream, done, version, current)
      invariant list == Mutations(decode, current)
      invariant writer.Valid() && writer.Written() == Records(f, decode, done)
      invariant AllWritable(f, decode, writer.blockSize, done)
      decreases Work(progress.fileProgress)
    {
      ghost var before := progress.ToCome();
      var data := progress.GetNextMutation();
      if data.Err? {
        return Err(data.error), stream;
      }
      var m := data.value;
      GroupStep(stream, done, version, current, m);
      if inOrder { DeliverStep(stream, done, version, current, before, progress.ToCome(), all, m); }
      var taken;
      taken, list, version, done, current := Collect(writer, f, decode, version, list, m, done, current);
      if taken.Err? {
        return taken, stream;
      }
      stream := stream + [m];
      more := progress.HasMutations();
    }
    r := WriteLast(writer, f, decode, version, list, done, current, stream);
    if inOrder { AfterLast(f, decode, writer.blockSize, stream, done, version, current, all, r.Ok?); }
  }

  /** Writes the batch that was being collected. */
  method WriteLast(writer: LogFileWriter, f: Format, decode: Bytes -> Mutation, version: int, list: seq<Mutation>,
                   ghost done: seq<Batch>, ghost current: seq<Message>, ghost stream: seq<Message>)
    returns (r: Result<()>)
    requires Grouping(stream, done, version, current) && list == Mutations(decode, current)
    requires ValidFormat(f) && writer.Valid() && writer.Written() == Records(f, decode, done)
    requires AllWritable(f, decode, writer.blockSize, done)
    modifies writer, writer.file
    ensures r.Ok? <==> AllWritable(f, decode, writer.blockSize, Batches(stream))
    ensures r.Ok? ==> writer.Valid() && writer.Written() == Records(f, decode, Batches(stream))
    ensures r.Err? ==> current != [] && !Writable(f, decode, writer.blockSize, Batch(version, current))
  {
    hide LogFileWriter.Valid, LogFileWriter.Written, Batches, Records, Writable, ValidFormat;
    r := Ok(());
    if list != [] {
      r := WriteBatch(writer, f, version, list, decode, Batch(version, current), done);
      assert Batches(stream)[|done|] == Batch(version, current);
    }
  }

  /** What the end of the loop means when the files are in order. */
  lemma AfterLast(f: Format, decode: Bytes -> Mutation, blockSize: nat, stream: seq<Message>, done: seq<Batch>,
                  version: int, current: seq<Message>, all: multiset<Message>, ok: bool)
    requires Delivered(stream, multiset{}, all) && Grouping(stream, done, version, current)
    requires ok ==> AllWritable(f, decode, blockSize, Batches(stream))
    requires !ok ==> current != [] && !Writable(f, decode, blockSize, Batch(version, current))
    ensures Sorted(stream) && multiset(stream) == all
    ensures !ok <==> CannotWrite(f, decode, blockSize, all)
  {
    hide Sorted, Grouping, Writable, WholeVersion, AllWritable;
    if ok {
      AllCanBeWritten(f, decode, blockSize, stream);
    } else {
      CollectedWhole(stream, done, version, current, multiset{}, all);
    }
  }

  lemma {:induction false} AllInRangeVersions(files: seq<LogFile>, begin: int, end: int)
    requires AllWellFormed(files)
    ensures forall m :: m in AllInRange(files, begin, end) ==> IsVersion(m.version) && begin <= m.version < end
  {
    hide InRange, FileMessages;
    if files != [] {
      var last := |files| - 1;
      assert WellFormed(files[last]);
      AllInRangeVersions(files[..last], begin, end);
      FileVersions(files[last], 0);
      InRangeMembers(FileMessages(files[last], 0).value, begin, end);
    }
  }

  /** The files that matter for the range decode and are in order. */
  ghost predicate Readable(files: seq<LogFile>, begin: int, end: int) {
    forall f :: f in files && Overlaps(f, begin, end) ==> WellFormed(f)
  }

  method SelectLogs(files: seq<LogFile>, begin: int, end: int) returns (logs: seq<LogFile>)
    ensures multiset(logs) <= multiset(files)
    ensures forall g, v :: g in files && begin <= v <= end && Logs(g, v) ==> Covered(g, logs)
    ensures Readable(files, begin, end) ==> AllWellFormed(logs)
  {
    hide WellFormed, Overlaps, Covered, Logs;
    logs := GetRelevantLogFiles(files, begin, end);
    if Readable(files, begin, end) {
      forall i | 0 <= i < |logs| ensures WellFormed(logs[i]) { assert logs[i] in multiset(logs); }
    }
  }

  /** What a conversion of files in order delivers and when it fails. */
  ghost predicate Converts(logs: seq<LogFile>, begin: int, end: int, f: Format, blockSize: nat, decode: Bytes -> Mutation,
                           ok: bool, stream: seq<Message>)
  {
    && AllWellFormed(logs)
    && (ok ==> Sorted(stream) && multiset(stream) == multiset(AllInRange(logs, begin, end)))
    && (!ok <==> CannotWrite(f, decode, blockSize, multiset(AllInRange(logs, begin, end))))
  }

  /**
   * The conversion.  Out of the files listed, `logs` are read; `stream` is the order in which their messages are
   * delivered.  It ends whatever the files hold.  If it succeeds, the output is the packed file of the batches of the stream,
   * whatever order the `writes` of the output file reach the disk in.  If the files decode and are in order, the stream has all
   * messages of the range in order, and the conversion fails exactly if some version cannot be written.
   */
  method Convert(files: seq<LogFile>, begin: int, end: int, f: Format, blockSize: nat, writeBlock: nat,
                 decode: Bytes -> Mutation)
    returns (logs: seq<LogFile>, r: Result<Bytes>, writes: seq<Write>, ghost stream: seq<Message>)
    requires ValidFormat(f)
    ensures multiset(logs) <= multiset(files)
    ensures forall g, v :: g in files && begin <= v <= end && Logs(g, v) ==> Covered(g, logs)
    ensures r.Ok? ==>
              && DecodeBlocks(r.value, blockSize) == Ok(Records(f, decode, Batches(stream)))
              && AllWritable(f, decode, blockSize, Batches(stream))
              && PackedFile(r.value, Records(f, decode, Batches(stream)), blockSize)
              && Leaves(writes, r.value)
    ensures Readable(files, begin, end) ==> Converts(logs, begin, end, f, blockSize, decode, r.Ok?, stream)
  {
    hide AllWellFormed, AllInRange, Sorted, Batches, Records, ValidFormat, AllWritable, CannotWrite, DecodeBlocks,
         MutationFilesReadProgress.Valid, MutationFilesReadProgress.ToCome, MutationFilesReadProgress.Open,
         LogFileWriter.Valid, BackupFile.Valid, LogFileWriter.Written, PackedFile, Overlaps, Covered, Logs, Readable, Leaves;
    stream, writes := [], [];
    logs := SelectLogs(files, begin, end);
    var progress := new MutationFilesReadProgress(logs, begin, end);
    var loaded := progress.OpenLogFiles();
    if loaded.Err? {
      r := Err(loaded.error);
      return;
    }
    var file := new BackupFile(writeBlock);
    var writer := new LogFileWriter(file, blockSize);
    r, writes, stream := ConvertOpened(progress, writer, f, decode);
  }

  method ConvertOpened(progress: MutationFilesReadProgress, writer: LogFileWriter, f: Format, decode: Bytes -> Mutation)
    returns (r: Result<Bytes>, writes: seq<Write>, ghost stream: seq<Message>)
    requires progress.Open()
    requires writer.Valid() && writer.Written() == [] && ValidFormat(f)
    modifies progress, progress.Files(), writer, writer.file
    ensures r.Ok? ==>
              && DecodeBlocks(r.value, writer.blockSize) == Ok(Records(f, decode, Batches(stream)))
              && AllWritable(f, decode, writer.blockSize, Batches(stream))
              && PackedFile(r.value, Records(f, decode, Batches(stream)), writer.blockSize)
              && Leaves(writes, r.value)
    ensures old(progress.Valid()) ==>
              && (r.Ok? ==> Sorted(stream) && multiset(stream) == old(progress.ToCome()))
              && (r.Err? <==> CannotWrite(f, decode, writer.blockSize, old(progress.ToCome())))
  {
    hide MutationFilesReadProgress.Valid, MutationFilesReadProgress.ToCome, MutationFilesReadProgress.Open, Sorted, Batches, Records,
         ValidFormat, AllWritable, CannotWrite, DecodeBlocks, Blocks, Packed, Render, Flatten, BackupFile.Valid, Leaves;
    var result: Result<()>;
    result, stream := WriteBatches(progress, writer, f, decode);
    if result.Err? {
      return Err(result.error), [], stream;
    }
    writer.file.Finish();
    DecodeBlocksBack(writer.groups, writer.blockSize);
    writes := writer.file.writes;
    r := Ok(Concat(writes));
  }
}
