/** Converting a backup's logs and decoding the output gives back every version's mutations. */
module EndToEnd {

  import opened ByteStrings
  import opened Readers
  import opened LogFiles
  import opened PartitionedLog
  import opened LogMerge
  import opened BackupFiles
  import opened MutationLogFormat
  import opened MutationBatches
  import opened LogConversion
  import opened LogDecoder

  /** The mutations of each batch, by version. */
  ghost function ByBatch(decode: Bytes -> Mutation, batches: seq<Batch>): map<int, seq<Mutation>> {
    if batches == [] then map[] else
      var b := batches[|batches| - 1];
      ByBatch(decode, batches[..|batches| - 1])[b.version := Mutations(decode, b.messages)]
  }

  lemma {:induction false} ByBatchEntries(decode: Bytes -> Mutation, batches: seq<Batch>)
    requires Increasing(batches)
    ensures forall i :: 0 <= i < |batches| ==>
              && batches[i].version in ByBatch(decode, batches)
              && ByBatch(decode, batches)[batches[i].version] == Mutations(decode, batches[i].messages)
    ensures forall v :: v in ByBatch(decode, batches) ==> exists i :: 0 <= i < |batches| && batches[i].version == v
  {
    hide Mutations;
    forall v | v in ByBatch(decode, batches) ensures exists i :: 0 <= i < |batches| && batches[i].version == v {
      var i := BatchOfVersion(decode, batches, v);
    }
    if batches != [] {
      var last := |batches| - 1;
      ByBatchEntries(decode, batches[..last]);
      forall i | 0 <= i < last ensures batches[i] == batches[..last][i] && batches[i].version != batches[last].version {
      }
    }
  }

  lemma {:induction false} BatchOfVersion(decode: Bytes -> Mutation, batches: seq<Batch>, v: int) returns (i: nat)
    requires v in ByBatch(decode, batches)
    ensures i < |batches| && batches[i].version == v
  {
    i := |batches| - 1;
    if v != batches[i].version {
      i := BatchOfVersion(decode, batches[..i], v);
    }
  }

  /** What one batch looks like after its parts were accumulated. */
  lemma BatchComplete(f: Format, decode: Bytes -> Mutation, blockSize: nat, b: Batch, last: nat)
    requires ValidFormat(f) && Writable(f, decode, blockSize, b)
    ensures var a := Accumulated(last, BatchValue(f, decode, b));
            IsComplete(a) == Ok(true) && DecodeValue(a.serialized) == Ok(Mutations(decode, b.messages))
  {
    hide Serialize, DecodeValue, DeclaredLength;
    DecodeValueBack(f, Mutations(decode, b.messages));
  }

  /** The records of the batches, accumulated, are complete batches with the mutations written. */
  lemma {:induction false} AccumulateBatches(f: Format, decode: Bytes -> Mutation, blockSize: nat, batches: seq<Batch>)
    requires ValidFormat(f) && Increasing(batches) && AllWritable(f, decode, blockSize, batches)
    requires forall i :: 0 <= i < |batches| ==> IsVersion(batches[i].version)
    ensures AddRecords(f, map[], Records(f, decode, batches)).Ok?
    ensures Complete(AddRecords(f, map[], Records(f, decode, batches)).value, ByBatch(decode, batches))
  {
    hide IsComplete, DecodeValue, ValidFormat, Writable, AddRecords, Parts, Mutations, BatchValue;
    FormatPositive(f);
    if batches == [] {
      NothingAdded(f);
    } else {
      var last := |batches| - 1;
      var front, b := batches[..last], batches[last];
      AccumulateBatches(f, decode, blockSize, front);
      ByBatchEntries(decode, front);
      var m := AddRecords(f, map[], Records(f, decode, front)).value;
      assert b.version !in m;
      AddBatch(f, decode, blockSize, m, b, Records(f, decode, front), ByBatch(decode, front));
    }
  }

  lemma NothingAdded(f: Format)
    requires f.hashRange > 0
    ensures AddRecords(f, map[], []) == Ok(map[])
  {
  }

  /** Adding the parts of one more batch adds one complete entry. */
  lemma AddBatch(f: Format, decode: Bytes -> Mutation, blockSize: nat, m: map<int, Accumulated>, b: Batch,
                 before: seq<KeyValue>, expected: map<int, seq<Mutation>>)
    requires ValidFormat(f) && Writable(f, decode, blockSize, b) && IsVersion(b.version)
    requires AddRecords(f, map[], before) == Ok(m) && Complete(m, expected) && b.version !in m
    ensures var r := AddRecords(f, map[], before + Parts(f, b.version, 0, BatchValue(f, decode, b)));
            r.Ok? && Complete(r.value, expected[b.version := Mutations(decode, b.messages)])
  {
    hide IsComplete, DecodeValue, AddRecords, Parts, Mutations, Serialize;
    var value := BatchValue(f, decode, b);
    AddRecordsAppend(f, map[], before, Parts(f, b.version, 0, value));
    var last := AddPartsBack(f, m, b.version, 0, [], value);
    assert [] + value == value;
    BatchComplete(f, decode, blockSize, b, last);
  }

  // ---------- Files that end within a batch ----------

  /** Complete entries, and beside them at most one, of version `v`, that is not complete. */
  ghost predicate Beside(m: map<int, Accumulated>, more: map<int, Accumulated>, v: int) {
    && (forall u :: u in m ==> u in more && more[u] == m[u] && IsComplete(m[u]) == Ok(true) && u != v)
    && (forall u :: u in more && u != v ==> u in m)
    && (v in more ==> IsComplete(more[v]) != Ok(true))
  }

  lemma DeliveredBeside(m: map<int, Accumulated>, expected: map<int, seq<Mutation>>, more: map<int, Accumulated>, v: int,
                        out: seq<DecodedBatch>)
    requires Complete(m, expected) && Beside(m, more, v) && Delivers(out, more)
    ensures ListsBatches(out, expected) && (v in more ==> IsComplete(more[v]).Ok?)
  {
    hide IsComplete, DecodeValue;
    forall i | 0 <= i < |out| ensures out[i].version in m && expected[out[i].version] == out[i].mutations {
      assert BatchFrom(out[i], more);
    }
    forall u | u in expected ensures exists i :: 0 <= i < |out| && out[i].version == u { assert u in m; }
  }

  lemma LeftBeside(m: map<int, Accumulated>, more: map<int, Accumulated>, v: int, out: seq<DecodedBatch>,
                   left: map<int, Accumulated>)
    requires Beside(m, more, v) && Delivers(out, more) && Taking(out, more, left)
    ensures forall u :: u in left <==> u == v && v in more
  {
    hide IsComplete, DecodeValue;
  }

  /** An incomplete entry beside complete ones is left, and does not change what is delivered. */
  lemma IncompleteStays(m: map<int, Accumulated>, expected: map<int, seq<Mutation>>, more: map<int, Accumulated>, v: int,
                        out: seq<DecodedBatch>, left: map<int, Accumulated>)
    requires Complete(m, expected) && v !in m && more - {v} == m && (v in more ==> IsComplete(more[v]) != Ok(true))
    ensures forall u :: u in more && Malformed(more[u]) ==> u == v && IsComplete(more[v]).Err?
    ensures Delivers(out, more) && v in more ==> IsComplete(more[v]).Ok?
    ensures Delivers(out, more) && Taking(out, more, left) ==>
              ListsBatches(out, expected) && (forall u :: u in left <==> u == v && v in more)
  {
    hide IsComplete, DecodeValue, Delivers, Taking, ListsBatches;
    forall u | u in more && u != v ensures u in m && more[u] == m[u] { assert u in more - {v}; }
    forall u | u in m ensures u in more && more[u] == m[u] && u != v { assert u in more - {v}; }
    if Delivers(out, more) {
      DeliveredBeside(m, expected, more, v, out);
      if Taking(out, more, left) { LeftBeside(m, more, v, out, left); }
    }
  }

  /** A file with whole batches and then the first `n` parts of another one, but not all. */
  ghost predicate CutOff(f: Format, decode: Bytes -> Mutation, blockSize: nat, batches: seq<Batch>, b: Batch, n: nat,
                         kvs: seq<KeyValue>)
  {
    && ValidFormat(f)
    && Increasing(batches + [b]) && AllWritable(f, decode, blockSize, batches + [b])
    && (forall i :: 0 <= i < |batches + [b]| ==> IsVersion((batches + [b])[i].version))
    && n < |Parts(f, b.version, 0, BatchValue(f, decode, b))|
    && kvs == Records(f, decode, batches) + Parts(f, b.version, 0, BatchValue(f, decode, b))[..n]
  }

  /** The batch was cut off before the end of its header. */
  ghost predicate WithinHeader(f: Format, decode: Bytes -> Mutation, b: Batch, n: nat)
    requires ValidFormat(f) && n <= |Parts(f, b.version, 0, BatchValue(f, decode, b))|
  {
    n > 0 && |Values(Parts(f, b.version, 0, BatchValue(f, decode, b))[..n])| < VALUE_HEADER
  }

  lemma CutOffAccumulates(f: Format, decode: Bytes -> Mutation, blockSize: nat, batches: seq<Batch>, b: Batch, n: nat,
                          kvs: seq<KeyValue>)
    requires CutOff(f, decode, blockSize, batches, b, n, kvs)
    ensures var m := AddRecords(f, map[], Records(f, decode, batches));
            var more := AddRecords(f, map[], kvs);
            && m.Ok? && more.Ok? && Complete(m.value, ByBatch(decode, batches)) && b.version !in m.value
            && more.value - {b.version} == m.value && (b.version in more.value <==> n > 0)
            && (n > 0 ==> IsComplete(more.value[b.version]) != Ok(true))
            && (n > 0 ==> (IsComplete(more.value[b.version]).Err? <==> WithinHeader(f, decode, b, n)))
            && (f.partSize >= VALUE_HEADER ==> !WithinHeader(f, decode, b, n))
  {
    hide IsComplete, DecodeValue, ValidFormat, AddRecords, Parts, Mutations, Serialize, Records;
    FormatPositive(f);
    var all := batches + [b];
    assert forall i :: 0 <= i < |batches| ==> all[i] == batches[i];
    assert all[|batches|] == b && Writable(f, decode, blockSize, b);
    AccumulateBatches(f, decode, blockSize, batches);
    ByBatchEntries(decode, batches);
    var m := AddRecords(f, map[], Records(f, decode, batches)).value;
    assert b.version !in m;
    assert m - {b.version} == m;
    AddRecordsAppend(f, map[], Records(f, decode, batches), Parts(f, b.version, 0, BatchValue(f, decode, b))[..n]);
    CompleteIffWhole(f, m, b.version, Mutations(decode, b.messages), n);
  }

  /**
   * The decoder delivers the whole batches of such a file and keeps the one that was cut off.  It fails exactly if that
   * was cut off within its header, which takes parts shorter than a header.
   */
  method DecodeCutOff(contents: Bytes, blockSize: nat, f: Format, ghost decode: Bytes -> Mutation, ghost batches: seq<Batch>,
                      ghost b: Batch, ghost n: nat)
    returns (r: Result<seq<DecodedBatch>>, left: map<int, Accumulated>)
    requires DecodeBlocks(contents, blockSize).Ok?
    requires CutOff(f, decode, blockSize, batches, b, n, DecodeBlocks(contents, blockSize).value)
    ensures r.Err? <==> WithinHeader(f, decode, b, n)
    ensures r.Err? ==> f.partSize < VALUE_HEADER
    ensures r.Ok? ==> ListsBatches(r.value, ByBatch(decode, batches)) && forall v :: v in left <==> v == b.version && n > 0
  {
    hide DecodeBlocks, AddRecords, Records, Complete, ByBatch, ListsBatches, Malformed, Delivers, Taking, IsComplete, AllWritable, Parts,
         Values;
    CutOffAccumulates(f, decode, blockSize, batches, b, n, DecodeBlocks(contents, blockSize).value);
    var progress := new DecodeProgress(contents, blockSize);
    var decoded := progress.DecodeFile(f);
    if decoded.Err? {
      assert false;
    }
    ghost var more := progress.mutationBlocksByVersion;
    r := AllBatches(progress);
    left := progress.mutationBlocksByVersion;
    IncompleteStays(AddRecords(f, map[], Records(f, decode, batches)).value, ByBatch(decode, batches), more, b.version,
                    if r.Ok? then r.value else [], left);
  }

  // ---------- The round trip ----------

  /** The mutations of a decoded batch are those of all messages of its version, in order of `sub`. */
  ghost predicate BatchOf(b: DecodedBatch, decode: Bytes -> Mutation, all: seq<Message>) {
    exists ms :: ms != [] && multiset(ms) == multiset(OfVersion(all, b.version)) && DecodedInOrder(b.mutations, decode, ms)
  }

  /** The mutations are those of the messages, which are in order of `sub`. */
  ghost predicate DecodedInOrder(mutations: seq<Mutation>, decode: Bytes -> Mutation, ms: seq<Message>) {
    && |mutations| == |ms| && (forall i :: 0 <= i < |ms| ==> mutations[i] == decode(ms[i].payload))
    && forall i, j :: 0 <= i < j < |ms| ==> ms[i].sub <= ms[j].sub
  }

  lemma {:induction false} MutationAt(decode: Bytes -> Mutation, ms: seq<Message>, i: nat)
    requires i < |ms|
    ensures Mutations(decode, ms)[i] == decode(ms[i].payload)
  {
    if i < |ms| - 1 {
      MutationAt(decode, ms[..|ms| - 1], i);
    }
  }

  lemma VersionInOrder(decode: Bytes -> Mutation, stream: seq<Message>, v: int)
    requires Sorted(stream)
    ensures DecodedInOrder(Mutations(decode, OfVersion(stream, v)), decode, OfVersion(stream, v))
  {
    hide InRange, Mutations;
    var ms := OfVersion(stream, v);
    InRangeSorted(stream, v, v + 1);
    InRangeMembers(stream, v, v + 1);
    forall i | 0 <= i < |ms| ensures Mutations(decode, ms)[i] == decode(ms[i].payload) && ms[i].version == v {
      MutationAt(decode, ms, i);
      assert ms[i] in ms;
    }
  }

  /** One batch for every version among the messages, each with exactly the mutations of its version. */
  ghost predicate Reproduces(batches: seq<DecodedBatch>, decode: Bytes -> Mutation, all: seq<Message>) {
    && (forall i, j :: 0 <= i < j < |batches| ==> batches[i].version != batches[j].version)
    && (forall i :: 0 <= i < |batches| ==> BatchOf(batches[i], decode, all))
    && (forall m :: m in all ==> exists i :: 0 <= i < |batches| && batches[i].version == m.version)
  }

  /** Rearranging messages rearranges those of each version. */
  lemma OfVersionPermuted(a: seq<Message>, b: seq<Message>, v: int)
    requires multiset(a) == multiset(b)
    ensures multiset(OfVersion(a, v)) == multiset(OfVersion(b, v))
  {
    hide InRange;
    forall x: Message ensures multiset(OfVersion(a, v))[x] == multiset(OfVersion(b, v))[x] {
      InRangeMultiset(a, v, v + 1, x);
      InRangeMultiset(b, v, v + 1, x);
    }
  }

  lemma ReproducesStream(out: seq<DecodedBatch>, decode: Bytes -> Mutation, stream: seq<Message>, all: seq<Message>)
    requires Sorted(stream) && multiset(stream) == multiset(all)
    requires ListsBatches(out, ByBatch(decode, Batches(stream)))
    ensures Reproduces(out, decode, all)
  {
    hide InRange, Batches, Mutations, ByBatch, Sorted, DecodedInOrder;
    var batches := Batches(stream);
    BatchesGroup(stream);
    ByBatchEntries(decode, batches);
    forall i | 0 <= i < |out| ensures BatchOf(out[i], decode, all) {
      assert out[i].version in ByBatch(decode, batches);
      var k := BatchOfVersion(decode, batches, out[i].version);
      VersionInOrder(decode, stream, out[i].version);
      OfVersionPermuted(stream, all, out[i].version);
      assert batches[k].messages == OfVersion(stream, out[i].version);
    }
    forall m | m in all ensures exists i :: 0 <= i < |out| && out[i].version == m.version {
      assert m in multiset(stream);
      assert m in stream;
      var k :| 0 <= k < |batches| && batches[k].version == m.version;
      assert batches[k].version in ByBatch(decode, batches);
    }
  }

  lemma BatchVersionBounds(stream: seq<Message>)
    requires Sorted(stream) && forall m :: m in stream ==> IsVersion(m.version)
    ensures Increasing(Batches(stream))
    ensures forall i :: 0 <= i < |Batches(stream)| ==> IsVersion(Batches(stream)[i].version)
  {
    hide InRange, Batches, Sorted;
    BatchesGroup(stream);
    forall i | 0 <= i < |Batches(stream)| ensures IsVersion(Batches(stream)[i].version) {
      BatchVersionInStream(Batches(stream), stream, i);
    }
  }

  /** The output of the converter decodes completely, to one batch for each version of the stream. */
  lemma OutputDecodes(f: Format, decode: Bytes -> Mutation, blockSize: nat, output: Bytes, stream: seq<Message>, all: seq<Message>)
    requires ValidFormat(f) && Sorted(stream) && multiset(stream) == multiset(all)
    requires forall m :: m in all ==> IsVersion(m.version)
    requires AllWritable(f, decode, blockSize, Batches(stream))
    requires DecodeBlocks(output, blockSize) == Ok(Records(f, decode, Batches(stream)))
    ensures var kvs := DecodeBlocks(output, blockSize).value;
            && AddRecords(f, map[], kvs).Ok?
            && Complete(AddRecords(f, map[], kvs).value, ByBatch(decode, Batches(stream)))
  {
    hide Sorted, Batches, AllWritable, Records, DecodeBlocks, AddRecords, Complete, ByBatch;
    forall m | m in stream ensures IsVersion(m.version) { assert m in multiset(all); }
    BatchVersionBounds(stream);
    AccumulateBatches(f, decode, blockSize, Batches(stream));
  }

  /** What the decoder delivers, and when the conversion fails. */
  ghost predicate RoundTrips(logs: seq<LogFile>, begin: int, end: int, f: Format, blockSize: nat, decode: Bytes -> Mutation,
                             r: Result<seq<DecodedBatch>>)
  {
    && AllWellFormed(logs)
    && (r.Ok? ==> Reproduces(r.value, decode, AllInRange(logs, begin, end)))
    && (r.Err? <==> CannotWrite(f, decode, blockSize, multiset(AllInRange(logs, begin, end))))
  }

  // ---------- Messages of all files listed ----------

  ghost predicate Holds(g: LogFile, m: Message) {
    g.fileSize <= |g.contents| && FileMessages(g, 0).Ok? && m in FileMessages(g, 0).value
  }

  /** Files hold messages of their versions only, and a file that covers another one has its messages. */
  ghost predicate Redundant(files: seq<LogFile>) {
    && (forall g, m :: g in files && Holds(g, m) ==> HasVersion(g, m.version))
    && forall g, h, m :: g in files && h in files && Covers(h, g) && Holds(g, m) ==> Holds(h, m)
  }

  /** The mutation of the message is in the batch of its version. */
  ghost predicate ComesOut(batches: seq<DecodedBatch>, decode: Bytes -> Mutation, m: Message) {
    exists i :: 0 <= i < |batches| && batches[i].version == m.version && decode(m.payload) in batches[i].mutations
  }

  lemma BatchHas(b: DecodedBatch, decode: Bytes -> Mutation, all: seq<Message>, m: Message)
    requires BatchOf(b, decode, all) && m in all && m.version == b.version
    ensures decode(m.payload) in b.mutations
  {
    hide InRange;
    var of := OfVersion(all, m.version);
    InRangeMembers(all, m.version, m.version + 1);
    assert m in of;
    var ms :| multiset(ms) == multiset(of) && DecodedInOrder(b.mutations, decode, ms);
    assert m in multiset(of);
    assert m in ms;
    var k :| 0 <= k < |ms| && ms[k] == m;
    assert b.mutations[k] == decode(m.payload);
  }

  lemma MessageComesOut(out: seq<DecodedBatch>, decode: Bytes -> Mutation, all: seq<Message>, m: Message)
    requires Reproduces(out, decode, all) && m in all
    ensures ComesOut(out, decode, m)
  {
    hide BatchOf;
    var i :| 0 <= i < |out| && out[i].version == m.version;
    BatchHas(out[i], decode, all, m);
  }

  lemma {:induction false} InAllInRange(logs: seq<LogFile>, begin: int, end: int, k: nat, m: Message)
    requires AllWellFormed(logs) && k < |logs| && Holds(logs[k], m) && begin <= m.version < end
    ensures m in AllInRange(logs, begin, end)
  {
    hide InRange, FileMessages;
    var last := |logs| - 1;
    assert WellFormed(logs[last]);
    if k == last {
      InRangeMembers(FileMessages(logs[k], 0).value, begin, end);
    } else {
      InAllInRange(logs[..last], begin, end, k, m);
    }
  }

  lemma HoldsNotEmpty(g: LogFile, m: Message)
    requires Holds(g, m)
    ensures g.fileSize > 0
  {
  }

  /** No message of any listed file is lost by the choice of files. */
  lemma ListedComesOut(files: seq<LogFile>, logs: seq<LogFile>, begin: int, end: int, decode: Bytes -> Mutation,
                       out: seq<DecodedBatch>, g: LogFile, m: Message)
    requires AllWellFormed(logs) && Reproduces(out, decode, AllInRange(logs, begin, end)) && multiset(logs) <= multiset(files)
    requires forall f, v :: f in files && begin <= v <= end && Logs(f, v) ==> Covered(f, logs)
    requires Redundant(files) && g in files && g.tagId >= 0 && Holds(g, m) && begin <= m.version < end
    ensures ComesOut(out, decode, m)
  {
    hide Reproduces, AllInRange, AllWellFormed, Covers, Holds, ComesOut;
    HoldsNotEmpty(g, m);
    assert Logs(g, m.version);
    var k :| 0 <= k < |logs| && Covers(logs[k], g);
    assert logs[k] in multiset(logs);
    assert logs[k] in files;
    InAllInRange(logs, begin, end, k, m);
    MessageComesOut(out, decode, AllInRange(logs, begin, end), m);
  }

  /**
   * Converts the logs of a backup and decodes the output.  If the files decode and are in order, the decoder delivers
   * one batch for every version in [begin, end) that occurs in the logs read, in any order of versions, with exactly
   * the mutations of that version from all files in order of `sub`; and this fails exactly when some version has too
   * many bytes for a 32-bit length or a record too long for a block.  If files that cover others have their messages,
   * then the messages of all files listed come out, whichever were read.  It ends for all other files, too.
   */
  method ConvertAndDecode(files: seq<LogFile>, begin: int, end: int, f: Format, blockSize: nat, writeBlock: nat,
                          decode: Bytes -> Mutation)
    returns (logs: seq<LogFile>, r: Result<seq<DecodedBatch>>)
    requires ValidFormat(f)
    ensures multiset(logs) <= multiset(files)
    ensures forall g, v :: g in files && begin <= v <= end && Logs(g, v) ==> Covered(g, logs)
    ensures Readable(files, begin, end) ==> RoundTrips(logs, begin, end, f, blockSize, decode, r)
    ensures Readable(files, begin, end) && Redundant(files) && r.Ok? ==>
              forall g, m :: g in files && g.tagId >= 0 && Holds(g, m) && begin <= m.version < end ==> ComesOut(r.value, decode, m)
  {
    hide Redundant, Holds, ComesOut, Logs, Readable, Overlaps, Covered, AllWellFormed, AllInRange, Sorted, Batches, Records, AllWritable,
         DecodeBlocks, AddRecords, Complete, ByBatch, ListsBatches, CannotWrite, Reproduces, Malformed, Delivers;
    var output: Result<Bytes>;
    var writes: seq<Write>;
    ghost var stream: seq<Message>;
    logs, output, writes, stream := Convert(files, begin, end, f, blockSize, writeBlock, decode);
    if output.Err? {
      return logs, Err(output.error);
    }
    if Readable(files, begin, end) {
      AllInRangeVersions(logs, begin, end);
      OutputDecodes(f, decode, blockSize, output.value, stream, AllInRange(logs, begin, end));
    }
    var progress := new DecodeProgress(output.value, blockSize);
    var decoded := progress.DecodeFile(f);
    if decoded.Err? {
      return logs, Err(decoded.error);
    }
    ghost var accumulated := progress.mutationBlocksByVersion;
    r := AllBatches(progress);
    if Readable(files, begin, end) {
      DeliversExpected(if r.Ok? then r.value else [], accumulated, ByBatch(decode, Batches(stream)));
      if r.Ok? { ReproducesStream(r.value, decode, stream, AllInRange(logs, begin, end)); }
      if r.Ok? && Redundant(files) {
        forall g, m | g in files && g.tagId >= 0 && Holds(g, m) && begin <= m.version < end ensures ComesOut(r.value, decode, m) {
          ListedComesOut(files, logs, begin, end, decode, r.value, g, m);
        }
      }
    }
  }
}
