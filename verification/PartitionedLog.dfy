/**
 * The partitioned log files that backup workers write: blocks of a header followed by
 * (version, sub, size, message) records, and the reader that walks one file block by block.
 */
module PartitionedLog {

  import opened ByteStrings
  import opened Readers
  import opened LogFiles

  const PARTITIONED_MLOG_VERSION := 4110

  /** One logged message with its position (version, sub) in the total order of messages. */
  datatype Message = Message(version: int, sub: nat, payload: Bytes)

  predicate MessageAtMost(a: Message, b: Message) {
    a.version < b.version || (a.version == b.version && a.sub <= b.sub)
  }

  ghost predicate Sorted(ms: seq<Message>) {
    forall i, j :: 0 <= i < j < |ms| ==> MessageAtMost(ms[i], ms[j])
  }

  /** The messages with a version in [min, max), in order. */
  function InRange(ms: seq<Message>, min: int, max: int): seq<Message> {
    if ms == [] then [] else
      (if min <= ms[0].version < max then [ms[0]] else []) + InRange(ms[1..], min, max)
  }

  // ---------- Reading one block ----------

  const RECORD_HEADER := 16

  function ReadMessage(block: Bytes, pos: nat): (r: Result<Message>)
    requires pos < |block|
    ensures r.Ok? ==> pos + RECORD_HEADER + |r.value.payload| <= |block|
  {
    var version :- Consume(block, pos, 8);
    var sub :- Consume(block, pos + 8, 4);
    var size :- Consume(block, pos + 12, 4);
    var payload :- Consume(block, pos + RECORD_HEADER, FromBigEndian(size));
    Ok(Message(Signed(FromBigEndian(version), 8), FromBigEndian(sub), payload))
  }

  /** The end of the records: end of data, or a 0xFF where the next record would start. */
  predicate AtEnd(block: Bytes, pos: nat)
    requires pos <= |block|
  {
    pos == |block| || block[pos] == 0xFF
  }

  /** All records of a block from `pos` on. */
  function Messages(block: Bytes, pos: nat): Result<seq<Message>>
    requires pos <= |block|
    decreases |block| - pos
  {
    if AtEnd(block, pos) then Ok([]) else
      var m :- ReadMessage(block, pos);
      var rest :- Messages(block, pos + RECORD_HEADER + |m.payload|);
      Ok([m] + rest)
  }

  function BlockMessages(block: Bytes): Result<seq<Message>> {
    var _ :- CheckHeader(block, PARTITIONED_MLOG_VERSION);
    Messages(block, 4)
  }

  // ---------- Reading one file ----------

  function BlockLength(file: LogFile, offset: nat): nat
    requires offset <= file.fileSize
  {
    if file.blockSize <= file.fileSize - offset then file.blockSize else file.fileSize - offset
  }

  function BlockAt(file: LogFile, offset: nat): Bytes
    requires offset <= file.fileSize <= |file.contents|
  {
    file.contents[offset..offset + BlockLength(file, offset)]
  }

  /** All messages of a file from the block at `offset` on. */
  function FileMessages(file: LogFile, offset: nat): Result<seq<Message>>
    requires offset <= file.fileSize <= |file.contents|
    decreases file.fileSize - offset
  {
    if BlockLength(file, offset) == 0 then Ok([]) else
      var ms :- BlockMessages(BlockAt(file, offset));
      var rest :- FileMessages(file, offset + BlockLength(file, offset));
      Ok(ms + rest)
  }

  /** Every block decodes, and the messages come in order with real (nonnegative) versions. */
  ghost predicate WellFormed(file: LogFile) {
    && file.fileSize <= |file.contents|
    && FileMessages(file, 0).Ok?
    && Sorted(FileMessages(file, 0).value)
    && forall m :: m in FileMessages(file, 0).value ==> 0 <= m.version
  }

  // ---------- Versions are 64-bit integers ----------

  lemma ReadMessageVersion(block: Bytes, pos: nat)
    requires pos < |block| && ReadMessage(block, pos).Ok?
    ensures IsVersion(ReadMessage(block, pos).value.version)
  {
    Pow256Values();
  }

  lemma {:induction false} MessageVersions(block: Bytes, pos: nat)
    requires pos <= |block| && Messages(block, pos).Ok?
    ensures forall m :: m in Messages(block, pos).value ==> IsVersion(m.version)
    decreases |block| - pos
  {
    hide ReadMessage;
    if !AtEnd(block, pos) {
      ReadMessageVersion(block, pos);
      MessageVersions(block, pos + RECORD_HEADER + |ReadMessage(block, pos).value.payload|);
    }
  }

  lemma {:induction false} FileVersions(file: LogFile, offset: nat)
    requires offset <= file.fileSize <= |file.contents| && FileMessages(file, offset).Ok?
    ensures forall m :: m in FileMessages(file, offset).value ==> IsVersion(m.version)
    decreases file.fileSize - offset
  {
    hide Messages;
    if BlockLength(file, offset) != 0 {
      MessageVersions(BlockAt(file, offset), 4);
      FileVersions(file, offset + BlockLength(file, offset));
    }
  }

  // ---------- Facts about ranges of sorted messages ----------

  lemma SortedTail(ms: seq<Message>)
    requires Sorted(ms) && ms != []
    ensures Sorted(ms[1..])
    ensures forall m :: m in ms[1..] ==> MessageAtMost(ms[0], m)
  {
    assert forall i :: 0 <= i < |ms[1..]| ==> ms[1..][i] == ms[i + 1];
  }

  /** Both parts of a sorted sequence are sorted, the first at most the second. */
  lemma SortedParts(a: seq<Message>, b: seq<Message>)
    requires Sorted(a + b)
    ensures Sorted(a) && Sorted(b)
    ensures forall x, y :: x in a && y in b ==> MessageAtMost(x, y)
  {
    assert forall i :: 0 <= i < |a| ==> a[i] == (a + b)[i];
    assert forall i :: 0 <= i < |b| ==> b[i] == (a + b)[|a| + i];
  }

  lemma {:induction false} InRangeMembers(ms: seq<Message>, min: int, max: int)
    ensures forall m :: m in InRange(ms, min, max) <==> m in ms && min <= m.version < max
  {
    if ms != [] {
      InRangeMembers(ms[1..], min, max);
    }
  }

  lemma InRangeStep(acc: seq<Message>, ms: seq<Message>, min: int, max: int)
    requires ms != [] && ms[0].version < max
    ensures (if ms[0].version >= min then acc + [ms[0]] else acc) + InRange(ms[1..], min, max) == acc + InRange(ms, min, max)
  {
    var rest := InRange(ms[1..], min, max);
    if ms[0].version >= min {
      assert acc + [ms[0]] + rest == acc + ([ms[0]] + rest);
    } else {
      assert InRange(ms, min, max) == rest;
    }
  }

  lemma {:induction false} InRangeAppend(a: seq<Message>, b: seq<Message>, min: int, max: int)
    ensures InRange(a + b, min, max) == InRange(a, min, max) + InRange(b, min, max)
  {
    if a == [] {
      assert a + b == b;
    } else {
      var head := if min <= a[0].version < max then [a[0]] else [];
      assert (a + b)[1..] == a[1..] + b;
      calc {
        InRange(a + b, min, max);
        head + InRange(a[1..] + b, min, max);
        { InRangeAppend(a[1..], b, min, max); }
        head + (InRange(a[1..], min, max) + InRange(b, min, max));
        InRange(a, min, max) + InRange(b, min, max);
      }
    }
  }

  lemma {:induction false} InRangeNothing(ms: seq<Message>, min: int, max: int)
    requires forall m :: m in ms ==> !(min <= m.version < max)
    ensures InRange(ms, min, max) == []
  {
    if ms != [] {
      InRangeNothing(ms[1..], min, max);
    }
  }

  /** Lowering the lower bound changes nothing when no message lies below it. */
  lemma {:induction false} InRangeLowerBound(ms: seq<Message>, min: int, min': int, max: int)
    requires forall m :: m in ms ==> (min <= m.version <==> min' <= m.version)
    ensures InRange(ms, min, max) == InRange(ms, min', max)
  {
    if ms != [] {
      InRangeLowerBound(ms[1..], min, min', max);
    }
  }

  lemma {:induction false} InRangeSorted(ms: seq<Message>, min: int, max: int)
    requires Sorted(ms)
    ensures Sorted(InRange(ms, min, max))
  {
    if ms != [] {
      SortedTail(ms);
      InRangeSorted(ms[1..], min, max);
      InRangeMembers(ms[1..], min, max);
      var t := InRange(ms[1..], min, max);
      forall k | 0 <= k < |t| ensures MessageAtMost(ms[0], t[k]) {
        assert t[k] in ms[1..];
      }
    }
  }

  lemma {:induction false} InRangeMultiset(ms: seq<Message>, min: int, max: int, x: Message)
    ensures multiset(InRange(ms, min, max))[x] == if min <= x.version < max then multiset(ms)[x] else 0
  {
    if ms != [] {
      assert ms == [ms[0]] + ms[1..];
      InRangeMultiset(ms[1..], min, max, x);
    }
  }
}
