/** The partitioned log files as backup workers write them, and that the reader gets back what was written. */
module WorkerLog {

  import opened ByteStrings
  import opened Readers
  import opened LogFiles
  import opened PartitionedLog
  import opened MutationLogFormat
  import opened BackupFiles

  /** A message that a worker writes: its numbers fit into their fields. */
  predicate Storable(m: Message) {
    0 <= m.version < 0x8000_0000_0000_0000 && m.sub < 0x1_0000_0000 && |m.payload| < 0x8000_0000
  }

  predicate AllStorable(ms: seq<Message>) {
    forall i :: 0 <= i < |ms| ==> Storable(ms[i])
  }

  function MessageHeader(m: Message): (r: Bytes)
    requires Storable(m)
    ensures |r| == RECORD_HEADER
  {
    BigEndian(m.version, 8) + BigEndian(m.sub, 4) + BigEndian(|m.payload|, 4)
  }

  function EncodeMessages(ms: seq<Message>): Bytes
    requires AllStorable(ms)
  {
    if ms == [] then [] else
      assert Storable(ms[0]);
      MessageHeader(ms[0]) + ms[0].payload + EncodeMessages(ms[1..])
  }

  /** A block without its padding. */
  function WorkerBlock(ms: seq<Message>): (r: Bytes)
    requires AllStorable(ms)
    ensures |r| >= 4
  {
    LittleEndian(PARTITIONED_MLOG_VERSION, 4) + EncodeMessages(ms)
  }

  lemma FieldsAt(s: Bytes, before: Bytes, version: Bytes, sub: Bytes, size: Bytes, payload: Bytes, after: Bytes)
    requires s == before + (version + sub + size + payload + after) && |version| == 8 && |sub| == |size| == 4
    ensures var k := |before|;
            && k + RECORD_HEADER + |payload| <= |s|
            && s[k..k + 8] == version && s[k + 8..k + 12] == sub && s[k + 12..k + 16] == size
            && s[k + 16..k + 16 + |payload|] == payload && s[k] == version[0]
  {
  }

  /** The numbers of a header are read back, and the first byte is not padding. */
  lemma NumbersBack(m: Message)
    requires Storable(m)
    ensures BigEndian(m.version, 8)[0] != 0xFF && Signed(FromBigEndian(BigEndian(m.version, 8)), 8) == m.version
    ensures FromBigEndian(BigEndian(m.sub, 4)) == m.sub
    ensures FromBigEndian(BigEndian(|m.payload|, 4)) == |m.payload|
  {
    Pow256Values();
    BigEndianTopByte(m.version, 8);
    BigEndianRoundTrip(m.version, 8);
    BigEndianRoundTrip(m.sub, 4);
    BigEndianRoundTrip(|m.payload|, 4);
  }

  /** A message is read back wherever it stands, and does not look like the end of the block. */
  lemma ReadMessageBack(before: Bytes, m: Message, after: Bytes)
    requires Storable(m)
    ensures var s := before + (MessageHeader(m) + m.payload + after);
            ReadMessage(s, |before|) == Ok(m) && !AtEnd(s, |before|)
  {
    var s := before + (MessageHeader(m) + m.payload + after);
    var version, sub, size := BigEndian(m.version, 8), BigEndian(m.sub, 4), BigEndian(|m.payload|, 4);
    NumbersBack(m);
    hide BigEndian, FromBigEndian, Signed, Storable;
    assert MessageHeader(m) == version + sub + size;
    hide MessageHeader;
    FieldsAt(s, before, version, sub, size, m.payload, after);
  }

  /** Headers sort bytewise as messages do: by version, then by `sub`, then by length. */
  lemma HeadersSort(a: Message, b: Message)
    requires Storable(a) && Storable(b)
    requires a.version < b.version || (a.version == b.version && (a.sub < b.sub || (a.sub == b.sub && |a.payload| < |b.payload|)))
    ensures Less(MessageHeader(a), MessageHeader(b))
  {
    hide BigEndian, Less;
    Pow256Values();
    var version := BigEndian(a.version, 8);
    if a.version < b.version {
      BigEndianOrder(a.version, b.version, 8);
      LessBeforeSuffix(version, BigEndian(b.version, 8), BigEndian(a.sub, 4) + BigEndian(|a.payload|, 4),
                       BigEndian(b.sub, 4) + BigEndian(|b.payload|, 4));
      assert MessageHeader(a) == version + (BigEndian(a.sub, 4) + BigEndian(|a.payload|, 4));
      assert MessageHeader(b) == BigEndian(b.version, 8) + (BigEndian(b.sub, 4) + BigEndian(|b.payload|, 4));
    } else if a.sub < b.sub {
      BigEndianOrder(a.sub, b.sub, 4);
      LessBeforeSuffix(BigEndian(a.sub, 4), BigEndian(b.sub, 4), BigEndian(|a.payload|, 4), BigEndian(|b.payload|, 4));
      LessAfterCommonPrefix(version, BigEndian(a.sub, 4) + BigEndian(|a.payload|, 4), BigEndian(b.sub, 4) + BigEndian(|b.payload|, 4));
      assert MessageHeader(a) == version + (BigEndian(a.sub, 4) + BigEndian(|a.payload|, 4));
      assert MessageHeader(b) == version + (BigEndian(b.sub, 4) + BigEndian(|b.payload|, 4));
    } else {
      BigEndianOrder(|a.payload|, |b.payload|, 4);
      LessAfterCommonPrefix(version + BigEndian(a.sub, 4), BigEndian(|a.payload|, 4), BigEndian(|b.payload|, 4));
    }
  }

  /** The first bytes of a block: the format version, least significant byte first. */
  lemma BlockBegins(ms: seq<Message>)
    requires AllStorable(ms)
    ensures [0x0E, 0x10, 0, 0] <= WorkerBlock(ms)
  {
    LittleEndianShort(4110);
  }

  lemma {:induction false} MessagesBack(before: Bytes, ms: seq<Message>, tail: Bytes)
    requires AllStorable(ms) && (tail == [] || tail[0] == 0xFF)
    ensures Messages(before + (EncodeMessages(ms) + tail), |before|) == Ok(ms)
    decreases |ms|
  {
    hide ReadMessage;
    var s := before + (EncodeMessages(ms) + tail);
    if ms == [] {
      if tail != [] { assert s[|before|] == tail[0]; }
    } else {
      var m, rest := ms[0], EncodeMessages(ms[1..]) + tail;
      assert Storable(m);
      var record := MessageHeader(m) + m.payload;
      assert s == before + (record + rest) == (before + record) + rest;
      ReadMessageBack(before, m, rest);
      MessagesBack(before + record, ms[1..], tail);
      assert [m] + ms[1..] == ms;
    }
  }

  /** What can be read as a message with a version that is not negative was written as one. */
  lemma ReadMessageOnly(block: Bytes, pos: nat)
    requires pos < |block| && ReadMessage(block, pos).Ok?
    requires var m := ReadMessage(block, pos).value; 0 <= m.version && |m.payload| < 0x8000_0000
    ensures var m := ReadMessage(block, pos).value;
            Storable(m) && MessageHeader(m) + m.payload == block[pos..pos + RECORD_HEADER + |m.payload|]
  {
    var m := ReadMessage(block, pos).value;
    var version, sub, size := block[pos..pos + 8], block[pos + 8..pos + 12], block[pos + 12..pos + 16];
    Pow256Values();
    FromBigEndianBack(version);
    FromBigEndianBack(sub);
    FromBigEndianBack(size);
    hide BigEndian, FromBigEndian, Pow256;
    assert MessageHeader(m) == version + sub + size;
  }

  lemma {:induction false} MessagesOnly(block: Bytes, pos: nat, ms: seq<Message>)
    requires pos <= |block| && Messages(block, pos) == Ok(ms)
    requires forall i :: 0 <= i < |ms| ==> 0 <= ms[i].version && |ms[i].payload| < 0x8000_0000
    ensures AllStorable(ms) && EncodeMessages(ms) <= block[pos..]
    ensures var end := pos + |EncodeMessages(ms)|; end == |block| || block[end] == 0xFF
    decreases |ms|
  {
    hide ReadMessage, MessageHeader, Storable;
    if ms != [] {
      var m := ReadMessage(block, pos).value;
      assert ms[0] == m && ms == [m] + ms[1..];
      ReadMessageOnly(block, pos);
      var record := MessageHeader(m) + m.payload;
      var next := pos + RECORD_HEADER + |m.payload|;
      MessagesOnly(block, next, ms[1..]);
      assert block[pos..] == record + block[next..];
    }
  }

  /** A block is read as messages exactly if it is a block of them, followed by nothing or by a 0xFF. */
  lemma BlockMessagesIff(block: Bytes, ms: seq<Message>)
    requires AllStorable(ms)
    ensures BlockMessages(block) == Ok(ms) <==>
              WorkerBlock(ms) <= block && (|WorkerBlock(ms)| == |block| || block[|WorkerBlock(ms)|] == 0xFF)
  {
    hide Messages, EncodeMessages;
    var header := LittleEndian(PARTITIONED_MLOG_VERSION, 4);
    if BlockMessages(block) == Ok(ms) {
      MessagesOnly(block, 4, ms);
      assert block == header + block[4..];
    }
    if WorkerBlock(ms) <= block && (|WorkerBlock(ms)| == |block| || block[|WorkerBlock(ms)|] == 0xFF) {
      var tail := block[|WorkerBlock(ms)|..];
      assert block == header + (EncodeMessages(ms) + tail);
      assert block[0..4] == header;
      MessagesBack(header, ms, tail);
    }
  }

  /** A block, padded or not, is read back. */
  lemma BlockBack(ms: seq<Message>, n: nat)
    requires AllStorable(ms)
    ensures BlockMessages(WorkerBlock(ms) + Padding(n)) == Ok(ms)
  {
    hide Messages;
    var header := LittleEndian(PARTITIONED_MLOG_VERSION, 4);
    var block := WorkerBlock(ms) + Padding(n);
    assert block == header + (EncodeMessages(ms) + Padding(n));
    assert block[0..4] == header;
    MessagesBack(header, ms, Padding(n));
  }

  // ---------- Files ----------

  ghost predicate ValidGroups(groups: seq<seq<Message>>, blockSize: nat) {
    forall i :: 0 <= i < |groups| ==> AllStorable(groups[i]) && |WorkerBlock(groups[i])| <= blockSize
  }

  /** Blocks of messages, all filled up. */
  ghost function FullFile(groups: seq<seq<Message>>, blockSize: nat): Bytes
    requires ValidGroups(groups, blockSize)
  {
    if groups == [] then [] else Filled(groups[0], blockSize) + FullFile(groups[1..], blockSize)
  }

  ghost function Filled(ms: seq<Message>, blockSize: nat): (r: Bytes)
    requires AllStorable(ms) && |WorkerBlock(ms)| <= blockSize
    ensures |r| == blockSize
  {
    WorkerBlock(ms) + Padding(blockSize - |WorkerBlock(ms)|)
  }

  /** Blocks of messages, all but the last filled up. */
  ghost function WorkerFile(groups: seq<seq<Message>>, blockSize: nat): Bytes
    requires ValidGroups(groups, blockSize)
  {
    if groups == [] then []
    else FullFile(groups[..|groups| - 1], blockSize) + WorkerBlock(groups[|groups| - 1])
  }

  function AllOf(groups: seq<seq<Message>>): seq<Message> {
    if groups == [] then [] else groups[0] + AllOf(groups[1..])
  }

  function Prepend(ms: seq<Message>, r: Result<seq<Message>>): Result<seq<Message>> {
    var rest :- r;
    Ok(ms + rest)
  }

  lemma PrependNone(r: Result<seq<Message>>)
    ensures Prepend([], r) == r
  {
    if r.Ok? { assert [] + r.value == r.value; }
  }

  lemma PrependTwice(a: seq<Message>, b: seq<Message>, r: Result<seq<Message>>)
    ensures Prepend(a, Prepend(b, r)) == Prepend(a + b, r)
  {
    if r.Ok? { assert a + (b + r.value) == a + b + r.value; }
  }

  /** What the reader takes for the block at `offset`, and what it makes of it. */
  lemma FirstBlock(file: LogFile, offset: nat, block: Bytes, tail: Bytes)
    requires offset <= file.fileSize <= |file.contents| && file.contents[offset..file.fileSize] == block + tail
    requires 0 < |block| <= file.blockSize && (|block| == file.blockSize || tail == [])
    ensures offset + |block| <= file.fileSize && file.contents[offset + |block|..file.fileSize] == tail
    ensures FileMessages(file, offset) == (
              match BlockMessages(block)
              case Ok(ms) => Prepend(ms, FileMessages(file, offset + |block|))
              case Err(e) => Err(e))
  {
    hide BlockMessages;
    var rest := file.contents[offset..file.fileSize];
    assert rest[..|block|] == block && rest[|block|..] == tail;
    assert file.contents[offset..offset + |block|] == rest[..|block|];
    assert BlockLength(file, offset) == |block| && BlockAt(file, offset) == block;
  }

  /** Full blocks are read back, whatever follows them. */
  lemma {:induction false} FullBack(file: LogFile, offset: nat, groups: seq<seq<Message>>, tail: Bytes) returns (after: nat)
    requires offset <= file.fileSize <= |file.contents| && ValidGroups(groups, file.blockSize)
    requires file.contents[offset..file.fileSize] == FullFile(groups, file.blockSize) + tail
    ensures after <= file.fileSize && file.contents[after..file.fileSize] == tail
    ensures FileMessages(file, offset) == Prepend(AllOf(groups), FileMessages(file, after))
    decreases |groups|
  {
    hide BlockMessages, FileMessages, WorkerBlock, Filled, Prepend;
    if groups == [] {
      after := offset;
      assert [] + tail == tail;
      PrependNone(FileMessages(file, offset));
    } else {
      var first, full := Filled(groups[0], file.blockSize), FullFile(groups[1..], file.blockSize);
      FilledBack(groups[0], file.blockSize);
      var rest := full + tail;
      assert first + full + tail == first + rest;
      FirstBlock(file, offset, first, rest);
      after := FullBack(file, offset + file.blockSize, groups[1..], tail);
      PrependTwice(groups[0], AllOf(groups[1..]), FileMessages(file, after));
    }
  }

  lemma FilledBack(ms: seq<Message>, blockSize: nat)
    requires AllStorable(ms) && |WorkerBlock(ms)| <= blockSize
    ensures BlockMessages(Filled(ms, blockSize)) == Ok(ms) && blockSize > 0
  {
    BlockBack(ms, blockSize - |WorkerBlock(ms)|);
  }

  /** The messages of a file are those written to it, in order. */
  lemma FileBack(file: LogFile, groups: seq<seq<Message>>)
    requires file.fileSize <= |file.contents| && ValidGroups(groups, file.blockSize)
    requires file.contents[0..file.fileSize] == WorkerFile(groups, file.blockSize)
    ensures FileMessages(file, 0) == Ok(AllOf(groups))
  {
    hide BlockMessages, WorkerBlock, FullFile;
    if groups != [] {
      var last := |groups| - 1;
      var block := WorkerBlock(groups[last]);
      var after := FullBack(file, 0, groups[..last], block);
      BlockBack(groups[last], 0);
      assert block + Padding(0) == block && block + [] == block;
      FirstBlock(file, after, block, []);
      assert groups[last] + [] == groups[last];
      AllOfSnoc(groups[..last], groups[last]);
      assert groups[..last] + [groups[last]] == groups;
    }
  }

  lemma {:induction false} AllOfSnoc(groups: seq<seq<Message>>, g: seq<Message>)
    ensures AllOf(groups + [g]) == AllOf(groups) + g
  {
    if groups == [] {
      assert groups + [g] == [g] && [g][1..] == [];
      assert g + [] == g && [] + g == g;
    } else {
      AllOfSnoc(groups[1..], g);
      assert (groups + [g])[1..] == groups[1..] + [g];
      assert groups[0] + (AllOf(groups[1..]) + g) == groups[0] + AllOf(groups[1..]) + g;
    }
  }

  lemma {:induction false} AllOfStorable(groups: seq<seq<Message>>)
    requires forall i :: 0 <= i < |groups| ==> AllStorable(groups[i])
    ensures AllStorable(AllOf(groups))
  {
    if groups != [] {
      AllOfStorable(groups[1..]);
    }
  }

  /** A file that a worker wrote in order decodes, is in order, and holds the messages written. */
  lemma WrittenFile(file: LogFile, groups: seq<seq<Message>>)
    requires file.fileSize <= |file.contents| && ValidGroups(groups, file.blockSize) && Sorted(AllOf(groups))
    requires file.contents[..file.fileSize] == WorkerFile(groups, file.blockSize)
    ensures WellFormed(file) && FileMessages(file, 0) == Ok(AllOf(groups))
  {
    hide FileMessages, WorkerFile, FullFile, Sorted, WorkerBlock;
    assert file.contents[0..file.fileSize] == file.contents[..file.fileSize];
    FileBack(file, groups);
    AllOfStorable(groups);
    forall m | m in AllOf(groups) ensures 0 <= m.version {
      var i :| 0 <= i < |AllOf(groups)| && AllOf(groups)[i] == m;
      assert Storable(AllOf(groups)[i]);
    }
  }

  // ---------- Adding one message to a file ----------

  const BLOCK_HEADER: Bytes := LittleEndian(PARTITIONED_MLOG_VERSION, 4)

  function Record(m: Message): (r: Bytes)
    requires Storable(m)
    ensures |r| == RECORD_HEADER + |m.payload|
  {
    MessageHeader(m) + m.payload
  }

  /** A message fits into a block of its own. */
  predicate FitsBlock(m: Message, blockSize: nat) {
    4 + RECORD_HEADER + |m.payload| <= blockSize
  }

  lemma {:induction false} EncodeSnoc(ms: seq<Message>, m: Message)
    requires AllStorable(ms) && Storable(m)
    ensures AllStorable(ms + [m]) && EncodeMessages(ms + [m]) == EncodeMessages(ms) + Record(m)
  {
    if ms == [] {
      assert ms + [m] == [m] && [m][1..] == [];
      assert EncodeMessages([]) == [];
    } else {
      EncodeSnoc(ms[1..], m);
      assert (ms + [m])[1..] == ms[1..] + [m];
    }
  }

  lemma BlockSnoc(ms: seq<Message>, m: Message)
    requires AllStorable(ms) && Storable(m)
    ensures AllStorable(ms + [m]) && WorkerBlock(ms + [m]) == WorkerBlock(ms) + Record(m)
  {
    hide Record;
    EncodeSnoc(ms, m);
  }

  lemma BlockOfOne(m: Message)
    requires Storable(m)
    ensures WorkerBlock([m]) == BLOCK_HEADER + Record(m)
  {
    hide Record;
    EncodeSnoc([], m);
    assert [] + [m] == [m] && EncodeMessages([]) + Record(m) == Record(m);
  }

  lemma {:induction false} FullSnoc(groups: seq<seq<Message>>, g: seq<Message>, blockSize: nat)
    requires ValidGroups(groups + [g], blockSize)
    ensures ValidGroups(groups, blockSize) && AllStorable(g) && |WorkerBlock(g)| <= blockSize
    ensures FullFile(groups + [g], blockSize) == FullFile(groups, blockSize) + Filled(g, blockSize)
  {
    hide WorkerBlock, Filled;
    var more := groups + [g];
    assert more[|groups|] == g && forall i :: 0 <= i < |groups| ==> more[i] == groups[i];
    if groups == [] {
      assert more[1..] == [];
      assert Filled(g, blockSize) + [] == [] + Filled(g, blockSize);
    } else {
      assert more[1..] == groups[1..] + [g];
      FullSnoc(groups[1..], g, blockSize);
      assert Filled(groups[0], blockSize) + (FullFile(groups[1..], blockSize) + Filled(g, blockSize))
          == Filled(groups[0], blockSize) + FullFile(groups[1..], blockSize) + Filled(g, blockSize);
    }
  }

  lemma {:induction false} FullLength(groups: seq<seq<Message>>, blockSize: nat)
    requires ValidGroups(groups, blockSize)
    ensures |FullFile(groups, blockSize)| == |groups| * blockSize
  {
    hide WorkerBlock, Filled;
    if groups != [] {
      FullLength(groups[1..], blockSize);
      var n := |groups[1..]|;
      assert (n + 1) * blockSize == n * blockSize + blockSize;
    }
  }

  /** How far a file reaches into its last block, and what padding makes of it. */
  lemma Fill(groups: seq<seq<Message>>, blockSize: nat)
    requires ValidGroups(groups, blockSize)
    ensures var file := WorkerFile(groups, blockSize);
            && |file| <= |groups| * blockSize
            && FullFile(groups, blockSize) == file + Padding(|groups| * blockSize - |file|)
            && (groups != [] ==>
                  |groups| * blockSize - |file| == blockSize - |WorkerBlock(groups[|groups| - 1])|)
  {
    hide WorkerBlock, FullFile;
    FullLength(groups, blockSize);
    if groups != [] {
      var last := |groups| - 1;
      assert groups[..last] + [groups[last]] == groups;
      FullSnoc(groups[..last], groups[last], blockSize);
    } else {
      assert WorkerFile(groups, blockSize) + Padding(0) == [];
    }
  }

  ghost function AddToLast(groups: seq<seq<Message>>, m: Message): seq<seq<Message>>
    requires groups != []
  {
    groups[..|groups| - 1] + [groups[|groups| - 1] + [m]]
  }

  lemma AllOfAdded(groups: seq<seq<Message>>, m: Message)
    requires groups != []
    ensures AllOf(AddToLast(groups, m)) == AllOf(groups) + [m]
  {
    hide AllOf;
    var last := |groups| - 1;
    AllOfSnoc(groups[..last], groups[last]);
    AllOfSnoc(groups[..last], groups[last] + [m]);
    assert groups[..last] + [groups[last]] == groups;
    assert AllOf(groups[..last]) + (groups[last] + [m]) == AllOf(groups[..last]) + groups[last] + [m];
  }

  lemma ValidAdded(groups: seq<seq<Message>>, m: Message, blockSize: nat)
    requires ValidGroups(groups, blockSize) && Storable(m) && groups != []
    requires |WorkerBlock(groups[|groups| - 1])| + |Record(m)| <= blockSize
    ensures ValidGroups(AddToLast(groups, m), blockSize)
    ensures WorkerBlock(groups[|groups| - 1] + [m]) == WorkerBlock(groups[|groups| - 1]) + Record(m)
  {
    hide WorkerBlock, Record;
    BlockSnoc(groups[|groups| - 1], m);
  }

  /** A message that has room in the last block. */
  lemma AddedRecord(groups: seq<seq<Message>>, m: Message, blockSize: nat)
    requires ValidGroups(groups, blockSize) && Storable(m)
    requires |WorkerFile(groups, blockSize)| + |Record(m)| <= |groups| * blockSize
    ensures groups != [] && FitsBlock(m, blockSize)
    ensures var more := AddToLast(groups, m);
            && ValidGroups(more, blockSize) && |more| == |groups|
            && WorkerFile(more, blockSize) == WorkerFile(groups, blockSize) + Record(m)
            && AllOf(more) == AllOf(groups) + [m]
  {
    hide WorkerBlock, Record, FullFile, AllOf, Storable;
    Fill(groups, blockSize);
    var last := |groups| - 1;
    var more := AddToLast(groups, m);
    ValidAdded(groups, m, blockSize);
    AllOfAdded(groups, m);
    assert more[..last] == groups[..last] && more[last] == groups[last] + [m];
    var full, block := FullFile(groups[..last], blockSize), WorkerBlock(groups[last]);
    assert full + (block + Record(m)) == full + block + Record(m);
  }

  /** A message in a new block. */
  lemma AddedBlock(groups: seq<seq<Message>>, m: Message, blockSize: nat)
    requires ValidGroups(groups, blockSize) && Storable(m) && FitsBlock(m, blockSize)
    ensures var more := groups + [[m]];
            && ValidGroups(more, blockSize) && |more| * blockSize == |groups| * blockSize + blockSize
            && WorkerFile(more, blockSize) == FullFile(groups, blockSize) + BLOCK_HEADER + Record(m)
            && AllOf(more) == AllOf(groups) + [m]
  {
    hide WorkerBlock, Record, FullFile;
    BlockOfOne(m);
    var more := groups + [[m]];
    assert more[..|groups|] == groups && more[|groups|] == [m] && Storable([m][0]);
    AllOfSnoc(groups, [m]);
    assert FullFile(groups, blockSize) + (BLOCK_HEADER + Record(m)) == FullFile(groups, blockSize) + BLOCK_HEADER + Record(m);
    assert (|groups| + 1) * blockSize == |groups| * blockSize + blockSize;
  }

  /** No block is empty, and none had room for the first message of the next. */
  ghost predicate Packed(groups: seq<seq<Message>>, blockSize: nat)
    requires ValidGroups(groups, blockSize)
  {
    && (forall i :: 0 <= i < |groups| ==> groups[i] != [])
    && forall i :: 0 <= i < |groups| - 1 ==> |WorkerBlock(groups[i])| + RECORD_HEADER + |groups[i + 1][0].payload| > blockSize
  }

  lemma PackedAddToLast(groups: seq<seq<Message>>, m: Message, blockSize: nat)
    requires ValidGroups(groups, blockSize) && Packed(groups, blockSize) && groups != []
    requires ValidGroups(AddToLast(groups, m), blockSize)
    ensures Packed(AddToLast(groups, m), blockSize)
  {
    hide WorkerBlock;
    var more, last := AddToLast(groups, m), |groups| - 1;
    forall i | 0 <= i < |more| ensures more[i] != [] && (i < last ==> more[i] == groups[i]) && more[i][0] == groups[i][0] {
      if i == last { assert more[i] == groups[i] + [m]; }
    }
  }

  lemma PackedNewBlock(groups: seq<seq<Message>>, m: Message, blockSize: nat)
    requires ValidGroups(groups, blockSize) && Packed(groups, blockSize) && ValidGroups(groups + [[m]], blockSize)
    requires groups != [] ==> |WorkerBlock(groups[|groups| - 1])| + RECORD_HEADER + |m.payload| > blockSize
    ensures Packed(groups + [[m]], blockSize)
  {
    hide WorkerBlock;
    var more := groups + [[m]];
    forall i | 0 <= i < |more| ensures more[i] == if i < |groups| then groups[i] else [m] {}
  }

  // ---------- Messages too long for a block ----------

  /** A message cut off by the end of its block cannot be read. */
  lemma CutOff(block: Bytes, s: Bytes)
    requires 4 < |block| <= |s| && block == s[..|block|] && ReadMessage(s, 4).Ok?
    requires |block| < 4 + RECORD_HEADER + |ReadMessage(s, 4).value.payload|
    ensures ReadMessage(block, 4).Err?
  {
    if |block| >= 20 {
      assert block[16..20] == s[16..20];
    }
  }

  lemma TooLongBlock(block: Bytes, m: Message, after: Bytes)
    requires Storable(m) && 4 < |block| && !FitsBlock(m, |block|)
    requires block <= BLOCK_HEADER + (Record(m) + after)
    ensures BlockMessages(block).Err?
  {
    var s := BLOCK_HEADER + (Record(m) + after);
    ReadMessageBack(BLOCK_HEADER, m, after);
    assert block == s[..|block|] && block[4] == s[4];
    CutOff(block, s);
  }

  /** Blocks of at most four bytes hold no message. */
  lemma TinyBlock(block: Bytes)
    requires |block| <= 4
    ensures BlockMessages(block).Err? || BlockMessages(block) == Ok([])
  {
  }

  lemma {:induction false} TinyBlocks(file: LogFile, offset: nat)
    requires offset <= file.fileSize <= |file.contents| && file.blockSize <= 4
    ensures FileMessages(file, offset).Err? || FileMessages(file, offset) == Ok([])
    decreases file.fileSize - offset
  {
    hide BlockMessages;
    if BlockLength(file, offset) > 0 {
      TinyBlock(BlockAt(file, offset));
      TinyBlocks(file, offset + BlockLength(file, offset));
      var none: seq<Message> := [];
      assert none + none == none;
    }
  }

  /** A file with a message too long for a block is not read back. */
  lemma TooLong(file: LogFile, groups: seq<seq<Message>>, m: Message, after: Bytes, rest: seq<Message>)
    requires file.fileSize <= |file.contents| && ValidGroups(groups, file.blockSize)
    requires Storable(m) && !FitsBlock(m, file.blockSize)
    requires file.contents[0..file.fileSize] == FullFile(groups, file.blockSize) + (BLOCK_HEADER + (Record(m) + after))
    ensures FileMessages(file, 0) != Ok(AllOf(groups) + ([m] + rest))
  {
    hide BlockMessages, Record, FullFile;
    var tail := BLOCK_HEADER + (Record(m) + after);
    var offset := FullBack(file, 0, groups, tail);
    if file.blockSize <= 4 {
      TinyBlocks(file, offset);
      assert |AllOf(groups) + []| < |AllOf(groups) + ([m] + rest)|;
    } else {
      var block := tail[..file.blockSize];
      TooLongBlock(block, m, after);
      assert tail == block + tail[file.blockSize..];
      FirstBlock(file, offset, block, tail[file.blockSize..]);
    }
  }

  // ---------- The writer ----------

  /** Why a file is read back or not: its blocks, or its first message too long for one and the blocks before. */
  datatype Layout =
    | Whole(groups: seq<seq<Message>>)
    | Broken(groups: seq<seq<Message>>, long: Message, later: seq<Message>)

  ghost predicate HasLayout(contents: Bytes, blockSize: nat, written: seq<Message>, layout: Layout) {
    && ValidGroups(layout.groups, blockSize) && Packed(layout.groups, blockSize)
    && match layout
       case Whole(groups) => written == AllOf(groups) && contents == WorkerFile(groups, blockSize)
       case Broken(groups, m, later) =>
         && Storable(m) && !FitsBlock(m, blockSize) && written == AllOf(groups) + ([m] + later)
         && FullFile(groups, blockSize) + BLOCK_HEADER + Record(m) <= contents
  }

  ghost predicate AllFit(written: seq<Message>, blockSize: nat) {
    forall m :: m in written ==> FitsBlock(m, blockSize)
  }

  /** The layout after one more message; `before` is the file that its record is appended to. */
  lemma NextLayout(contents: Bytes, before: Bytes, blockSize: nat, blockEnd: nat, written: seq<Message>, layout: Layout, m: Message)
    returns (next: Layout)
    requires HasLayout(contents, blockSize, written, layout) && Storable(m)
    requires layout.Whole? ==> blockEnd == |layout.groups| * blockSize
    requires contents <= before
    requires if |contents| + |Record(m)| > blockEnd
             then layout.Whole? ==> before == FullFile(layout.groups, blockSize) + BLOCK_HEADER
             else before == contents
    ensures HasLayout(before + Record(m), blockSize, written + [m], next)
    ensures next.Whole? <==> layout.Whole? && FitsBlock(m, blockSize)
    ensures next.Whole? ==>
              |next.groups| * blockSize == if |contents| + |Record(m)| > blockEnd then blockEnd + blockSize else blockEnd
  {
    hide WorkerFile, FullFile, AllOf, ValidGroups, Packed, Record;
    var groups := layout.groups;
    if layout.Broken? {
      next := layout.(later := layout.later + [m]);
      assert AllOf(groups) + ([layout.long] + next.later) == AllOf(groups) + ([layout.long] + layout.later) + [m];
    } else if |contents| + |Record(m)| <= blockEnd {
      AddedRecord(groups, m, blockSize);
      PackedAddToLast(groups, m, blockSize);
      next := Whole(AddToLast(groups, m));
    } else if FitsBlock(m, blockSize) {
      AddedBlock(groups, m, blockSize);
      Fill(groups, blockSize);
      PackedNewBlock(groups, m, blockSize);
      next := Whole(groups + [[m]]);
    } else {
      next := Broken(groups, m, []);
      assert [m] + [] == [m];
    }
  }

  class WorkerLogWriter {
    const file: BackupFile
    const blockSize: nat
    var blockEnd: nat
    ghost var written: seq<Message>
    ghost var layout: Layout

    constructor (file: BackupFile, blockSize: nat)
      requires file.Valid() && file.appended == []
      ensures this.file == file && this.blockSize == blockSize
      ensures Valid() && written == []
    {
      this.file, this.blockSize, blockEnd, written, layout := file, blockSize, 0, [], Whole([]);
    }

    ghost predicate Valid() reads this, file {
      && file.Valid() && HasLayout(file.appended, blockSize, written, layout)
      && (layout.Whole? ==> blockEnd == |layout.groups| * blockSize)
      && (layout.Whole? <==> AllFit(written, blockSize))
    }

    /** Fills up the current block with 0xFF and writes the header of the next. */
    method StartBlock()
      requires Valid()
      modifies this`blockEnd, file
      ensures file.Valid() && blockEnd == old(blockEnd) + blockSize && old(file.appended) <= file.appended
      ensures layout.Whole? ==> file.appended == FullFile(layout.groups, blockSize) + BLOCK_HEADER
    {
      hide BackupFile.Valid, WorkerFile, FullFile;
      if layout.Whole? {
        Fill(layout.groups, blockSize);
      }
      var bytesLeft := blockEnd - file.Size();
      if bytesLeft > 0 {
        file.Append(Padding(bytesLeft));
      } else if layout.Whole? {
        assert file.appended + Padding(0) == file.appended;
      }
      blockEnd := blockEnd + blockSize;
      file.Append(BLOCK_HEADER);
    }

    /** Adds a message, in a new block if the current one has no room for it; that a new block has room is not checked. */
    method AddMutation(m: Message)
      requires Valid() && Storable(m) && RECORD_HEADER + |m.payload| < 0x8000_0000
      modifies this, file
      ensures Valid() && written == old(written) + [m]
    {
      hide BackupFile.Valid, WorkerFile, FullFile, HasLayout, Storable;
      var bytes := RECORD_HEADER + |m.payload|;
      var newBlock := file.Size() + bytes > blockEnd;
      if newBlock {
        StartBlock();
      }
      ghost var before := file.appended;
      file.Append(MessageHeader(m));
      file.Append(m.payload);
      assert file.appended == before + Record(m);
      layout := NextLayout(old(file.appended), before, blockSize, old(blockEnd), written, layout, m);
      written := written + [m];
    }

    /** The file is read back exactly if each message fits into a block. */
    lemma ReadBackIff(log: LogFile)
      requires Valid() && log.blockSize == blockSize
      requires log.fileSize <= |log.contents| && log.contents[0..log.fileSize] == file.appended
      ensures FileMessages(log, 0) == Ok(written) <==> AllFit(written, blockSize)
    {
      hide FileMessages, WorkerFile, FullFile, BackupFile.Valid, AllOf, Record, AllFit;
      match layout
      case Whole(groups) =>
        FileBack(log, groups);
      case Broken(groups, m, later) =>
        var before := FullFile(groups, blockSize) + BLOCK_HEADER + Record(m);
        var after := file.appended[|before|..];
        assert file.appended == FullFile(groups, blockSize) + (BLOCK_HEADER + (Record(m) + after));
        TooLong(log, groups, m, after, later);
    }
  }
}
