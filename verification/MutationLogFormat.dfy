/**
 * The log file format of the converter's output: fixed-size blocks of a header and
 * length-prefixed key/value records, filled up with 0xFF.
 */
module MutationLogFormat {

  import opened ByteStrings
  import opened Readers

  const BACKUP_AGENT_MLOG_VERSION := 2001

  datatype KeyValue = KeyValue(key: Bytes, value: Bytes)

  // ---------- Writing ----------

  /** A length in 4 bytes, most significant first, then the bytes. */
  function WithLength(s: Bytes): Bytes {
    BigEndian(|s|, 4) + s
  }

  function Encode(kv: KeyValue): (r: Bytes)
    ensures |r| == 8 + |kv.key| + |kv.value|
  {
    WithLength(kv.key) + WithLength(kv.value)
  }

  function EncodeAll(kvs: seq<KeyValue>): Bytes {
    if kvs == [] then [] else Encode(kvs[0]) + EncodeAll(kvs[1..])
  }

  /** A block without its padding. */
  function Block(kvs: seq<KeyValue>): (r: Bytes)
    ensures |r| >= 4
  {
    LittleEndian(BACKUP_AGENT_MLOG_VERSION, 4) + EncodeAll(kvs)
  }

  function Padding(n: nat): Bytes {
    seq(n, i => 0xFF)
  }

  /** Blocks whose records fit. */
  ghost predicate Blocks(groups: seq<seq<KeyValue>>, blockSize: nat) {
    forall i :: 0 <= i < |groups| ==>
      |Block(groups[i])| <= blockSize && forall j :: 0 <= j < |groups[i]| ==> Fits(groups[i][j])
  }

  /** Lengths fit their 32-bit fields; a key length is an `int`, so its first byte is not 0xFF. */
  predicate Fits(kv: KeyValue) {
    |kv.key| < 0x8000_0000 && |kv.value| < 0x1_0000_0000
  }

  /** A block filled up to the block size. */
  ghost function Padded(kvs: seq<KeyValue>, blockSize: nat): (r: Bytes)
    requires |Block(kvs)| <= blockSize
    ensures |r| == blockSize
  {
    Block(kvs) + Padding(blockSize - |Block(kvs)|)
  }

  ghost function RenderFull(groups: seq<seq<KeyValue>>, blockSize: nat): Bytes
    requires Blocks(groups, blockSize)
  {
    if groups == [] then [] else
      var last := |groups| - 1;
      RenderFull(groups[..last], blockSize) + Padded(groups[last], blockSize)
  }

  /** The file whose i-th block holds the records `groups[i]`; all blocks but the last are padded. */
  ghost function Render(groups: seq<seq<KeyValue>>, blockSize: nat): Bytes
    requires Blocks(groups, blockSize)
  {
    if groups == [] then [] else
      var last := |groups| - 1;
      RenderFull(groups[..last], blockSize) + Block(groups[last])
  }

  function Flatten(groups: seq<seq<KeyValue>>): seq<KeyValue> {
    if groups == [] then [] else Flatten(groups[..|groups| - 1]) + groups[|groups| - 1]
  }

  // ---------- Reading ----------

  predicate AllPadding(s: Bytes) {
    forall i :: 0 <= i < |s| ==> s[i] == 0xFF
  }

  /** A length-prefixed string at the start of `s`. */
  function ReadString(s: Bytes): (r: Result<Bytes>)
    ensures r.Ok? ==> 4 + |r.value| <= |s|
  {
    var length :- Consume(s, 0, 4);
    Consume(s, 4, FromBigEndian(length))
  }

  function ReadKeyValue(s: Bytes): (r: Result<KeyValue>)
    ensures r.Ok? ==> |Encode(r.value)| <= |s|
  {
    var key :- ReadString(s);
    var value :- ReadString(s[4 + |key|..]);
    Ok(KeyValue(key, value))
  }

  /** The records up to the end of data or the padding, which must be 0xFF throughout. */
  function DecodeRecords(s: Bytes): Result<seq<KeyValue>>
    decreases |s|
  {
    if s == [] || s[0] == 0xFF then
      if AllPadding(s) then Ok([]) else Err(CorruptedPadding)
    else
      var kv :- ReadKeyValue(s);
      var rest :- DecodeRecords(s[|Encode(kv)|..]);
      Ok([kv] + rest)
  }

  function DecodeBlock(block: Bytes): Result<seq<KeyValue>> {
    var _ :- CheckHeader(block, BACKUP_AGENT_MLOG_VERSION);
    DecodeRecords(block[4..])
  }

  /** All records of a file, block by block. */
  function DecodeBlocks(file: Bytes, blockSize: nat): Result<seq<KeyValue>>
    decreases |file|
  {
    var len := if blockSize <= |file| then blockSize else |file|;
    if len == 0 then Ok([]) else
      var kvs :- DecodeBlock(file[..len]);
      var rest :- DecodeBlocks(file[len..], blockSize);
      Ok(kvs + rest)
  }

  // ---------- Reading back what was written ----------

  lemma ReadStringBack(s: Bytes, rest: Bytes)
    requires |s| < 0x1_0000_0000
    ensures ReadString(WithLength(s) + rest) == Ok(s)
  {
    var all := WithLength(s) + rest;
    assert all[0..4] == BigEndian(|s|, 4);
    assert Pow256(4) == 0x1_0000_0000;
    BigEndianRoundTrip(|s|, 4);
    assert all[4..4 + |s|] == s;
  }

  lemma ReadKeyValueBack(kv: KeyValue, rest: Bytes)
    requires Fits(kv)
    ensures ReadKeyValue(Encode(kv) + rest) == Ok(kv)
    ensures (Encode(kv) + rest)[0] != 0xFF
  {
    hide ReadString;
    var all := Encode(kv) + rest;
    assert all == WithLength(kv.key) + (WithLength(kv.value) + rest);
    ReadStringBack(kv.key, WithLength(kv.value) + rest);
    assert all[4 + |kv.key|..] == WithLength(kv.value) + rest;
    ReadStringBack(kv.value, rest);
    assert Pow256(4) == 0x1_0000_0000;
    BigEndianTopByte(|kv.key|, 4);
    assert all[0] == BigEndian(|kv.key|, 4)[0];
  }

  lemma {:induction false} DecodeRecordsBack(kvs: seq<KeyValue>, n: nat)
    requires forall i :: 0 <= i < |kvs| ==> Fits(kvs[i])
    ensures DecodeRecords(EncodeAll(kvs) + Padding(n)) == Ok(kvs)
  {
    hide ReadKeyValue, Encode;
    if kvs == [] {
      assert EncodeAll(kvs) + Padding(n) == Padding(n);
    } else {
      var rest := EncodeAll(kvs[1..]) + Padding(n);
      assert EncodeAll(kvs) + Padding(n) == Encode(kvs[0]) + rest;
      ReadKeyValueBack(kvs[0], rest);
      assert (Encode(kvs[0]) + rest)[|Encode(kvs[0])|..] == rest;
      DecodeRecordsBack(kvs[1..], n);
      assert [kvs[0]] + kvs[1..] == kvs;
    }
  }

  lemma DecodeBlockBack(kvs: seq<KeyValue>, n: nat)
    requires forall i :: 0 <= i < |kvs| ==> Fits(kvs[i])
    ensures DecodeBlock(Block(kvs) + Padding(n)) == Ok(kvs)
  {
    hide DecodeRecords, LittleEndian;
    var all := Block(kvs) + Padding(n);
    assert all[0..4] == LittleEndian(BACKUP_AGENT_MLOG_VERSION, 4);
    assert all[4..] == EncodeAll(kvs) + Padding(n);
    DecodeRecordsBack(kvs, n);
  }

  lemma {:induction false} RenderFullLength(groups: seq<seq<KeyValue>>, blockSize: nat)
    requires Blocks(groups, blockSize)
    ensures |RenderFull(groups, blockSize)| == |groups| * blockSize
  {
    hide Padded, Block, Fits;
    if groups != [] {
      var n := |groups|;
      calc {
        |RenderFull(groups, blockSize)|;
        |RenderFull(groups[..n - 1], blockSize)| + |Padded(groups[n - 1], blockSize)|;
        { RenderFullLength(groups[..n - 1], blockSize); }
        (n - 1) * blockSize + blockSize;
        n * blockSize;
      }
    }
  }

  lemma DecodeFirstBlock(block: Bytes, tail: Bytes, blockSize: nat)
    requires |block| == blockSize > 0 && DecodeBlock(block).Ok? && DecodeBlocks(tail, blockSize).Ok?
    ensures DecodeBlocks(block + tail, blockSize)
         == Ok(DecodeBlock(block).value + DecodeBlocks(tail, blockSize).value)
  {
    hide DecodeBlock;
    assert (block + tail)[..blockSize] == block && (block + tail)[blockSize..] == tail;
  }

  lemma {:induction false} DecodeFullBlocks(groups: seq<seq<KeyValue>>, blockSize: nat, tail: Bytes)
    requires Blocks(groups, blockSize) && DecodeBlocks(tail, blockSize).Ok?
    ensures DecodeBlocks(RenderFull(groups, blockSize) + tail, blockSize)
         == Ok(Flatten(groups) + DecodeBlocks(tail, blockSize).value)
  {
    hide DecodeBlocks, DecodeBlock, Block, Padding, Fits;
    var rest := DecodeBlocks(tail, blockSize).value;
    if groups == [] {
      assert RenderFull(groups, blockSize) + tail == tail;
      assert Flatten(groups) + rest == rest;
    } else {
      var last := |groups| - 1;
      var front, g := groups[..last], groups[last];
      DecodeBlockBack(g, blockSize - |Block(g)|);
      DecodeFirstBlock(Padded(g, blockSize), tail, blockSize);
      DecodeFullBlocks(front, blockSize, Padded(g, blockSize) + tail);
      assert RenderFull(front, blockSize) + (Padded(g, blockSize) + tail) == RenderFull(groups, blockSize) + tail;
      assert Flatten(front) + (g + rest) == Flatten(groups) + rest;
    }
  }

  /** Reading a rendered file returns its records, in spite of the padding. */
  lemma DecodeBlocksBack(groups: seq<seq<KeyValue>>, blockSize: nat)
    requires Blocks(groups, blockSize)
    ensures DecodeBlocks(Render(groups, blockSize), blockSize) == Ok(Flatten(groups))
  {
    hide DecodeBlock, RenderFull, Fits;
    if groups != [] {
      var last := |groups| - 1;
      var front, block := groups[..last], Block(groups[last]);
      DecodeBlockBack(groups[last], 0);
      assert block + Padding(0) == block;
      assert block[..|block|] == block && block[|block|..] == [];
      assert DecodeBlocks([], blockSize) == Ok([]);
      assert DecodeBlocks(block, blockSize) == Ok(groups[last] + []);
      assert groups[last] + [] == groups[last];
      DecodeFullBlocks(front, blockSize, block);
    }
  }

  // ---------- What can be read was written ----------

  lemma ReadStringOnly(s: Bytes)
    requires ReadString(s).Ok?
    ensures WithLength(ReadString(s).value) <= s
  {
    var r := ReadString(s).value;
    FromBigEndianBack(s[0..4]);
    assert WithLength(r) == s[0..4] + s[4..4 + |r|];
  }

  lemma ReadKeyValueOnly(s: Bytes)
    requires ReadKeyValue(s).Ok?
    ensures Encode(ReadKeyValue(s).value) <= s
  {
    hide ReadString, WithLength;
    var key := ReadString(s).value;
    ReadStringOnly(s);
    ReadStringOnly(s[4 + |key|..]);
    assert |WithLength(key)| == 4 + |key| by { WithLengthLength(key); }
    assert s == WithLength(key) + s[4 + |key|..];
  }

  lemma WithLengthLength(s: Bytes)
    ensures |WithLength(s)| == 4 + |s|
  {
  }

  /** Bytes that decode are the records they decode to, followed by nothing but padding. */
  lemma {:induction false} DecodeRecordsOnly(s: Bytes)
    requires DecodeRecords(s).Ok?
    ensures exists n :: 0 <= n <= |s| && s == EncodeAll(DecodeRecords(s).value) + Padding(n)
    decreases |s|
  {
    hide ReadKeyValue, Encode;
    if s == [] || s[0] == 0xFF {
      assert s == EncodeAll([]) + Padding(|s|);
    } else {
      var kv := ReadKeyValue(s).value;
      var rest := s[|Encode(kv)|..];
      ReadKeyValueOnly(s);
      DecodeRecordsOnly(rest);
      var kvs := DecodeRecords(rest).value;
      var n :| 0 <= n <= |rest| && rest == EncodeAll(kvs) + Padding(n);
      assert ([kv] + kvs)[1..] == kvs;
      assert s == Encode(kv) + rest == EncodeAll([kv] + kvs) + Padding(n);
    }
  }

  /** A block decodes to records exactly if it is their block, padded or not: a header, the records, and 0xFF only. */
  lemma DecodeBlockIff(block: Bytes, kvs: seq<KeyValue>)
    requires forall i :: 0 <= i < |kvs| ==> Fits(kvs[i])
    ensures DecodeBlock(block) == Ok(kvs) <==> exists n :: 0 <= n <= |block| && block == Block(kvs) + Padding(n)
  {
    hide DecodeRecords, EncodeAll, LittleEndian, Fits;
    if DecodeBlock(block) == Ok(kvs) {
      DecodeRecordsOnly(block[4..]);
      var n :| 0 <= n <= |block[4..]| && block[4..] == EncodeAll(kvs) + Padding(n);
      var header := LittleEndian(BACKUP_AGENT_MLOG_VERSION, 4);
      assert block == header + block[4..];
      assert header + (EncodeAll(kvs) + Padding(n)) == Block(kvs) + Padding(n);
    }
    if n :| 0 <= n <= |block| && block == Block(kvs) + Padding(n) {
      DecodeBlockBack(kvs, n);
    }
  }

  /** The first bytes of a block: the format version, least significant byte first. */
  lemma BlockBegins(kvs: seq<KeyValue>)
    ensures [0xD1, 0x07, 0, 0] <= Block(kvs)
  {
    LittleEndianShort(2001);
  }

  lemma LittleEndianShort(n: nat)
    requires n < 0x10000
    ensures LittleEndian(n, 4) == [n % 256, n / 256, 0, 0]
  {
    assert LittleEndian(n / 256, 3) == [n / 256] + LittleEndian(0, 2);
    assert LittleEndian(0, 2) == [0] + LittleEndian(0, 1);
    assert LittleEndian(0, 1) == [0] + LittleEndian(0, 0);
  }
}
