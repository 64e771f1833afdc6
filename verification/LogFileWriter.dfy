/** The writer of the converter's output: records into blocks, batches of mutations into records. */
module LogFileWriters {

  import opened ByteStrings
  import opened Readers
  import opened BackupFiles
  import opened MutationLogFormat
  import opened MutationBatches

  // ---------- Adding one record to a rendered file ----------

  lemma {:induction false} EncodeAllSnoc(kvs: seq<KeyValue>, kv: KeyValue)
    ensures EncodeAll(kvs + [kv]) == EncodeAll(kvs) + Encode(kv)
  {
    hide Encode;
    if kvs == [] {
      assert kvs + [kv] == [kv] && [kv][1..] == [];
      assert EncodeAll([]) == [];
    } else {
      EncodeAllSnoc(kvs[1..], kv);
      assert (kvs + [kv])[1..] == kvs[1..] + [kv];
    }
  }

  /** The groups with `kv` added to the last one. */
  function AddToLast(groups: seq<seq<KeyValue>>, kv: KeyValue): seq<seq<KeyValue>>
    requires groups != []
  {
    groups[..|groups| - 1] + [groups[|groups| - 1] + [kv]]
  }

  lemma RenderAddToLast(groups: seq<seq<KeyValue>>, kv: KeyValue, blockSize: nat)
    requires Blocks(groups, blockSize) && groups != [] && Fits(kv)
    requires |Block(groups[|groups| - 1])| + |Encode(kv)| <= blockSize
    ensures Blocks(AddToLast(groups, kv), blockSize)
    ensures Render(AddToLast(groups, kv), blockSize) == Render(groups, blockSize) + Encode(kv)
    ensures Flatten(AddToLast(groups, kv)) == Flatten(groups) + [kv]
  {
    hide Encode, Fits, RenderFull, EncodeAll;
    var last := |groups| - 1;
    var g := groups[last];
    EncodeAllSnoc(g, kv);
    assert Block(g + [kv]) == Block(g) + Encode(kv);
    var more := AddToLast(groups, kv);
    assert more[..last] == groups[..last] && more[last] == g + [kv];
  }

  lemma RenderNewBlock(groups: seq<seq<KeyValue>>, kv: KeyValue, blockSize: nat)
    requires Blocks(groups, blockSize) && Fits(kv) && 4 + |Encode(kv)| <= blockSize
    ensures Blocks(groups + [[kv]], blockSize)
    ensures Render(groups + [[kv]], blockSize) == RenderFull(groups, blockSize) + Block([kv])
    ensures Flatten(groups + [[kv]]) == Flatten(groups) + [kv]
  {
    hide Encode, Fits, RenderFull, EncodeAll;
    BlockOfOne(kv);
    var more := groups + [[kv]];
    assert more[..|groups|] == groups;
  }

  lemma BlockOfOne(kv: KeyValue)
    ensures Block([kv]) == LittleEndian(BACKUP_AGENT_MLOG_VERSION, 4) + Encode(kv)
  {
    assert EncodeAll([kv]) == Encode(kv) + EncodeAll([]);
  }

  /** How far a rendered file reaches into its last block, and what padding makes of it. */
  lemma Fill(groups: seq<seq<KeyValue>>, blockSize: nat)
    requires Blocks(groups, blockSize)
    ensures var file := Render(groups, blockSize);
            && |file| <= |groups| * blockSize
            && |RenderFull(groups, blockSize)| == |groups| * blockSize
            && RenderFull(groups, blockSize) == file + Padding(|groups| * blockSize - |file|)
            && (groups != [] ==>
                  |groups| * blockSize - |file| == blockSize - |Block(groups[|groups| - 1])|)
            && |groups| * blockSize - |file| <= (if blockSize >= 4 then blockSize - 4 else 0)
  {
    hide Block;
    RenderFullLength(groups, blockSize);
    if groups != [] {
      var last := |groups| - 1;
      RenderFullLength(groups[..last], blockSize);
      assert last * blockSize + blockSize == |groups| * blockSize;
    }
  }

  lemma AddedRecord(groups: seq<seq<KeyValue>>, kv: KeyValue, blockSize: nat)
    requires Blocks(groups, blockSize) && Fits(kv)
    requires |Render(groups, blockSize)| + |Encode(kv)| <= |groups| * blockSize
    ensures groups != []
    ensures var more := AddToLast(groups, kv);
            && Blocks(more, blockSize) && |more| == |groups|
            && Render(more, blockSize) == Render(groups, blockSize) + Encode(kv)
            && Flatten(more) == Flatten(groups) + [kv]
  {
    hide Render, Block, Fits;
    Fill(groups, blockSize);
    RenderAddToLast(groups, kv, blockSize);
  }

  lemma AddedBlock(groups: seq<seq<KeyValue>>, kv: KeyValue, blockSize: nat)
    requires Blocks(groups, blockSize) && Fits(kv) && 4 + |Encode(kv)| <= blockSize
    ensures var more := groups + [[kv]];
            && Blocks(more, blockSize) && |more| * blockSize == |groups| * blockSize + blockSize
            && Render(more, blockSize)
               == RenderFull(groups, blockSize) + LittleEndian(BACKUP_AGENT_MLOG_VERSION, 4) + Encode(kv)
            && Flatten(more) == Flatten(groups) + [kv]
  {
    hide RenderFull, Render, LittleEndian, Fits;
    RenderNewBlock(groups, kv, blockSize);
    BlockOfOne(kv);
    assert RenderFull(groups, blockSize) + (LittleEndian(BACKUP_AGENT_MLOG_VERSION, 4) + Encode(kv))
        == RenderFull(groups, blockSize) + LittleEndian(BACKUP_AGENT_MLOG_VERSION, 4) + Encode(kv);
    assert (|groups| + 1) * blockSize == |groups| * blockSize + blockSize;
  }

  // ---------- Blocks are filled ----------

  /** No block is empty, and none had room for the first record of the next. */
  ghost predicate Packed(groups: seq<seq<KeyValue>>, blockSize: nat) {
    && (forall i :: 0 <= i < |groups| ==> groups[i] != [])
    && forall i :: 0 <= i < |groups| - 1 ==> |Block(groups[i])| + |Encode(groups[i + 1][0])| > blockSize
  }

  lemma PackedAddToLast(groups: seq<seq<KeyValue>>, kv: KeyValue, blockSize: nat)
    requires Packed(groups, blockSize) && groups != []
    ensures Packed(AddToLast(groups, kv), blockSize)
  {
    hide Block, Encode;
    var more, last := AddToLast(groups, kv), |groups| - 1;
    forall i | 0 <= i < |more| ensures more[i] != [] && (i < last ==> more[i] == groups[i]) && more[i][0] == groups[i][0] {
      if i == last { assert more[i] == groups[i] + [kv]; }
    }
  }

  lemma PackedNewBlock(groups: seq<seq<KeyValue>>, kv: KeyValue, blockSize: nat)
    requires Packed(groups, blockSize)
    requires groups != [] ==> |Block(groups[|groups| - 1])| + |Encode(kv)| > blockSize
    ensures Packed(groups + [[kv]], blockSize)
  {
    hide Block, Encode;
    var more := groups + [[kv]];
    forall i | 0 <= i < |more| ensures more[i] == if i < |groups| then groups[i] else [kv] {}
  }

  lemma {:induction false} FlattenFront(g: seq<KeyValue>, groups: seq<seq<KeyValue>>)
    ensures Flatten([g] + groups) == g + Flatten(groups)
  {
    if groups == [] {
      assert [g] + groups == [g] && [g][..0] == [] && Flatten([]) == [];
      assert [] + g == g + [];
    } else {
      var last := |groups| - 1;
      FlattenFront(g, groups[..last]);
      assert ([g] + groups)[..last + 1] == [g] + groups[..last];
      assert g + (Flatten(groups[..last]) + groups[last]) == g + Flatten(groups[..last]) + groups[last];
    }
  }

  lemma {:induction false} BlockGrows(g: seq<KeyValue>, n: nat)
    requires n < |g|
    ensures |Block(g)| >= |Block(g[..n])| + |Encode(g[n])|
  {
    hide Encode;
    if n > 0 {
      BlockGrows(g[1..], n - 1);
      assert g[..n][1..] == g[1..][..n - 1] && g[..n][0] == g[0];
    } else {
      assert g[..0] == [] && EncodeAll([]) == [];
    }
  }

  /** A first block that is longer than that of packed groups of the same records is too long. */
  lemma LongerFirst(groups: seq<seq<KeyValue>>, b: seq<KeyValue>, rest: seq<KeyValue>, blockSize: nat)
    requires Packed(groups, blockSize) && groups != [] && |groups[0]| < |b| && Flatten(groups) == b + rest
    ensures |Block(b)| > blockSize
  {
    hide Block, Encode, Packed;
    var a, more := groups[0], groups[1..];
    assert groups == [a] + more;
    FlattenFront(a, more);
    assert b[..|a|] == (b + rest)[..|a|] == (a + Flatten(more))[..|a|] == a;
    SecondGroup(groups, blockSize);
    FlattenFront(more[0], more[1..]);
    assert more == [more[0]] + more[1..];
    assert (a + Flatten(more))[|a|] == Flatten(more)[0] == more[0][0];
    assert (b + rest)[|a|] == b[|a|];
    BlockGrows(b, |a|);
  }

  lemma SecondGroup(groups: seq<seq<KeyValue>>, blockSize: nat)
    requires Packed(groups, blockSize) && groups != [] && |Flatten(groups)| > |groups[0]|
    ensures |groups| > 1 && groups[1] != [] && |Block(groups[0])| + |Encode(groups[1][0])| > blockSize
  {
    hide Block, Encode;
  }

  /** There is one way to pack records into blocks: the file is determined by its records and the block size. */
  lemma {:induction false} PackedUnique(groups: seq<seq<KeyValue>>, other: seq<seq<KeyValue>>, blockSize: nat)
    requires Blocks(groups, blockSize) && Packed(groups, blockSize)
    requires Blocks(other, blockSize) && Packed(other, blockSize)
    requires Flatten(groups) == Flatten(other)
    ensures groups == other
  {
    hide Block, Encode, Fits, Flatten, Packed;
    NothingFlat(groups, blockSize);
    NothingFlat(other, blockSize);
    if groups != [] {
      var a, more := groups[0], groups[1..];
      var b, rest := other[0], other[1..];
      assert groups == [a] + more && other == [b] + rest;
      FlattenFront(a, more);
      FlattenFront(b, rest);
      if |a| < |b| { LongerFirst(groups, b, Flatten(rest), blockSize); }
      if |b| < |a| { LongerFirst(other, a, Flatten(more), blockSize); }
      assert a == Flatten(groups)[..|a|] == b;
      assert Flatten(more) == Flatten(groups)[|a|..] == Flatten(rest);
      PackedTail(groups, blockSize);
      PackedTail(other, blockSize);
      PackedUnique(more, rest, blockSize);
    }
  }

  /** The file of the records: packed into blocks, all but the last filled up. */
  ghost predicate PackedFile(contents: Bytes, kvs: seq<KeyValue>, blockSize: nat) {
    exists groups :: Blocks(groups, blockSize) && Packed(groups, blockSize) && Flatten(groups) == kvs && contents == Render(groups, blockSize)
  }

  lemma PackedFileUnique(a: Bytes, b: Bytes, kvs: seq<KeyValue>, blockSize: nat)
    requires PackedFile(a, kvs, blockSize) && PackedFile(b, kvs, blockSize)
    ensures a == b
  {
    hide Blocks, Packed, Flatten, Render;
    var g :| Blocks(g, blockSize) && Packed(g, blockSize) && Flatten(g) == kvs && a == Render(g, blockSize);
    var h :| Blocks(h, blockSize) && Packed(h, blockSize) && Flatten(h) == kvs && b == Render(h, blockSize);
    PackedUnique(g, h, blockSize);
  }

  lemma PackedTail(groups: seq<seq<KeyValue>>, blockSize: nat)
    requires Packed(groups, blockSize) && Blocks(groups, blockSize) && groups != []
    ensures Packed(groups[1..], blockSize) && Blocks(groups[1..], blockSize)
  {
    hide Block, Encode, Fits;
    var more := groups[1..];
    forall i | 0 <= i < |more| ensures more[i] == groups[i + 1] {}
  }

  lemma NothingFlat(groups: seq<seq<KeyValue>>, blockSize: nat)
    requires Packed(groups, blockSize)
    ensures groups == [] <==> Flatten(groups) == []
  {
    if groups != [] { assert groups[|groups| - 1] != []; }
  }

  /** A length in network order, then the bytes. */
  method AppendStringWithLen(file: BackupFile, s: Bytes)
    requires file.Valid()
    modifies file
    ensures file.Valid() && file.appended == old(file.appended) + WithLength(s)
  {
    hide BackupFile.Valid, BackupFile.InBlocks;
    file.Append(BigEndian(|s|, 4));
    file.Append(s);
  }

  method AppendRecord(file: BackupFile, kv: KeyValue)
    requires file.Valid()
    modifies file
    ensures file.Valid() && file.appended == old(file.appended) + Encode(kv)
  {
    hide WithLength, BackupFile.Valid, BackupFile.InBlocks;
    AppendStringWithLen(file, kv.key);
    AppendStringWithLen(file, kv.value);
  }

  /** What a record of one part takes in a new block besides the part: header, lengths and key. */
  const RECORD_OVERHEAD := 25

  /** The parts of `value` numbered `part` and up. */
  ghost function RemainingParts(f: Format, version: int, part: nat, value: Bytes): seq<KeyValue>
    requires f.partSize > 0 && f.hashRange > 0
  {
    Parts(f, version, part, if part * f.partSize <= |value| then value[part * f.partSize..] else [])
  }

  lemma FirstPart(f: Format, version: int, value: Bytes)
    requires ValidFormat(f)
    ensures f.partSize > 0 && f.hashRange > 0 && 0 * f.partSize == 0
    ensures [] + RemainingParts(f, version, 0, value) == Parts(f, version, 0, value)
  {
    assert value[0..] == value;
  }

  lemma LastPart(f: Format, version: int, part: nat, value: Bytes)
    requires f.partSize > 0 && f.hashRange > 0 && part * f.partSize >= |value|
    ensures RemainingParts(f, version, part, value) == []
  {
  }

  lemma NextPart(f: Format, version: int, part: nat, value: Bytes, kv: KeyValue)
    requires ValidFormat(f) && part * f.partSize < |value| < PARTS_LIMIT
    requires var start := part * f.partSize;
             kv == KeyValue(BlockKey(f, version, part), value[start..start + PartLength(f, value[start..])])
    ensures RemainingParts(f, version, part, value) == [kv] + RemainingParts(f, version, part + 1, value)
    ensures Fits(kv) && (part == 0 ==> |kv.value| == PartLength(f, value)) && |kv.value| <= PartLength(f, value)
    ensures 4 + |Encode(kv)| == RECORD_OVERHEAD + |kv.value|
    ensures (part + 1) * f.partSize == part * f.partSize + f.partSize
  {
    var start := part * f.partSize;
    var n := PartLength(f, value[start..]);
    assert (part + 1) * f.partSize == start + f.partSize;
    assert value[start..][..n] == value[start..start + n];
    if start + f.partSize <= |value| {
      assert value[start..][n..] == value[start + f.partSize..];
    } else {
      assert value[start..][n..] == [];
    }
  }

  // ---------- The writer ----------

  class LogFileWriter {
    const file: BackupFile
    const blockSize: nat
    var blockEnd: nat
    ghost var groups: seq<seq<KeyValue>> // the records written, block by block

    constructor (file: BackupFile, blockSize: nat)
      requires file.Valid() && file.appended == []
      ensures this.file == file && this.blockSize == blockSize
      ensures Valid() && Written() == []
    {
      this.file, this.blockSize, blockEnd, groups := file, blockSize, 0, [];
    }

    /** The file is made of whole blocks and a last one that ends at most at `blockEnd`, all of them packed. */
    ghost predicate Valid() reads this, file {
      && file.Valid()
      && Blocks(groups, blockSize)
      && Packed(groups, blockSize)
      && file.appended == Render(groups, blockSize)
      && blockEnd == |groups| * blockSize
    }

    ghost function Written(): seq<KeyValue> reads this {
      Flatten(groups)
    }

    /** Fills up the current block with 0xFF and writes the header of the next. */
    method StartBlock()
      requires Valid()
      modifies this`blockEnd, file
      ensures file.Valid() && blockEnd == old(blockEnd) + blockSize
      ensures file.appended == RenderFull(groups, blockSize) + LittleEndian(BACKUP_AGENT_MLOG_VERSION, 4)
    {
      hide Padding, LittleEndian, BackupFile.Valid, Render, RenderFull;
      Fill(groups, blockSize);
      var bytesLeft := blockEnd - file.Size();
      if bytesLeft > 0 {
        file.Append(Padding(bytesLeft));
      }
      blockEnd := blockEnd + blockSize;
      file.Append(LittleEndian(BACKUP_AGENT_MLOG_VERSION, 4));
    }

    /** Adds a record, in a new block if the current one has no room for it. */
    method WriteKV(kv: KeyValue) returns (r: Result<()>)
      requires Valid() && Fits(kv)
      modifies this, file
      ensures r.Ok? <==> 4 + |Encode(kv)| <= blockSize
      ensures r.Ok? ==> Valid() && Written() == old(Written()) + [kv]
      ensures r.Err? ==> r.error == BadBlockSize
    {
      hide Encode, Block, LittleEndian, Fits, BackupFile.Valid, Render, RenderFull, Packed;
      Fill(groups, blockSize);
      var toWrite := 4 + |kv.key| + 4 + |kv.value|;
      var newBlock := file.Size() + toWrite > blockEnd;
      if newBlock {
        StartBlock();
      }
      AppendRecord(file, kv);
      if file.Size() > blockEnd {
        return Err(BadBlockSize);
      }
      if newBlock {
        AddedBlock(groups, kv, blockSize);
        PackedNewBlock(groups, kv, blockSize);
        groups := groups + [[kv]];
      } else {
        AddedRecord(groups, kv, blockSize);
        PackedAddToLast(groups, kv, blockSize);
        groups := AddToLast(groups, kv);
      }
      return Ok(());
    }

    /** Serializes a batch and writes it in numbered parts; fails exactly when the first part is too long for a block. */
    method AddMutation(f: Format, version: int, ms: seq<Mutation>) returns (r: Result<()>)
      requires Valid() && ValidFormat(f) && |Serialize(f, ms)| < PARTS_LIMIT
      modifies this, file
      ensures r.Ok? <==> RECORD_OVERHEAD + PartLength(f, Serialize(f, ms)) <= blockSize
      ensures r.Ok? ==> Valid() && Written() == old(Written()) + Parts(f, version, 0, Serialize(f, ms))
      ensures r.Err? ==> r.error == BadBlockSize
    {
      hide LogFileWriter.Valid, Serialize, Flatten, BlockKey, RemainingParts, Fits, Encode, ValidFormat;
      var value := Serialize(f, ms);
      var part := 0;
      ghost var done: seq<KeyValue>, pos := [], 0;
      FirstPart(f, version, value);
      while part * f.partSize < |value|
        invariant Valid()
        invariant 0 <= part && pos == part * f.partSize <= |value| + f.partSize
        invariant Written() == old(Written()) + done
        invariant done + RemainingParts(f, version, part, value) == Parts(f, version, 0, value)
        invariant part > 0 ==> RECORD_OVERHEAD + PartLength(f, value) <= blockSize
        decreases |value| + f.partSize - pos
      {
        var start := part * f.partSize;
        var length := if |value| - start <= f.partSize then |value| - start else f.partSize;
        var kv := KeyValue(BlockKey(f, version, part), value[start..start + length]);
        NextPart(f, version, part, value, kv);
        r := WriteKV(kv);
        if r.Err? {
          return;
        }
        assert done + [kv] + RemainingParts(f, version, part + 1, value) == done + ([kv] + RemainingParts(f, version, part + 1, value));
        done, pos := done + [kv], pos + f.partSize;
        part := part + 1;
      }
      LastPart(f, version, part, value);
      return Ok(());
    }
  }
}
