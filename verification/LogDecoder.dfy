/** The decoder: reads a log file block by block and reassembles the batches of mutations. */
module LogDecoder {

  import opened Options
  import opened ByteStrings
  import opened Readers
  import opened MutationLogFormat
  import opened MutationBatches

  /** `kvs` followed by what `r` holds. */
  ghost function After(kvs: seq<KeyValue>, r: Result<seq<KeyValue>>): Result<seq<KeyValue>> {
    if r.Err? then r else Ok(kvs + r.value)
  }

  /** Decoding the next block moves its records to the front. */
  lemma AfterBlock(kvs: seq<KeyValue>, rest: Bytes, blockSize: nat)
    requires blockSize > 0 && rest != []
    ensures var len := if blockSize <= |rest| then blockSize else |rest|;
            var block := DecodeBlock(rest[..len]);
            if block.Err? then After(kvs, DecodeBlocks(rest, blockSize)).Err?
            else After(kvs, DecodeBlocks(rest, blockSize)) == After(kvs + block.value, DecodeBlocks(rest[len..], blockSize))
  {
    hide DecodeBlock;
    var len := if blockSize <= |rest| then blockSize else |rest|;
    var block, tail := DecodeBlock(rest[..len]), DecodeBlocks(rest[len..], blockSize);
    if block.Ok? && tail.Ok? {
      assert kvs + (block.value + tail.value) == (kvs + block.value) + tail.value;
    }
  }

  /** Records that cannot be added cannot be added with more behind them. */
  lemma {:induction false} AddRecordsFails(f: Format, m: map<int, Accumulated>, a: seq<KeyValue>, b: seq<KeyValue>)
    requires f.hashRange > 0 && AddRecords(f, m, a).Err?
    ensures AddRecords(f, m, a + b).Err?
  {
    hide AddRecord;
    if b == [] {
      assert a + b == a;
    } else {
      AddRecordsFails(f, m, a, b[..|b| - 1]);
      assert (a + b)[..|a + b| - 1] == a + b[..|b| - 1];
    }
  }

  lemma AfterFails(f: Format, kvs: seq<KeyValue>, rest: Result<seq<KeyValue>>)
    requires f.hashRange > 0 && AddRecords(f, map[], kvs).Err?
    ensures After(kvs, rest).Err? || AddRecords(f, map[], After(kvs, rest).value).Err?
  {
    if rest.Ok? { AddRecordsFails(f, map[], kvs, rest.value); }
  }

  /** A batch delivered by the decoder. */
  datatype DecodedBatch = DecodedBatch(version: int, mutations: seq<Mutation>)

  class DecodeProgress {
    const contents: Bytes
    const blockSize: nat
    var offset: nat
    var blocks: seq<seq<KeyValue>>
    var mutationBlocksByVersion: map<int, Accumulated>

    constructor (contents: Bytes, blockSize: nat)
      ensures this.contents == contents && this.blockSize == blockSize
      ensures offset == 0 && blocks == [] && mutationBlocksByVersion == map[]
    {
      this.contents, this.blockSize := contents, blockSize;
      offset, blocks, mutationBlocksByVersion := 0, [], map[];
    }

    method AddBlockKVPairs(f: Format, chunks: seq<KeyValue>) returns (r: Result<()>)
      requires f.hashRange > 0
      modifies this`mutationBlocksByVersion
      ensures r.Ok? <==> AddRecords(f, old(mutationBlocksByVersion), chunks).Ok?
      ensures r.Ok? ==> AddRecords(f, old(mutationBlocksByVersion), chunks) == Ok(mutationBlocksByVersion)
    {
      hide AddRecord;
      for i := 0 to |chunks|
        invariant AddRecords(f, old(mutationBlocksByVersion), chunks[..i]) == Ok(mutationBlocksByVersion)
      {
        assert chunks[..i + 1][..i] == chunks[..i];
        var added := AddRecord(f, mutationBlocksByVersion, chunks[i]);
        if added.Err? {
          AddRecordsFails(f, old(mutationBlocksByVersion), chunks[..i + 1], chunks[i + 1..]);
          assert chunks[..i + 1] + chunks[i + 1..] == chunks;
          return Err(added.error);
        }
        mutationBlocksByVersion := added.value;
      }
      assert chunks[..|chunks|] == chunks;
      return Ok(());
    }

    /** The blocks before `offset` are decoded and their records accumulated. */
    ghost predicate DecodedSoFar(f: Format)
      requires f.hashRange > 0
      reads this
    {
      && offset <= |contents|
      && After(Flatten(blocks), DecodeBlocks(contents[offset..], blockSize)) == DecodeBlocks(contents, blockSize)
      && AddRecords(f, map[], Flatten(blocks)) == Ok(mutationBlocksByVersion)
    }

    method DecodeNextBlock(f: Format, len: nat) returns (r: Result<()>)
      requires f.hashRange > 0 && DecodedSoFar(f)
      requires 0 < len == if blockSize <= |contents| - offset then blockSize else |contents| - offset
      modifies this
      ensures r.Ok? ==> DecodedSoFar(f) && offset == old(offset) + len
      ensures r.Err? ==> DecodeBlocks(contents, blockSize).Err? || AddRecords(f, map[], DecodeBlocks(contents, blockSize).value).Err?
    {
      hide DecodeBlock, DecodeBlocks, AddRecords, After, Flatten;
      ghost var rest, kvs := contents[offset..], Flatten(blocks);
      AfterBlock(kvs, rest, blockSize);
      assert rest[..len] == contents[offset..offset + len] && rest[len..] == contents[offset + len..];
      var chunks := DecodeBlock(contents[offset..offset + len]);
      if chunks.Err? {
        return Err(chunks.error);
      }
      AddRecordsAppend(f, map[], kvs, chunks.value);
      FlattenSnoc(blocks, chunks.value);
      blocks := blocks + [chunks.value];
      r := AddBlockKVPairs(f, chunks.value);
      if r.Err? {
        AfterFails(f, kvs + chunks.value, DecodeBlocks(rest[len..], blockSize));
        return;
      }
      offset := offset + len;
    }

    /** Decodes all blocks and accumulates their records by version. */
    method DecodeFile(f: Format) returns (r: Result<()>)
      requires f.hashRange > 0 && offset == 0 && blocks == [] && mutationBlocksByVersion == map[]
      modifies this
      ensures var kvs := DecodeBlocks(contents, blockSize);
              && (r.Ok? <==> kvs.Ok? && AddRecords(f, map[], kvs.value).Ok?)
              && (r.Ok? ==> Flatten(blocks) == kvs.value && AddRecords(f, map[], kvs.value) == Ok(mutationBlocksByVersion))
    {
      hide DecodeBlock, AddRecords, Flatten;
      Initially(f);
      while true
        invariant DecodedSoFar(f)
        decreases |contents| - offset
      {
        var len := if blockSize <= |contents| - offset then blockSize else |contents| - offset;
        if len == 0 {
          assert DecodeBlocks(contents[offset..], blockSize) == Ok([]);
          assert Flatten(blocks) + [] == Flatten(blocks);
          return Ok(());
        }
        r := DecodeNextBlock(f, len);
        if r.Err? {
          return;
        }
      }
    }

    lemma Initially(f: Format)
      requires f.hashRange > 0 && offset == 0 && blocks == [] && mutationBlocksByVersion == map[]
      ensures DecodedSoFar(f)
    {
      hide DecodeBlocks;
      assert contents[0..] == contents;
      var all := DecodeBlocks(contents, blockSize);
      if all.Ok? { assert [] + all.value == all.value; }
    }

    /** Some complete batch, in no particular order, or none when no batch is complete. */
    method GetNextBatch() returns (r: Result<Option<DecodedBatch>>)
      modifies this`mutationBlocksByVersion
      ensures r.Ok? && r.value.Some? ==>
                var b := r.value.value;
                && b.version in old(mutationBlocksByVersion)
                && IsComplete(old(mutationBlocksByVersion)[b.version]) == Ok(true)
                && DecodeValue(old(mutationBlocksByVersion)[b.version].serialized) == Ok(b.mutations)
                && mutationBlocksByVersion == old(mutationBlocksByVersion) - {b.version}
      ensures r.Ok? && r.value.None? ==>
                && mutationBlocksByVersion == old(mutationBlocksByVersion)
                && forall v :: v in mutationBlocksByVersion ==> IsComplete(mutationBlocksByVersion[v]) == Ok(false)
      ensures r.Err? ==>
                exists v :: v in old(mutationBlocksByVersion) && Malformed(old(mutationBlocksByVersion)[v])
    {
      hide IsComplete, DecodeValue;
      var left := mutationBlocksByVersion.Keys;
      while left != {}
        invariant left <= mutationBlocksByVersion.Keys && mutationBlocksByVersion == old(mutationBlocksByVersion)
        invariant forall v :: v in mutationBlocksByVersion && v !in left ==> IsComplete(mutationBlocksByVersion[v]) == Ok(false)
        decreases left
      {
        EmptyOrMember(left);
        var version :| version in left;
        var m := mutationBlocksByVersion[version];
        var complete := IsComplete(m);
        if complete.Err? {
          return Err(complete.error);
        }
        if complete.value {
          var mutations := DecodeValue(m.serialized);
          if mutations.Err? {
            return Err(mutations.error);
          }
          mutationBlocksByVersion := mutationBlocksByVersion - {version};
          return Ok(Some(DecodedBatch(version, mutations.value)));
        }
        left := left - {version};
      }
      return Ok(None);
    }
  }

  lemma EmptyOrMember(s: set<int>)
    ensures s == {} || exists v :: v in s
  {
    if forall v :: v !in s {
      assert s == {};
    }
  }

  lemma FlattenSnoc(groups: seq<seq<KeyValue>>, g: seq<KeyValue>)
    ensures Flatten(groups + [g]) == Flatten(groups) + g
  {
    assert (groups + [g])[..|groups|] == groups;
  }

  // ---------- All batches of a file ----------

  /** An entry that the decoder fails on. */
  predicate Malformed(a: Accumulated) {
    IsComplete(a).Err? || (IsComplete(a).value && DecodeValue(a.serialized).Err?)
  }

  /** The batch is the complete entry of its version, decoded. */
  ghost predicate BatchFrom(b: DecodedBatch, m: map<int, Accumulated>) {
    b.version in m && IsComplete(m[b.version]) == Ok(true) && DecodeValue(m[b.version].serialized) == Ok(b.mutations)
  }

  /** The batches are exactly the complete entries, each once. */
  ghost predicate Delivers(batches: seq<DecodedBatch>, m: map<int, Accumulated>) {
    && (forall i, j :: 0 <= i < j < |batches| ==> batches[i].version != batches[j].version)
    && (forall i :: 0 <= i < |batches| ==> BatchFrom(batches[i], m))
    && (forall v :: v in m ==> IsComplete(m[v]) == Ok(false) || exists i :: 0 <= i < |batches| && batches[i].version == v)
  }

  /** `left` is what is left of `m` after the batches were taken out. */
  ghost predicate Taking(batches: seq<DecodedBatch>, m: map<int, Accumulated>, left: map<int, Accumulated>) {
    && (forall i, j :: 0 <= i < j < |batches| ==> batches[i].version != batches[j].version)
    && (forall i :: 0 <= i < |batches| ==> BatchFrom(batches[i], m) && batches[i].version !in left)
    && (forall v :: v in left ==> v in m && left[v] == m[v])
    && (forall v :: v in m ==> v in left || exists i :: 0 <= i < |batches| && batches[i].version == v)
  }

  lemma TakingNext(batches: seq<DecodedBatch>, m: map<int, Accumulated>, left: map<int, Accumulated>, b: DecodedBatch)
    requires Taking(batches, m, left) && BatchFrom(b, left)
    ensures Taking(batches + [b], m, left - {b.version})
  {
    var more := batches + [b];
    forall v | v in m ensures v in left - {b.version} || exists i :: 0 <= i < |more| && more[i].version == v {
      if v == b.version {
        assert more[|batches|].version == v;
      } else if v !in left {
        var i :| 0 <= i < |batches| && batches[i].version == v;
        assert more[i].version == v;
      }
    }
  }

  /**
   * Asks for batches until there is none: each complete batch comes out exactly once, and incomplete ones stay.  It
   * fails only if an entry is malformed.
   */
  method AllBatches(progress: DecodeProgress) returns (r: Result<seq<DecodedBatch>>)
    modifies progress`mutationBlocksByVersion
    ensures r.Ok? ==> Delivers(r.value, old(progress.mutationBlocksByVersion))
    ensures r.Ok? ==> Taking(r.value, old(progress.mutationBlocksByVersion), progress.mutationBlocksByVersion)
    ensures r.Err? ==> exists v :: v in old(progress.mutationBlocksByVersion) && Malformed(old(progress.mutationBlocksByVersion)[v])
  {
    hide IsComplete, DecodeValue, BatchFrom;
    var batches: seq<DecodedBatch> := [];
    ghost var all := progress.mutationBlocksByVersion;
    while true
      invariant Taking(batches, all, progress.mutationBlocksByVersion)
      decreases progress.mutationBlocksByVersion.Keys
    {
      ghost var before := progress.mutationBlocksByVersion;
      var next := progress.GetNextBatch();
      if next.Err? {
        ghost var v :| v in before && Malformed(before[v]);
        assert v in all && all[v] == before[v];
        return Err(next.error);
      }
      if next.value.None? {
        return Ok(batches);
      }
      var b := next.value.value;
      assert BatchFrom(b, before) by { FromEntry(b, before); }
      TakingNext(batches, all, before, b);
      batches := batches + [b];
    }
  }

  lemma FromEntry(b: DecodedBatch, m: map<int, Accumulated>)
    requires b.version in m && IsComplete(m[b.version]) == Ok(true) && DecodeValue(m[b.version].serialized) == Ok(b.mutations)
    ensures BatchFrom(b, m)
  {
  }

  /** Every entry is a complete batch that decodes; `expected` are its mutations, by version. */
  ghost predicate Complete(m: map<int, Accumulated>, expected: map<int, seq<Mutation>>) {
    && m.Keys == expected.Keys
    && forall v :: v in m ==> IsComplete(m[v]) == Ok(true) && DecodeValue(m[v].serialized) == Ok(expected[v])
  }

  /** The batches as a map, with no version twice. */
  ghost predicate ListsBatches(batches: seq<DecodedBatch>, byVersion: map<int, seq<Mutation>>) {
    && (forall i, j :: 0 <= i < j < |batches| ==> batches[i].version != batches[j].version)
    && (forall i :: 0 <= i < |batches| ==> batches[i].version in byVersion && byVersion[batches[i].version] == batches[i].mutations)
    && (forall v :: v in byVersion ==> exists i :: 0 <= i < |batches| && batches[i].version == v)
  }

  /** Complete entries are not malformed, and delivering them delivers what was expected. */
  lemma DeliversExpected(batches: seq<DecodedBatch>, m: map<int, Accumulated>, expected: map<int, seq<Mutation>>)
    requires Complete(m, expected)
    ensures forall v :: v in m ==> !Malformed(m[v])
    ensures Delivers(batches, m) ==> ListsBatches(batches, expected)
  {
    hide IsComplete, DecodeValue;
    assert forall v :: v in expected ==> v in m;
  }
}
