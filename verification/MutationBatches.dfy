/**
 * Batches of mutations of one version: their serialized form, its division into numbered
 * parts, and the accumulation of the parts on the reading side.
 */
module MutationBatches {

  import opened Arithmetic
  import opened ByteStrings
  import opened Readers
  import opened MutationLogFormat

  datatype Mutation = Mutation(kind: Byte, param1: Bytes, param2: Bytes)

  /** The knobs of the format: part size, versions per hash value, protocol version, hash function. */
  datatype Format = Format(partSize: nat, hashRange: nat, protocol: nat, hash: int -> Byte)

  const MIN_PROTOCOL := 0x0FDB_00A2_0009_0001
  const PARTS_LIMIT := 0x8000_0000

  predicate ValidFormat(f: Format) {
    && 0 < f.partSize < 0x8000_0000
    && 0 < f.hashRange
    && MIN_PROTOCOL < f.protocol < 0x8000_0000_0000_0000
  }

  // ---------- Keys ----------

  /** The value left after storing `n` in an `int32_t`. */
  function Int32(n: int): int {
    Signed(n % 0x1_0000_0000, 4)
  }

  function HashByte(f: Format, version: int): Byte
    requires f.hashRange > 0
  {
    f.hash(Int32(Quotient(version, f.hashRange)))
  }

  /** `hash|version|part` */
  function BlockKey(f: Format, version: int, part: nat): (key: Bytes)
    requires f.hashRange > 0
    ensures |key| == 13
  {
    [HashByte(f, version)] + BigEndian(Unsigned(version, 8), 8) + BigEndian(part, 4)
  }

  function DecodeKey(f: Format, key: Bytes): Result<(int, int)>
    requires f.hashRange > 0
  {
    if |key| != 13 then Err(BadLogKey) else
      var version := Signed(FromBigEndian(key[1..9]), 8);
      var part := Signed(FromBigEndian(key[9..]), 4);
      if key[0] != HashByte(f, version) then Err(BadLogKey) else Ok((version, part))
  }

  lemma DecodeKeyBack(f: Format, version: int, part: nat)
    requires f.hashRange > 0 && IsVersion(version) && part < PARTS_LIMIT
    ensures DecodeKey(f, BlockKey(f, version, part)) == Ok((version, part))
  {
    hide HashByte;
    var key := BlockKey(f, version, part);
    assert key[1..9] == BigEndian(Unsigned(version, 8), 8) && key[9..] == BigEndian(part, 4);
    Pow256Values();
    SignedBack(version, 8);
    BigEndianRoundTrip(Unsigned(version, 8), 8);
    BigEndianRoundTrip(part, 4);
  }

  /** A key of a part, as a 32-bit integer that may be negative in keys that no writer makes. */
  ghost predicate IsKey(f: Format, key: Bytes, version: int, part: int)
    requires f.hashRange > 0
  {
    && IsVersion(version) && -0x8000_0000 <= part < 0x8000_0000
    && key == [HashByte(f, version)] + BigEndian(Unsigned(version, 8), 8) + BigEndian(Unsigned(part, 4), 4)
  }

  /** A key decodes exactly if it is the key of a part, with the right hash. */
  lemma DecodeKeyIff(f: Format, key: Bytes, version: int, part: int)
    requires f.hashRange > 0
    ensures DecodeKey(f, key) == Ok((version, part)) <==> IsKey(f, key, version, part)
  {
    hide HashByte;
    Pow256Values();
    if DecodeKey(f, key) == Ok((version, part)) {
      KeyFields(key);
      UnsignedBack(FromBigEndian(key[1..9]), 8);
      UnsignedBack(FromBigEndian(key[9..]), 4);
    }
    if IsKey(f, key, version, part) {
      assert key[1..9] == BigEndian(Unsigned(version, 8), 8) && key[9..] == BigEndian(Unsigned(part, 4), 4);
      BigEndianRoundTrip(Unsigned(version, 8), 8);
      BigEndianRoundTrip(Unsigned(part, 4), 4);
      SignedBack(version, 8);
      SignedBack(part, 4);
    }
  }

  lemma KeyFields(key: Bytes)
    requires |key| == 13
    ensures key == [key[0]] + BigEndian(FromBigEndian(key[1..9]), 8) + BigEndian(FromBigEndian(key[9..]), 4)
  {
    FromBigEndianBack(key[1..9]);
    FromBigEndianBack(key[9..]);
  }

  /** All versions of a range of `hashRange` versions have the hash of the number of that range, as a 32-bit integer. */
  lemma HashOfRange(f: Format, range: nat, version: int, wrapped: int)
    requires f.hashRange > 0 && f.hashRange * range <= version < f.hashRange * range + f.hashRange
    requires -0x8000_0000 <= wrapped < 0x8000_0000 && (range - wrapped) % 0x1_0000_0000 == 0
    ensures HashByte(f, version) == f.hash(wrapped)
  {
    hide Int32;
    Scale(f.hashRange, 0, range);
    QuotientBounds(version, f.hashRange, range);
    Int32Wraps(range, wrapped);
  }

  lemma Int32Wraps(n: int, wrapped: int)
    requires -0x8000_0000 <= wrapped < 0x8000_0000 && (n - wrapped) % 0x1_0000_0000 == 0
    ensures Int32(n) == wrapped
  {
    assert n % 0x1_0000_0000 == wrapped % 0x1_0000_0000;
    hide Pow256;
    Pow256Values();
  }

  /** The keys of one version sort bytewise in part order. */
  lemma PartKeysSort(f: Format, version: int, p: nat, q: nat)
    requires f.hashRange > 0 && p < q < PARTS_LIMIT
    ensures Less(BlockKey(f, version, p), BlockKey(f, version, q))
  {
    Pow256Values();
    BigEndianOrder(p, q, 4);
    LessAfterCommonPrefix([HashByte(f, version)] + BigEndian(Unsigned(version, 8), 8), BigEndian(p, 4), BigEndian(q, 4));
  }

  // ---------- Values ----------

  function EncodeMutation(m: Mutation): (r: Bytes)
    ensures |r| == 12 + |m.param1| + |m.param2|
  {
    LittleEndian(m.kind, 4) + LittleEndian(|m.param1|, 4) + LittleEndian(|m.param2|, 4) + m.param1 + m.param2
  }

  function EncodeMutations(ms: seq<Mutation>): Bytes {
    if ms == [] then [] else EncodeMutations(ms[..|ms| - 1]) + EncodeMutation(ms[|ms| - 1])
  }

  const VALUE_HEADER := 12

  /** `MutationListRef` with its protocol version and total length in front. */
  function Serialize(f: Format, ms: seq<Mutation>): (r: Bytes)
    ensures |r| == VALUE_HEADER + |EncodeMutations(ms)|
  {
    LittleEndian(f.protocol, 8) + LittleEndian(|EncodeMutations(ms)|, 4) + EncodeMutations(ms)
  }

  function ReadMutation(s: Bytes): (r: Result<Mutation>)
    ensures r.Ok? ==> 12 + |r.value.param1| + |r.value.param2| <= |s|
  {
    var kind :- Consume(s, 0, 4);
    var len1 :- Consume(s, 4, 4);
    var len2 :- Consume(s, 8, 4);
    var param1 :- Consume(s, 12, FromLittleEndian(len1));
    var param2 :- Consume(s, 12 + |param1|, FromLittleEndian(len2));
    Ok(Mutation(FromLittleEndian(kind) % 256, param1, param2))
  }

  function ReadMutations(s: Bytes): Result<seq<Mutation>>
    decreases |s|
  {
    if s == [] then Ok([]) else
      var m :- ReadMutation(s);
      var rest :- ReadMutations(s[12 + |m.param1| + |m.param2|..]);
      Ok([m] + rest)
  }

  /** The protocol version, which must be recent enough, then the declared length. */
  function DeclaredLength(value: Bytes): (r: Result<nat>)
    ensures r.Ok? ==> |value| >= VALUE_HEADER
  {
    var protocol :- Consume(value, 0, 8);
    if Signed(FromLittleEndian(protocol), 8) <= MIN_PROTOCOL then Err(IncompatibleProtocol) else
      var length :- Consume(value, 8, 4);
      Ok(FromLittleEndian(length))
  }

  /** A length that differs from the declared one is only traced, so it does not matter here. */
  function DecodeValue(value: Bytes): Result<seq<Mutation>> {
    var _ :- DeclaredLength(value);
    ReadMutations(value[VALUE_HEADER..])
  }

  lemma ReadMutationBack(m: Mutation, rest: Bytes)
    requires |m.param1| < 0x1_0000_0000 && |m.param2| < 0x1_0000_0000
    ensures ReadMutation(EncodeMutation(m) + rest) == Ok(m)
  {
    var all := EncodeMutation(m) + rest;
    Pow256Values();
    assert all[0..4] == LittleEndian(m.kind, 4);
    assert all[4..8] == LittleEndian(|m.param1|, 4);
    assert all[8..12] == LittleEndian(|m.param2|, 4);
    LittleEndianRoundTrip(m.kind, 4);
    LittleEndianRoundTrip(|m.param1|, 4);
    LittleEndianRoundTrip(|m.param2|, 4);
    assert all[12..12 + |m.param1|] == m.param1;
    assert all[12 + |m.param1|..12 + |m.param1| + |m.param2|] == m.param2;
  }

  lemma ReadMutationsCons(m: Mutation, tail: Bytes)
    requires |m.param1| < 0x1_0000_0000 && |m.param2| < 0x1_0000_0000 && ReadMutations(tail).Ok?
    ensures ReadMutations(EncodeMutation(m) + tail) == Ok([m] + ReadMutations(tail).value)
  {
    hide ReadMutation, EncodeMutation;
    ReadMutationBack(m, tail);
    assert (EncodeMutation(m) + tail)[12 + |m.param1| + |m.param2|..] == tail;
  }

  lemma {:induction false} ReadMutationsBack(ms: seq<Mutation>, tail: Bytes)
    requires |EncodeMutations(ms)| < 0x1_0000_0000 && ReadMutations(tail).Ok?
    ensures ReadMutations(EncodeMutations(ms) + tail) == Ok(ms + ReadMutations(tail).value)
  {
    hide ReadMutations, EncodeMutation;
    var rest := ReadMutations(tail).value;
    if ms == [] {
      assert EncodeMutations(ms) + tail == tail && ms + rest == rest;
    } else {
      var front, m := ms[..|ms| - 1], ms[|ms| - 1];
      ReadMutationsCons(m, tail);
      var more := EncodeMutation(m) + tail;
      ReadMutationsBack(front, more);
      assert EncodeMutations(front) + more == EncodeMutations(ms) + tail;
      assert front + ([m] + rest) == ms + rest;
    }
  }

  /** The declared length of a serialized list is its length, and decoding returns the list. */
  lemma DecodeValueBack(f: Format, ms: seq<Mutation>)
    requires MIN_PROTOCOL < f.protocol < 0x8000_0000_0000_0000 && |EncodeMutations(ms)| < 0x1_0000_0000
    ensures DeclaredLength(Serialize(f, ms)) == Ok(|EncodeMutations(ms)|)
    ensures DecodeValue(Serialize(f, ms)) == Ok(ms)
  {
    hide EncodeMutations, ReadMutations;
    var all := Serialize(f, ms);
    Pow256Values();
    assert all[0..8] == LittleEndian(f.protocol, 8);
    assert all[8..12] == LittleEndian(|EncodeMutations(ms)|, 4);
    assert all[VALUE_HEADER..] == EncodeMutations(ms) + [];
    LittleEndianRoundTrip(f.protocol, 8);
    LittleEndianRoundTrip(|EncodeMutations(ms)|, 4);
    NothingToRead();
    ReadMutationsBack(ms, []);
    assert ms + [] == ms;
  }

  /** A serialized list decodes exactly if its protocol version is recent enough. */
  lemma DecodesIff(f: Format, ms: seq<Mutation>)
    requires f.protocol < 0x8000_0000_0000_0000 && |EncodeMutations(ms)| < 0x1_0000_0000
    ensures DecodeValue(Serialize(f, ms)) == if f.protocol > MIN_PROTOCOL then Ok(ms) else Err(IncompatibleProtocol)
  {
    if f.protocol > MIN_PROTOCOL {
      DecodeValueBack(f, ms);
    } else {
      var all := Serialize(f, ms);
      Pow256Values();
      assert all[0..8] == LittleEndian(f.protocol, 8);
      LittleEndianRoundTrip(f.protocol, 8);
    }
  }

  /** The bytes of a mutation with short parameters: lengths are 32-bit numbers, least significant byte first. */
  lemma ShortMutationBytes(m: Mutation)
    requires |m.param1| < 256 && |m.param2| < 256
    ensures EncodeMutation(m) == [m.kind, 0, 0, 0, |m.param1|, 0, 0, 0, |m.param2|, 0, 0, 0] + m.param1 + m.param2
  {
    LittleEndianShort(m.kind);
    LittleEndianShort(|m.param1|);
    LittleEndianShort(|m.param2|);
  }

  /** The first bytes of a short serialized list: protocol version and length, least significant byte first. */
  lemma SerializeBegins(f: Format, ms: seq<Mutation>)
    requires |EncodeMutations(ms)| < 0x10000
    ensures var n := |EncodeMutations(ms)|;
            Serialize(f, ms)[0] == f.protocol % 256 && Serialize(f, ms)[8..12] == [n % 256, n / 256, 0, 0]
  {
    LittleEndianShort(|EncodeMutations(ms)|);
    assert Serialize(f, ms)[8..12] == LittleEndian(|EncodeMutations(ms)|, 4);
  }

  lemma NothingToRead()
    ensures ReadMutations([]) == Ok([])
  {
  }

  // ---------- Parts ----------

  function PartLength(f: Format, rest: Bytes): nat {
    if |rest| <= f.partSize then |rest| else f.partSize
  }

  /** The records for `rest`, the bytes of a serialized batch from part number `part` on. */
  function Parts(f: Format, version: int, part: nat, rest: Bytes): seq<KeyValue>
    requires f.partSize > 0 && f.hashRange > 0
    decreases |rest|
  {
    if rest == [] then [] else
      var n := PartLength(f, rest);
      [KeyValue(BlockKey(f, version, part), rest[..n])] + Parts(f, version, part + 1, rest[n..])
  }

  function Values(kvs: seq<KeyValue>): Bytes {
    if kvs == [] then [] else kvs[0].value + Values(kvs[1..])
  }

  /**
   * What the parts of a value look like: put together they are the value; part `i` has number
   * `part + i`; every part is nonempty, and every one but the last has the full size.
   */
  lemma {:induction false} PartsOfValue(f: Format, version: int, part: nat, rest: Bytes)
    requires f.partSize > 0 && f.hashRange > 0
    ensures var ps := Parts(f, version, part, rest);
            && Values(ps) == rest
            && (forall i :: 0 <= i < |ps| ==> ps[i].key == BlockKey(f, version, part + i))
            && (forall i :: 0 <= i < |ps| ==> 0 < |ps[i].value| <= f.partSize)
            && (forall i :: 0 <= i < |ps| - 1 ==> |ps[i].value| == f.partSize)
    decreases |rest|
  {
    hide BlockKey;
    if rest != [] {
      var n := PartLength(f, rest);
      PartsOfValue(f, version, part + 1, rest[n..]);
      var first, more := KeyValue(BlockKey(f, version, part), rest[..n]), Parts(f, version, part + 1, rest[n..]);
      assert Parts(f, version, part, rest) == [first] + more;
      assert rest == rest[..n] + rest[n..];
      OneMorePart(f, version, part, first, more);
    }
  }

  lemma OneMorePart(f: Format, version: int, part: nat, first: KeyValue, more: seq<KeyValue>)
    requires f.hashRange > 0 && first.key == BlockKey(f, version, part)
    requires 0 < |first.value| <= f.partSize && (more != [] ==> |first.value| == f.partSize)
    requires forall i :: 0 <= i < |more| ==> more[i].key == BlockKey(f, version, part + 1 + i)
    requires forall i :: 0 <= i < |more| ==> 0 < |more[i].value| <= f.partSize
    requires forall i :: 0 <= i < |more| - 1 ==> |more[i].value| == f.partSize
    ensures var ps := [first] + more;
            && Values(ps) == first.value + Values(more)
            && (forall i :: 0 <= i < |ps| ==> ps[i].key == BlockKey(f, version, part + i))
            && (forall i :: 0 <= i < |ps| ==> 0 < |ps[i].value| <= f.partSize)
            && (forall i :: 0 <= i < |ps| - 1 ==> |ps[i].value| == f.partSize)
  {
    hide BlockKey;
    var ps := [first] + more;
    assert ps[1..] == more;
    forall i | 1 <= i < |ps|
      ensures ps[i].key == BlockKey(f, version, part + i) && 0 < |ps[i].value| <= f.partSize
      ensures i < |ps| - 1 ==> |ps[i].value| == f.partSize
    {
      assert ps[i] == more[i - 1];
    }
  }

  /** The number of parts is the length divided by the part size, rounded up. */
  lemma {:induction false} PartCount(f: Format, version: int, part: nat, rest: Bytes)
    requires f.partSize > 0 && f.hashRange > 0
    ensures var n := |Parts(f, version, part, rest)|;
            |rest| <= n * f.partSize && (n > 0 ==> (n - 1) * f.partSize < |rest|)
    decreases |rest|
  {
    hide BlockKey;
    if rest != [] {
      var n := PartLength(f, rest);
      PartCount(f, version, part + 1, rest[n..]);
      Multiples(|Parts(f, version, part + 1, rest[n..])|, f.partSize);
    }
  }

  lemma Multiples(k: nat, size: nat)
    ensures (k + 1) * size == k * size + size && (k - 1) * size == k * size - size
    ensures 0 * size == 0
  {
  }

  // ---------- Accumulating parts ----------

  /** `AccumulatedMutations`: the number of the last part, and the parts joined in order. */
  datatype Accumulated = Accumulated(lastChunk: int, serialized: Bytes)

  const NOTHING := Accumulated(-1, [])

  function AddChunk(a: Accumulated, chunk: int, value: Bytes): Accumulated {
    if chunk == a.lastChunk + 1 then Accumulated(chunk, a.serialized + value) else Accumulated(-2, [])
  }

  function IsComplete(a: Accumulated): Result<bool> {
    if a.lastChunk < 0 then Ok(false) else
      var length :- DeclaredLength(a.serialized);
      Ok(length == |a.serialized| - VALUE_HEADER)
  }

  function AddRecord(f: Format, m: map<int, Accumulated>, kv: KeyValue): Result<map<int, Accumulated>>
    requires f.hashRange > 0
  {
    var k :- DecodeKey(f, kv.key);
    Ok(m[k.0 := AddChunk(if k.0 in m then m[k.0] else NOTHING, k.1, kv.value)])
  }

  function AddRecords(f: Format, m: map<int, Accumulated>, kvs: seq<KeyValue>): Result<map<int, Accumulated>>
    requires f.hashRange > 0
  {
    if kvs == [] then Ok(m) else
      var m' :- AddRecords(f, m, kvs[..|kvs| - 1]);
      AddRecord(f, m', kvs[|kvs| - 1])
  }

  lemma {:induction false} AddRecordsAppend(f: Format, m: map<int, Accumulated>, a: seq<KeyValue>, b: seq<KeyValue>)
    requires f.hashRange > 0 && AddRecords(f, m, a).Ok?
    ensures AddRecords(f, m, a + b) == AddRecords(f, AddRecords(f, m, a).value, b)
  {
    hide AddRecord;
    if b == [] {
      assert a + b == a;
    } else {
      var last := |b| - 1;
      AddRecordsAppend(f, m, a, b[..last]);
      assert (a + b)[..|a + b| - 1] == a + b[..last];
    }
  }

  lemma AddPart(f: Format, m: map<int, Accumulated>, version: int, part: nat, done: Bytes, value: Bytes)
    requires f.hashRange > 0 && IsVersion(version) && part < PARTS_LIMIT
    requires (if version in m then m[version] else NOTHING) == Accumulated(part - 1, done)
    ensures AddRecords(f, m, [KeyValue(BlockKey(f, version, part), value)])
         == Ok(m[version := Accumulated(part, done + value)])
  {
    hide BlockKey, DecodeKey;
    DecodeKeyBack(f, version, part);
    var kvs := [KeyValue(BlockKey(f, version, part), value)];
    assert kvs[..0] == [] && AddRecords(f, m, []) == Ok(m);
  }

  /** The parts of a value, accumulated in order, give the value back. */
  lemma {:induction false} AddPartsBack(f: Format, m: map<int, Accumulated>, version: int, part: nat, done: Bytes, rest: Bytes)
    returns (last: nat)
    requires ValidFormat(f) && IsVersion(version) && part + |rest| < PARTS_LIMIT
    requires (if version in m then m[version] else NOTHING) == Accumulated(part - 1, done)
    requires rest != []
    ensures AddRecords(f, m, Parts(f, version, part, rest)) == Ok(m[version := Accumulated(last, done + rest)])
    decreases |rest|
  {
    hide BlockKey, AddRecords, ValidFormat, PartLength;
    FormatPositive(f);
    var n := PartLength(f, rest);
    PartLengthBounds(f, rest);
    var first := KeyValue(BlockKey(f, version, part), rest[..n]);
    AddPart(f, m, version, part, done, rest[..n]);
    var m' := m[version := Accumulated(part, done + rest[..n])];
    var more := Parts(f, version, part + 1, rest[n..]);
    AddRecordsAppend(f, m, [first], more);
    if rest[n..] == [] {
      last := part;
      assert rest[..n] == rest && [first] + more == [first];
    } else {
      last := AddPartsBack(f, m', version, part + 1, done + rest[..n], rest[n..]);
      assert done + rest[..n] + rest[n..] == done + rest;
      assert m'[version := Accumulated(last, done + rest)] == m[version := Accumulated(last, done + rest)];
    }
  }

  // ---------- Which records make a batch ----------

  /** A part as it is decoded: its number and its bytes. */
  datatype Chunk = Chunk(number: int, value: Bytes)

  function AddChunks(a: Accumulated, chunks: seq<Chunk>): Accumulated {
    if chunks == [] then a else
      var last := |chunks| - 1;
      AddChunk(AddChunks(a, chunks[..last]), chunks[last].number, chunks[last].value)
  }

  function Joined(chunks: seq<Chunk>): Bytes {
    if chunks == [] then [] else Joined(chunks[..|chunks| - 1]) + chunks[|chunks| - 1].value
  }

  /** The parts of one version among the records. */
  ghost function ChunksOf(f: Format, kvs: seq<KeyValue>, version: int): seq<Chunk>
    requires f.hashRange > 0
  {
    if kvs == [] then [] else
      var kv := kvs[|kvs| - 1];
      var k := DecodeKey(f, kv.key);
      ChunksOf(f, kvs[..|kvs| - 1], version) + if k.Ok? && k.value.0 == version then [Chunk(k.value.1, kv.value)] else []
  }

  function Entry(m: map<int, Accumulated>, version: int): Accumulated {
    if version in m then m[version] else NOTHING
  }

  lemma AddChunksSnoc(a: Accumulated, chunks: seq<Chunk>, c: Chunk)
    ensures AddChunks(a, chunks + [c]) == AddChunk(AddChunks(a, chunks), c.number, c.value)
  {
    assert (chunks + [c])[..|chunks|] == chunks;
  }

  /** Whatever other records come in between, the entry of a version is made of the parts of that version, in order. */
  lemma {:induction false} EntryOfVersion(f: Format, m: map<int, Accumulated>, kvs: seq<KeyValue>, version: int)
    requires f.hashRange > 0 && AddRecords(f, m, kvs).Ok?
    ensures var m' := AddRecords(f, m, kvs).value;
            && Entry(m', version) == AddChunks(Entry(m, version), ChunksOf(f, kvs, version))
            && (version in m' <==> version in m || ChunksOf(f, kvs, version) != [])
  {
    hide DecodeKey, AddChunk;
    if kvs != [] {
      var front, kv := kvs[..|kvs| - 1], kvs[|kvs| - 1];
      EntryOfVersion(f, m, front, version);
      var k := DecodeKey(f, kv.key).value;
      if k.0 == version {
        AddChunksSnoc(Entry(m, version), ChunksOf(f, front, version), Chunk(k.1, kv.value));
      } else {
        assert ChunksOf(f, front, version) + [] == ChunksOf(f, front, version);
      }
    }
  }

  /** The parts are numbered from 0 without a gap. */
  ghost predicate Numbered(chunks: seq<Chunk>) {
    forall i :: 0 <= i < |chunks| ==> chunks[i].number == i
  }

  /** Parts are joined exactly if they come in order; after a missing or repeated one nothing is kept. */
  lemma {:induction false} AddChunksIff(chunks: seq<Chunk>)
    requires forall i :: 0 <= i < |chunks| ==> chunks[i].number >= 0
    ensures AddChunks(NOTHING, chunks) == if Numbered(chunks) then Accumulated(|chunks| - 1, Joined(chunks)) else Accumulated(-2, [])
  {
    if chunks != [] {
      var last := |chunks| - 1;
      AddChunksIff(chunks[..last]);
      NumberedSnoc(chunks[..last], chunks[last]);
      assert chunks == chunks[..last] + [chunks[last]];
    }
  }

  /** A broken entry stays broken, unless a part has number -1, which no writer gives. */
  lemma {:induction false} BrokenStays(a: Accumulated, chunks: seq<Chunk>)
    requires a.lastChunk == -2 && forall i :: 0 <= i < |chunks| ==> chunks[i].number != -1
    ensures AddChunks(a, chunks).lastChunk == -2 && IsComplete(AddChunks(a, chunks)) == Ok(false)
  {
    if chunks != [] {
      BrokenStays(a, chunks[..|chunks| - 1]);
    }
  }

  /** After an empty part with number -1, a broken entry accumulates parts as a new one does. */
  lemma {:induction false} MinusOneRestarts(chunks: seq<Chunk>)
    ensures AddChunks(Accumulated(-2, []), [Chunk(-1, [])] + chunks) == AddChunks(NOTHING, chunks)
  {
    var all := [Chunk(-1, [])] + chunks;
    if chunks == [] {
      assert all == [] + [Chunk(-1, [])];
      AddChunksSnoc(Accumulated(-2, []), [], Chunk(-1, []));
      assert AddChunks(Accumulated(-2, []), []) == Accumulated(-2, []);
    } else {
      var last := |chunks| - 1;
      MinusOneRestarts(chunks[..last]);
      assert all[..|all| - 1] == [Chunk(-1, [])] + chunks[..last];
    }
  }

  /** The first `n` parts of a value. */
  lemma {:induction false} ChunksOfParts(f: Format, version: int, value: Bytes, n: nat)
    requires ValidFormat(f) && IsVersion(version) && |value| < PARTS_LIMIT && n <= |Parts(f, version, 0, value)|
    ensures var kvs := Parts(f, version, 0, value)[..n];
            var chunks := ChunksOf(f, kvs, version);
            |chunks| == n && Numbered(chunks) && Joined(chunks) == Values(kvs)
  {
    hide BlockKey, DecodeKey, Parts, Values, ValidFormat, ChunksOf, Numbered, Joined;
    FormatPositive(f);
    var ps := Parts(f, version, 0, value);
    if n == 0 {
      NoChunks(f, version);
      assert ps[..0] == [];
    } else {
      ChunksOfParts(f, version, value, n - 1);
      KeyOfPart(f, version, value, n - 1);
      var front, kv := ps[..n - 1], ps[n - 1];
      assert ps[..n] == front + [kv];
      ChunksOfSnoc(f, front, kv, version, n - 1);
      ValuesAppend(front, [kv]);
      OneValue(kv);
      NumberedSnoc(ChunksOf(f, front, version), Chunk(n - 1, kv.value));
    }
  }

  lemma ChunksOfSnoc(f: Format, kvs: seq<KeyValue>, kv: KeyValue, version: int, number: int)
    requires f.hashRange > 0 && DecodeKey(f, kv.key) == Ok((version, number))
    ensures ChunksOf(f, kvs + [kv], version) == ChunksOf(f, kvs, version) + [Chunk(number, kv.value)]
  {
    hide DecodeKey;
    assert (kvs + [kv])[..|kvs|] == kvs;
  }

  lemma NumberedSnoc(chunks: seq<Chunk>, c: Chunk)
    ensures Numbered(chunks + [c]) <==> Numbered(chunks) && c.number == |chunks|
    ensures Joined(chunks + [c]) == Joined(chunks) + c.value
  {
    var more := chunks + [c];
    assert more[..|chunks|] == chunks && more[|chunks|] == c;
    assert forall i :: 0 <= i < |chunks| ==> more[i] == chunks[i];
  }

  lemma KeyOfPart(f: Format, version: int, value: Bytes, i: nat)
    requires ValidFormat(f) && IsVersion(version) && |value| < PARTS_LIMIT && i < |Parts(f, version, 0, value)|
    ensures DecodeKey(f, Parts(f, version, 0, value)[i].key) == Ok((version, i))
  {
    hide BlockKey, DecodeKey, Parts;
    PartsOfValue(f, version, 0, value);
    PartsAtMost(f, version, 0, value);
    DecodeKeyBack(f, version, i);
  }

  lemma NoChunks(f: Format, version: int)
    requires f.hashRange > 0
    ensures ChunksOf(f, [], version) == [] && Numbered([]) && Joined([]) == Values([])
  {
  }

  lemma OneValue(kv: KeyValue)
    ensures Values([kv]) == kv.value
  {
    assert [kv][1..] == [] && kv.value + [] == kv.value;
  }

  lemma {:induction false} PartsAtMost(f: Format, version: int, part: nat, rest: Bytes)
    requires f.partSize > 0 && f.hashRange > 0
    ensures |Parts(f, version, part, rest)| <= |rest|
    decreases |rest|
  {
    hide BlockKey;
    if rest != [] {
      PartsAtMost(f, version, part + 1, rest[PartLength(f, rest)..]);
    }
  }

  // ---------- Batches that were cut off ----------

  lemma {:induction false} ValuesAppend(a: seq<KeyValue>, b: seq<KeyValue>)
    ensures Values(a + b) == Values(a) + Values(b)
  {
    if a == [] {
      assert a + b == b;
    } else {
      ValuesAppend(a[1..], b);
      assert (a + b)[1..] == a[1..] + b && (a + b)[0] == a[0];
      JoinThree(a[0].value, Values(a[1..]), Values(b));
    }
  }

  lemma JoinThree(a: Bytes, b: Bytes, c: Bytes)
    ensures a + (b + c) == a + b + c
  {
  }

  /** The first `n` parts hold all of the value exactly if they are all parts. */
  lemma PrefixOfParts(f: Format, version: int, value: Bytes, n: nat)
    requires f.partSize > 0 && f.hashRange > 0 && n <= |Parts(f, version, 0, value)|
    ensures var ps := Parts(f, version, 0, value);
            && Values(ps[..n]) <= value && (Values(ps[..n]) == value <==> n == |ps|)
            && (0 < n < |ps| ==> |Values(ps[..n])| >= f.partSize)
  {
    hide BlockKey, Parts;
    var ps := Parts(f, version, 0, value);
    PartsOfValue(f, version, 0, value);
    assert ps == ps[..n] + ps[n..];
    ValuesAppend(ps[..n], ps[n..]);
    if n < |ps| { assert Values(ps[n..]) == ps[n].value + Values(ps[n..][1..]); }
    if n > 0 { assert Values(ps[..n]) == ps[0].value + Values(ps[..n][1..]); }
  }

  lemma DeclaredInPrefix(value: Bytes, prefix: Bytes)
    requires prefix <= value && DeclaredLength(value).Ok?
    ensures |prefix| >= VALUE_HEADER ==> DeclaredLength(prefix) == DeclaredLength(value)
  {
    assert |prefix| >= VALUE_HEADER ==> prefix[0..8] == value[0..8] && prefix[8..12] == value[8..12];
  }

  lemma {:induction false} PartsAreAdded(f: Format, m: map<int, Accumulated>, version: int, value: Bytes, n: nat)
    requires ValidFormat(f) && IsVersion(version) && |value| < PARTS_LIMIT && n <= |Parts(f, version, 0, value)|
    ensures AddRecords(f, m, Parts(f, version, 0, value)[..n]).Ok?
    ensures AddRecords(f, m, Parts(f, version, 0, value)[..n]).value - {version} == m - {version}
  {
    hide Parts, DecodeKey;
    var ps := Parts(f, version, 0, value);
    if n > 0 {
      PartsAreAdded(f, m, version, value, n - 1);
      KeyOfPart(f, version, value, n - 1);
      assert ps[..n][..n - 1] == ps[..n - 1];
    }
  }

  /**
   * Of the first `n` parts of a batch, a complete entry is made exactly if they are all: a batch that was cut off, as
   * at the end of a file, is not taken for a whole one.  It is an error if it was cut off within the header.
   */
  lemma CompleteIffWhole(f: Format, m: map<int, Accumulated>, version: int, ms: seq<Mutation>, n: nat)
    requires ValidFormat(f) && IsVersion(version) && |Serialize(f, ms)| < PARTS_LIMIT && version !in m
    requires n <= |Parts(f, version, 0, Serialize(f, ms))|
    ensures var ps := Parts(f, version, 0, Serialize(f, ms));
            var r := AddRecords(f, m, ps[..n]);
            && r.Ok? && r.value - {version} == m - {version} && (version in r.value <==> n > 0)
            && (IsComplete(Entry(r.value, version)) == Ok(true) <==> n == |ps|)
            && (IsComplete(Entry(r.value, version)).Err? <==> n > 0 && |Values(ps[..n])| < VALUE_HEADER)
            && (f.partSize >= VALUE_HEADER ==> IsComplete(Entry(r.value, version)).Ok?)
  {
    assert MIN_PROTOCOL < f.protocol < 0x8000_0000_0000_0000;
    hide Parts, DecodeKey, AddRecords, Serialize, DeclaredLength, ValidFormat, Numbered, Joined, Values;
    FormatPositive(f);
    var value := Serialize(f, ms);
    var kvs := Parts(f, version, 0, value)[..n];
    PartsAreAdded(f, m, version, value, n);
    EntryOfVersion(f, m, kvs, version);
    ChunksOfParts(f, version, value, n);
    NumberedFromZero(ChunksOf(f, kvs, version));
    AddChunksIff(ChunksOf(f, kvs, version));
    PrefixOfParts(f, version, value, n);
    DecodeValueBack(f, ms);
    DeclaredInPrefix(value, Values(kvs));
  }

  lemma NumberedFromZero(chunks: seq<Chunk>)
    requires Numbered(chunks)
    ensures forall i :: 0 <= i < |chunks| ==> chunks[i].number >= 0
  {
  }

  lemma PartLengthBounds(f: Format, rest: Bytes)
    requires f.partSize > 0 && rest != []
    ensures 0 < PartLength(f, rest) <= |rest|
  {
  }

  lemma FormatPositive(f: Format)
    requires ValidFormat(f)
    ensures f.partSize > 0 && f.hashRange > 0
  {
  }
}
