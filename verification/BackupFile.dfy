/** A backup file in a local directory: appends are buffered and written in whole blocks. */
module BackupFiles {

  import opened ByteStrings

  /** One write issued to the underlying file. */
  datatype Write = Write(offset: nat, data: Bytes)

  function Concat(writes: seq<Write>): Bytes {
    if writes == [] then [] else Concat(writes[..|writes| - 1]) + writes[|writes| - 1].data
  }

  /** Each write starts where the previous one ends, the first at 0. */
  ghost predicate Consecutive(writes: seq<Write>) {
    forall i :: 0 <= i < |writes| ==> writes[i].offset == |Concat(writes[..i])|
  }

  lemma ConsecutiveSnoc(writes: seq<Write>, data: Bytes)
    requires Consecutive(writes)
    ensures var more := writes + [Write(|Concat(writes)|, data)];
            Consecutive(more) && Concat(more) == Concat(writes) + data
  {
    var more := writes + [Write(|Concat(writes)|, data)];
    assert more[..|writes|] == writes;
    assert forall i :: 0 <= i < |writes| ==> more[..i] == writes[..i];
  }

  /** A buffered file behaves as a log of the bytes appended to it. */
  class BackupFile {
    const blockSize: nat
    var buffer: Bytes
    var writeOffset: nat
    var writes: seq<Write> // issued so far; they may reach the disk in any order
    ghost var appended: Bytes

    constructor (blockSize: nat)
      ensures Valid() && appended == [] && this.blockSize == blockSize
    {
      this.blockSize := blockSize;
      buffer, writeOffset, writes, appended := [], 0, [], [];
    }

    ghost predicate Valid() reads this {
      && Consecutive(writes)
      && writeOffset == |Concat(writes)|
      && appended == Concat(writes) + buffer
    }

    /** Every write so far is of one whole block. */
    ghost predicate InBlocks() reads this {
      forall i :: 0 <= i < |writes| ==> |writes[i].data| == blockSize
    }

    function Size(): (n: nat)
      requires Valid()
      reads this
      ensures n == |appended|
    {
      |buffer| + writeOffset
    }

    /** Adds bytes; when the buffer has a block of them, one block is written.  Short appends leave less than a block. */
    method Append(data: Bytes)
      requires Valid()
      modifies this
      ensures Valid() && appended == old(appended) + data
      ensures old(writes) <= writes && (old(InBlocks()) ==> InBlocks())
      ensures |writes| > |old(writes)| <==> 0 < blockSize <= |old(buffer)| + |data|
      ensures |data| <= blockSize && |old(buffer)| < blockSize ==> |buffer| < blockSize
    {
      buffer := buffer + data;
      appended := appended + data;
      if |buffer| >= blockSize {
        Flush(blockSize);
      }
    }

    method Flush(size: nat)
      requires Valid() && size <= |buffer|
      modifies this
      ensures Valid() && appended == old(appended)
      ensures buffer == old(buffer)[size..]
      ensures writes == if size == 0 then old(writes) else old(writes) + [Write(old(writeOffset), old(buffer)[..size])]
    {
      if size == 0 {
        return;
      }
      ConsecutiveSnoc(writes, buffer[..size]);
      assert Concat(writes) + buffer == Concat(writes) + buffer[..size] + buffer[size..];
      writes := writes + [Write(writeOffset, buffer[..size])];
      buffer := buffer[size..];
      writeOffset := writeOffset + size;
    }

    /** Writes out what is left in the buffer.  The file, cut to `Size()` when the writes are done, is the log. */
    method Finish()
      requires Valid()
      modifies this
      ensures Valid() && appended == old(appended)
      ensures buffer == [] && Concat(writes) == appended && Leaves(writes, appended)
    {
      Flush(|buffer|);
      assert Concat(writes) + [] == Concat(writes);
      LeavesLog(writes);
    }
  }

  // ---------- The order in which writes reach the disk ----------

  /**
   * A write reaches the disk: its bytes are in place and earlier contents elsewhere are kept.
   * The file may grow beyond the write, with any contents (some files grow in whole blocks).
   */
  ghost predicate Lands(disk: Bytes, w: Write, disk': Bytes) {
    && |disk| <= |disk'| && w.offset + |w.data| <= |disk'|
    && disk'[w.offset..w.offset + |w.data|] == w.data
    && forall k :: 0 <= k < |disk| && !(w.offset <= k < w.offset + |w.data|) ==> disk'[k] == disk[k]
  }

  /** The bytes of the write are on the disk. */
  ghost predicate OnDisk(disk: Bytes, w: Write) {
    w.offset + |w.data| <= |disk| && disk[w.offset..w.offset + |w.data|] == w.data
  }

  /** `disks` is what the disk holds while the writes land in the given order. */
  ghost predicate Landing(writes: seq<Write>, order: seq<nat>, disks: seq<Bytes>) {
    && |disks| == |order| + 1
    && forall k :: 0 <= k < |order| ==> order[k] < |writes| && Lands(disks[k], writes[order[k]], disks[k + 1])
  }

  lemma {:induction false} ConcatPrefix(writes: seq<Write>, i: nat)
    requires i < |writes|
    ensures |Concat(writes[..i])| + |writes[i].data| <= |Concat(writes)|
    ensures Concat(writes)[|Concat(writes[..i])|..|Concat(writes[..i])| + |writes[i].data|] == writes[i].data
  {
    var last := |writes| - 1;
    if i == last {
      assert writes[..i] == writes[..last];
    } else {
      ConcatPrefix(writes[..last], i);
      assert writes[..last][..i] == writes[..i];
    }
  }

  /** Consecutive writes do not overlap. */
  lemma Disjoint(writes: seq<Write>, i: nat, j: nat)
    requires Consecutive(writes) && i < j < |writes|
    ensures writes[i].offset + |writes[i].data| <= writes[j].offset
  {
    ConcatPrefix(writes[..j], i);
    assert writes[..j][..i] == writes[..i];
  }

  /** A landed write stays on the disk while the others land. */
  lemma {:induction false} StaysOnDisk(writes: seq<Write>, order: seq<nat>, disks: seq<Bytes>, k: nat)
    requires Consecutive(writes) && Landing(writes, order, disks) && k < |order|
    ensures OnDisk(disks[|order|], writes[order[k]])
  {
    var last := |order| - 1;
    var w := writes[order[k]];
    if k < last && order[k] != order[last] {
      StaysOnDisk(writes, order[..last], disks[..last + 1], k);
      var v := writes[order[last]];
      if order[k] < order[last] {
        Disjoint(writes, order[k], order[last]);
      } else {
        Disjoint(writes, order[last], order[k]);
      }
      assert disks[last + 1][w.offset..w.offset + |w.data|] == disks[last][w.offset..w.offset + |w.data|];
    }
  }

  lemma {:induction false} AllOnDisk(writes: seq<Write>, disk: Bytes)
    requires Consecutive(writes)
    requires forall i :: 0 <= i < |writes| ==> OnDisk(disk, writes[i])
    ensures |Concat(writes)| <= |disk| && disk[..|Concat(writes)|] == Concat(writes)
  {
    if writes != [] {
      var last := |writes| - 1;
      assert forall i :: 0 <= i < last ==> writes[..last][..i] == writes[..i];
      AllOnDisk(writes[..last], disk);
      var w := writes[last];
      assert OnDisk(disk, w) && w.offset == |Concat(writes[..last])| && Concat(writes) == Concat(writes[..last]) + w.data;
      hide Concat, Consecutive;
      assert disk[..w.offset + |w.data|] == disk[..w.offset] + disk[w.offset..w.offset + |w.data|];
    }
  }

  /**
   * Whatever order the writes land in, and whatever the disk held before, cutting the file to
   * the size of the log leaves exactly the bytes of the log.
   */
  lemma LandedInAnyOrder(writes: seq<Write>, order: seq<nat>, disks: seq<Bytes>)
    requires Consecutive(writes) && Landing(writes, order, disks)
    requires forall i :: 0 <= i < |writes| ==> i in order
    ensures |Concat(writes)| <= |disks[|order|]|
    ensures disks[|order|][..|Concat(writes)|] == Concat(writes)
  {
    forall i | 0 <= i < |writes| ensures OnDisk(disks[|order|], writes[i]) {
      assert i in order;
      var k :| 0 <= k < |order| && order[k] == i;
      StaysOnDisk(writes, order, disks, k);
    }
    AllOnDisk(writes, disks[|order|]);
  }

  /** Whatever order all the writes land in, the file cut to the length of `contents` holds just that. */
  ghost predicate Leaves(writes: seq<Write>, contents: Bytes) {
    forall order, disks | Landing(writes, order, disks) && (forall i :: 0 <= i < |writes| ==> i in order) ::
      |contents| <= |disks[|order|]| && disks[|order|][..|contents|] == contents
  }

  lemma LeavesLog(writes: seq<Write>)
    requires Consecutive(writes)
    ensures Leaves(writes, Concat(writes))
  {
    hide Consecutive;
    forall order: seq<nat>, disks: seq<Bytes> | Landing(writes, order, disks) && (forall i :: 0 <= i < |writes| ==> i in order)
      ensures |Concat(writes)| <= |disks[|order|]| && disks[|order|][..|Concat(writes)|] == Concat(writes)
    {
      LandedInAnyOrder(writes, order, disks);
    }
  }
}
