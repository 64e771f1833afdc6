/** The state kept for one open log file while the files are merged. */
module FileProgresses {

  import opened ByteStrings
  import opened Readers
  import opened LogFiles
  import opened PartitionedLog

  /** What decoding one block yields: the messages to save, and whether `max` was reached. */
  datatype Scanned = Scanned(inserted: seq<Message>, pastMax: bool)

  /**
   * Adds the records from `pos` on to `acc`, up to the first one at or past `max`; those below
   * `min` are skipped.
   */
  function Scan(block: Bytes, pos: nat, min: int, max: int, acc: seq<Message>): Result<Scanned>
    requires pos <= |block|
    decreases |block| - pos
  {
    if AtEnd(block, pos) then Ok(Scanned(acc, false)) else
      var m :- ReadMessage(block, pos);
      if m.version >= max then Ok(Scanned(acc, true)) else
        Scan(block, pos + RECORD_HEADER + |m.payload|, min, max, if m.version >= min then acc + [m] else acc)
  }

  function ScanBlock(block: Bytes, min: int, max: int): Result<Scanned> {
    var _ :- CheckHeader(block, PARTITIONED_MLOG_VERSION);
    Scan(block, 4, min, max, [])
  }

  /** A block holds fewer messages than bytes. */
  lemma {:induction false} ScanCount(block: Bytes, pos: nat, min: int, max: int, acc: seq<Message>)
    requires pos <= |block| && Scan(block, pos, min, max, acc).Ok?
    ensures |Scan(block, pos, min, max, acc).value.inserted| <= |acc| + |block| - pos
    decreases |block| - pos
  {
    hide ReadMessage;
    if !AtEnd(block, pos) {
      var m := ReadMessage(block, pos).value;
      if m.version < max {
        ScanCount(block, pos + RECORD_HEADER + |m.payload|, min, max, if m.version >= min then acc + [m] else acc);
      }
    }
  }

  lemma ScanBlockCount(block: Bytes, min: int, max: int)
    ensures ScanBlock(block, min, max).Ok? ==> |ScanBlock(block, min, max).value.inserted| <= |block|
  {
    hide Scan;
    if ScanBlock(block, min, max).Ok? { ScanCount(block, 4, min, max, []); }
  }

  /** Scanning messages `ms` in order keeps those in [min, max). */
  lemma {:induction false} ScanKeeps(block: Bytes, pos: nat, min: int, max: int, acc: seq<Message>, ms: seq<Message>)
    returns (pastMax: bool)
    requires pos <= |block|
    requires Messages(block, pos) == Ok(ms) && Sorted(ms)
    ensures Scan(block, pos, min, max, acc) == Ok(Scanned(acc + InRange(ms, min, max), pastMax))
    ensures pastMax ==> exists m :: m in ms && m.version >= max
    decreases |ms|
  {
    hide ReadMessage;
    if AtEnd(block, pos) {
      pastMax := false;
      assert acc + [] == acc;
    } else {
      var m := ReadMessage(block, pos).value;
      assert ms[0] == m;
      if m.version >= max {
        pastMax := true;
        forall x | x in ms ensures x.version >= max {
          var i :| 0 <= i < |ms| && ms[i] == x;
        }
        InRangeNothing(ms, min, max);
        assert acc + [] == acc;
      } else {
        SortedTail(ms);
        var acc' := if m.version >= min then acc + [m] else acc;
        pastMax := ScanKeeps(block, pos + RECORD_HEADER + |m.payload|, min, max, acc', ms[1..]);
        InRangeStep(acc, ms, min, max);
      }
    }
  }

  /** The messages before the first one at or past `max`. */
  function Before(ms: seq<Message>, max: int): seq<Message> {
    if ms == [] || ms[0].version >= max then [] else [ms[0]] + Before(ms[1..], max)
  }

  /** In any order: scanning stops at the first message at or past `max`, and keeps those before it that reach `min`. */
  lemma {:induction false} ScanStops(block: Bytes, pos: nat, min: int, max: int, acc: seq<Message>, ms: seq<Message>)
    requires pos <= |block| && Messages(block, pos) == Ok(ms)
    ensures var kept := Before(ms, max);
            Scan(block, pos, min, max, acc) == Ok(Scanned(acc + InRange(kept, min, max), kept != ms))
    decreases |ms|
  {
    hide ReadMessage;
    if AtEnd(block, pos) {
      assert acc + [] == acc;
    } else {
      var m := ReadMessage(block, pos).value;
      assert ms[0] == m;
      if m.version >= max {
        assert acc + [] == acc;
      } else {
        var kept := Before(ms, max);
        var acc' := if m.version >= min then acc + [m] else acc;
        ScanStops(block, pos + RECORD_HEADER + |m.payload|, min, max, acc', ms[1..]);
        assert kept[1..] == Before(ms[1..], max) && kept[0] == m;
        InRangeStep(acc, kept, min, max);
        assert ms == [m] + ms[1..];
      }
    }
  }

  /** Decoding the block at `offset` splits off the messages of that block. */
  lemma SplitBlock(file: LogFile, offset: nat, unread: seq<Message>, min: int, max: int)
    returns (ms: seq<Message>, rest: seq<Message>, pastMax: bool)
    requires offset <= file.fileSize <= |file.contents| && BlockLength(file, offset) > 0
    requires FileMessages(file, offset) == Ok(unread) && Sorted(unread)
    ensures unread == ms + rest
    ensures FileMessages(file, offset + BlockLength(file, offset)) == Ok(rest)
    ensures BlockMessages(BlockAt(file, offset)) == Ok(ms)
    ensures ScanBlock(BlockAt(file, offset), min, max) == Ok(Scanned(InRange(ms, min, max), pastMax))
    ensures pastMax ==> exists m :: m in ms && m.version >= max
  {
    hide Messages, Scan, BlockAt;
    ms := BlockMessages(BlockAt(file, offset)).value;
    rest := FileMessages(file, offset + BlockLength(file, offset)).value;
    SortedParts(ms, rest);
    pastMax := ScanKeeps(BlockAt(file, offset), 4, min, max, [], ms);
    assert [] + InRange(ms, min, max) == InRange(ms, min, max);
  }

  /** What the messages of one block, and of the rest of the file, contribute to [min, max). */
  lemma BlockContribution(ms: seq<Message>, rest: seq<Message>, saved: seq<Message>, pastMax: bool, min: int, max: int)
    requires Sorted(ms + rest)
    requires pastMax ==> exists m :: m in ms && m.version >= max
    ensures Sorted(rest)
    ensures pastMax ==> forall m :: m in rest ==> m.version >= max
    ensures (saved + InRange(ms, min, max)) + InRange(rest, min, max) == saved + InRange(ms + rest, min, max)
    ensures InRange(ms, min, max) == [] ==> InRange(rest, min, max) == InRange(ms + rest, min, max)
    ensures forall m :: m in InRange(ms, min, max) ==> m.version >= min
    ensures InRange(ms, min, max) != [] ==> forall m :: m in rest ==> m.version >= min
  {
    hide Sorted, InRange;
    SortedParts(ms, rest);
    InRangeAppend(ms, rest, min, max);
    InRangeMembers(ms, min, max);
    var kept, left := InRange(ms, min, max), InRange(rest, min, max);
    assert (saved + kept) + left == saved + (kept + left);
    if kept == [] {
      assert [] + left == left;
    } else {
      assert kept[0] in kept && kept[0] in ms;
    }
  }

  class FileProgress {
    const file: LogFile
    var offset: nat // where the next block starts
    var eof: bool // nothing more to read, or the end version was seen
    var mutations: seq<Message> // messages read and not yet delivered
    ghost var unread: seq<Message> // the messages of the file from `offset` on

    constructor (file: LogFile)
      ensures this.file == file && offset == 0 && !eof && mutations == []
      ensures WellFormed(file) ==> FileMessages(file, 0) == Ok(unread) && forall max :: Valid(max)
    {
      this.file := file;
      offset, eof, mutations := 0, false, [];
      unread := if file.fileSize <= |file.contents| && FileMessages(file, 0).Ok? then FileMessages(file, 0).value else [];
    }

    predicate Empty() reads this {
      eof && mutations == []
    }

    /** What is left to do: messages to deliver and bytes to read. */
    ghost function Left(): nat reads this {
      |mutations| + if offset <= file.fileSize then file.fileSize - offset else 0
    }

    /** Read up to a message, or to the end. */
    ghost predicate Ready() reads this {
      offset <= file.fileSize && (mutations == [] ==> eof)
    }

    /** The unread part of the file decodes and is in order; once `eof` is set it holds nothing below `max`. */
    ghost predicate Valid(max: int) reads this {
      && offset <= file.fileSize <= |file.contents|
      && FileMessages(file, offset) == Ok(unread)
      && Sorted(unread)
      && (forall m :: m in unread ==> 0 <= m.version)
      && (eof ==> forall m :: m in unread ==> max <= m.version)
    }

    /** The messages below `max` still to come from this file, buffered and unread. */
    ghost function Pending(max: int): seq<Message>
      reads this
    {
      mutations + InRange(unread, 0, max)
    }

    /** The messages of the block at `at` that are in [min, max), and no others, were added. */
    ghost predicate AddsBlock(before: seq<Message>, after: seq<Message>, at: nat, min: int, max: int) {
      && at <= file.fileSize <= |file.contents|
      && BlockMessages(BlockAt(file, at)).Ok?
      && after == before + InRange(BlockMessages(BlockAt(file, at)).value, min, max)
    }

    /** Decodes one block and saves its messages in [min, max); `r.value` tells whether any was saved. */
    method DecodeBlock(block: Bytes, min: int, max: int) returns (r: Result<bool>)
      modifies this`offset, this`mutations, this`eof
      ensures r.Err? <==> ScanBlock(block, min, max).Err?
      ensures r.Err? ==> r.error == ScanBlock(block, min, max).error && offset == old(offset)
      ensures r.Ok? ==>
                var s := ScanBlock(block, min, max).value;
                && offset == old(offset) + |block|
                && mutations == old(mutations) + s.inserted
                && eof == (old(eof) || s.pastMax)
                && r.value == (s.inserted != [])
    {
      hide ReadMessage;
      var header := CheckHeader(block, PARTITIONED_MLOG_VERSION);
      if header.Err? {
        return Err(header.error);
      }
      var pos, inserted := 4, [];
      while !AtEnd(block, pos)
        invariant 4 <= pos <= |block|
        invariant offset == old(offset) && eof == old(eof)
        invariant mutations == old(mutations) + inserted
        invariant Scan(block, 4, min, max, []) == Scan(block, pos, min, max, inserted)
        decreases |block| - pos
      {
        var m := ReadMessage(block, pos);
        if m.Err? {
          return Err(m.error);
        }
        if m.value.version >= max {
          eof := true;
          break;
        }
        if m.value.version >= min {
          mutations := mutations + [m.value];
          inserted := inserted + [m.value];
        }
        pos := pos + RECORD_HEADER + |m.value.payload|;
      }
      offset := offset + |block|;
      return Ok(inserted != []);
    }

    /** Reads and decodes the block at `offset`. */
    method DecodeNextBlock(min: int, max: int) returns (r: Result<bool>)
      requires offset <= file.fileSize && BlockLength(file, offset) > 0
      modifies this
      ensures r.Ok? ==> old(offset) < offset <= file.fileSize && Left() <= old(Left()) && (r.value ==> mutations != [])
      ensures r.Ok? ==> offset == old(offset) + BlockLength(file, old(offset))
      ensures old(offset) + BlockLength(file, old(offset)) > |file.contents| ==> r == Err(BadRead)
      ensures old(Valid(max)) ==>
                && r.Ok? && Valid(max)
                && old(mutations) <= mutations
                && AddsBlock(old(mutations), mutations, old(offset), min, max)
                && (r.value <==> mutations != old(mutations))
                && mutations + InRange(unread, min, max) == old(mutations) + InRange(old(unread), min, max)
                && (!r.value ==> InRange(unread, min, max) == InRange(old(unread), min, max))
                && (r.value ==> mutations[|mutations| - 1].version >= min && forall m :: m in unread ==> m.version >= min)
    {
      hide FileMessages, ScanBlock, Sorted, InRange, BlockMessages;
      var len := BlockLength(file, offset);
      if offset + len > |file.contents| {
        return Err(BadRead);
      }
      if Valid(max) {
        ghost var ms, rest, pastMax := SplitBlock(file, offset, unread, min, max);
        BlockContribution(ms, rest, mutations, pastMax, min, max);
        unread := rest;
      }
      ScanBlockCount(file.contents[offset..offset + len], min, max);
      r := DecodeBlock(file.contents[offset..offset + len], min, max);
    }

    /**
     * Reads blocks until one holds a message in [min, max) or the file ends.  On a file in
     * order this cannot fail, loses no message in [min, max), takes messages of one block only, and
     * leaves the buffer empty only at the end.
     */
    method DecodeToVersion(min: int, max: int) returns (r: Result<()>)
      requires offset <= file.fileSize
      modifies this
      ensures r.Ok? ==> Ready() && Left() <= old(Left())
      ensures old(Valid(max)) ==> r.Ok? && Valid(max)
      ensures old(Valid(max)) && old(mutations == [] || mutations[|mutations| - 1].version < min) ==>
                && old(mutations) <= mutations
                && mutations + InRange(unread, min, max) == old(mutations) + InRange(old(unread), min, max)
                && (mutations != old(mutations) ==>
                      mutations[|mutations| - 1].version >= min && forall m :: m in unread ==> m.version >= min)
      ensures old(Valid(max)) && mutations != old(mutations) ==>
                exists at :: 0 <= at <= file.fileSize && offset == at + BlockLength(file, at) &&
                             AddsBlock(old(mutations), mutations, at, min, max)
      ensures old(mutations != [] && mutations[|mutations| - 1].version >= min) ==> unchanged(this)
    {
      hide FileMessages, Sorted, InRange, FileProgress.AddsBlock;
      if Empty() {
        return Ok(());
      }
      if mutations != [] && mutations[|mutations| - 1].version >= min {
        return Ok(());
      }
      while true
        invariant offset <= file.fileSize && Left() <= old(Left())
        invariant old(Valid(max)) ==>
                    && Valid(max)
                    && mutations == old(mutations)
                    && InRange(unread, min, max) == InRange(old(unread), min, max)
        decreases file.fileSize - offset
      {
        if BlockLength(file, offset) == 0 {
          EndOfFile();
          eof := true;
          return Ok(());
        }
        var saved := DecodeNextBlock(min, max);
        if saved.Err? {
          return Err(saved.error);
        }
        if saved.value {
          break;
        }
      }
      return Ok(());
    }

    lemma EndOfFile()
      requires offset <= file.fileSize && BlockLength(file, offset) == 0
      ensures forall max :: Valid(max) ==> unread == []
    {
    }
  }
}
