/** The check that all replicas of the shards of a key range hold the same data. */
module ReplicaChecker {

  import opened ByteStrings
  import opened ReplicaReports

  // ---------- What the servers hold and answer ----------

  /** The pairs with a key in [begin, end). */
  function Slice(s: seq<Pair>, begin: Bytes, end: Bytes): seq<Pair> {
    if s == [] then [] else
      (if AtMost(begin, s[0].key) && Less(s[0].key, end) then [s[0]] else []) + Slice(s[1..], begin, end)
  }

  lemma {:induction false} SliceMembers(s: seq<Pair>, begin: Bytes, end: Bytes)
    ensures forall p :: p in Slice(s, begin, end) <==> p in s && AtMost(begin, p.key) && Less(p.key, end)
  {
    hide Less;
    if s != [] {
      SliceMembers(s[1..], begin, end);
    }
  }

  lemma SortedTail(s: seq<Pair>)
    requires StrictlySorted(s) && s != []
    ensures StrictlySorted(s[1..]) && forall p :: p in s[1..] ==> Less(s[0].key, p.key)
  {
    hide Less;
    assert forall i :: 0 <= i < |s[1..]| ==> s[1..][i] == s[i + 1];
  }

  lemma {:induction false} SliceSorted(s: seq<Pair>, begin: Bytes, end: Bytes)
    requires StrictlySorted(s)
    ensures StrictlySorted(Slice(s, begin, end))
  {
    hide Less;
    if s != [] {
      SortedTail(s);
      SliceSorted(s[1..], begin, end);
      SliceMembers(s[1..], begin, end);
      var rest := Slice(s[1..], begin, end);
      forall i | 0 <= i < |rest| ensures Less(s[0].key, rest[i].key) { assert rest[i] in rest; }
    }
  }

  lemma {:induction false} SliceNothing(s: seq<Pair>, begin: Bytes, end: Bytes)
    requires forall p :: p in s ==> !(AtMost(begin, p.key) && Less(p.key, end))
    ensures Slice(s, begin, end) == []
  {
    hide Less;
    if s != [] {
      assert s[0] in s;
      SliceNothing(s[1..], begin, end);
    }
  }

  lemma {:induction false} SliceAll(s: seq<Pair>, begin: Bytes, end: Bytes)
    requires forall p :: p in s ==> AtMost(begin, p.key) && Less(p.key, end)
    ensures Slice(s, begin, end) == s
  {
    hide Less;
    if s != [] {
      assert s[0] in s;
      SliceAll(s[1..], begin, end);
    }
  }

  /** Where all keys are from `middle` on, lowering the begin of the range changes nothing. */
  lemma {:induction false} SliceAbove(s: seq<Pair>, begin: Bytes, middle: Bytes, end: Bytes)
    requires AtMost(begin, middle) && forall p :: p in s ==> AtMost(middle, p.key)
    ensures Slice(s, begin, middle) == [] && Slice(s, begin, end) == Slice(s, middle, end)
  {
    hide Less;
    if s != [] {
      assert s[0] in s;
      AtMostTransitive(begin, middle, s[0].key);
      SliceAbove(s[1..], begin, middle, end);
    }
  }

  /** A range is the part before any of its points followed by the part from that point on. */
  lemma {:induction false} SliceSplit(s: seq<Pair>, begin: Bytes, middle: Bytes, end: Bytes)
    requires StrictlySorted(s) && AtMost(begin, middle) && AtMost(middle, end)
    ensures Slice(s, begin, end) == Slice(s, begin, middle) + Slice(s, middle, end)
  {
    hide Less, Slice;
    if s == [] {
      SliceOfNothing(begin, middle, end);
    } else {
      var t := s[1..];
      SortedTail(s);
      if AtMost(middle, s[0].key) {
        forall p | p in s ensures AtMost(middle, p.key) {
          if p != s[0] { LessAsymmetric(s[0].key, p.key); AtMostTransitive(middle, s[0].key, p.key); }
        }
        SliceAbove(s, begin, middle, end);
        assert [] + Slice(s, middle, end) == Slice(s, middle, end);
      } else {
        SliceSplit(t, begin, middle, end);
        LessThenAtMost(s[0].key, middle, end);
        SliceCons(s, begin, end);
        SliceCons(s, begin, middle);
        SliceCons(s, middle, end);
        assert [s[0]] + (Slice(t, begin, middle) + Slice(t, middle, end))
            == ([s[0]] + Slice(t, begin, middle)) + Slice(t, middle, end);
      }
    }
  }

  lemma SliceOfNothing(begin: Bytes, middle: Bytes, end: Bytes)
    ensures Slice([], begin, end) == Slice([], begin, middle) + Slice([], middle, end)
  {
  }

  lemma SliceCons(s: seq<Pair>, begin: Bytes, end: Bytes)
    requires s != []
    ensures if AtMost(begin, s[0].key) && Less(s[0].key, end)
            then Slice(s, begin, end) == [s[0]] + Slice(s[1..], begin, end)
            else Slice(s, begin, end) == Slice(s[1..], begin, end)
  {
  }

  /** An answer to a request for a range that holds `s`: all of it, or at least two pairs from its begin and `more`. */
  ghost predicate IsAnswer(r: Reply, s: seq<Pair>) {
    r.data <= s && (!r.more ==> r.data == s) && (r.more ==> |r.data| >= 2)
  }

  function LastKey(r: Reply): Bytes
    requires r.data != []
  {
    r.data[|r.data| - 1].key
  }

  lemma PrefixSorted(s: seq<Pair>, n: nat)
    requires StrictlySorted(s) && n <= |s|
    ensures StrictlySorted(s[..n])
  {
    hide Less;
  }

  /** What an answer tells about the data: everything up to its last key. */
  lemma AnswerCovers(a: Reply, s: seq<Pair>, begin: Bytes, end: Bytes)
    requires StrictlySorted(s) && IsAnswer(a, Slice(s, begin, end))
    ensures StrictlySorted(a.data)
    ensures !a.more ==> a.data == Slice(s, begin, end)
    ensures a.data != [] ==>
              && AtMost(begin, LastKey(a)) && Less(LastKey(a), end)
              && Slice(s, begin, LastKey(a)) == a.data[..|a.data| - 1]
  {
    hide Less, Slice;
    var whole := Slice(s, begin, end);
    SliceSorted(s, begin, end);
    SliceMembers(s, begin, end);
    PrefixSorted(whole, |a.data|);
    assert a.data == whole[..|a.data|];
    if a.data != [] {
      assert a.data[|a.data| - 1] == whole[|a.data| - 1];
      SliceBelow(s, begin, end, |a.data| - 1);
      assert whole[..|a.data| - 1] == a.data[..|a.data| - 1];
    }
  }

  /** The pairs of a slice before the one at `n` are the slice up to its key. */
  lemma SliceBelow(s: seq<Pair>, begin: Bytes, end: Bytes, n: nat)
    requires StrictlySorted(s) && n < |Slice(s, begin, end)|
    ensures var k := Slice(s, begin, end)[n].key;
            AtMost(begin, k) && Less(k, end) && Slice(s, begin, k) == Slice(s, begin, end)[..n]
  {
    hide Less, Slice;
    LessIsStrictTotalOrder();
    var whole := Slice(s, begin, end);
    var k := whole[n].key;
    SliceSorted(s, begin, end);
    SliceMembers(s, begin, end);
    assert whole[n] in whole;
    SliceSplit(s, begin, k, end);
    SliceMembers(s, begin, k);
    SliceMembers(s, k, end);
    PrefixBelow(whole, n, Slice(s, begin, k), Slice(s, k, end));
  }

  /** In a sorted sequence, the elements below the one at `n` are the first `n`. */
  lemma PrefixBelow(whole: seq<Pair>, n: nat, left: seq<Pair>, right: seq<Pair>)
    requires StrictlySorted(whole) && n < |whole| && whole == left + right
    requires forall p :: p in left ==> Less(p.key, whole[n].key)
    requires forall p :: p in right ==> !Less(p.key, whole[n].key)
    ensures left == whole[..n]
  {
    hide Less;
    LessIsStrictTotalOrder();
    if left != [] {
      assert left[|left| - 1] in left && left[|left| - 1] == whole[|left| - 1];
    }
    assert right[0] in right && right[0] == whole[|left|];
  }

  /** A part of a slice is the slice of that part. */
  lemma {:induction false} SliceOfSlice(s: seq<Pair>, begin: Bytes, end: Bytes, begin': Bytes, end': Bytes)
    requires AtMost(begin, begin') && AtMost(end', end)
    ensures Slice(Slice(s, begin, end), begin', end') == Slice(s, begin', end')
  {
    hide Less;
    if s != [] {
      var t := Slice(s[1..], begin, end);
      SliceOfSlice(s[1..], begin, end, begin', end');
      if AtMost(begin', s[0].key) && Less(s[0].key, end') {
        AtMostTransitive(begin, begin', s[0].key);
        LessThenAtMost(s[0].key, end', end);
      }
      if AtMost(begin, s[0].key) && Less(s[0].key, end) {
        assert ([s[0]] + t)[1..] == t;
      } else {
        assert [] + t == t;
      }
    }
  }

  // ---------- Agreement of the replicas ----------

  /** All replicas hold the same pairs in [begin, end). */
  ghost predicate Same(replicas: seq<seq<Pair>>, begin: Bytes, end: Bytes) {
    forall j :: 0 <= j < |replicas| ==> Slice(replicas[j], begin, end) == Slice(replicas[0], begin, end)
  }

  ghost predicate AllSorted(replicas: seq<seq<Pair>>) {
    forall j :: 0 <= j < |replicas| ==> StrictlySorted(replicas[j])
  }

  lemma SameSplit(replicas: seq<seq<Pair>>, begin: Bytes, middle: Bytes, end: Bytes)
    requires AllSorted(replicas) && AtMost(begin, middle) && AtMost(middle, end)
    ensures Same(replicas, begin, end) <==> Same(replicas, begin, middle) && Same(replicas, middle, end)
  {
    hide Less, Slice;
    LessIrreflexive(begin);
    LessIrreflexive(end);
    forall j | 0 <= j < |replicas|
      ensures Slice(replicas[j], begin, end) == Slice(replicas[j], begin, middle) + Slice(replicas[j], middle, end)
      ensures Slice(replicas[j], begin, middle) == Slice(Slice(replicas[j], begin, end), begin, middle)
      ensures Slice(replicas[j], middle, end) == Slice(Slice(replicas[j], begin, end), middle, end)
    {
      SliceSplit(replicas[j], begin, middle, end);
      SliceOfSlice(replicas[j], begin, end, begin, middle);
      SliceOfSlice(replicas[j], begin, end, middle, end);
    }
  }

  /** Answers of all replicas to one request; each server may cut its answer elsewhere. */
  ghost predicate AnswersOf(replicas: seq<seq<Pair>>, begin: Bytes, end: Bytes, replies: seq<Reply>) {
    && AllSorted(replicas)
    && |replies| == |replicas|
    && forall j :: 0 <= j < |replicas| ==> IsAnswer(replies[j], Slice(replicas[j], begin, end))
  }

  ghost predicate Identical(replies: seq<Reply>) {
    forall j :: 0 <= j < |replies| ==> replies[j] == replies[0]
  }

  /**
   * The scope of a comparison: the least and the greatest last key of the nonempty answers, and whether
   * one of those is not complete.  Both keys are empty when no server has an answer.
   */
  ghost predicate ScopeOf(replies: seq<Reply>, claim: Bytes, maxEnd: Bytes, hasMore: bool) {
    && (claim == [] <==> forall j :: 0 <= j < |replies| ==> replies[j].data == [])
    && (maxEnd == [] <==> claim == [])
    && (hasMore <==> exists j :: 0 <= j < |replies| && replies[j].data != [] && replies[j].more)
    && (claim != [] ==> exists j :: 0 <= j < |replies| && replies[j].data != [] && LastKey(replies[j]) == claim)
    && (claim != [] ==> exists j :: 0 <= j < |replies| && replies[j].data != [] && LastKey(replies[j]) == maxEnd)
    && forall j :: 0 <= j < |replies| && replies[j].data != [] ==>
         AtMost(claim, LastKey(replies[j])) && AtMost(LastKey(replies[j]), maxEnd)
  }

  /** Complete answers that agree settle the whole range. */
  lemma CompleteAnswersAgree(replicas: seq<seq<Pair>>, begin: Bytes, end: Bytes, replies: seq<Reply>)
    requires AnswersOf(replicas, begin, end, replies)
    requires Identical(replies) && forall j :: 0 <= j < |replies| ==> !replies[j].more
    ensures Same(replicas, begin, end)
  {
    hide Less, Slice;
    forall j | 0 <= j < |replicas| ensures Slice(replicas[j], begin, end) == replies[0].data {
      assert replies[j] == replies[0] && !replies[j].more;
    }
  }

  /** Where no server has an answer there is no data. */
  lemma NoAnswers(replicas: seq<seq<Pair>>, begin: Bytes, end: Bytes, replies: seq<Reply>)
    requires AnswersOf(replicas, begin, end, replies)
    requires forall j :: 0 <= j < |replies| ==> replies[j].data == []
    ensures Same(replicas, begin, end)
  {
    hide Less, Slice;
    forall j | 0 <= j < |replies| ensures !replies[j].more && replies[j] == replies[0] {
      assert replies[j].data == [] && replies[0].data == [];
    }
    CompleteAnswersAgree(replicas, begin, end, replies);
  }

  /** Answers that agree settle the range up to their last key. */
  lemma AgreeUpToClaim(replicas: seq<seq<Pair>>, begin: Bytes, end: Bytes, replies: seq<Reply>, claim: Bytes)
    requires AnswersOf(replicas, begin, end, replies) && Identical(replies)
    requires exists j :: 0 <= j < |replies| && replies[j].data != [] && LastKey(replies[j]) == claim
    ensures Same(replicas, begin, claim)
  {
    hide Less, Slice, IsAnswer;
    forall j | 0 <= j < |replicas| ensures Slice(replicas[j], begin, claim) == replies[0].data[..|replies[0].data| - 1] {
      AnswerCovers(replies[j], replicas[j], begin, end);
    }
  }

  /** Where the data agree and there is more to come, every answer goes beyond the begin of the range. */
  lemma SameDataMovesOn(replicas: seq<seq<Pair>>, begin: Bytes, end: Bytes, replies: seq<Reply>, claim: Bytes, maxEnd: Bytes)
    requires AnswersOf(replicas, begin, end, replies) && Same(replicas, begin, end)
    requires ScopeOf(replies, claim, maxEnd, true)
    ensures claim != begin
  {
    hide Less, Slice;
    var whole := Slice(replicas[0], begin, end);
    var m :| 0 <= m < |replies| && replies[m].data != [] && replies[m].more;
    assert replies[m].data <= Slice(replicas[m], begin, end) == whole;
    var j :| 0 <= j < |replies| && replies[j].data != [] && LastKey(replies[j]) == claim;
    assert Slice(replicas[j], begin, end) == whole && |replies[j].data| >= 2;
    SliceSorted(replicas[j], begin, end);
    SliceMembers(replicas[j], begin, end);
    assert whole[0] in whole && LastKey(replies[j]) == whole[|replies[j].data| - 1].key;
    AtMostThenLess(begin, whole[0].key, claim);
    LessIrreflexive(begin);
  }

  // ---------- The rounds over one shard ----------

  /** The keys of a set that lie in [begin, end). */
  ghost function KeysIn(stored: set<Bytes>, begin: Bytes, end: Bytes): set<Bytes> {
    set k | k in stored && AtMost(begin, k) && Less(k, end)
  }

  ghost predicate Stores(stored: set<Bytes>, replicas: seq<seq<Pair>>) {
    forall j, i :: 0 <= j < |replicas| && 0 <= i < |replicas[j]| ==> replicas[j][i].key in stored
  }

  /** The bounds of the scope are stored keys of the range; a range with more to come does not end where it begins. */
  lemma ScopeBounds(replicas: seq<seq<Pair>>, begin: Bytes, end: Bytes, replies: seq<Reply>,
                    claim: Bytes, maxEnd: Bytes, hasMore: bool, stored: set<Bytes>)
    requires AnswersOf(replicas, begin, end, replies) && ScopeOf(replies, claim, maxEnd, hasMore)
    requires Stores(stored, replicas) && claim != []
    ensures claim in KeysIn(stored, begin, end) && maxEnd in KeysIn(stored, begin, end)
    ensures hasMore ==> Less(begin, maxEnd)
  {
    hide Less, Slice;
    forall j | 0 <= j < |replies| && replies[j].data != [] ensures LastKey(replies[j]) in KeysIn(stored, begin, end) {
      AnswerCovers(replies[j], replicas[j], begin, end);
      LastKeyStored(replicas, begin, end, replies, j, stored);
    }
    if hasMore {
      var j :| 0 <= j < |replies| && replies[j].data != [] && replies[j].more;
      MoreMovesOn(replies[j], replicas[j], begin, end);
      LessThenAtMost(begin, LastKey(replies[j]), maxEnd);
    }
  }

  lemma LastKeyStored(replicas: seq<seq<Pair>>, begin: Bytes, end: Bytes, replies: seq<Reply>, j: nat, stored: set<Bytes>)
    requires AnswersOf(replicas, begin, end, replies) && Stores(stored, replicas)
    requires j < |replies| && replies[j].data != []
    ensures LastKey(replies[j]) in stored
  {
    hide Less, Slice;
    SliceMembers(replicas[j], begin, end);
    var s := Slice(replicas[j], begin, end);
    assert s[|replies[j].data| - 1] in s;
  }

  /** An answer with more to come has a last key beyond the begin of the range. */
  lemma MoreMovesOn(a: Reply, s: seq<Pair>, begin: Bytes, end: Bytes)
    requires StrictlySorted(s) && IsAnswer(a, Slice(s, begin, end)) && a.more
    ensures a.data != [] && Less(begin, LastKey(a))
  {
    hide Less, Slice;
    var whole := Slice(s, begin, end);
    SliceSorted(s, begin, end);
    SliceMembers(s, begin, end);
    assert whole[0] in whole && a.data[|a.data| - 1] == whole[|a.data| - 1];
    AtMostThenLess(begin, whole[0].key, LastKey(a));
  }

  // ---------- The shards ----------

  /** A shard: a key range and the replicas of its data. */
  datatype Shard = Shard(begin: Bytes, end: Bytes, replicas: seq<seq<Pair>>)

  /** Shards in order, without overlap; replicas in key order, without the empty key. */
  ghost predicate ValidCluster(shards: seq<Shard>) {
    && (forall i, j :: 0 <= i < j < |shards| ==> AtMost(shards[i].end, shards[j].begin))
    && (forall i :: 0 <= i < |shards| ==> Less(shards[i].begin, shards[i].end) && AllSorted(shards[i].replicas))
    && forall i :: 0 <= i < |shards| ==> NoEmptyKey(shards[i].replicas)
  }

  ghost predicate NoEmptyKey(replicas: seq<seq<Pair>>) {
    forall j, i :: 0 <= j < |replicas| && 0 <= i < |replicas[j]| ==> replicas[j][i].key != []
  }

  ghost function AllKeys(shards: seq<Shard>): set<Bytes> {
    set s, r, p | s in shards && r in s.replicas && p in r :: p.key
  }

  lemma AllKeysStored(shards: seq<Shard>, shard: Shard)
    requires shard in shards
    ensures Stores(AllKeys(shards), shard.replicas)
  {
    forall j, i | 0 <= j < |shard.replicas| && 0 <= i < |shard.replicas[j]| ensures shard.replicas[j][i].key in AllKeys(shards) {
      assert shard.replicas[j] in shard.replicas && shard.replicas[j][i] in shard.replicas[j];
    }
  }

  function Later(a: Bytes, b: Bytes): Bytes {
    if Less(a, b) then b else a
  }

  function Earlier(a: Bytes, b: Bytes): Bytes {
    if Less(a, b) then a else b
  }

  /** The part of the shard inside [begin, end) is not empty. */
  predicate Meets(s: Shard, begin: Bytes, end: Bytes) {
    Less(Later(s.begin, begin), Earlier(s.end, end))
  }

  predicate KeyIn(begin: Bytes, end: Bytes, k: Bytes) {
    AtMost(begin, k) && Less(k, end)
  }

  /** A shard meets a range exactly if some key is in both. */
  lemma MeetsIff(s: Shard, begin: Bytes, end: Bytes)
    ensures Meets(s, begin, end) <==> exists k :: KeyIn(s.begin, s.end, k) && KeyIn(begin, end, k)
  {
    hide Less;
    LessIsStrictTotalOrder();
    if Meets(s, begin, end) {
      var k := Later(s.begin, begin);
      assert KeyIn(s.begin, s.end, k) && KeyIn(begin, end, k);
    }
  }

  /** Every key of the range and the shard is held with the same value, or not at all, by all replicas. */
  ghost predicate PairsAgree(s: Shard, begin: Bytes, end: Bytes) {
    forall i, j, p: Pair :: 0 <= i < |s.replicas| && 0 <= j < |s.replicas| && KeyIn(s.begin, s.end, p.key) && KeyIn(begin, end, p.key) ==>
      (p in s.replicas[i] <==> p in s.replicas[j])
  }

  function Meeting(shards: seq<Shard>, begin: Bytes, end: Bytes): seq<Shard> {
    if shards == [] then [] else
      (if Meets(shards[0], begin, end) then [shards[0]] else []) + Meeting(shards[1..], begin, end)
  }

  const SHARD_LIMIT := 100

  /** The shards one request for locations returns: the first ones of the range, up to a limit. */
  function Locate(shards: seq<Shard>, begin: Bytes, end: Bytes): seq<Shard> {
    var all := Meeting(shards, begin, end);
    if |all| <= SHARD_LIMIT then all else all[..SHARD_LIMIT]
  }

  /** The replicas of the shard hold the same data in [begin, end). */
  ghost predicate SameOn(s: Shard, begin: Bytes, end: Bytes) {
    Same(s.replicas, Later(s.begin, begin), Earlier(s.end, end))
  }

  /** Data in key order are determined by their pairs. */
  lemma {:induction false} SortedUnique(a: seq<Pair>, b: seq<Pair>)
    requires StrictlySorted(a) && StrictlySorted(b) && forall p :: p in a <==> p in b
    ensures a == b
  {
    hide Less;
    assert a != [] ==> a[0] in a;
    assert b != [] ==> b[0] in b;
    if a != [] {
      LessIsStrictTotalOrder();
      SortedTail(a);
      SortedTail(b);
      FirstOf(a);
      FirstOf(b);
      assert a[0] == b[0];
      SortedUnique(a[1..], b[1..]);
      assert a == [a[0]] + a[1..] && b == [b[0]] + b[1..];
    }
  }

  lemma FirstOf(s: seq<Pair>)
    requires s != []
    ensures forall p :: p in s <==> p == s[0] || p in s[1..]
  {
    assert s == [s[0]] + s[1..];
  }

  /** The replicas hold the same data exactly if they agree pair by pair. */
  lemma SameOnIff(s: Shard, begin: Bytes, end: Bytes)
    requires AllSorted(s.replicas)
    ensures SameOn(s, begin, end) <==> PairsAgree(s, begin, end)
  {
    hide Less, Slice, StrictlySorted;
    var from, to := Later(s.begin, begin), Earlier(s.end, end);
    forall j | 0 <= j < |s.replicas|
      ensures StrictlySorted(Slice(s.replicas[j], from, to))
      ensures forall p :: p in Slice(s.replicas[j], from, to) <==>
                p in s.replicas[j] && KeyIn(s.begin, s.end, p.key) && KeyIn(begin, end, p.key)
    {
      SliceSorted(s.replicas[j], from, to);
      SliceMembers(s.replicas[j], from, to);
      PartKeys(s, begin, end);
    }
    if PairsAgree(s, begin, end) {
      forall j | 0 <= j < |s.replicas| ensures Slice(s.replicas[j], from, to) == Slice(s.replicas[0], from, to) {
        SortedUnique(Slice(s.replicas[j], from, to), Slice(s.replicas[0], from, to));
      }
    }
  }

  lemma PartKeys(s: Shard, begin: Bytes, end: Bytes)
    ensures forall k :: KeyIn(Later(s.begin, begin), Earlier(s.end, end), k) <==> KeyIn(s.begin, s.end, k) && KeyIn(begin, end, k)
  {
    hide Less;
    LessIsStrictTotalOrder();
  }

  /** The replicas of every shard listed for the range hold the same data in it. */
  ghost predicate ListedSame(shards: seq<Shard>, begin: Bytes, end: Bytes) {
    forall i :: 0 <= i < |Locate(shards, begin, end)| ==> SameOn(Locate(shards, begin, end)[i], begin, end)
  }

  lemma {:induction false} MeetingMembers(shards: seq<Shard>, begin: Bytes, end: Bytes)
    ensures forall s :: s in Meeting(shards, begin, end) <==> s in shards && Meets(s, begin, end)
  {
    hide Meets;
    if shards != [] {
      MeetingMembers(shards[1..], begin, end);
    }
  }

  /** Inside one shard, that shard is the only one listed. */
  lemma LocateInside(shards: seq<Shard>, shard: Shard, begin: Bytes, end: Bytes)
    requires ValidCluster(shards) && shard in shards
    requires AtMost(shard.begin, begin) && Less(begin, end) && AtMost(end, shard.end)
    ensures ListedSame(shards, begin, end) <==> Same(shard.replicas, begin, end)
    ensures shard in Locate(shards, begin, end) && Later(shard.begin, begin) == begin && Earlier(shard.end, end) == end
  {
    hide Less, Meeting, Same;
    MeetingMembers(shards, begin, end);
    Inside(shard, begin, end);
    forall s | s in shards && Meets(s, begin, end) ensures s == shard {
      OnlyOneMeets(shards, s, shard, begin, end);
    }
    var list := Locate(shards, begin, end);
    forall i | 0 <= i < |list| ensures list[i] == shard { assert list[i] in Meeting(shards, begin, end); }
    assert shard in Meeting(shards, begin, end);
    assert |list| > 0 && list[0] == shard;
  }

  lemma Inside(shard: Shard, begin: Bytes, end: Bytes)
    requires AtMost(shard.begin, begin) && Less(begin, end) && AtMost(end, shard.end)
    ensures Later(shard.begin, begin) == begin && Earlier(shard.end, end) == end && Meets(shard, begin, end)
  {
    hide Less;
    LessTotal(shard.begin, begin);
    LessTotal(end, shard.end);
  }

  lemma OnlyOneMeets(shards: seq<Shard>, s: Shard, shard: Shard, begin: Bytes, end: Bytes)
    requires ValidCluster(shards) && shard in shards && s in shards && Meets(s, begin, end)
    requires AtMost(shard.begin, begin) && Less(begin, end) && AtMost(end, shard.end)
    ensures s == shard
  {
    hide Less;
    LessIsStrictTotalOrder();
    var i :| 0 <= i < |shards| && shards[i] == shard;
    var j :| 0 <= j < |shards| && shards[j] == s;
    assert i == j;
  }

  // ---------- What the answers show ----------

  /** A pair that some replica of a shard sent. */
  datatype Seen = Seen(shard: Shard, replica: nat, pair: Pair)

  ghost function SeenIn(shard: Shard, replies: seq<Reply>): set<Seen> {
    set j, i | 0 <= j < |replies| && 0 <= i < |replies[j].data| :: Seen(shard, j, replies[j].data[i])
  }

  /** Every pair that a replica of the shard has in the range was sent. */
  ghost predicate AllSeen(seen: set<Seen>, shard: Shard, begin: Bytes, end: Bytes) {
    forall j, p :: 0 <= j < |shard.replicas| && p in shard.replicas[j] && KeyIn(begin, end, p.key) ==> Seen(shard, j, p) in seen
  }

  ghost predicate SeenOn(seen: set<Seen>, shard: Shard, begin: Bytes, end: Bytes) {
    AllSeen(seen, shard, Later(shard.begin, begin), Earlier(shard.end, end))
  }

  /** The answers have everything up to the least last key, or everything if there is no more to come. */
  lemma AnswersShow(shard: Shard, begin: Bytes, end: Bytes, replies: seq<Reply>, claim: Bytes, maxEnd: Bytes, hasMore: bool)
    requires AnswersOf(shard.replicas, begin, end, replies) && ScopeOf(replies, claim, maxEnd, hasMore)
    ensures AllSeen(SeenIn(shard, replies), shard, begin, if hasMore then claim else end)
  {
    hide Less, Slice, ScopeOf;
    var to := if hasMore then claim else end;
    forall j, p | 0 <= j < |shard.replicas| && p in shard.replicas[j] && KeyIn(begin, to, p.key)
      ensures Seen(shard, j, p) in SeenIn(shard, replies)
    {
      AnswerShows(shard.replicas, begin, end, replies, claim, maxEnd, hasMore, j, p);
      var i :| 0 <= i < |replies[j].data| && replies[j].data[i] == p;
    }
  }

  lemma AnswerShows(replicas: seq<seq<Pair>>, begin: Bytes, end: Bytes, replies: seq<Reply>, claim: Bytes, maxEnd: Bytes,
                    hasMore: bool, j: nat, p: Pair)
    requires AnswersOf(replicas, begin, end, replies) && ScopeOf(replies, claim, maxEnd, hasMore)
    requires j < |replicas| && p in replicas[j] && KeyIn(begin, if hasMore then claim else end, p.key)
    ensures p in replies[j].data
  {
    hide Less, Slice;
    AnswerCovers(replies[j], replicas[j], begin, end);
    SliceMembers(replicas[j], begin, end);
    if replies[j].more {
      var last := LastKey(replies[j]);
      SliceMembers(replicas[j], begin, last);
      LessThenAtMost(p.key, claim, last);
      assert p in replies[j].data[..|replies[j].data| - 1];
    } else if hasMore {
      var m :| 0 <= m < |replies| && replies[m].data != [] && LastKey(replies[m]) == claim;
      AnswerCovers(replies[m], replicas[m], begin, end);
      LessTransitive(p.key, claim, end);
    }
  }

  lemma SeenJoined(a: set<Seen>, b: set<Seen>, shard: Shard, begin: Bytes, middle: Bytes, end: Bytes)
    requires AllSeen(a, shard, begin, middle) && AllSeen(b, shard, middle, end)
    ensures AllSeen(a + b, shard, begin, end)
  {
    hide Less;
  }

  // ---------- One round ----------

  /** How servers answer: for the number of the request, the number of the server and the data of the range. */
  type Servers = (nat, nat, seq<Pair>) -> Reply

  ghost predicate ValidServers(answer: Servers) {
    forall time, j, s :: IsAnswer(answer(time, j, s), s)
  }

  /** Data that a server can hold: in key order, without the empty key. */
  ghost predicate Storable(s: seq<Pair>) {
    StrictlySorted(s) && forall i :: 0 <= i < |s| ==> s[i].key != []
  }

  /** All servers cut answers to the same request about the same data at the same place. */
  ghost predicate Uniform(answer: Servers) {
    forall time, i, j, s :: Storable(s) ==> answer(time, i, s) == answer(time, j, s)
  }

  /** The answers of the servers to one request are the same. */
  ghost predicate AlikeAt(answer: Servers, time: nat, replicas: seq<seq<Pair>>, begin: Bytes, end: Bytes) {
    forall j :: 0 <= j < |replicas| ==>
      answer(time, j, Slice(replicas[j], begin, end)) == answer(time, 0, Slice(replicas[0], begin, end))
  }

  lemma UniformAlike(answer: Servers, time: nat, replicas: seq<seq<Pair>>, begin: Bytes, end: Bytes)
    requires Uniform(answer) && AllSorted(replicas) && NoEmptyKey(replicas) && Same(replicas, begin, end)
    ensures AlikeAt(answer, time, replicas, begin, end)
  {
    hide Less, Slice;
    forall j | 0 <= j < |replicas| ensures Storable(Slice(replicas[j], begin, end)) {
      var part := Slice(replicas[j], begin, end);
      SliceSorted(replicas[j], begin, end);
      SliceMembers(replicas[j], begin, end);
      forall i | 0 <= i < |part| ensures part[i].key != [] {
        assert part[i] in replicas[j];
      }
    }
  }

  /** One request to every replica. */
  method AskAll(answer: Servers, time: nat, replicas: seq<seq<Pair>>, begin: Bytes, end: Bytes) returns (replies: seq<Reply>)
    requires ValidServers(answer) && AllSorted(replicas)
    ensures AnswersOf(replicas, begin, end, replies)
    ensures Identical(replies) <==> AlikeAt(answer, time, replicas, begin, end)
  {
    hide Slice, IsAnswer, Less;
    replies := [];
    for j := 0 to |replicas|
      invariant |replies| == j
      invariant forall i :: 0 <= i < j ==> replies[i] == answer(time, i, Slice(replicas[i], begin, end))
    {
      replies := replies + [answer(time, j, Slice(replicas[j], begin, end))];
    }
  }

  ghost predicate KeysNotEmpty(replies: seq<Reply>) {
    forall j :: 0 <= j < |replies| && replies[j].data != [] ==> LastKey(replies[j]) != []
  }

  /** Decides up to which key the answers can be compared; the empty key stands for "not set". */
  method DecideScope(replies: seq<Reply>) returns (claim: Bytes, maxEnd: Bytes, hasMore: bool)
    ensures hasMore <==> exists j :: 0 <= j < |replies| && replies[j].data != [] && replies[j].more
    ensures KeysNotEmpty(replies) ==> ScopeOf(replies, claim, maxEnd, hasMore)
  {
    hide Less, ScopeOf;
    claim, maxEnd, hasMore := [], [], false;
    NoScope();
    for j := 0 to |replies|
      invariant hasMore <==> exists i :: 0 <= i < j && replies[i].data != [] && replies[i].more
      invariant KeysNotEmpty(replies) ==> ScopeOf(replies[..j], claim, maxEnd, hasMore)
    {
      var current := replies[j];
      ghost var claim0, maxEnd0, hasMore0 := claim, maxEnd, hasMore;
      if current.data != [] {
        if claim == [] || Less(LastKey(current), claim) {
          claim := LastKey(current);
        }
        if maxEnd == [] || Less(maxEnd, LastKey(current)) {
          maxEnd := LastKey(current);
        }
        hasMore := hasMore || current.more;
      }
      if KeysNotEmpty(replies) { ScopeSnoc(replies[..j], current, claim0, maxEnd0, hasMore0); }
      assert replies[..j + 1] == replies[..j] + [current];
    }
    assert replies[..|replies|] == replies;
  }

  lemma NoScope()
    ensures ScopeOf([], [], [], false)
  {
  }

  lemma ScopeSnoc(replies: seq<Reply>, r: Reply, claim: Bytes, maxEnd: Bytes, hasMore: bool)
    requires ScopeOf(replies, claim, maxEnd, hasMore) && (r.data != [] ==> LastKey(r) != [])
    ensures ScopeOf(replies + [r],
                    if r.data != [] && (claim == [] || Less(LastKey(r), claim)) then LastKey(r) else claim,
                    if r.data != [] && (maxEnd == [] || Less(maxEnd, LastKey(r))) then LastKey(r) else maxEnd,
                    hasMore || (r.data != [] && r.more))
  {
    hide Less;
    LessIsStrictTotalOrder();
    var all := replies + [r];
    assert forall j :: 0 <= j < |replies| ==> all[j] == replies[j];
    assert all[|replies|] == r;
  }
}
