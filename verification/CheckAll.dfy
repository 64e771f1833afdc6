/** The check of a key range: rounds over every shard, nested checks, and retries after failed requests. */
module CheckAll {

  import opened ByteStrings
  import opened ReplicaReports
  import opened ReplicaChecker

  /** What is fixed during a check: the data, how servers answer, and whether to go on after a difference. */
  datatype Setup = Setup(shards: seq<Shard>, answer: Servers, checkAll: bool)

  ghost predicate ValidSetup(s: Setup) {
    ValidCluster(s.shards) && ValidServers(s.answer)
  }

  /** The stored keys in [begin, end). */
  ghost function Stored(s: Setup, begin: Bytes, end: Bytes): set<Bytes> {
    KeysIn(AllKeys(s.shards), begin, end)
  }

  /** [begin, end) is a nonempty part of a shard of the cluster. */
  ghost predicate Within(s: Setup, shard: Shard, begin: Bytes, end: Bytes) {
    shard in s.shards && AtMost(shard.begin, begin) && Less(begin, end) && AtMost(end, shard.end)
  }

  // ---------- Progress ----------

  lemma StoredShrinks(s: Setup, begin: Bytes, begin': Bytes, end: Bytes, end': Bytes)
    requires AtMost(begin, begin') && AtMost(end', end)
    ensures Stored(s, begin', end') <= Stored(s, begin, end)
  {
    hide Less;
    forall k | k in Stored(s, begin', end') ensures k in Stored(s, begin, end) {
      AtMostTransitive(begin, begin', k);
      LessThenAtMost(k, end', end);
    }
  }

  /** Moving past a stored key leaves strictly fewer. */
  lemma PastStoredKey(s: Setup, begin: Bytes, begin': Bytes, end: Bytes)
    requires Less(begin, begin') && begin in Stored(s, begin, end)
    ensures Stored(s, begin', end) < Stored(s, begin, end)
  {
    hide Less;
    LessAsymmetric(begin, begin');
    LessIrreflexive(end);
    StoredShrinks(s, begin, begin', end, end);
    assert begin !in Stored(s, begin', end);
  }

  /** A range that ends at a stored key of a larger one has strictly fewer. */
  lemma BeforeStoredKey(s: Setup, begin: Bytes, end: Bytes, end': Bytes)
    requires end' in Stored(s, begin, end)
    ensures Stored(s, begin, end') < Stored(s, begin, end)
  {
    hide Less;
    LessIrreflexive(begin);
    LessIrreflexive(end');
    LessAsymmetric(end', end);
    StoredShrinks(s, begin, begin, end, end');
    assert end' !in Stored(s, begin, end');
  }

  // ---------- What a round tells ----------

  lemma ShardFacts(s: Setup, shard: Shard)
    requires ValidSetup(s) && shard in s.shards
    ensures AllSorted(shard.replicas) && NoEmptyKey(shard.replicas) && ValidServers(s.answer)
    ensures Stores(AllKeys(s.shards), shard.replicas)
  {
    hide Less, ValidServers, AllSorted, NoEmptyKey, AllKeys, Stores;
    AllKeysStored(s.shards, shard);
    var i :| 0 <= i < |s.shards| && s.shards[i] == shard;
  }

  lemma KeysOfReplies(s: Setup, shard: Shard, begin: Bytes, end: Bytes, replies: seq<Reply>)
    requires AnswersOf(shard.replicas, begin, end, replies) && NoEmptyKey(shard.replicas)
    ensures KeysNotEmpty(replies)
    ensures forall j :: 0 <= j < |replies| ==> StrictlySorted(replies[j].data)
  {
    hide Less, Slice;
    forall j | 0 <= j < |replies|
      ensures StrictlySorted(replies[j].data) && (replies[j].data != [] ==> LastKey(replies[j]) != [])
    {
      AnswerCovers(replies[j], shard.replicas[j], begin, end);
      SliceMembers(shard.replicas[j], begin, end);
      var whole := Slice(shard.replicas[j], begin, end);
      if replies[j].data != [] { assert whole[|replies[j].data| - 1] in whole; }
    }
  }

  /** What the answers to a request for [begin, end) and their scope tell about the data. */
  lemma ScopeFacts(s: Setup, shard: Shard, begin: Bytes, end: Bytes, replies: seq<Reply>,
                   claim: Bytes, maxEnd: Bytes, hasMore: bool)
    requires AnswersOf(shard.replicas, begin, end, replies) && ScopeOf(replies, claim, maxEnd, hasMore)
    requires Stores(AllKeys(s.shards), shard.replicas)
    ensures claim == [] ==> !hasMore && Same(shard.replicas, begin, end) && Identical(replies)
    ensures claim != [] ==> claim in Stored(s, begin, end) && maxEnd in Stored(s, begin, end)
    ensures claim != [] && hasMore ==> Less(begin, maxEnd)
    ensures Identical(replies) && !hasMore ==> Same(shard.replicas, begin, end)
    ensures Identical(replies) && claim != [] ==> Same(shard.replicas, begin, claim)
  {
    hide Less, Same, Slice, Stores, AllKeys, KeysIn;
    if claim == [] {
      NoAnswers(shard.replicas, begin, end, replies);
    } else {
      ScopeBounds(shard.replicas, begin, end, replies, claim, maxEnd, hasMore, AllKeys(s.shards));
      if Identical(replies) { AgreeUpToClaim(shard.replicas, begin, end, replies, claim); }
    }
    if Identical(replies) && !hasMore {
      forall j | 0 <= j < |replies| ensures !replies[j].more {}
      CompleteAnswersAgree(shard.replicas, begin, end, replies);
    }
  }

  /** A stored key of the range splits it, and what holds of the whole splits with it. */
  lemma SplitAtStored(s: Setup, shard: Shard, begin: Bytes, middle: Bytes, end: Bytes)
    requires AllSorted(shard.replicas) && middle in Stored(s, begin, end)
    ensures AtMost(begin, middle) && Less(middle, end)
    ensures Same(shard.replicas, begin, end) <==> Same(shard.replicas, begin, middle) && Same(shard.replicas, middle, end)
  {
    hide Less, Same;
    LessAsymmetric(middle, end);
    SameSplit(shard.replicas, begin, middle, end);
  }

  // ---------- The check ----------

  /** How the check of a shard ends: to the end, at a difference, or by an error of a request. */
  datatype Outcome = Finished | DifferenceFound | RequestFailed

  /** The next request fails if the first entry of `faults` says so; there are no failures after the last entry. */
  method NextRequest(faults: seq<bool>) returns (failed: bool, rest: seq<bool>)
    ensures failed ==> |rest| < |faults|
    ensures |rest| <= |faults|
    ensures failed <==> faults != [] && faults[0]
  {
    if faults == [] {
      return false, faults;
    }
    return faults[0], faults[1..];
  }

  /** A nested check over the begin of a part of a shard is about that shard alone. */
  lemma EndsInside(s: Setup, shard: Shard, begin: Bytes, middle: Bytes, end: Bytes)
    requires ValidSetup(s) && Within(s, shard, begin, end)
    requires Less(begin, middle) && middle in Stored(s, begin, end)
    ensures ListedSame(s.shards, begin, middle) <==> Same(shard.replicas, begin, middle)
    ensures shard in Locate(s.shards, begin, middle)
    ensures forall seen :: SeenOn(seen, shard, begin, middle) <==> AllSeen(seen, shard, begin, middle)
  {
    hide Less, Same, ListedSame, ValidCluster, AllSeen;
    LessAsymmetric(middle, end);
    AtMostTransitive(middle, end, shard.end);
    LocateInside(s.shards, shard, begin, middle);
  }

  /** What one round that did not fail establishes about [begin, end), with `next` as the begin of the next round. */
  ghost predicate RoundResult(s: Setup, shard: Shard, begin: Bytes, end: Bytes, same: bool, hasMore: bool, next: Bytes) {
    && (!same && Uniform(s.answer) ==> !Same(shard.replicas, begin, end))
    && (same ==> Same(shard.replicas, begin, if hasMore then next else end))
    && (hasMore ==> Less(begin, next) && next in Stored(s, begin, end))
  }

  /** One round: asks all replicas, and compares their answers up to the least last key. */
  method CheckRound(s: Setup, shard: Shard, begin: Bytes, end: Bytes, faults: seq<bool>, time: nat)
    returns (failed: bool, same: bool, hasMore: bool, next: Bytes, rest: seq<bool>, time': nat, ghost seen: set<Seen>)
    requires ValidSetup(s) && Within(s, shard, begin, end)
    ensures |rest| <= |faults| && (failed ==> |rest| < |faults|)
    ensures failed <==> faults != [] && faults[0]
    ensures !failed ==> RoundResult(s, shard, begin, end, same, hasMore, next)
    ensures !failed && Same(shard.replicas, begin, end) ==> (same <==> AlikeAt(s.answer, time, shard.replicas, begin, end))
    ensures !failed && (same || s.checkAll) ==> AllSeen(seen, shard, begin, if hasMore then next else end)
    decreases Stored(s, begin, end), 0
  {
    hide Less, Same, ValidCluster, ValidServers, Slice, ListedSame, ScopeOf, AnswersOf, KeysIn, Uniform, AlikeAt, AllSeen, SeenOn, Locate;
    seen := {};
    failed, rest := NextRequest(faults);
    time' := time + 1;
    same, hasMore, next := true, false, begin;
    if failed {
      return;
    }
    ShardFacts(s, shard);
    var replies := AskAll(s.answer, time, shard.replicas, begin, end);
    KeysOfReplies(s, shard, begin, end, replies);
    var claim, maxEnd;
    claim, maxEnd, hasMore := DecideScope(replies);
    ScopeFacts(s, shard, begin, end, replies, claim, maxEnd, hasMore);
    AnswersShow(shard, begin, end, replies, claim, maxEnd, hasMore);
    seen := SeenIn(shard, replies);
    if Same(shard.replicas, begin, end) {
      if hasMore { SameDataMovesOn(shard.replicas, begin, end, replies, claim, maxEnd); }
      if Uniform(s.answer) { UniformAlike(s.answer, time, shard.replicas, begin, end); }
    }
    if claim == [] {
      // no server has data in the range
    } else if begin == claim && hasMore {
      BeforeStoredKey(s, begin, end, maxEnd);
      same, rest, time', seen := DoCheckAll(s, begin, maxEnd, rest, time');
      EndsInside(s, shard, begin, maxEnd, end);
      SplitAtStored(s, shard, begin, maxEnd, end);
      next := maxEnd;
    } else {
      var reports;
      same, reports := CheckResults(hasMore, claim, replies);
      SplitAtStored(s, shard, begin, claim, end);
      LessTotal(begin, claim);
      next := claim;
    }
  }

  /** What a round adds to what was established about [begin, middle), and how far it moves on. */
  lemma AfterRound(s: Setup, shard: Shard, begin: Bytes, middle: Bytes, end: Bytes, same: bool, hasMore: bool, next: Bytes)
    requires ValidSetup(s) && Within(s, shard, middle, end) && AtMost(begin, middle)
    requires RoundResult(s, shard, middle, end, same, hasMore, next)
    ensures !same && Uniform(s.answer) ==> !Same(shard.replicas, begin, end)
    ensures same && Same(shard.replicas, begin, middle) ==> Same(shard.replicas, begin, if hasMore then next else end)
    ensures hasMore ==>
              && AtMost(begin, next) && Within(s, shard, next, end) && next in Stored(s, next, end)
              && Stored(s, next, end) <= Stored(s, middle, end)
              && (middle in Stored(s, middle, end) ==> Stored(s, next, end) < Stored(s, middle, end))
  {
    hide Less, Same, ValidCluster, ValidServers;
    ShardFacts(s, shard);
    LessAsymmetric(middle, end);
    SameSplit(shard.replicas, begin, middle, end);
    if hasMore {
      LessAsymmetric(middle, next);
      AtMostTransitive(begin, middle, next);
      AtMostTransitive(shard.begin, middle, next);
      LessIrreflexive(next);
      LessIrreflexive(end);
      StoredShrinks(s, middle, next, end, end);
      SameSplit(shard.replicas, begin, middle, next);
      if middle in Stored(s, middle, end) { PastStoredKey(s, middle, next, end); }
    }
  }

  lemma NothingYet(replicas: seq<seq<Pair>>, k: Bytes)
    ensures AtMost(k, k) && Same(replicas, k, k)
  {
    hide Less;
    LessIrreflexive(k);
    forall j | 0 <= j < |replicas| ensures Slice(replicas[j], k, k) == [] { SliceNothing(replicas[j], k, k); }
  }

  lemma NothingSeen(shard: Shard, k: Bytes)
    ensures AllSeen({}, shard, k, k)
  {
  }

  /** The next request does not fail. */
  predicate Served(faults: seq<bool>) {
    faults == [] || !faults[0]
  }

  /** All rounds over one shard. */
  method CheckShard(s: Setup, shard: Shard, begin: Bytes, end: Bytes, faults: seq<bool>, time: nat, before: bool)
    returns (outcome: Outcome, consistent: bool, rest: seq<bool>, time': nat, ghost seen: set<Seen>)
    requires ValidSetup(s) && Within(s, shard, begin, end)
    ensures |rest| <= |faults| && (outcome.RequestFailed? ==> |rest| < |faults|)
    ensures !consistent && Uniform(s.answer) ==> !before || !Same(shard.replicas, begin, end)
    ensures consistent ==> before
    ensures outcome.Finished? && consistent ==> Same(shard.replicas, begin, end)
    ensures outcome.DifferenceFound? ==> !consistent && !s.checkAll
    ensures outcome.Finished? ==> AllSeen(seen, shard, begin, end) && (s.checkAll || consistent)
    ensures Served(faults) && Same(shard.replicas, begin, end) && !AlikeAt(s.answer, time, shard.replicas, begin, end) ==> !consistent
    ensures faults == [] ==> !outcome.RequestFailed?
    decreases Stored(s, begin, end), 1
  {
    hide Less, Same, ValidSetup, KeysIn, Uniform, AlikeAt, AllSeen;
    NothingYet(shard.replicas, begin);
    seen := {};
    NothingSeen(shard, begin);
    var beginKeyToCheck, hasMore := begin, true;
    consistent, rest, time' := before, faults, time;
    ghost var first := true;
    ghost var alarm := Served(faults) && Same(shard.replicas, begin, end) && !AlikeAt(s.answer, time, shard.replicas, begin, end);
    while hasMore
      invariant if first then hasMore && beginKeyToCheck == begin && rest == faults && time' == time else alarm ==> !consistent
      invariant |rest| <= |faults|
      invariant hasMore ==> AtMost(begin, beginKeyToCheck) && Within(s, shard, beginKeyToCheck, end)
      invariant consistent ==> before && Same(shard.replicas, begin, if hasMore then beginKeyToCheck else end)
      invariant !consistent && Uniform(s.answer) ==> !before || !Same(shard.replicas, begin, end)
      invariant AllSeen(seen, shard, begin, if hasMore then beginKeyToCheck else end) && (first || s.checkAll || consistent)
      decreases hasMore, Stored(s, beginKeyToCheck, end), beginKeyToCheck !in Stored(s, beginKeyToCheck, end)
    {
      var failed, same, more, next;
      ghost var now;
      failed, same, more, next, rest, time', now := CheckRound(s, shard, beginKeyToCheck, end, rest, time');
      if failed {
        return RequestFailed, consistent, rest, time', seen;
      }
      AfterRound(s, shard, begin, beginKeyToCheck, end, same, more, next);
      consistent := consistent && same;
      if !consistent && !s.checkAll {
        return DifferenceFound, consistent, rest, time', seen;
      }
      SeenJoined(seen, now, shard, begin, beginKeyToCheck, if more then next else end);
      seen := seen + now;
      beginKeyToCheck, hasMore, first := next, more, false;
    }
    outcome := Finished;
  }

  /**
   * The check of [begin, end), whatever requests fail, wherever servers cut their answers and whatever nested
   * checks it takes.  A true verdict means that the replicas of every shard listed for the range hold the same data
   * in it.  If all servers cut answers to one request alike, then a false one means that some do not; if they do not
   * cut the first ones alike, then it is false whatever the data are.  A difference that was found is not forgotten
   * when a later request fails and the check starts over.  With `checkAll`, or without a difference, every pair of the
   * listed shards was looked at.
   */
  method DoCheckAll(s: Setup, begin: Bytes, end: Bytes, faults: seq<bool>, time: nat)
    returns (consistent: bool, rest: seq<bool>, time': nat, ghost seen: set<Seen>)
    requires ValidSetup(s)
    ensures |rest| <= |faults|
    ensures consistent ==> ListedSame(s.shards, begin, end)
    ensures Uniform(s.answer) ==> (consistent <==> ListedSame(s.shards, begin, end))
    ensures consistent ==> forall i :: 0 <= i < |s.shards| && i < SHARD_LIMIT ==> PairsAgree(s.shards[i], begin, end)
    ensures Uniform(s.answer) && |s.shards| <= SHARD_LIMIT ==>
              (consistent <==> forall i :: 0 <= i < |s.shards| ==> PairsAgree(s.shards[i], begin, end))
    ensures faults == [] && !FirstAlike(s, begin, end, time) ==> !consistent
    ensures Served(faults) && FalseStart(s, begin, end, time) ==> !consistent
    ensures consistent || s.checkAll ==> forall shard :: shard in Locate(s.shards, begin, end) ==> SeenOn(seen, shard, begin, end)
    decreases Stored(s, begin, end), 3
  {
    assert ValidCluster(s.shards);
    ListedAgree(s.shards, begin, end);
    hide Less, Same, ValidSetup, KeysIn, Meeting, Meets, ListedSame, PairsAgree, Uniform, Locate, SeenOn;
    seen := {};
    consistent, rest, time' := true, faults, time;
    ghost var first := true;
    while true
      invariant |rest| <= |faults|
      invariant faults == [] ==> time' == time
      invariant if first then rest == faults && time' == time else Served(faults) && FalseStart(s, begin, end, time) ==> !consistent
      invariant !consistent && Uniform(s.answer) ==> !ListedSame(s.shards, begin, end)
      decreases |rest|
    {
      var outcome;
      first := false;
      outcome, consistent, rest, time', seen := CheckListed(s, begin, end, rest, time', consistent);
      if outcome.Finished? {
        return;
      }
      if outcome.DifferenceFound? {
        return false, rest, time', seen;
      }
    }
  }

  /** In the first round of a check, the answers are the same. */
  ghost predicate FirstAlike(s: Setup, begin: Bytes, end: Bytes, time: nat) {
    var list := Locate(s.shards, begin, end);
    list == [] || AlikeAt(s.answer, time, list[0].replicas, Later(list[0].begin, begin), Earlier(list[0].end, end))
  }

  /** In the first round of a check, the answers differ although the data do not. */
  ghost predicate FalseStart(s: Setup, begin: Bytes, end: Bytes, time: nat) {
    Locate(s.shards, begin, end) != [] && SameOn(Locate(s.shards, begin, end)[0], begin, end) && !FirstAlike(s, begin, end, time)
  }

  /** One attempt at all listed shards. */
  method CheckListed(s: Setup, begin: Bytes, end: Bytes, faults: seq<bool>, time: nat, before: bool)
    returns (outcome: Outcome, consistent: bool, rest: seq<bool>, time': nat, ghost seen: set<Seen>)
    requires ValidSetup(s) && (!before && Uniform(s.answer) ==> !ListedSame(s.shards, begin, end))
    ensures |rest| <= |faults| && (outcome.RequestFailed? ==> |rest| < |faults|)
    ensures !consistent && Uniform(s.answer) ==> !ListedSame(s.shards, begin, end)
    ensures outcome.Finished? && consistent ==> ListedSame(s.shards, begin, end)
    ensures outcome.DifferenceFound? ==> !consistent && !s.checkAll
    ensures outcome.Finished? ==> forall shard :: shard in Locate(s.shards, begin, end) ==> SeenOn(seen, shard, begin, end)
    ensures faults == [] && !FirstAlike(s, begin, end, time) ==> !consistent
    ensures Served(faults) && FalseStart(s, begin, end, time) ==> !consistent
    ensures faults == [] ==> !outcome.RequestFailed?
    ensures consistent ==> before
    decreases Stored(s, begin, end), 2
  {
    hide Less, Same, ValidSetup, KeysIn, Meeting, Meets, Uniform, AllSeen;
    seen := {};
    consistent, rest, time' := before, faults, time;
    var list := Locate(s.shards, begin, end);
    for i := 0 to |list|
      invariant |rest| <= |faults|
      invariant if i == 0 then rest == faults && time' == time
                else (faults == [] && !FirstAlike(s, begin, end, time)) || (Served(faults) && FalseStart(s, begin, end, time)) ==> !consistent
      invariant consistent ==> before && forall k :: 0 <= k < i ==> SameOn(list[k], begin, end)
      invariant forall k :: 0 <= k < i ==> SeenOn(seen, list[k], begin, end)
      invariant !consistent && Uniform(s.answer) ==> !ListedSame(s.shards, begin, end)
    {
      var shard := list[i];
      var from, to := Later(shard.begin, begin), Earlier(shard.end, end);
      ListedPart(s, shard, begin, end);
      ghost var now;
      outcome, consistent, rest, time', now := CheckShard(s, shard, from, to, rest, time', consistent);
      if !outcome.Finished? {
        return;
      }
      SeenLonger(seen, now, list, i, begin, end);
      seen := seen + now;
    }
    outcome := Finished;
  }

  lemma SeenLonger(a: set<Seen>, b: set<Seen>, list: seq<Shard>, i: nat, begin: Bytes, end: Bytes)
    requires i < |list| && (forall k :: 0 <= k < i ==> SeenOn(a, list[k], begin, end)) && SeenOn(b, list[i], begin, end)
    ensures forall k :: 0 <= k <= i ==> SeenOn(a + b, list[k], begin, end)
  {
    hide Less;
  }

  /** The part of a listed shard that is checked. */
  lemma ListedPart(s: Setup, shard: Shard, begin: Bytes, end: Bytes)
    requires ValidSetup(s) && shard in Locate(s.shards, begin, end)
    ensures Within(s, shard, Later(shard.begin, begin), Earlier(shard.end, end))
    ensures Stored(s, Later(shard.begin, begin), Earlier(shard.end, end)) <= Stored(s, begin, end)
  {
    hide Less, Meeting, KeysIn;
    LessIsStrictTotalOrder();
    MeetingMembers(s.shards, begin, end);
    assert shard in Meeting(s.shards, begin, end);
    StoredShrinks(s, begin, Later(shard.begin, begin), end, Earlier(shard.end, end));
  }

  // ---------- How far the verdict reaches ----------

  /** The same shards with other data. */
  ghost predicate SameRanges(shards: seq<Shard>, cluster: seq<Shard>) {
    |cluster| == |shards| && forall i :: 0 <= i < |shards| ==> cluster[i].begin == shards[i].begin && cluster[i].end == shards[i].end
  }

  /** Whatever the shards hold, a true verdict is about the whole range, not only about the shards listed. */
  ghost predicate VerdictIsAboutAll(shards: seq<Shard>, begin: Bytes, end: Bytes) {
    forall cluster | SameRanges(shards, cluster) && ValidCluster(cluster) && ListedSame(cluster, begin, end) ::
      forall i :: 0 <= i < |cluster| ==> PairsAgree(cluster[i], begin, end)
  }

  lemma JoinShards(a: seq<Shard>, b: seq<Shard>, c: seq<Shard>)
    ensures a + (b + c) == a + b + c
  {
  }

  lemma {:induction false} MeetingAppend(a: seq<Shard>, b: seq<Shard>, begin: Bytes, end: Bytes)
    ensures Meeting(a + b, begin, end) == Meeting(a, begin, end) + Meeting(b, begin, end)
  {
    hide Meets;
    if a == [] {
      assert a + b == b;
    } else {
      assert (a + b)[0] == a[0] && (a + b)[1..] == a[1..] + b;
      MeetingAppend(a[1..], b, begin, end);
      var first := if Meets(a[0], begin, end) then [a[0]] else [];
      JoinShards(first, Meeting(a[1..], begin, end), Meeting(b, begin, end));
    }
  }

  lemma {:induction false} MeetingLength(shards: seq<Shard>, begin: Bytes, end: Bytes)
    ensures |Meeting(shards, begin, end)| <= |shards|
  {
    hide Meets;
    if shards != [] {
      MeetingLength(shards[1..], begin, end);
    }
  }

  /** Shards that meet the range are listed if they are among the first ones. */
  lemma EarlyListed(shards: seq<Shard>, begin: Bytes, end: Bytes, i: nat)
    requires i < |shards| && i < SHARD_LIMIT && Meets(shards[i], begin, end)
    ensures shards[i] in Locate(shards, begin, end)
  {
    hide Meets;
    var early, late := shards[..i + 1], shards[i + 1..];
    assert shards == early + late;
    MeetingAppend(early, late, begin, end);
    MeetingLength(early, begin, end);
    MeetingMembers(early, begin, end);
    assert early[i] in Meeting(early, begin, end);
    var all, k :| all == Meeting(shards, begin, end) && 0 <= k < |Meeting(early, begin, end)| && Meeting(early, begin, end)[k] == shards[i];
    assert all[k] == shards[i] == Locate(shards, begin, end)[k];
  }

  /** What a verdict about the listed shards says pair by pair. */
  lemma ListedAgree(shards: seq<Shard>, begin: Bytes, end: Bytes)
    requires ValidCluster(shards)
    ensures ListedSame(shards, begin, end) ==>
              forall i :: 0 <= i < |shards| && i < SHARD_LIMIT ==> PairsAgree(shards[i], begin, end)
    ensures (forall i :: 0 <= i < |shards| ==> PairsAgree(shards[i], begin, end)) ==> ListedSame(shards, begin, end)
  {
    hide Less, Meeting, SameOn, PairsAgree, AllSorted, NoEmptyKey;
    var list := Locate(shards, begin, end);
    MeetingMembers(shards, begin, end);
    forall i | 0 <= i < |shards| ensures SameOn(shards[i], begin, end) <==> PairsAgree(shards[i], begin, end) {
      SameOnIff(shards[i], begin, end);
    }
    if ListedSame(shards, begin, end) {
      forall i | 0 <= i < |shards| && i < SHARD_LIMIT ensures PairsAgree(shards[i], begin, end) {
        if Meets(shards[i], begin, end) {
          EarlyListed(shards, begin, end, i);
          var k :| 0 <= k < |list| && list[k] == shards[i];
        } else {
          NotMetAgree(shards[i], begin, end);
        }
      }
    }
    if forall i :: 0 <= i < |shards| ==> PairsAgree(shards[i], begin, end) {
      forall k | 0 <= k < |list| ensures SameOn(list[k], begin, end) {
        assert list[k] in Meeting(shards, begin, end);
        var i :| 0 <= i < |shards| && shards[i] == list[k];
      }
    }
  }

  lemma NotMetAgree(s: Shard, begin: Bytes, end: Bytes)
    requires !Meets(s, begin, end)
    ensures PairsAgree(s, begin, end)
  {
    hide Meets, KeyIn;
    MeetsIff(s, begin, end);
  }

  /** How many shards meet a range depends on their ranges alone. */
  lemma {:induction false} MeetingCount(shards: seq<Shard>, cluster: seq<Shard>, begin: Bytes, end: Bytes)
    requires SameRanges(shards, cluster)
    ensures |Meeting(cluster, begin, end)| == |Meeting(shards, begin, end)|
  {
    hide Less;
    if shards != [] {
      MeetingCount(shards[1..], cluster[1..], begin, end);
    }
  }

  /** The shard that meets the range after `n` others. */
  lemma {:induction false} MeetingNth(shards: seq<Shard>, begin: Bytes, end: Bytes, n: nat) returns (i: nat)
    requires n < |Meeting(shards, begin, end)|
    ensures i < |shards| && Meets(shards[i], begin, end) && |Meeting(shards[..i], begin, end)| == n
  {
    hide Meets;
    i := |shards| - 1;
    var before := shards[..i];
    assert shards == before + [shards[i]];
    MeetingAppend(before, [shards[i]], begin, end);
    assert [shards[i]][1..] == [];
    if n < |Meeting(before, begin, end)| {
      i := MeetingNth(before, begin, end, n);
      assert before[..i] == shards[..i];
    }
  }

  /** The shard with two empty replicas. */
  function Emptied(s: Shard): Shard {
    Shard(s.begin, s.end, [[], []])
  }

  /** The shard with a pair in one of two replicas. */
  function Differing(s: Shard, key: Bytes): Shard {
    Shard(s.begin, s.end, [[Pair(key, [])], []])
  }

  /** All shards empty but the one at `i`, whose replicas differ at `key`. */
  function DifferingAt(shards: seq<Shard>, i: nat, key: Bytes): (cluster: seq<Shard>)
    requires i < |shards|
  {
    seq(|shards|, k requires 0 <= k < |shards| => if k == i then Differing(shards[k], key) else Emptied(shards[k]))
  }

  lemma DifferingAtValid(shards: seq<Shard>, i: nat, key: Bytes)
    requires ValidCluster(shards) && i < |shards| && key != []
    ensures SameRanges(shards, DifferingAt(shards, i, key)) && ValidCluster(DifferingAt(shards, i, key))
  {
    hide Less;
  }

  lemma {:induction false} EmptiedSame(shards: seq<Shard>, begin: Bytes, end: Bytes)
    requires forall k :: 0 <= k < |shards| ==> shards[k].replicas == [[], []]
    ensures forall s :: s in Meeting(shards, begin, end) ==> SameOn(s, begin, end)
  {
    hide Less;
    MeetingMembers(shards, begin, end);
  }

  /** The replicas of that shard differ in a range that it meets. */
  lemma DifferingDiffers(s: Shard, begin: Bytes, end: Bytes)
    requires Meets(s, begin, end)
    ensures !SameOn(Differing(s, Later(s.begin, begin)), begin, end)
  {
    hide Less;
    var key := Later(s.begin, begin);
    var d := Differing(s, key);
    LessIrreflexive(key);
    assert Slice(d.replicas[0], key, Earlier(s.end, end)) == [Pair(key, [])];
    assert Slice(d.replicas[1], key, Earlier(s.end, end)) == [];
  }

  /** A shard after another one does not begin at the empty key, and neither does a part of it. */
  lemma LaterShard(shards: seq<Shard>, i: nat, begin: Bytes)
    requires ValidCluster(shards) && 0 < i < |shards|
    ensures Later(shards[i].begin, begin) != []
  {
    assert Less(shards[0].begin, shards[0].end) && AtMost(shards[0].end, shards[i].begin);
  }

  /** With more shards than are listed, a verdict can be true while the replicas of a shard that is not listed differ. */
  lemma UnlistedDifference(shards: seq<Shard>, begin: Bytes, end: Bytes) returns (cluster: seq<Shard>, s: Shard)
    requires ValidCluster(shards) && |Meeting(shards, begin, end)| > SHARD_LIMIT
    ensures SameRanges(shards, cluster) && ValidCluster(cluster) && ListedSame(cluster, begin, end)
    ensures s in cluster && !PairsAgree(s, begin, end)
  {
    hide Less, ValidCluster, Meeting, SameOn, Meets, PairsAgree;
    var i := MeetingNth(shards, begin, end, SHARD_LIMIT);
    NoneMeets(begin, end);
    assert shards[..0] == [];
    assert i > 0;
    var key := Later(shards[i].begin, begin);
    LaterShard(shards, i, begin);
    cluster := DifferingAt(shards, i, key);
    DifferingAtValid(shards, i, key);
    s := cluster[i];
    DifferingDiffers(shards[i], begin, end);
    ClusterSorted(cluster, i);
    SameOnIff(s, begin, end);
    MeetingCount(shards[..i], cluster[..i], begin, end);
    assert cluster == cluster[..i] + cluster[i..];
    MeetingAppend(cluster[..i], cluster[i..], begin, end);
    EmptiedSame(cluster[..i], begin, end);
    var listed := Meeting(cluster[..i], begin, end);
    assert Locate(cluster, begin, end) == listed;
    forall k | 0 <= k < |listed| ensures SameOn(listed[k], begin, end) { assert listed[k] in listed; }
  }

  lemma NoneMeets(begin: Bytes, end: Bytes)
    ensures Meeting([], begin, end) == []
  {
  }

  lemma ClusterSorted(shards: seq<Shard>, i: nat)
    requires ValidCluster(shards) && i < |shards|
    ensures AllSorted(shards[i].replicas)
  {
  }

  /** A true verdict is about the whole range, whatever the data, exactly if no more shards meet the range than are listed. */
  lemma VerdictIsAboutAllIff(shards: seq<Shard>, begin: Bytes, end: Bytes)
    requires ValidCluster(shards)
    ensures VerdictIsAboutAll(shards, begin, end) <==> |Meeting(shards, begin, end)| <= SHARD_LIMIT
  {
    hide Less, ValidCluster, Meeting, SameOn, Meets, PairsAgree;
    if |Meeting(shards, begin, end)| <= SHARD_LIMIT {
      forall cluster | SameRanges(shards, cluster) && ValidCluster(cluster) && ListedSame(cluster, begin, end)
        ensures forall i :: 0 <= i < |cluster| ==> PairsAgree(cluster[i], begin, end)
      {
        MeetingCount(shards, cluster, begin, end);
        MeetingMembers(cluster, begin, end);
        var listed := Locate(cluster, begin, end);
        forall i | 0 <= i < |cluster| ensures PairsAgree(cluster[i], begin, end) {
          if Meets(cluster[i], begin, end) {
            assert cluster[i] in listed;
            var k :| 0 <= k < |listed| && listed[k] == cluster[i];
            ClusterSorted(cluster, i);
            SameOnIff(cluster[i], begin, end);
          } else {
            NotMetAgree(cluster[i], begin, end);
          }
        }
      }
    } else {
      var cluster, s := UnlistedDifference(shards, begin, end);
    }
  }

  // ---------- When a false verdict is right ----------

  /** A key beyond all keys of the data. */
  function Beyond(data: seq<Pair>): Bytes
    requires data != []
  {
    data[|data| - 1].key + [0]
  }

  lemma AllBelow(data: seq<Pair>)
    requires StrictlySorted(data) && data != []
    ensures forall p :: p in data ==> AtMost([], p.key) && Less(p.key, Beyond(data))
    ensures Less([], Beyond(data))
  {
    var last := data[|data| - 1].key;
    LessAppended(last);
    forall p | p in data ensures AtMost([], p.key) && Less(p.key, Beyond(data)) {
      var i :| 0 <= i < |data| && data[i] == p;
      if i < |data| - 1 { LessTransitive(p.key, last, Beyond(data)); }
    }
  }

  lemma {:induction false} LessAppended(k: Bytes)
    ensures Less(k, k + [0])
  {
    if k != [] {
      LessAppended(k[1..]);
      assert (k + [0])[1..] == k[1..] + [0];
    }
  }

  /** One shard with `n` replicas of the same data. */
  function Copies(data: seq<Pair>, n: nat): Shard
    requires data != []
  {
    Shard([], Beyond(data), seq(n, k => data))
  }

  lemma CopiesAgree(data: seq<Pair>, n: nat)
    requires Storable(data) && data != []
    ensures var shard, end := Copies(data, n), Beyond(data);
            && ValidCluster([shard]) && Locate([shard], [], end) == [shard] && ListedSame([shard], [], end)
            && Later(shard.begin, []) == [] && Earlier(shard.end, end) == end
            && forall j :: 0 <= j < n ==> Slice(shard.replicas[j], [], end) == data
  {
    hide Less, Slice;
    var shard, end := Copies(data, n), Beyond(data);
    AllBelow(data);
    SliceAll(data, [], end);
    LessIrreflexive([]);
    LessIrreflexive(end);
    assert [shard][1..] == [];
    assert Meets(shard, [], end);
    assert Meeting([shard], [], end) == [shard];
  }

  /**
   * If two servers cut an answer about the same data differently, then there are replicas that agree and a check of
   * them with a false verdict.  So false verdicts are always right exactly if the servers are uniform.
   */
  method FalseVerdict(answer: Servers, time: nat, i: nat, j: nat, data: seq<Pair>, checkAll: bool)
    returns (s: Setup, end: Bytes, consistent: bool)
    requires ValidServers(answer) && Storable(data) && answer(time, i, data) != answer(time, j, data)
    ensures s.answer == answer && ValidSetup(s) && ListedSame(s.shards, [], end)
    ensures !consistent
  {
    assert data != [] by { assert IsAnswer(answer(time, i, data), data) && IsAnswer(answer(time, j, data), data); }
    var shard := Copies(data, i + j + 1);
    end := Beyond(data);
    CopiesAgree(data, i + j + 1);
    s := Setup([shard], answer, checkAll);
    hide Less, Slice, ValidCluster, Locate, ValidServers;
    assert !FirstAlike(s, [], end, time) by {
      assert answer(time, i, Slice(shard.replicas[i], [], end)) != answer(time, j, Slice(shard.replicas[j], [], end));
    }
    var rest, time';
    ghost var seen;
    consistent, rest, time', seen := DoCheckAll(s, [], end, [], time);
  }
}
