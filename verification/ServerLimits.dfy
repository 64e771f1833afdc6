/** How a storage server limits its answer, and what that means for the rounds of a check. */
module ServerLimits {

  import opened ByteStrings
  import opened ReplicaReports
  import opened ReplicaChecker

  // ---------- Limits ----------

  /**
   * A server takes pairs until its limit is reached.  It then says that there is more: always, or, with `exact`, only
   * if there is.
   */
  datatype Limits = Limits(reached: seq<Pair> -> bool, exact: bool)

  /** How many pairs are taken, after the first `k`. */
  function CountFrom(l: Limits, s: seq<Pair>, k: nat): (n: nat)
    requires k <= |s|
    ensures k <= n <= |s| && (n < |s| ==> l.reached(s[..n]))
    ensures forall i :: k <= i < n ==> !l.reached(s[..i])
    decreases |s| - k
  {
    if k == |s| || l.reached(s[..k]) then k else CountFrom(l, s, k + 1)
  }

  function Count(l: Limits, s: seq<Pair>): (n: nat)
    ensures n <= |s|
  {
    CountFrom(l, s, 0)
  }

  function Answer(l: Limits, s: seq<Pair>): Reply {
    var n := Count(l, s);
    Reply(s[..n], l.reached(s[..n]) && (l.exact ==> n < |s|))
  }

  /** A limit is not reached with fewer than two pairs. */
  ghost predicate ValidLimits(l: Limits) {
    forall s :: l.reached(s) ==> |s| >= 2
  }

  lemma AnswerIsAnswer(l: Limits, s: seq<Pair>)
    requires ValidLimits(l)
    ensures IsAnswer(Answer(l, s), s)
  {
    var n := Count(l, s);
    if n == |s| { assert s[..n] == s; }
  }

  function TotalSize(size: Pair -> nat, s: seq<Pair>): nat {
    if s == [] then 0 else TotalSize(size, s[..|s| - 1]) + size(s[|s| - 1])
  }

  /** The limits of a request: a number of rows and a number of bytes. */
  function RequestLimits(rows: nat, bytes: nat, size: Pair -> nat): Limits {
    Limits(s => |s| >= rows || TotalSize(size, s) >= bytes, false)
  }

  /** Incomplete answers have two rows exactly if two are asked for and no single pair uses up the bytes. */
  lemma RequestLimitsValidIff(rows: nat, bytes: nat, size: Pair -> nat)
    ensures ValidLimits(RequestLimits(rows, bytes, size)) <==> rows >= 2 && bytes > 0 && forall p :: size(p) < bytes
  {
    var l := RequestLimits(rows, bytes, size);
    forall p: Pair ensures TotalSize(size, [p]) == size(p) {
      assert [p][..0] == [];
      assert TotalSize(size, [p]) == TotalSize(size, [p][..0]) + size([p][0]);
    }
    if ValidLimits(l) {
      assert !l.reached([]);
      forall p: Pair ensures rows >= 2 && size(p) < bytes { assert !l.reached([p]); }
      var p := Pair([], []);
      assert !l.reached([p]);
    } else {
      var s :| l.reached(s) && |s| < 2;
      if s != [] { assert s == [s[0]]; }
    }
  }

  // ---------- Nested checks ----------

  /** An answer about the first `m` pairs is incomplete exactly if the one about all was, and stopped among them. */
  lemma PrefixAnswer(l: Limits, s: seq<Pair>, m: nat)
    requires m <= |s|
    ensures var n := Count(l, s);
            Answer(l, s[..m]).more <==> Answer(l, s).more && (if l.exact then n < m else n <= m)
  {
    var n, n' := Count(l, s), Count(l, s[..m]);
    forall i | 0 <= i <= m ensures s[..m][..i] == s[..i] {}
    assert n <= m ==> n' == n;
    assert n > m ==> n' == m;
  }

  /** The part of a slice below a key is its first pairs, those with smaller keys. */
  lemma SliceFirst(s: seq<Pair>, begin: Bytes, middle: Bytes, end: Bytes)
    requires StrictlySorted(s) && AtMost(begin, middle) && AtMost(middle, end)
    ensures var whole, part := Slice(s, begin, end), Slice(s, begin, middle);
            part <= whole && forall i :: 0 <= i < |whole| ==> (i < |part| <==> Less(whole[i].key, middle))
  {
    hide Less, Slice;
    var whole, part, rest := Slice(s, begin, end), Slice(s, begin, middle), Slice(s, middle, end);
    SliceSplit(s, begin, middle, end);
    SliceMembers(s, begin, middle);
    SliceMembers(s, middle, end);
    forall i | 0 <= i < |whole| ensures i < |part| <==> Less(whole[i].key, middle) {
      if i < |part| { assert whole[i] in part; } else { assert whole[i] == rest[i - |part|] && whole[i] in rest; }
    }
  }

  /** Where a server that says there is more saw its limit: at the next key, or at the last key of its answer. */
  function StopKey(l: Limits, s: seq<Pair>): Bytes
    requires ValidLimits(l) && Answer(l, s).more
  {
    AnswerIsAnswer(l, s);
    if l.exact then s[Count(l, s)].key else LastKey(Answer(l, s))
  }

  /** An answer about the begin of a range is incomplete exactly if the one about the range was, and stopped in it. */
  lemma BeginAnswerIff(l: Limits, s: seq<Pair>, begin: Bytes, middle: Bytes, end: Bytes)
    requires ValidLimits(l) && StrictlySorted(s) && AtMost(begin, middle) && AtMost(middle, end)
    ensures var whole := Slice(s, begin, end);
            Answer(l, Slice(s, begin, middle)).more <==> Answer(l, whole).more && Less(StopKey(l, whole), middle)
  {
    hide Less, Slice, Count;
    var whole, part := Slice(s, begin, end), Slice(s, begin, middle);
    SliceFirst(s, begin, middle, end);
    PrefixAnswer(l, whole, |part|);
    assert part == whole[..|part|];
    if Answer(l, whole).more {
      AnswerIsAnswer(l, whole);
      var n := Count(l, whole);
      assert LastKey(Answer(l, whole)) == whole[n - 1].key;
    }
  }

  /** The answers of the replicas under the limits of their servers. */
  ghost predicate AnswersBy(limits: seq<Limits>, replicas: seq<seq<Pair>>, begin: Bytes, end: Bytes, replies: seq<Reply>) {
    && AllSorted(replicas)
    && |limits| == |replicas| == |replies|
    && (forall j :: 0 <= j < |limits| ==> ValidLimits(limits[j]))
    && forall j :: 0 <= j < |replicas| ==> replies[j] == Answer(limits[j], Slice(replicas[j], begin, end))
  }

  lemma AnswersByAreAnswers(limits: seq<Limits>, replicas: seq<seq<Pair>>, begin: Bytes, end: Bytes, replies: seq<Reply>)
    requires AnswersBy(limits, replicas, begin, end, replies)
    ensures AnswersOf(replicas, begin, end, replies)
  {
    hide Less, Slice, ValidLimits, Answer, IsAnswer;
    forall j | 0 <= j < |replicas| ensures IsAnswer(replies[j], Slice(replicas[j], begin, end)) {
      AnswerIsAnswer(limits[j], Slice(replicas[j], begin, end));
    }
  }

  /** All answers about [begin, end) are complete. */
  ghost predicate AllComplete(limits: seq<Limits>, replicas: seq<seq<Pair>>, begin: Bytes, end: Bytes)
    requires |limits| == |replicas|
  {
    forall j :: 0 <= j < |replicas| ==> !Answer(limits[j], Slice(replicas[j], begin, end)).more
  }

  /**
   * A nested check goes up to the greatest last key, and was meant to find every answer complete.  It does exactly if
   * no server stopped before that key: for servers that say there is more whenever they reach their limit, if every
   * incomplete answer ended at the greatest last key.
   */
  lemma NestedCompleteIff(limits: seq<Limits>, replicas: seq<seq<Pair>>, begin: Bytes, end: Bytes, replies: seq<Reply>,
                          claim: Bytes, maxEnd: Bytes, hasMore: bool)
    requires AnswersBy(limits, replicas, begin, end, replies) && ScopeOf(replies, claim, maxEnd, hasMore) && claim != []
    ensures AllComplete(limits, replicas, begin, maxEnd) <==>
              forall j :: 0 <= j < |replies| && replies[j].more ==> AtMost(maxEnd, StopKey(limits[j], Slice(replicas[j], begin, end)))
    ensures (forall j :: 0 <= j < |limits| ==> !limits[j].exact) ==>
              (AllComplete(limits, replicas, begin, maxEnd) <==>
                 forall j :: 0 <= j < |replies| && replies[j].more ==> replies[j].data != [] && LastKey(replies[j]) == maxEnd)
  {
    hide Less, Slice, ValidLimits, Answer;
    GreatestKeyInside(limits, replicas, begin, end, replies, claim, maxEnd, hasMore);
    forall j | 0 <= j < |replies|
      ensures Answer(limits[j], Slice(replicas[j], begin, maxEnd)).more <==>
                replies[j].more && !AtMost(maxEnd, StopKey(limits[j], Slice(replicas[j], begin, end)))
      ensures replies[j].more && !limits[j].exact ==>
                (AtMost(maxEnd, StopKey(limits[j], Slice(replicas[j], begin, end))) <==> replies[j].data != [] && LastKey(replies[j]) == maxEnd)
    {
      BeginAnswerIff(limits[j], replicas[j], begin, maxEnd, end);
      AnswerIsAnswer(limits[j], Slice(replicas[j], begin, end));
      if replies[j].more { LessTotal(LastKey(replies[j]), maxEnd); LessIrreflexive(maxEnd); }
    }
  }

  lemma GreatestKeyInside(limits: seq<Limits>, replicas: seq<seq<Pair>>, begin: Bytes, end: Bytes, replies: seq<Reply>,
                          claim: Bytes, maxEnd: Bytes, hasMore: bool)
    requires AnswersBy(limits, replicas, begin, end, replies) && ScopeOf(replies, claim, maxEnd, hasMore) && claim != []
    ensures AtMost(begin, maxEnd) && AtMost(maxEnd, end)
  {
    hide Less, Slice, ValidLimits, Answer;
    AnswersByAreAnswers(limits, replicas, begin, end, replies);
    var i :| 0 <= i < |replies| && replies[i].data != [] && LastKey(replies[i]) == maxEnd;
    AnswerCovers(replies[i], replicas[i], begin, end);
    LessAsymmetric(maxEnd, end);
  }

  /** With two replicas, one of which ends at the begin of the range, the other is the incomplete one. */
  lemma OnlyOneIncomplete(replicas: seq<seq<Pair>>, begin: Bytes, end: Bytes, replies: seq<Reply>, claim: Bytes,
                          maxEnd: Bytes, hasMore: bool)
    requires AnswersOf(replicas, begin, end, replies) && ScopeOf(replies, claim, maxEnd, hasMore)
    requires claim == begin && |replies| <= 2
    ensures forall i :: 0 <= i < |replies| && replies[i].more ==> replies[i].data != [] && LastKey(replies[i]) == maxEnd
  {
    hide Less, IsAnswer;
    forall i | 0 <= i < |replies| && replies[i].more ensures replies[i].data != [] && LastKey(replies[i]) == maxEnd {
      MoreMovesOn(replies[i], replicas[i], begin, end);
      LessIrreflexive(begin);
      LessThenAtMost(begin, LastKey(replies[i]), maxEnd);
    }
  }

  /** With two replicas every answer of a nested check is complete, whatever the limits of the servers. */
  lemma NestedTwoReplicas(limits: seq<Limits>, replicas: seq<seq<Pair>>, begin: Bytes, end: Bytes, replies: seq<Reply>,
                          maxEnd: Bytes, hasMore: bool)
    requires AnswersBy(limits, replicas, begin, end, replies) && ScopeOf(replies, begin, maxEnd, hasMore)
    requires begin != [] && |replicas| <= 2
    ensures AllComplete(limits, replicas, begin, maxEnd)
  {
    hide Less, Slice, ScopeOf;
    AnswersByAreAnswers(limits, replicas, begin, end, replies);
    OnlyOneIncomplete(replicas, begin, end, replies, begin, maxEnd, hasMore);
    NestedCompleteIff(limits, replicas, begin, end, replies, begin, maxEnd, hasMore);
    forall j | 0 <= j < |replies| && replies[j].more
      ensures AtMost(maxEnd, StopKey(limits[j], Slice(replicas[j], begin, end)))
    {
      StopsAtEnd(limits[j], replicas[j], begin, end);
    }
  }

  /** A server does not stop before the last key of its answer. */
  lemma StopsAtEnd(l: Limits, s: seq<Pair>, begin: Bytes, end: Bytes)
    requires ValidLimits(l) && StrictlySorted(s) && Answer(l, Slice(s, begin, end)).more
    ensures var whole := Slice(s, begin, end);
            Answer(l, whole).data != [] && AtMost(LastKey(Answer(l, whole)), StopKey(l, whole))
  {
    hide Less, Slice, Count;
    var whole := Slice(s, begin, end);
    SliceSorted(s, begin, end);
    AnswerIsAnswer(l, whole);
    var n := Count(l, whole);
    LessIrreflexive(whole[n - 1].key);
    if l.exact { LessAsymmetric(whole[n - 1].key, whole[n].key); }
  }

  // ---------- Examples ----------

  function RowLimit(n: nat): Limits {
    Limits(s => |s| >= n, false)
  }

  lemma CountRows(n: nat, s: seq<Pair>, k: nat)
    requires k <= |s| && k <= n
    ensures CountFrom(RowLimit(n), s, k) == if |s| <= n then |s| else n
  {
    var c := CountFrom(RowLimit(n), s, k);
    assert c < |s| ==> |s[..c]| >= n;
    assert n < |s| ==> RowLimit(n).reached(s[..n]);
  }

  /** A sequence inside a range, and the answer about it. */
  lemma AnswerRows(n: nat, s: seq<Pair>, begin: Bytes, end: Bytes)
    requires forall p :: p in s ==> AtMost(begin, p.key) && Less(p.key, end)
    ensures Answer(RowLimit(n), Slice(s, begin, end)) == if |s| < n then Reply(s, false) else Reply(s[..n], true)
  {
    hide Less, Slice;
    SliceAll(s, begin, end);
    CountRows(n, s, 0);
    assert s[..|s|] == s;
  }

  /** With three replicas a nested check, which ends at the greatest last key `d`, can meet an incomplete answer again. */
  lemma NestedAnswerIncomplete(a: Pair, b: Pair, c: Pair, d: Pair, end: Bytes)
    requires StrictlySorted([a, b, c, d]) && Less(d.key, end)
    ensures Answer(RowLimit(2), Slice([a], a.key, end)) == Reply([a], false)
    ensures Answer(RowLimit(2), Slice([a, b, c], a.key, end)) == Reply([a, b], true)
    ensures Answer(RowLimit(2), Slice([a, d], a.key, end)) == Reply([a, d], true)
    ensures Answer(RowLimit(2), Slice([a, b, c], a.key, d.key)).more
  {
    hide Less, Slice, Answer;
    LessIsStrictTotalOrder();
    assert Less([a, b, c, d][0].key, [a, b, c, d][1].key) && Less([a, b, c, d][1].key, [a, b, c, d][2].key)
        && Less([a, b, c, d][2].key, [a, b, c, d][3].key);
    AnswerRows(2, [a], a.key, end);
    AnswerRows(2, [a, b, c], a.key, end);
    AnswerRows(2, [a, d], a.key, end);
    AnswerRows(2, [a, b, c], a.key, d.key);
    assert [a, b, c][..2] == [a, b] && [a, d][..2] == [a, d];
  }

  lemma FirstBeforeLast(s: seq<Pair>)
    requires StrictlySorted(s) && s != []
    ensures |s| == 1 || Less(s[0].key, s[|s| - 1].key)
  {
  }

  /**
   * Without the guarantee of two rows in an incomplete answer, a round that begins at its claim moves on
   * exactly if some answer has a key beyond it; otherwise the next round is the same round again.
   */
  lemma StandsStillIff(replies: seq<Reply>, begin: Bytes, maxEnd: Bytes)
    requires ScopeOf(replies, begin, maxEnd, true) && begin != []
    requires forall j :: 0 <= j < |replies| ==> StrictlySorted(replies[j].data)
    requires forall j :: 0 <= j < |replies| && replies[j].data != [] ==> AtMost(begin, replies[j].data[0].key)
    ensures maxEnd == begin <==>
              forall j :: 0 <= j < |replies| && replies[j].data != [] ==> |replies[j].data| == 1 && replies[j].data[0].key == begin
  {
    hide Less;
    LessIsStrictTotalOrder();
    if maxEnd == begin {
      forall j | 0 <= j < |replies| && replies[j].data != []
        ensures |replies[j].data| == 1 && replies[j].data[0].key == begin
      {
        FirstBeforeLast(replies[j].data);
        assert LastKey(replies[j]) == begin;
      }
    }
  }

  /** With answers of one row the rounds of a check can stand still. */
  lemma OneRowStandsStill(a: Pair, b: Pair, end: Bytes)
    requires Less(a.key, b.key) && Less(b.key, end) && a.key != []
    ensures Answer(RowLimit(1), Slice([a, b], a.key, end)) == Reply([a], true)
    ensures ScopeOf([Reply([a], true), Reply([a], true)], a.key, a.key, true)
  {
    hide Less, Slice, Answer;
    LessIsStrictTotalOrder();
    AnswerRows(1, [a, b], a.key, end);
    assert [a, b][..1] == [a];
    var replies := [Reply([a], true), Reply([a], true)];
    assert LastKey(replies[0]) == a.key && replies[0].more;
  }

  /**
   * The first round of a check need not move past a stored key: here it moves from a begin below all of them
   * to the first one.  From then on every round starts at a stored key, and moves past it.
   */
  lemma FirstRoundKeepsKeys(begin: Bytes, c: Pair, d: Pair, e: Pair, end: Bytes)
    requires StrictlySorted([c, d, e]) && Less(begin, c.key) && Less(e.key, end)
    ensures Answer(RowLimit(2), Slice([c, d, e], begin, end)) == Reply([c, d], true)
    ensures Answer(RowLimit(2), Slice([c], begin, end)) == Reply([c], false)
    ensures KeysIn({c.key, d.key, e.key}, c.key, end) == KeysIn({c.key, d.key, e.key}, begin, end)
  {
    hide Less, Slice, Answer;
    LessIsStrictTotalOrder();
    assert Less([c, d, e][0].key, [c, d, e][1].key) && Less([c, d, e][1].key, [c, d, e][2].key);
    AnswerRows(2, [c, d, e], begin, end);
    AnswerRows(2, [c], begin, end);
    assert [c, d, e][..2] == [c, d];
  }

  lemma ScopeOfTwo(r: Reply, r': Reply)
    requires r.data != [] && r'.data != [] && r'.more && LastKey(r) != []
    requires Less(LastKey(r), LastKey(r'))
    ensures ScopeOf([r, r'], LastKey(r), LastKey(r'), true)
  {
    assert LastKey(r') != [];
    hide Less;
    LessIsStrictTotalOrder();
    var replies := [r, r'];
    assert replies[0] == r && replies[1] == r';
  }

  /** Of the replies `[a, c]` and `[a, b, d]` exactly the difference at `b` is below `c`. */
  lemma OnlyDifference(a: Pair, b: Pair, c: Pair, d: Pair, k: Bytes)
    requires Less(a.key, b.key) && Less(b.key, c.key) && Less(c.key, d.key)
    ensures !Agree([a, c], [a, b, d], k) && Less(k, c.key) <==> k == b.key
  {
    hide Less;
    LessIsStrictTotalOrder();
    if !Agree([a, c], [a, b, d], k) && Less(k, c.key) {
      var p: Pair :| p.key == k && !(p in [a, c] <==> p in [a, b, d]);
    }
    assert b in [a, b, d] && b !in [a, c];
  }

  lemma OnlyMissed(a: Pair, b: Pair, c: Pair, d: Pair, reports: seq<Report>)
    requires Less(a.key, b.key) && Less(b.key, c.key) && Less(c.key, d.key)
    requires ServerReports(true, c.key, [a, c], [a, b, d], reports)
    ensures !Reported(reports, b.key)
  {
    hide Less, Agree, Reported;
    LessIsStrictTotalOrder();
    var reference, current := [a, c], [a, b, d];
    assert ReachesClaim(reference, c.key) by { assert !Less(reference[1].key, c.key); }
    assert !Dominated(current, reference, c.key) by {
      assert Less(current[1].key, c.key);
      forall j | 0 <= j < |reference| && Less(reference[j].key, c.key) ensures !AtMost(current[1].key, reference[j].key) {}
    }
    assert !AllReported(reference, current, reports, true, c.key);
    var k :| !Agree(reference, current, k) && !OutOfScope(true, c.key, k) && !Reported(reports, k);
    OnlyDifference(a, b, c, d, k);
  }

  /**
   * A difference below the claim can go unreported.  Where the reference has nothing between its first key and the
   * claim, the comparison stops before it sees the key `b` that the other server has there.
   */
  lemma UnreportedDifference(a: Pair, b: Pair, c: Pair, d: Pair, end: Bytes, reports: seq<Report>)
    requires Less(a.key, b.key) && Less(b.key, c.key) && Less(c.key, d.key) && Less(d.key, end)
    requires ServerReports(true, c.key, [a, c], [a, b, d], reports)
    ensures Answer(RowLimit(3), Slice([a, c], a.key, end)) == Reply([a, c], false)
    ensures Answer(RowLimit(3), Slice([a, b, d], a.key, end)) == Reply([a, b, d], true)
    ensures ScopeOf([Reply([a, c], false), Reply([a, b, d], true)], c.key, d.key, true)
    ensures Less(b.key, c.key) && !Agree([a, c], [a, b, d], b.key) && !Reported(reports, b.key)
  {
    assert c.key != [];
    hide Less, Slice, Answer, ServerReports, ScopeOf, Agree, Reported;
    OnlyDifference(a, b, c, d, b.key);
    OnlyMissed(a, b, c, d, reports);
    ScopeOfTwo(Reply([a, c], false), Reply([a, b, d], true));
    LessIsStrictTotalOrder();
    AnswerRows(3, [a, c], a.key, end);
    AnswerRows(3, [a, b, d], a.key, end);
    assert [a, b, d][..3] == [a, b, d];
  }
}
