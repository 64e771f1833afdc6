/** Comparing the replies of the replicas of a shard, and what is reported about them. */
module ReplicaReports {

  import opened ByteStrings

  datatype Pair = Pair(key: Bytes, value: Bytes)

  /** A range reply: pairs in key order, and whether the server may hold more in the range. */
  datatype Reply = Reply(data: seq<Pair>, more: bool)

  ghost predicate StrictlySorted(s: seq<Pair>) {
    forall i, j :: 0 <= i < j < |s| ==> Less(s[i].key, s[j].key)
  }

  /** Two replicas hold the same about a key. */
  ghost predicate Agree(a: seq<Pair>, b: seq<Pair>, k: Bytes) {
    forall p: Pair :: p.key == k ==> (p in a <==> p in b)
  }

  ghost predicate HasKey(s: seq<Pair>, k: Bytes) {
    exists i :: 0 <= i < |s| && s[i].key == k
  }

  datatype Kind = UniqueToReference | UniqueToCurrent | MismatchValue

  datatype Report = Report(kind: Kind, key: Bytes)

  ghost predicate Reported(reports: seq<Report>, k: Bytes) {
    exists i :: 0 <= i < |reports| && reports[i].key == k
  }

  /** What a report claims is so. */
  ghost predicate Truthful(r: Report, reference: seq<Pair>, current: seq<Pair>) {
    && !Agree(reference, current, r.key)
    && (HasKey(reference, r.key) <==> !r.kind.UniqueToCurrent?)
    && (HasKey(current, r.key) <==> !r.kind.UniqueToReference?)
  }

  // ---------- The two cursors ----------

  /** Every key before `n` in `s` is smaller than the key at `m` in `t`, if there is one. */
  ghost predicate Behind(s: seq<Pair>, n: nat, t: seq<Pair>, m: nat) {
    m < |t| ==> forall i :: 0 <= i < n && i < |s| ==> Less(s[i].key, t[m].key)
  }

  /** The cursors stand at the same place in the order of keys. */
  ghost predicate InStep(reference: seq<Pair>, r: nat, current: seq<Pair>, c: nat) {
    && r <= |reference| && c <= |current|
    && StrictlySorted(reference) && StrictlySorted(current)
    && Behind(reference, r, current, c) && Behind(current, c, reference, r)
  }

  lemma OnlyInReference(reference: seq<Pair>, r: nat, current: seq<Pair>, c: nat)
    requires InStep(reference, r, current, c) && r < |reference|
    requires c < |current| ==> Less(reference[r].key, current[c].key)
    ensures !HasKey(current, reference[r].key) && HasKey(reference, reference[r].key)
    ensures !Agree(reference, current, reference[r].key)
    ensures InStep(reference, r + 1, current, c)
  {
    hide Less;
    LessIsStrictTotalOrder();
    var p := reference[r];
    assert p in reference;
    forall i | 0 <= i < |current| ensures current[i].key != p.key {
      if i > c { assert Less(current[c].key, current[i].key); }
    }
  }

  lemma InBoth(reference: seq<Pair>, r: nat, current: seq<Pair>, c: nat)
    requires InStep(reference, r, current, c) && r < |reference| && c < |current|
    requires reference[r].key == current[c].key
    ensures HasKey(current, reference[r].key) && HasKey(reference, reference[r].key)
    ensures Agree(reference, current, reference[r].key) <==> reference[r].value == current[c].value
    ensures InStep(reference, r + 1, current, c + 1)
  {
    hide Less;
    LessIsStrictTotalOrder();
    var p, q := reference[r], current[c];
    assert p in reference && q in current;
    forall i | 0 <= i < |current| && current[i].key == p.key ensures i == c {}
    forall i | 0 <= i < |reference| && reference[i].key == p.key ensures i == r {}
  }

  lemma AgreeSymmetric(a: seq<Pair>, b: seq<Pair>)
    ensures forall k :: Agree(a, b, k) <==> Agree(b, a, k)
  {
  }

  // ---------- The state of the comparison ----------

  /** Reports come in key order, so no key is reported twice. */
  ghost predicate SortedReports(reports: seq<Report>) {
    forall i, j :: 0 <= i < j < |reports| ==> Less(reports[i].key, reports[j].key)
  }

  ghost predicate AllBelow(reports: seq<Report>, k: Bytes) {
    forall i :: 0 <= i < |reports| ==> Less(reports[i].key, k)
  }

  /** The comparison leaves keys from `claim` on to the next round. */
  predicate OutOfScope(hasMore: bool, claim: Bytes, k: Bytes) {
    hasMore && !Less(k, claim)
  }

  /**
   * What holds of the cursor `n` in `s`, with the other cursor at `m` in `t`: differences before it are
   * reported, no report is ahead of it, and once it is out of scope the other one did not run ahead.
   */
  ghost predicate Side(s: seq<Pair>, n: nat, t: seq<Pair>, m: nat, reports: seq<Report>, hasMore: bool, claim: Bytes)
    requires n <= |s| && m <= |t|
  {
    && (forall i :: 0 <= i < n ==> Agree(s, t, s[i].key) || Reported(reports, s[i].key))
    && (forall i :: 0 <= i < n ==> !OutOfScope(hasMore, claim, s[i].key))
    && (n < |s| ==> AllBelow(reports, s[n].key))
    && (n < |s| && OutOfScope(hasMore, claim, s[n].key) ==> m == 0 || (n > 0 && AtMost(t[m - 1].key, s[n - 1].key)))
  }

  ghost predicate Comparing(reference: seq<Pair>, r: nat, current: seq<Pair>, c: nat, reports: seq<Report>,
                            hasMore: bool, claim: Bytes)
  {
    && InStep(reference, r, current, c)
    && SortedReports(reports)
    && (forall i :: 0 <= i < |reports| ==>
          Truthful(reports[i], reference, current) && !OutOfScope(hasMore, claim, reports[i].key))
    && Side(reference, r, current, c, reports, hasMore, claim)
    && Side(current, c, reference, r, reports, hasMore, claim)
  }

  lemma ReportedSnoc(reports: seq<Report>, report: Report)
    ensures forall k :: Reported(reports + [report], k) <==> Reported(reports, k) || k == report.key
  {
    forall k ensures Reported(reports + [report], k) <==> Reported(reports, k) || k == report.key {
      if Reported(reports, k) {
        var i :| 0 <= i < |reports| && reports[i].key == k;
        assert (reports + [report])[i].key == k;
      }
      if k == report.key { assert (reports + [report])[|reports|].key == k; }
    }
  }

  /** Passing a key that only `s` has, with a report about it. */
  lemma PassOne(s: seq<Pair>, n: nat, t: seq<Pair>, m: nat, reports: seq<Report>, report: Report, hasMore: bool, claim: Bytes)
    requires InStep(s, n, t, m) && n < |s| && (m < |t| ==> Less(s[n].key, t[m].key))
    requires Side(s, n, t, m, reports, hasMore, claim) && Side(t, m, s, n, reports, hasMore, claim)
    requires SortedReports(reports) && report.key == s[n].key && !OutOfScope(hasMore, claim, s[n].key)
    requires m < |t| ==> !OutOfScope(hasMore, claim, t[m].key)
    ensures SortedReports(reports + [report])
    ensures Side(s, n + 1, t, m, reports + [report], hasMore, claim)
    ensures Side(t, m, s, n + 1, reports + [report], hasMore, claim)
  {
    hide Less, Agree;
    LessIsStrictTotalOrder();
    ReportedSnoc(reports, report);
    if m > 0 { assert Less(t[m - 1].key, s[n].key); }
  }

  /** Passing a key that both have; `more` holds a report about it if the values differ. */
  lemma PassBoth(s: seq<Pair>, n: nat, t: seq<Pair>, m: nat, reports: seq<Report>, more: seq<Report>, hasMore: bool, claim: Bytes)
    requires InStep(s, n, t, m) && n < |s| && m < |t| && s[n].key == t[m].key
    requires Side(s, n, t, m, reports, hasMore, claim) && Side(t, m, s, n, reports, hasMore, claim)
    requires SortedReports(reports) && !OutOfScope(hasMore, claim, s[n].key)
    requires if Agree(s, t, s[n].key) then more == reports
             else |more| == |reports| + 1 && more[..|reports|] == reports && more[|reports|].key == s[n].key
    ensures SortedReports(more)
    ensures Side(s, n + 1, t, m + 1, more, hasMore, claim)
    ensures Side(t, m + 1, s, n + 1, more, hasMore, claim)
  {
    hide Less, Agree;
    LessIsStrictTotalOrder();
    AgreeSymmetric(s, t);
    if more != reports {
      assert more == reports + [more[|reports|]];
      ReportedSnoc(reports, more[|reports|]);
    }
  }

  // ---------- When the reports are complete ----------

  ghost predicate ReachesClaim(s: seq<Pair>, claim: Bytes) {
    exists i :: 0 <= i < |s| && !Less(s[i].key, claim)
  }

  /** Every key of `s` below the claim is at most some key of `t` below the claim. */
  ghost predicate Dominated(s: seq<Pair>, t: seq<Pair>, claim: Bytes) {
    forall i :: 0 <= i < |s| && Less(s[i].key, claim) ==>
      exists j :: 0 <= j < |t| && Less(t[j].key, claim) && AtMost(s[i].key, t[j].key)
  }

  /** Neither reply runs out of keys below the claim while the other one still has some. */
  ghost predicate Aligned(reference: seq<Pair>, current: seq<Pair>, claim: Bytes) {
    && (ReachesClaim(reference, claim) ==> Dominated(current, reference, claim))
    && (ReachesClaim(current, claim) ==> Dominated(reference, current, claim))
  }

  /** Every difference in scope is reported. */
  ghost predicate AllReported(reference: seq<Pair>, current: seq<Pair>, reports: seq<Report>, hasMore: bool, claim: Bytes) {
    forall k :: !Agree(reference, current, k) && !OutOfScope(hasMore, claim, k) ==> Reported(reports, k)
  }

  /** Both cursors are at the end, or one of them is out of scope. */
  ghost predicate Stopped(reference: seq<Pair>, r: nat, current: seq<Pair>, c: nat, hasMore: bool, claim: Bytes)
    requires r <= |reference| && c <= |current|
  {
    || (r == |reference| && c == |current|)
    || (r < |reference| && OutOfScope(hasMore, claim, reference[r].key))
    || (c < |current| && OutOfScope(hasMore, claim, current[c].key))
  }

  /** A key in scope at which a cursor stopped is a difference that is not reported. */
  lemma Missed(s: seq<Pair>, n: nat, t: seq<Pair>, m: nat, reports: seq<Report>, hasMore: bool, claim: Bytes)
    requires InStep(s, n, t, m) && Side(s, n, t, m, reports, hasMore, claim)
    requires n < |s| && !OutOfScope(hasMore, claim, s[n].key) && Stopped(s, n, t, m, hasMore, claim)
    ensures m < |t| && OutOfScope(hasMore, claim, t[m].key)
    ensures !Agree(s, t, s[n].key) && !Reported(reports, s[n].key)
  {
    hide Less;
    LessIsStrictTotalOrder();
    assert !Less(t[m].key, claim) && Less(s[n].key, claim);
    OnlyInReference(s, n, t, m);
  }

  lemma MissedIsNotDominated(s: seq<Pair>, n: nat, t: seq<Pair>, m: nat, reports: seq<Report>, hasMore: bool, claim: Bytes, i: nat)
    requires InStep(s, n, t, m) && Side(s, n, t, m, reports, hasMore, claim) && Stopped(s, n, t, m, hasMore, claim)
    requires n <= i < |s| && !OutOfScope(hasMore, claim, s[i].key)
    ensures hasMore && ReachesClaim(t, claim) && !Dominated(s, t, claim)
  {
    hide Less, Agree;
    LessIsStrictTotalOrder();
    Missed(s, n, t, m, reports, hasMore, claim);
    assert !Less(t[m].key, claim) && Less(s[i].key, claim);
    assert forall j :: 0 <= j < |t| && Less(t[j].key, claim) ==> !AtMost(s[i].key, t[j].key);
  }

  /** All differences of `s` in scope are reported unless the other cursor stopped too early. */
  lemma ReportedOnSide(s: seq<Pair>, n: nat, t: seq<Pair>, m: nat, reports: seq<Report>, hasMore: bool, claim: Bytes, i: nat)
    requires InStep(s, n, t, m) && Side(s, n, t, m, reports, hasMore, claim) && Stopped(s, n, t, m, hasMore, claim)
    requires hasMore && ReachesClaim(t, claim) ==> Dominated(s, t, claim)
    requires i < |s| && !Agree(s, t, s[i].key) && !OutOfScope(hasMore, claim, s[i].key)
    ensures Reported(reports, s[i].key)
  {
    hide Less, Agree;
    LessIsStrictTotalOrder();
    if i >= n {
      MissedIsNotDominated(s, n, t, m, reports, hasMore, claim, i);
    }
  }

  lemma DominatedOnSide(s: seq<Pair>, n: nat, t: seq<Pair>, m: nat, reports: seq<Report>, claim: Bytes)
    requires InStep(s, n, t, m) && Stopped(s, n, t, m, true, claim)
    requires Side(s, n, t, m, reports, true, claim) && Side(t, m, s, n, reports, true, claim)
    requires AllReported(s, t, reports, true, claim) && ReachesClaim(t, claim)
    ensures Dominated(s, t, claim)
  {
    hide Less, Agree;
    LessIsStrictTotalOrder();
    AgreeSymmetric(s, t);
    if n < |s| && Less(s[n].key, claim) {
      Missed(s, n, t, m, reports, true, claim);
      assert false;
    }
    if m < |t| && Less(t[m].key, claim) {
      Missed(t, m, s, n, reports, true, claim);
      assert false;
    }
    forall i | 0 <= i < |s| && Less(s[i].key, claim)
      ensures exists j :: 0 <= j < |t| && Less(t[j].key, claim) && AtMost(s[i].key, t[j].key)
    {
      assert m < |t| && n > 0 && i < n;
      assert m > 0 && Less(t[m - 1].key, claim) && AtMost(s[i].key, t[m - 1].key);
    }
  }

  /** When the comparison stops, all differences in scope are reported exactly if the replies are aligned. */
  lemma CompleteIffAligned(reference: seq<Pair>, r: nat, current: seq<Pair>, c: nat, reports: seq<Report>, hasMore: bool, claim: Bytes)
    requires Comparing(reference, r, current, c, reports, hasMore, claim)
    requires Stopped(reference, r, current, c, hasMore, claim)
    ensures AllReported(reference, current, reports, hasMore, claim) <==> (hasMore ==> Aligned(reference, current, claim))
  {
    hide Less, Agree, Side, InStep, Stopped;
    AgreeSymmetric(reference, current);
    StoppedSymmetric(reference, r, current, c, hasMore, claim);
    if hasMore ==> Aligned(reference, current, claim) {
      forall k | !Agree(reference, current, k) && !OutOfScope(hasMore, claim, k) ensures Reported(reports, k) {
        var fromReference, i := WhoseKey(reference, current, k);
        if fromReference {
          ReportedOnSide(reference, r, current, c, reports, hasMore, claim, i);
        } else {
          ReportedOnSide(current, c, reference, r, reports, hasMore, claim, i);
        }
      }
    }
    if hasMore && AllReported(reference, current, reports, hasMore, claim) {
      assert AllReported(current, reference, reports, hasMore, claim);
      if ReachesClaim(reference, claim) { DominatedOnSide(current, c, reference, r, reports, claim); }
      if ReachesClaim(current, claim) { DominatedOnSide(reference, r, current, c, reports, claim); }
    }
  }

  lemma StoppedSymmetric(reference: seq<Pair>, r: nat, current: seq<Pair>, c: nat, hasMore: bool, claim: Bytes)
    requires InStep(reference, r, current, c) && Stopped(reference, r, current, c, hasMore, claim)
    ensures InStep(current, c, reference, r) && Stopped(current, c, reference, r, hasMore, claim)
  {
  }

  /** A difference is about a key of one of the two. */
  lemma WhoseKey(reference: seq<Pair>, current: seq<Pair>, k: Bytes) returns (fromReference: bool, i: nat)
    requires !Agree(reference, current, k)
    ensures if fromReference then i < |reference| && reference[i].key == k else i < |current| && current[i].key == k
  {
    var p: Pair :| p.key == k && !(p in reference <==> p in current);
    fromReference := p in reference;
    if fromReference {
      i :| 0 <= i < |reference| && reference[i] == p;
    } else {
      i :| 0 <= i < |current| && current[i] == p;
    }
  }

  // ---------- checkResults ----------

  /**
   * Compares one reply with the reference.  Every report is about a key in scope on which the two differ,
   * and no key is reported twice.  All differences are reported when no further round follows; when one
   * does, exactly if the replies are aligned below the claim.
   */
  method CompareReplies(hasMore: bool, claim: Bytes, reference: seq<Pair>, current: seq<Pair>) returns (reports: seq<Report>)
    requires StrictlySorted(reference) && StrictlySorted(current)
    ensures SortedReports(reports)
    ensures forall i :: 0 <= i < |reports| ==>
              Truthful(reports[i], reference, current) && !OutOfScope(hasMore, claim, reports[i].key)
    ensures AllReported(reference, current, reports, hasMore, claim) <==> (hasMore ==> Aligned(reference, current, claim))
  {
    hide Less, Truthful, Agree, Aligned, AllReported;
    reports := [];
    var c, r := 0, 0;
    while c < |current| || r < |reference|
      invariant r <= |reference| && c <= |current|
      invariant Comparing(reference, r, current, c, reports, hasMore, claim)
      decreases |current| - c + |reference| - r
    {
      if (r < |reference| && OutOfScope(hasMore, claim, reference[r].key))
         || (c < |current| && OutOfScope(hasMore, claim, current[c].key)) {
        break;
      }
      if c >= |current| {
        ReportReference(reference, r, current, c, reports, hasMore, claim);
        reports := reports + [Report(UniqueToReference, reference[r].key)];
        r := r + 1;
      } else if r >= |reference| {
        ReportCurrent(reference, r, current, c, reports, hasMore, claim);
        reports := reports + [Report(UniqueToCurrent, current[c].key)];
        c := c + 1;
      } else if current[c].key == reference[r].key {
        ReportBoth(reference, r, current, c, reports, hasMore, claim);
        if current[c].value != reference[r].value {
          reports := reports + [Report(MismatchValue, current[c].key)];
        }
        c, r := c + 1, r + 1;
      } else if Less(current[c].key, reference[r].key) {
        ReportCurrent(reference, r, current, c, reports, hasMore, claim);
        reports := reports + [Report(UniqueToCurrent, current[c].key)];
        c := c + 1;
      } else {
        LessTotal(current[c].key, reference[r].key);
        ReportReference(reference, r, current, c, reports, hasMore, claim);
        reports := reports + [Report(UniqueToReference, reference[r].key)];
        r := r + 1;
      }
    }
    CompleteIffAligned(reference, r, current, c, reports, hasMore, claim);
  }

  lemma ReportReference(reference: seq<Pair>, r: nat, current: seq<Pair>, c: nat, reports: seq<Report>, hasMore: bool, claim: Bytes)
    requires Comparing(reference, r, current, c, reports, hasMore, claim) && r < |reference|
    requires !OutOfScope(hasMore, claim, reference[r].key)
    requires c < |current| ==> Less(reference[r].key, current[c].key) && !OutOfScope(hasMore, claim, current[c].key)
    ensures Comparing(reference, r + 1, current, c, reports + [Report(UniqueToReference, reference[r].key)], hasMore, claim)
  {
    hide Less, Agree, HasKey, Side, OutOfScope;
    OnlyInReference(reference, r, current, c);
    PassOne(reference, r, current, c, reports, Report(UniqueToReference, reference[r].key), hasMore, claim);
  }

  lemma ReportCurrent(reference: seq<Pair>, r: nat, current: seq<Pair>, c: nat, reports: seq<Report>, hasMore: bool, claim: Bytes)
    requires Comparing(reference, r, current, c, reports, hasMore, claim) && c < |current|
    requires !OutOfScope(hasMore, claim, current[c].key)
    requires r < |reference| ==> Less(current[c].key, reference[r].key) && !OutOfScope(hasMore, claim, reference[r].key)
    ensures Comparing(reference, r, current, c + 1, reports + [Report(UniqueToCurrent, current[c].key)], hasMore, claim)
  {
    hide Less, Agree, HasKey, Side, OutOfScope;
    AgreeSymmetric(reference, current);
    OnlyInReference(current, c, reference, r);
    PassOne(current, c, reference, r, reports, Report(UniqueToCurrent, current[c].key), hasMore, claim);
  }

  lemma ReportBoth(reference: seq<Pair>, r: nat, current: seq<Pair>, c: nat, reports: seq<Report>, hasMore: bool, claim: Bytes)
    requires Comparing(reference, r, current, c, reports, hasMore, claim) && r < |reference| && c < |current|
    requires reference[r].key == current[c].key && !OutOfScope(hasMore, claim, reference[r].key)
    ensures var more := if current[c].value == reference[r].value then reports else reports + [Report(MismatchValue, current[c].key)];
            Comparing(reference, r + 1, current, c + 1, more, hasMore, claim)
  {
    hide Less, Agree, HasKey, Side, OutOfScope;
    InBoth(reference, r, current, c);
    var more := if current[c].value == reference[r].value then reports else reports + [Report(MismatchValue, current[c].key)];
    assert more != reports ==> more[..|reports|] == reports;
    PassBoth(reference, r, current, c, reports, more, hasMore, claim);
  }

  /**
   * Compares all replies with the first one.  `allSame` tells whether they are all the same; for a server
   * whose reply is not, the differences found are reported.
   */
  method CheckResults(hasMore: bool, claim: Bytes, replies: seq<Reply>) returns (allSame: bool, reports: seq<seq<Report>>)
    requires forall j :: 0 <= j < |replies| ==> StrictlySorted(replies[j].data)
    ensures allSame <==> forall j :: 0 <= j < |replies| ==> replies[j] == replies[0]
    ensures |reports| == |replies|
    ensures forall j :: 0 <= j < |replies| ==>
              ServerReports(hasMore, claim, replies[0].data, replies[j].data, reports[j])
  {
    hide StrictlySorted, SortedReports, Truthful, OutOfScope, Aligned, AllReported;
    allSame, reports := true, [];
    for j := 0 to |replies|
      invariant |reports| == j
      invariant allSame <==> forall i :: 0 <= i < j ==> replies[i] == replies[0]
      invariant forall k :: 0 <= k < j ==> ServerReports(hasMore, claim, replies[0].data, replies[k].data, reports[k])
    {
      var reference, current := replies[0], replies[j];
      if current.data == reference.data && current.more == reference.more {
        NothingToReport(hasMore, claim, reference.data);
        reports := reports + [[]];
      } else {
        allSame := false;
        var found := CompareReplies(hasMore, claim, reference.data, current.data);
        reports := reports + [found];
      }
    }
  }

  /** What is promised of the reports about one server. */
  ghost predicate ServerReports(hasMore: bool, claim: Bytes, reference: seq<Pair>, current: seq<Pair>, reports: seq<Report>) {
    && SortedReports(reports)
    && (forall i :: 0 <= i < |reports| ==>
          Truthful(reports[i], reference, current) && !OutOfScope(hasMore, claim, reports[i].key))
    && (AllReported(reference, current, reports, hasMore, claim) <==> (hasMore ==> Aligned(reference, current, claim)))
  }

  lemma NothingToReport(hasMore: bool, claim: Bytes, data: seq<Pair>)
    ensures ServerReports(hasMore, claim, data, data, [])
  {
    hide Less;
    LessIsStrictTotalOrder();
    assert Aligned(data, data, claim);
  }
}
