/**
 * Renaming a tenant through a retry loop, while other clients change tenants and commits end with
 * unknown results.
 */
module TenantRename {

  import opened Options

  datatype Result = Success | TenantNotFound | TenantAlreadyExists | AssertionFailed | OtherFailure

  /** A commit of the command: the tenant it read under the old name, and what became of it. */
  datatype Status = InFlight | Applied | Dead
  datatype Attempt = Attempt(id: int, status: Status)

  /** Where the command stands: before its reads, after them, waiting for a commit, or at its end. */
  datatype Phase = Start | HasRead(oldEntry: Option<int>, newEntry: Option<int>) | Waiting | Done(result: Result)

  datatype Command = Command(oldName: string, newName: string)

  /**
   * `tenants` and `used` (every id ever given) belong to the cluster, `phase`, `firstTry` and `id` to the
   * command.  `attempts` and `movedBack` are bookkeeping: the commits sent, and how often another client put
   * the tenant of the command back under its old name.
   */
  datatype State = State(
    tenants: map<string, int>,
    used: set<int>,
    phase: Phase,
    firstTry: bool,
    id: int,
    attempts: seq<Attempt>,
    movedBack: nat)

  function Lookup(tenants: map<string, int>, name: string): Option<int> {
    if name in tenants then Some(tenants[name]) else None
  }

  // ---------- The command ----------

  datatype Decision = Finish(result: Result) | Commit(id: int)

  /** What the command does with the entries it read. */
  function Decide(firstTry: bool, id: int, oldEntry: Option<int>, newEntry: Option<int>): Decision {
    if firstTry then
      if oldEntry.None? then Finish(TenantNotFound)
      else if newEntry.Some? then Finish(TenantAlreadyExists)
      else Commit(oldEntry.value)
    else if newEntry.Some? then
      if newEntry.value == id then
        if oldEntry.Some? && oldEntry.value == id then Finish(AssertionFailed) else Finish(Success)
      else Finish(TenantAlreadyExists)
    else if oldEntry.None? then Finish(TenantNotFound)
    else if oldEntry.value != id then Finish(TenantNotFound)
    else Commit(id)
  }

  predicate ReadStep(c: Command, s: State, s': State) {
    && s.phase.Start?
    && s' == s.(phase := HasRead(Lookup(s.tenants, c.oldName), Lookup(s.tenants, c.newName)))
  }

  /** Sends the rename of whatever tenant was read under the old name, or ends. */
  predicate DecideStep(s: State, s': State) {
    && s.phase.HasRead?
    && match Decide(s.firstTry, s.id, s.phase.oldEntry, s.phase.newEntry)
       case Finish(result) => s' == s.(phase := Done(result))
       case Commit(id) =>
         && s.phase.oldEntry.Some?
         && s' == s.(phase := Waiting, firstTry := false, id := id,
                     attempts := s.attempts + [Attempt(s.phase.oldEntry.value, InFlight)])
  }

  // ---------- The cluster ----------

  /**
   * A commit takes effect, now or long after its client gave up on it, unless the entries it read have
   * changed: it moves the tenant it read from the old name to the new one.
   */
  predicate ApplyStep(c: Command, s: State, s': State, k: nat) {
    && k < |s.attempts| && s.attempts[k].status.InFlight?
    && Lookup(s.tenants, c.oldName) == Some(s.attempts[k].id) && c.newName !in s.tenants
    && s' == s.(tenants := (s.tenants - {c.oldName})[c.newName := s.attempts[k].id],
                attempts := s.attempts[k := s.attempts[k].(status := Applied)])
  }

  /** A commit will never take effect. */
  predicate DropStep(s: State, s': State, k: nat) {
    && k < |s.attempts| && s.attempts[k].status.InFlight?
    && s' == s.(attempts := s.attempts[k := s.attempts[k].(status := Dead)])
  }

  /** The client hears that its last commit took effect. */
  predicate AckStep(s: State, s': State) {
    && s.phase.Waiting? && s.attempts != [] && s.attempts[|s.attempts| - 1].status.Applied?
    && s' == s.(phase := Done(Success))
  }

  /** The client hears nothing certain (or of a conflict) and starts over, or gives up. */
  predicate RetryStep(s: State, s': State) {
    s.phase.Waiting? && (s' == s.(phase := Start) || s' == s.(phase := Done(OtherFailure)))
  }

  ghost predicate UniqueIds(tenants: map<string, int>) {
    forall m, n :: m in tenants && n in tenants && m != n ==> tenants[m] != tenants[n]
  }

  /** Another client creates, deletes or renames tenants; new tenants get ids never used before. */
  ghost predicate OtherStep(c: Command, s: State, s': State) {
    && UniqueIds(s'.tenants) && s.used <= s'.used
    && (forall n :: n in s'.tenants ==>
          s'.tenants[n] in s'.used && (s'.tenants[n] in s.tenants.Values || s'.tenants[n] !in s.used))
    && s'.movedBack == s.movedBack + (if !s.firstTry && !UnderOldName(c, s) && UnderOldName(c, s') then 1 else 0)
    && s' == s.(tenants := s'.tenants, used := s'.used, movedBack := s'.movedBack)
  }

  /** The tenant of the command has its old name. */
  predicate UnderOldName(c: Command, s: State) {
    Lookup(s.tenants, c.oldName) == Some(s.id)
  }

  predicate UnderNewName(c: Command, s: State) {
    Lookup(s.tenants, c.newName) == Some(s.id)
  }

  ghost predicate Init(s: State) {
    && UniqueIds(s.tenants) && s.tenants.Values <= s.used
    && s.phase.Start? && s.firstTry && s.id == -1 && s.attempts == [] && s.movedBack == 0
  }

  ghost predicate Next(c: Command, s: State, s': State) {
    || ReadStep(c, s, s')
    || DecideStep(s, s')
    || (exists k: nat :: ApplyStep(c, s, s', k))
    || (exists k: nat :: DropStep(s, s', k))
    || AckStep(s, s')
    || RetryStep(s, s')
    || OtherStep(c, s, s')
  }

  ghost predicate Run(c: Command, run: seq<State>) {
    && run != [] && Init(run[0])
    && forall i :: 0 <= i < |run| - 1 ==> Next(c, run[i], run[i + 1])
  }

  // ---------- What every step keeps ----------

  function AppliedCount(attempts: seq<Attempt>): nat {
    if attempts == [] then 0 else
      AppliedCount(attempts[..|attempts| - 1]) + (if attempts[|attempts| - 1].status.Applied? then 1 else 0)
  }

  ghost predicate Invariant(c: Command, s: State) {
    && UniqueIds(s.tenants)
    && (forall n :: n in s.tenants ==> s.tenants[n] in s.used)
    && (s.firstTry ==> s.attempts == [])
    && (!s.firstTry ==> c.oldName != c.newName)
    && (forall k :: 0 <= k < |s.attempts| ==> s.attempts[k].id == s.id)
    && (s.phase.Waiting? ==> !s.firstTry)
    && (s.phase.HasRead? && s.phase.oldEntry.Some? && s.phase.oldEntry == s.phase.newEntry ==> c.oldName == c.newName)
    && (s.phase.HasRead? && c.oldName == c.newName ==> s.phase.oldEntry == s.phase.newEntry)
    && s.phase != Done(AssertionFailed)
    && AppliedCount(s.attempts) <= s.movedBack + (if UnderOldName(c, s) then 0 else 1)
  }

  lemma {:induction false} AppliedCountUpdate(attempts: seq<Attempt>, k: nat, status: Status)
    requires k < |attempts| && attempts[k].status.InFlight?
    ensures AppliedCount(attempts[k := attempts[k].(status := status)])
         == AppliedCount(attempts) + (if status.Applied? then 1 else 0)
  {
    var last := |attempts| - 1;
    var changed := attempts[k := attempts[k].(status := status)];
    if k == last {
      assert changed[..last] == attempts[..last];
    } else {
      AppliedCountUpdate(attempts[..last], k, status);
      assert changed[..last] == attempts[..last][k := attempts[k].(status := status)];
    }
  }

  lemma InvariantDecide(c: Command, s: State, s': State)
    requires Invariant(c, s) && DecideStep(s, s')
    ensures Invariant(c, s')
  {
    if Decide(s.firstTry, s.id, s.phase.oldEntry, s.phase.newEntry).Commit? {
      InvariantCommit(c, s, s');
    }
  }

  lemma InvariantCommit(c: Command, s: State, s': State)
    requires Invariant(c, s) && DecideStep(s, s') && s'.phase.Waiting?
    ensures Invariant(c, s')
  {
    hide UniqueIds, AppliedCount;
    CountStarted(s.attempts, s'.id);
  }

  /** A commit that was sent has not been applied. */
  lemma CountStarted(attempts: seq<Attempt>, id: int)
    ensures AppliedCount(attempts + [Attempt(id, InFlight)]) == AppliedCount(attempts)
    ensures AppliedCount([]) == 0
  {
    assert (attempts + [Attempt(id, InFlight)])[..|attempts|] == attempts;
  }

  lemma InvariantApply(c: Command, s: State, s': State, k: nat)
    requires Invariant(c, s) && ApplyStep(c, s, s', k)
    ensures Invariant(c, s')
  {
    hide AppliedCount;
    AppliedCountUpdate(s.attempts, k, Applied);
    assert s.attempts[k].id == s.id;
  }

  lemma InvariantDrop(c: Command, s: State, s': State, k: nat)
    requires Invariant(c, s) && DropStep(s, s', k)
    ensures Invariant(c, s')
  {
    hide AppliedCount, UniqueIds;
    AppliedCountUpdate(s.attempts, k, Dead);
  }

  lemma InvariantOther(c: Command, s: State, s': State)
    requires Invariant(c, s) && OtherStep(c, s, s')
    ensures Invariant(c, s')
  {
    assert s.attempts == [] ==> AppliedCount(s.attempts) == 0;
  }

  lemma InvariantNext(c: Command, s: State, s': State)
    requires Invariant(c, s) && Next(c, s, s')
    ensures Invariant(c, s')
  {
    if DecideStep(s, s') {
      InvariantDecide(c, s, s');
    } else if k: nat :| ApplyStep(c, s, s', k) {
      InvariantApply(c, s, s', k);
    } else if k: nat :| DropStep(s, s', k) {
      InvariantDrop(c, s, s', k);
    } else if OtherStep(c, s, s') {
      InvariantOther(c, s, s');
    }
  }

  lemma {:induction false} InvariantHolds(c: Command, run: seq<State>, i: nat)
    requires Run(c, run) && i < |run|
    ensures Invariant(c, run[i])
  {
    hide Next;
    if i == 0 {
      forall n | n in run[0].tenants ensures run[0].tenants[n] in run[0].used { assert run[0].tenants[n] in run[0].tenants.Values; }
    } else {
      InvariantHolds(c, run, i - 1);
      InvariantNext(c, run[i - 1], run[i]);
    }
  }

  // ---------- Safety over whole runs ----------

  /** On its first try the command has read tenant `id` under the old name, and none under the new one. */
  predicate FirstRead(s: State, id: int) {
    s.firstTry && s.phase.HasRead? && s.phase.oldEntry == Some(id) && s.phase.newEntry.None?
  }

  lemma StepKeepsId(c: Command, s: State, s': State)
    requires Next(c, s, s')
    ensures s.firstTry && !s'.firstTry ==> FirstRead(s, s'.id)
    ensures !s.firstTry ==> !s'.firstTry && s'.id == s.id
  {
  }

  /** The id the command works with is the one it read first, in a state before. */
  lemma {:induction false} IdIsFirstRead(c: Command, run: seq<State>, k: nat) returns (f: nat)
    requires Run(c, run) && k < |run| && !run[k].firstTry
    ensures f < k && FirstRead(run[f], run[k].id)
  {
    hide Next;
    StepKeepsId(c, run[k - 1], run[k]);
    if run[k - 1].firstTry {
      f := k - 1;
    } else {
      f := IdIsFirstRead(c, run, k - 1);
    }
  }

  /**
   * Whenever a commit of the command takes effect, in any run, it moves the tenant that the command read first,
   * from the old name to the new one, and touches no other tenant.
   */
  lemma RenamesOnlyFirstRead(c: Command, run: seq<State>, i: nat, k: nat) returns (f: nat)
    requires Run(c, run) && i + 1 < |run| && ApplyStep(c, run[i], run[i + 1], k)
    ensures f < i && FirstRead(run[f], run[i].id)
    ensures UnderOldName(c, run[i]) && UnderNewName(c, run[i + 1])
    ensures forall n :: n != c.oldName && n != c.newName ==> Lookup(run[i + 1].tenants, n) == Lookup(run[i].tenants, n)
    ensures Lookup(run[i + 1].tenants, c.oldName) == None && Lookup(run[i].tenants, c.newName) == None
  {
    InvariantHolds(c, run, i);
    f := IdIsFirstRead(c, run, i);
  }

  lemma StepKeepsReads(c: Command, s: State, s': State)
    requires Next(c, s, s') && s'.phase.HasRead?
    ensures s.phase == s'.phase || ReadStep(c, s, s')
  {
  }

  /** The entries the command acts on were read together, in one state before. */
  lemma {:induction false} ReadTogether(c: Command, run: seq<State>, k: nat) returns (i: nat)
    requires Run(c, run) && k < |run| && run[k].phase.HasRead?
    ensures i < k && ReadStep(c, run[i], run[i + 1]) && run[i + 1].phase == run[k].phase
  {
    hide Next;
    StepKeepsReads(c, run[k - 1], run[k]);
    if run[k - 1].phase == run[k].phase {
      i := ReadTogether(c, run, k - 1);
    } else {
      i := k - 1;
    }
  }

  /**
   * What the command decides, in any run, by the tenants at its read.  On its first try it looks for any tenant under
   * the old name.  Later it looks for the tenant it read first: if that has the new name, the command has succeeded,
   * by a commit that it did not hear of.
   */
  lemma DecidedByRead(c: Command, run: seq<State>, k: nat) returns (i: nat)
    requires Run(c, run) && k + 1 < |run| && DecideStep(run[k], run[k + 1])
    ensures i < k && ReadStep(c, run[i], run[i + 1])
    ensures var before, after := Lookup(run[i].tenants, c.oldName), Lookup(run[i].tenants, c.newName);
            var id, phase := run[k].id, run[k + 1].phase;
            if run[k].firstTry then
              && (phase == Done(TenantNotFound) <==> before.None?)
              && (phase == Done(TenantAlreadyExists) <==> before.Some? && after.Some?)
              && (phase == Waiting <==> before.Some? && after.None?)
              && (phase == Waiting ==> before == Some(run[k + 1].id))
            else
              && (phase == Done(Success) <==> after == Some(id))
              && (phase == Done(TenantAlreadyExists) <==> after.Some? && after != Some(id))
              && (phase == Done(TenantNotFound) <==> after.None? && before != Some(id))
              && (phase == Waiting <==> after.None? && before == Some(id))
              && run[k + 1].id == id
    ensures run[k + 1].attempts == if run[k + 1].phase == Waiting then run[k].attempts + [Attempt(run[k + 1].id, InFlight)]
                                   else run[k].attempts
  {
    i := ReadTogether(c, run, k);
    InvariantHolds(c, run, k);
  }

  lemma StepKeepsApplied(c: Command, s: State, s': State, a: nat)
    requires Next(c, s, s') && a < |s'.attempts| && s'.attempts[a].status.Applied?
    ensures (a < |s.attempts| && s.attempts[a].status.Applied?) || ApplyStep(c, s, s', a)
  {
    if !(a < |s.attempts| && s.attempts[a].status.Applied?) {
      if k: nat :| ApplyStep(c, s, s', k) { assert k == a; }
    }
  }

  /** A commit that counts as applied took effect in some step before. */
  lemma {:induction false} AppliedBefore(c: Command, run: seq<State>, k: nat, a: nat) returns (i: nat)
    requires Run(c, run) && k < |run| && a < |run[k].attempts| && run[k].attempts[a].status.Applied?
    ensures i < k && ApplyStep(c, run[i], run[i + 1], a)
  {
    hide Next;
    StepKeepsApplied(c, run[k - 1], run[k], a);
    if a < |run[k - 1].attempts| && run[k - 1].attempts[a].status.Applied? {
      i := AppliedBefore(c, run, k - 1, a);
    } else {
      i := k - 1;
    }
  }

  /** How the command comes to report success. */
  lemma StepToSuccess(c: Command, s: State, s': State)
    requires Next(c, s, s') && s'.phase == Done(Success) && s.phase != Done(Success)
    ensures !s.firstTry ==> s'.id == s.id && |s'.attempts| == |s.attempts|
    ensures || (s.phase.HasRead? && !s.firstTry && s.phase.newEntry == Some(s.id))
            || (s.attempts != [] && s.attempts[|s.attempts| - 1].status.Applied?)
  {
  }

  lemma StepKeepsSuccess(c: Command, s: State, s': State)
    requires Next(c, s, s') && s.phase == Done(Success)
    ensures s'.phase == Done(Success) && s'.id == s.id && |s'.attempts| == |s.attempts|
  {
  }

  /**
   * Success is reported only if the deciding transaction had the tenant under the new name: either the command
   * read it there, or its last commit took effect.
   */
  lemma {:induction false} SuccessDecided(c: Command, run: seq<State>, k: nat) returns (byRead: bool, i: nat)
    requires Run(c, run) && k < |run| && run[k].phase == Done(Success)
    ensures i < k
    ensures byRead ==> ReadStep(c, run[i], run[i + 1]) && Lookup(run[i].tenants, c.newName) == Some(run[k].id)
    ensures !byRead ==> run[k].attempts != [] && ApplyStep(c, run[i], run[i + 1], |run[k].attempts| - 1)
  {
    hide Next;
    if run[k - 1].phase == Done(Success) {
      StepKeepsSuccess(c, run[k - 1], run[k]);
      byRead, i := SuccessDecided(c, run, k - 1);
    } else {
      StepToSuccess(c, run[k - 1], run[k]);
      InvariantHolds(c, run, k - 1);
      byRead := run[k - 1].phase.HasRead? && !run[k - 1].firstTry && run[k - 1].phase.newEntry == Some(run[k - 1].id);
      if byRead {
        i := ReadTogether(c, run, k - 1);
      } else {
        i := AppliedBefore(c, run, k - 1, |run[k - 1].attempts| - 1);
      }
    }
  }

  /**
   * In every run the assertion never fails, and the commits of the command take effect at most once more than
   * other clients put the tenant back under its old name.
   */
  lemma RenameSafety(c: Command, run: seq<State>, k: nat)
    requires Run(c, run) && k < |run|
    ensures run[k].phase != Done(AssertionFailed)
    ensures AppliedCount(run[k].attempts) <= run[k].movedBack + 1
  {
    InvariantHolds(c, run, k);
  }

  lemma CountApplied(attempts: seq<Attempt>, id: int)
    ensures AppliedCount(attempts + [Attempt(id, Applied)]) == AppliedCount(attempts) + 1
  {
    assert (attempts + [Attempt(id, Applied)])[..|attempts|] == attempts;
  }

  lemma OneTenant(name: string, id: int, s: State)
    requires s == State(map[name := id], {id}, Start, true, -1, [], 0)
    ensures Init(s)
  {
    assert s.tenants.Values <= {id};
  }

  /** Another client puts the only tenant back under the old name. */
  lemma RenamedBack(c: Command, s: State, tenants: map<string, int>)
    requires c.oldName != c.newName && s.tenants == map[c.newName := s.id] && tenants == map[c.oldName := s.id]
    requires !s.firstTry && s.id in s.used
    ensures OtherStep(c, s, s.(tenants := tenants, movedBack := s.movedBack + 1))
  {
    assert s.tenants[c.newName] in s.tenants.Values;
  }

  /** The command reads the only tenant under the old name and its commit takes effect. */
  lemma ReadCommitApply(c: Command, s: State, id: int) returns (s1: State, s2: State, s3: State)
    requires c.oldName != c.newName && s.phase.Start? && s.tenants == map[c.oldName := id] && (s.firstTry || s.id == id)
    ensures Next(c, s, s1) && Next(c, s1, s2) && Next(c, s2, s3)
    ensures s3 == s.(tenants := map[c.newName := id], phase := Waiting, firstTry := false, id := id,
                     attempts := s.attempts + [Attempt(id, Applied)])
  {
    hide OtherStep;
    s1 := s.(phase := HasRead(Some(id), None));
    s2 := s1.(phase := Waiting, firstTry := false, id := id, attempts := s.attempts + [Attempt(id, InFlight)]);
    s3 := s2.(tenants := map[c.newName := id], attempts := s.attempts + [Attempt(id, Applied)]);
    assert ReadStep(c, s, s1);
    assert DecideStep(s1, s2);
    assert (s.tenants - {c.oldName})[c.newName := id] == s3.tenants;
    assert s3.attempts == s2.attempts[|s.attempts| := Attempt(id, Applied)];
    assert ApplyStep(c, s2, s3, |s.attempts|);
  }

  lemma RunLonger(c: Command, run: seq<State>, s: State)
    requires Run(c, run) && Next(c, run[|run| - 1], s)
    ensures Run(c, run + [s])
  {
    hide Next, Init;
    var more := run + [s];
    forall i | 0 <= i < |more| - 1 ensures Next(c, more[i], more[i + 1]) {
      if i == |run| - 1 { assert more[i] == run[i] && more[i + 1] == s; } else { assert more[i + 1] == run[i + 1]; }
    }
  }

  /** A run of the command alone succeeds and renames the tenant once, whether it hears of its commit or not. */
  lemma SucceedsAlone(c: Command, id: int, heard: bool) returns (run: seq<State>)
    requires c.oldName != c.newName
    ensures Run(c, run) && run[0].tenants == map[c.oldName := id]
    ensures var s := run[|run| - 1];
            s.phase == Done(Success) && s.tenants == map[c.newName := id] && AppliedCount(s.attempts) == 1 && s.movedBack == 0
  {
    hide AppliedCount, Init, OtherStep, ApplyStep, Next;
    var s0 := State(map[c.oldName := id], {id}, Start, true, -1, [], 0);
    OneTenant(c.oldName, id, s0);
    var s1, s2, s3 := ReadCommitApply(c, s0, id);
    CountApplied([], id);
    CountStarted([], id);
    run := [s0];
    RunLonger(c, run, s1);
    RunLonger(c, run + [s1], s2);
    RunLonger(c, run + [s1] + [s2], s3);
    run := run + [s1] + [s2] + [s3];
    var last := s3.(phase := Done(Success));
    if heard {
      Acknowledged(c, s3, last);
    } else {
      var s4 := s3.(phase := Start);
      var s5 := s3.(phase := HasRead(None, Some(id)));
      ReadsItsTenant(c, s3, s4, s5, last, id);
      RunLonger(c, run, s4);
      RunLonger(c, run + [s4], s5);
      run := run + [s4] + [s5];
    }
    RunLonger(c, run, last);
    run := run + [last];
  }

  /** The command sends its commit and gives up; the commit, if it was not dropped, still takes effect afterwards. */
  lemma GivesUp(c: Command, id: int, dropped: bool) returns (run: seq<State>)
    requires c.oldName != c.newName
    ensures Run(c, run) && |run| > 1 && run[|run| - 2].phase == run[|run| - 1].phase == Done(OtherFailure)
    ensures run[|run| - 2].tenants == map[c.oldName := id]
    ensures run[|run| - 1].tenants == map[if dropped then c.oldName else c.newName := id]
  {
    hide Init, OtherStep, Next;
    var s0 := State(map[c.oldName := id], {id}, Start, true, -1, [], 0);
    OneTenant(c.oldName, id, s0);
    var s1 := s0.(phase := HasRead(Some(id), None));
    var s2 := s1.(phase := Waiting, firstTry := false, id := id, attempts := [Attempt(id, InFlight)]);
    var s3 := s2.(phase := Done(OtherFailure));
    var s4 := if dropped then s3.(attempts := [Attempt(id, Dead)])
              else s3.(tenants := map[c.newName := id], attempts := [Attempt(id, Applied)]);
    SendsAndGivesUp(c, s0, s1, s2, s3, id);
    EndsLater(c, s3, s4, id, dropped);
    run := [s0];
    RunLonger(c, run, s1);
    RunLonger(c, run + [s1], s2);
    RunLonger(c, run + [s1] + [s2], s3);
    RunLonger(c, run + [s1] + [s2] + [s3], s4);
    run := run + [s1] + [s2] + [s3] + [s4];
  }

  lemma SendsAndGivesUp(c: Command, s: State, s1: State, s2: State, s3: State, id: int)
    requires c.oldName != c.newName && s == State(map[c.oldName := id], {id}, Start, true, -1, [], 0)
    requires s1 == s.(phase := HasRead(Some(id), None))
    requires s2 == s1.(phase := Waiting, firstTry := false, id := id, attempts := [Attempt(id, InFlight)])
    requires s3 == s2.(phase := Done(OtherFailure))
    ensures Next(c, s, s1) && Next(c, s1, s2) && Next(c, s2, s3)
  {
    assert ReadStep(c, s, s1);
    assert s.attempts + [Attempt(id, InFlight)] == [Attempt(id, InFlight)];
    assert DecideStep(s1, s2);
    assert RetryStep(s2, s3);
  }

  lemma EndsLater(c: Command, s: State, s': State, id: int, dropped: bool)
    requires c.oldName != c.newName && s.tenants == map[c.oldName := id] && s.attempts == [Attempt(id, InFlight)]
    requires s' == if dropped then s.(attempts := [Attempt(id, Dead)])
                   else s.(tenants := map[c.newName := id], attempts := [Attempt(id, Applied)])
    ensures Next(c, s, s')
  {
    if dropped {
      assert s'.attempts == s.attempts[0 := Attempt(id, Dead)];
      assert DropStep(s, s', 0);
    } else {
      assert s'.attempts == s.attempts[0 := Attempt(id, Applied)];
      assert (s.tenants - {c.oldName})[c.newName := id] == s'.tenants;
      assert ApplyStep(c, s, s', 0);
    }
  }

  lemma Acknowledged(c: Command, s: State, s': State)
    requires s.phase.Waiting? && s.attempts != [] && s.attempts[|s.attempts| - 1].status.Applied? && s' == s.(phase := Done(Success))
    ensures Next(c, s, s')
  {
    assert AckStep(s, s');
  }

  lemma ReadsItsTenant(c: Command, s: State, s1: State, s2: State, s3: State, id: int)
    requires c.oldName != c.newName && s.phase.Waiting? && !s.firstTry && s.id == id && s.tenants == map[c.newName := id]
    requires s1 == s.(phase := Start) && s2 == s.(phase := HasRead(None, Some(id))) && s3 == s.(phase := Done(Success))
    ensures Next(c, s, s1) && Next(c, s1, s2) && Next(c, s2, s3)
  {
    assert RetryStep(s, s1);
    assert ReadStep(c, s1, s2);
    assert DecideStep(s2, s3);
  }

  /**
   * The bound is met for every number of moves back: clients that rename the tenant back `n` times make one command
   * rename it `n + 1` times, whatever the names and the id are.
   */
  lemma {:induction false} RenamedTimes(c: Command, id: int, n: nat) returns (run: seq<State>)
    requires c.oldName != c.newName
    ensures Run(c, run)
    ensures run[|run| - 1].movedBack == n && AppliedCount(run[|run| - 1].attempts) == n + 1
    ensures var s := run[|run| - 1];
            s.phase.Waiting? && s.tenants == map[c.newName := id] && !s.firstTry && s.id == id && id in s.used
  {
    hide AppliedCount, Init, OtherStep, ReadStep, DecideStep, ApplyStep;
    var s0: State;
    if n == 0 {
      s0 := State(map[c.oldName := id], {id}, Start, true, -1, [], 0);
      OneTenant(c.oldName, id, s0);
      run := [s0];
      assert AppliedCount([]) == 0 by { CountStarted([], id); }
    } else {
      run := RenamedTimes(c, id, n - 1);
      var s := run[|run| - 1];
      var s' := s.(phase := Start);
      assert Next(c, s, s') by { assert RetryStep(s, s'); }
      s0 := s'.(tenants := map[c.oldName := id], movedBack := n);
      assert Next(c, s', s0) by { RenamedBack(c, s', s0.tenants); }
      RunLonger(c, run, s');
      RunLonger(c, run + [s'], s0);
      run := run + [s'] + [s0];
    }
    hide Next, Run;
    var s1, s2, s3 := ReadCommitApply(c, s0, id);
    CountApplied(s0.attempts, id);
    RunLonger(c, run, s1);
    RunLonger(c, run + [s1], s2);
    RunLonger(c, run + [s1] + [s2], s3);
    run := run + [s1] + [s2] + [s3];
  }
}
