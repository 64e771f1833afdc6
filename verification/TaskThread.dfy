/** A thread that runs tasks in order from a queue, and sleeps on a condition variable when there are none. */
module TaskThread {

  import opened Options

  // ---------- The queue ----------

  datatype Work = Run(task: int) | Terminate

  /** Nodes of the linked list: the stub, the marker a sleeping consumer leaves, and entries. */
  datatype Node = Stub | Sleeping | Entry(work: Work)

  /** The list from its tail, where entries are taken, to its head, where they are added. */
  datatype Queue = Queue(chain: seq<Node>, sleepy: bool)

  const EMPTY_QUEUE := Queue([Stub], false)

  /** Adds a node; the result is the node before it. */
  function PushNode(chain: seq<Node>, n: Node): (r: (Node, seq<Node>))
    requires chain != []
  {
    (chain[|chain| - 1], chain + [n])
  }

  function PopNode(chain: seq<Node>): (Option<Node>, seq<Node>)
    requires chain != []
  {
    if chain[0].Stub? && |chain| == 1 then (None, chain)
    else
      var rest := if chain[0].Stub? then chain[1..] else chain;
      if |rest| > 1 then (Some(rest[0]), rest[1..])
      else (Some(rest[0]), PushNode(rest, Stub).1[1..])
  }

  /** The second component tells whether the consumer may be sleeping and should be woken. */
  function Push(q: Queue, w: Work): (Queue, bool)
    requires q.chain != []
  {
    var (before, chain) := PushNode(q.chain, Entry(w));
    (q.(chain := chain), before.Sleeping?)
  }

  function CanSleep(q: Queue): (Queue, bool)
    requires q.chain != []
  {
    if q.sleepy then (q, false)
    else if !q.chain[0].Stub? || |q.chain| > 1 then (q, false)
    else
      var (before, chain) := PushNode(q.chain, Sleeping);
      (Queue(chain, true), before.Stub?)
  }

  /** Taking an entry: the entry, nothing, or a failed assertion. */
  datatype Popped = Value(work: Work) | Nothing | AssertionFails

  function Pop(q: Queue): (Queue, Popped)
    requires q.chain != []
  {
    var (first, chain) := PopNode(q.chain);
    if first == Some(Sleeping) && chain != [] then
      var (second, chain') := PopNode(chain);
      (Queue(chain', false), PoppedNode(second))
    else
      (q.(chain := chain), PoppedNode(first))
  }

  function PoppedNode(n: Option<Node>): Popped {
    match n
    case None => Nothing
    case Some(Entry(w)) => Value(w)
    case Some(_) => AssertionFails
  }

  // ---------- What the queue is ----------

  /** The entries, in the order in which they will be taken. */
  function Contents(chain: seq<Node>): seq<Work> {
    if chain == [] then [] else
      (if chain[0].Entry? then [chain[0].work] else []) + Contents(chain[1..])
  }

  function Entries(works: seq<Work>): seq<Node> {
    if works == [] then [] else [Entry(works[0])] + Entries(works[1..])
  }

  /** A list with the stub or without it, with the marker of a sleeper or without it, then entries. */
  function Chain(stub: bool, sleepy: bool, works: seq<Work>): seq<Node> {
    (if stub then [Stub] else []) + (if sleepy then [Sleeping] else []) + Entries(works)
  }

  ghost predicate ValidQueue(q: Queue) {
    q.chain != [] && q.chain == Chain(q.chain[0].Stub?, q.sleepy, Contents(q.chain))
  }

  lemma {:induction false} ContentsOfEntries(works: seq<Work>)
    ensures Contents(Entries(works)) == works
  {
    if works != [] {
      ContentsOfEntries(works[1..]);
      assert Entries(works)[1..] == Entries(works[1..]);
    }
  }

  lemma ContentsOfChain(stub: bool, sleepy: bool, works: seq<Work>)
    ensures Contents(Chain(stub, sleepy, works)) == works
    ensures Chain(stub, sleepy, works) != [] ==> ValidQueue(Queue(Chain(stub, sleepy, works), sleepy))
  {
    ContentsOfEntries(works);
    var inner := (if sleepy then [Sleeping] else []) + Entries(works);
    if sleepy { assert inner[1..] == Entries(works); } else { assert inner == Entries(works); }
    var chain := Chain(stub, sleepy, works);
    if stub { assert chain == [Stub] + inner && chain[1..] == inner; } else { assert chain == inner; }
  }

  lemma {:induction false} EntriesSnoc(works: seq<Work>, w: Work)
    ensures Entries(works + [w]) == Entries(works) + [Entry(w)]
  {
    if works == [] {
      assert works + [w] == [w] && [w][1..] == [];
      assert Entries([]) == [];
    } else {
      EntriesSnoc(works[1..], w);
      assert (works + [w])[1..] == works[1..] + [w];
    }
  }

  /** Adding an entry; the consumer is to be woken exactly if it sleeps on an empty queue. */
  lemma PushAdds(q: Queue, w: Work)
    requires ValidQueue(q)
    ensures var (q', wake) := Push(q, w);
            && ValidQueue(q') && q'.sleepy == q.sleepy
            && Contents(q'.chain) == Contents(q.chain) + [w]
            && (wake <==> q.sleepy && Contents(q.chain) == [])
  {
    hide Contents, Entries;
    var works, stub := Contents(q.chain), q.chain[0].Stub?;
    assert q.chain == Chain(stub, q.sleepy, works);
    assert q.chain + [Entry(w)] == Chain(stub, q.sleepy, works + [w]) by { EntriesSnoc(works, w); }
    hide ValidQueue;
    ContentsOfChain(stub, q.sleepy, works + [w]);
    LastEntry(works);
  }

  lemma {:induction false} LastEntry(works: seq<Work>)
    ensures works == [] <==> Entries(works) == []
    ensures works != [] ==> Entries(works)[|Entries(works)| - 1].Entry?
  {
    if |works| > 1 { LastEntry(works[1..]); }
  }

  /** The consumer may sleep exactly if the queue is empty and holds no marker; then it holds one. */
  lemma SleepWhenEmpty(q: Queue)
    requires ValidQueue(q)
    ensures var (q', sleep) := CanSleep(q);
            && ValidQueue(q') && Contents(q'.chain) == Contents(q.chain)
            && (sleep <==> !q.sleepy && Contents(q.chain) == [])
            && q'.sleepy == (q.sleepy || sleep)
  {
    var works := Contents(q.chain);
    if works == [] {
      assert Entries(works) == [];
      ContentsOfChain(true, true, []);
      assert Chain(true, true, []) == [Stub, Sleeping];
    }
  }

  /** Past the stub, the first node is taken; a list that would become empty gets the stub back. */
  lemma PopNodeFirst(stub: bool, rest: seq<Node>)
    requires rest != [] && !rest[0].Stub?
    ensures PopNode((if stub then [Stub] else []) + rest) == (Some(rest[0]), if |rest| > 1 then rest[1..] else [Stub])
  {
    var chain := (if stub then [Stub] else []) + rest;
    if stub { assert chain[1..] == rest; } else { assert chain == rest; }
    if |rest| == 1 { assert (rest + [Stub])[1..] == [Stub]; }
  }

  /** Taking from entries gives the first, and leaves the others. */
  lemma PopEntry(stub: bool, works: seq<Work>)
    requires works != []
    ensures var (n, chain) := PopNode((if stub then [Stub] else []) + Entries(works));
            && n == Some(Entry(works[0]))
            && ValidQueue(Queue(chain, false)) && Contents(chain) == works[1..]
  {
    PopNodeFirst(stub, Entries(works));
    assert Entries(works)[1..] == Entries(works[1..]);
    if |works| > 1 {
      ContentsOfChain(false, false, works[1..]);
      assert Chain(false, false, works[1..]) == Entries(works[1..]);
    } else {
      assert Entries(works[1..]) == [];
      EmptyChain();
    }
  }

  lemma EmptyChain()
    ensures ValidQueue(EMPTY_QUEUE) && Contents([Stub]) == []
  {
    ContentsOfChain(true, false, []);
    assert Chain(true, false, []) == [Stub];
  }

  /** Taking an entry takes the first one, and a marker before it; from an empty queue there is nothing to take. */
  lemma PopTakes(q: Queue)
    requires ValidQueue(q)
    ensures var (q', popped) := Pop(q); var works := Contents(q.chain);
            && ValidQueue(q') && !q'.sleepy
            && (if works == [] then popped == Nothing && Contents(q'.chain) == []
                else popped == Value(works[0]) && Contents(q'.chain) == works[1..])
  {
    hide PopNode, Contents, ValidQueue;
    QueueShape(q);
    EmptyChain();
    var works, stub := Contents(q.chain), q.chain[0].Stub?;
    var front := if stub then [Stub] else [];
    if q.sleepy {
      PopNodeFirst(stub, [Sleeping] + Entries(works));
      assert ([Sleeping] + Entries(works))[1..] == Entries(works);
      if works == [] {
        PopStub();
      } else {
        PopEntry(false, works);
        assert [] + Entries(works) == Entries(works);
      }
    } else if works == [] {
      PopStub();
    } else {
      PopEntry(stub, works);
    }
  }

  lemma QueueShape(q: Queue)
    requires ValidQueue(q)
    ensures var works := Contents(q.chain);
            && q.chain == (if q.chain[0].Stub? then [Stub] else []) + (if q.sleepy then [Sleeping] + Entries(works) else Entries(works))
            && (works == [] ==> Entries(works) == []) && (works != [] ==> Entries(works) != [])
            && (works == [] && !q.sleepy ==> q.chain == [Stub])
  {
    hide Contents;
    var works := Contents(q.chain);
    if works == [] { assert Entries(works) == []; }
  }

  lemma PopStub()
    ensures PopNode([Stub]) == (None, [Stub])
  {
  }

  // ---------- The thread ----------

  /** The consumer: about to look at the queue, blocked on the condition variable, running a task, or gone. */
  datatype Consumer = Looking | Blocked | Running(task: int) | Exited | Crashed

  /**
   * `notifies` are calls of notify_one that are still to come.  `pushed`, `taken` and `executed` record what
   * happened, and `spurious` counts wake-ups without a notify.
   */
  datatype State = State(
    queue: Queue,
    notifies: nat,
    consumer: Consumer,
    pushed: seq<Work>,
    taken: seq<Work>,
    executed: seq<int>,
    spurious: nat)

  /** A client adds work under the mutex; if the queue says so it will notify after releasing it. */
  predicate PushStep(s: State, s': State, w: Work) {
    && s.queue.chain != []
    && var (queue, wake) := Push(s.queue, w);
       s' == s.(queue := queue, pushed := s.pushed + [w], notifies := if wake then s.notifies + 1 else s.notifies)
  }

  /** A notify arrives; it wakes the consumer if that is blocked. */
  predicate NotifyStep(s: State, s': State) {
    && s.notifies > 0
    && s' == s.(notifies := s.notifies - 1, consumer := if s.consumer.Blocked? then Looking else s.consumer)
  }

  predicate SpuriousStep(s: State, s': State) {
    s.consumer.Blocked? && s' == s.(consumer := Looking, spurious := s.spurious + 1)
  }

  /** The consumer, holding the mutex, goes to sleep or takes the next piece of work. */
  predicate LookStep(s: State, s': State) {
    && s.consumer.Looking? && s.queue.chain != []
    && var (queue, sleep) := CanSleep(s.queue);
       if sleep then s' == s.(queue := queue, consumer := Blocked)
       else
         && queue.chain != []
         && var (queue', popped) := Pop(queue);
            match popped
            case Value(Run(task)) => s' == s.(queue := queue', consumer := Running(task), taken := s.taken + [Run(task)])
            case Value(Terminate) => s' == s.(queue := queue', consumer := Exited, taken := s.taken + [Terminate])
            case _ => s' == s.(queue := queue', consumer := Crashed)
  }

  predicate RunStep(s: State, s': State) {
    s.consumer.Running? && s' == s.(consumer := Looking, executed := s.executed + [s.consumer.task])
  }

  ghost predicate Next(s: State, s': State) {
    || (exists w :: PushStep(s, s', w))
    || NotifyStep(s, s')
    || SpuriousStep(s, s')
    || LookStep(s, s')
    || RunStep(s, s')
  }

  predicate Init(s: State) {
    s == State(EMPTY_QUEUE, 0, Looking, [], [], [], 0)
  }

  ghost predicate IsRun(run: seq<State>) {
    && run != [] && Init(run[0])
    && forall i :: 0 <= i < |run| - 1 ==> Next(run[i], run[i + 1])
  }

  // ---------- What every step keeps ----------

  function Tasks(ids: seq<int>): seq<Work> {
    if ids == [] then [] else Tasks(ids[..|ids| - 1]) + [Run(ids[|ids| - 1])]
  }

  /** What was taken: tasks run, and the one being run or the sign to stop. */
  function Accounted(s: State): seq<Work> {
    match s.consumer
    case Running(task) => Tasks(s.executed) + [Run(task)]
    case Exited => Tasks(s.executed) + [Terminate]
    case _ => Tasks(s.executed)
  }

  /**
   * Work is taken in the order in which it was pushed.  A consumer that sleeps has left its marker, and sleeps on an
   * empty queue or with a notify to come; only one that was woken can look at a marker.  Without spurious wake-ups it
   * is woken only to a queue with something in it.
   */
  ghost predicate Invariant(s: State) {
    && ValidQueue(s.queue)
    && s.pushed == s.taken + Contents(s.queue.chain)
    && s.taken == Accounted(s)
    && (s.consumer.Blocked? ==> s.queue.sleepy)
    && (s.consumer.Blocked? && Contents(s.queue.chain) != [] ==> s.notifies > 0)
    && (!s.consumer.Blocked? && !s.consumer.Looking? ==> !s.queue.sleepy)
    && (s.spurious == 0 ==>
          && !s.consumer.Crashed?
          && (s.consumer.Looking? && s.queue.sleepy ==> Contents(s.queue.chain) != [])
          && s.notifies == if s.consumer.Blocked? && Contents(s.queue.chain) != [] then 1 else 0)
  }

  lemma InvariantInit(s: State)
    requires Init(s)
    ensures Invariant(s)
  {
    EmptyChain();
  }

  lemma InvariantPush(s: State, s': State, w: Work)
    requires Invariant(s) && PushStep(s, s', w)
    ensures Invariant(s')
  {
    hide ValidQueue, Contents, Push;
    PushAdds(s.queue, w);
    assert s.taken + (Contents(s.queue.chain) + [w]) == s.taken + Contents(s.queue.chain) + [w];
  }

  lemma InvariantLook(s: State, s': State)
    requires Invariant(s) && LookStep(s, s')
    ensures Invariant(s')
  {
    hide ValidQueue, Contents, CanSleep, Pop;
    SleepWhenEmpty(s.queue);
    var (queue, sleep) := CanSleep(s.queue);
    if !sleep {
      PopTakes(queue);
      var works := Contents(queue.chain);
      if works != [] {
        assert s.taken + works == s.taken + [works[0]] + works[1..];
      }
    }
  }

  lemma InvariantRun(s: State, s': State)
    requires Invariant(s) && RunStep(s, s')
    ensures Invariant(s')
  {
    hide ValidQueue, Contents;
    assert s'.executed[..|s.executed|] == s.executed;
  }

  lemma InvariantNext(s: State, s': State)
    requires Invariant(s) && Next(s, s')
    ensures Invariant(s')
  {
    hide ValidQueue, Contents, PushStep, LookStep;
    if w :| PushStep(s, s', w) {
      InvariantPush(s, s', w);
    } else if LookStep(s, s') {
      InvariantLook(s, s');
    } else if RunStep(s, s') {
      InvariantRun(s, s');
    }
  }

  lemma {:induction false} InvariantHolds(run: seq<State>, i: nat)
    requires IsRun(run) && i < |run|
    ensures Invariant(run[i])
  {
    hide Next, Invariant;
    if i == 0 {
      InvariantInit(run[0]);
    } else {
      InvariantHolds(run, i - 1);
      InvariantNext(run[i - 1], run[i]);
    }
  }

  // ---------- Safety and progress over whole runs ----------

  /** Tasks pushed before the first sign to stop. */
  function BeforeTerminate(pushed: seq<Work>): seq<int> {
    if pushed == [] || pushed[0].Terminate? then [] else [pushed[0].task] + BeforeTerminate(pushed[1..])
  }

  lemma {:induction false} BeforeTerminateOf(ids: seq<int>, rest: seq<Work>)
    ensures BeforeTerminate(Tasks(ids) + rest) == ids + BeforeTerminate(rest)
  {
    if ids == [] {
      assert Tasks(ids) + rest == rest && ids + BeforeTerminate(rest) == BeforeTerminate(rest);
    } else {
      var last := |ids| - 1;
      var more := [Run(ids[last])] + rest;
      BeforeTerminateOf(ids[..last], more);
      assert Tasks(ids[..last]) + more == Tasks(ids) + rest;
      assert more[1..] == rest;
      assert ids[..last] + ([ids[last]] + BeforeTerminate(rest)) == ids + BeforeTerminate(rest);
    }
  }

  /**
   * In every run: what was executed is a prefix of all tasks pushed before the sign to stop, in push order;
   * at the exit it is all of them.
   */
  lemma RunsInPushOrder(run: seq<State>, i: nat)
    requires IsRun(run) && i < |run|
    ensures run[i].executed <= BeforeTerminate(run[i].pushed)
    ensures run[i].consumer.Exited? ==> run[i].executed == BeforeTerminate(run[i].pushed)
  {
    hide ValidQueue, Contents;
    InvariantHolds(run, i);
    var s := run[i];
    var works := Contents(s.queue.chain);
    match s.consumer {
      case Running(task) =>
        assert s.pushed == Tasks(s.executed) + ([Run(task)] + works);
        BeforeTerminateOf(s.executed, [Run(task)] + works);
      case Exited =>
        assert s.pushed == Tasks(s.executed) + ([Terminate] + works);
        BeforeTerminateOf(s.executed, [Terminate] + works);
        assert s.executed + [] == s.executed;
      case _ =>
        BeforeTerminateOf(s.executed, works);
    }
  }

  /** A step of the consumer, or the notify it waits for. */
  predicate ConsumerStep(s: State, s': State) {
    NotifyStep(s, s') || LookStep(s, s') || RunStep(s, s')
  }

  /** How many steps the consumer is away from looking at the queue, and notifies from having all arrived. */
  function Distance(s: State): nat {
    s.notifies + if s.consumer.Running? || s.consumer.Blocked? then 1 else 0
  }

  /**
   * In every run, with spurious wake-ups or without: while there is work and the consumer was not told to stop and did
   * not fail, it can make a step, and each of its steps takes the first piece of work or brings it closer to that.  It
   * is never blocked with work in the queue and no notify to come: no wake-up is lost.  Without spurious wake-ups it
   * never fails.
   */
  lemma NoLostWakeUp(run: seq<State>, i: nat, s': State)
    requires IsRun(run) && i < |run|
    ensures run[i].consumer.Blocked? && Contents(run[i].queue.chain) != [] ==> run[i].notifies > 0
    ensures Contents(run[i].queue.chain) != [] && !run[i].consumer.Exited? && !run[i].consumer.Crashed? ==> CanStep(run[i])
    ensures Contents(run[i].queue.chain) != [] && ConsumerStep(run[i], s') ==>
              || s'.taken == run[i].taken + [Contents(run[i].queue.chain)[0]]
              || (s'.taken == run[i].taken && s'.queue == run[i].queue && Distance(s') < Distance(run[i]))
    ensures run[i].spurious == 0 ==> !run[i].consumer.Crashed?
  {
    hide ValidQueue, Contents, CanSleep, Pop;
    InvariantHolds(run, i);
    var s := run[i];
    if s.consumer.Looking? {
      Looked(s);
    } else if s.consumer.Running? {
      assert ConsumerStep(s, s.(consumer := Looking, executed := s.executed + [s.consumer.task]));
    } else if s.consumer.Blocked? && Contents(s.queue.chain) != [] {
      assert ConsumerStep(s, s.(notifies := s.notifies - 1, consumer := Looking));
    }
  }

  ghost predicate CanStep(s: State) {
    exists s' :: ConsumerStep(s, s')
  }

  /** A look at the queue is always possible; it takes the first piece of work if there is one. */
  lemma Looked(s: State)
    requires s.consumer.Looking? && ValidQueue(s.queue)
    ensures CanStep(s)
    ensures forall s' :: LookStep(s, s') && Contents(s.queue.chain) != [] ==> s'.taken == s.taken + [Contents(s.queue.chain)[0]]
    ensures forall s' :: LookStep(s, s') ==> (s'.consumer.Crashed? <==> s.queue.sleepy && Contents(s.queue.chain) == [])
  {
    hide ValidQueue, Contents, CanSleep, Pop;
    NotEmpty(s.queue);
    SleepWhenEmpty(s.queue);
    var (queue, sleep) := CanSleep(s.queue);
    NotEmpty(queue);
    PopTakes(queue);
    var (queue', popped) := Pop(queue);
    var next :=
      if sleep then s.(queue := queue, consumer := Blocked)
      else match popped
      case Value(Run(task)) => s.(queue := queue', consumer := Running(task), taken := s.taken + [Run(task)])
      case Value(Terminate) => s.(queue := queue', consumer := Exited, taken := s.taken + [Terminate])
      case _ => s.(queue := queue', consumer := Crashed);
    assert LookStep(s, next);
    assert ConsumerStep(s, next);
  }

  lemma NotEmpty(q: Queue)
    requires ValidQueue(q)
    ensures q.chain != []
  {
  }

  /** In every run, spurious wake-ups or not, a look fails exactly if it finds the marker and nothing else. */
  lemma FailsIffOnlyMarker(run: seq<State>, i: nat, s': State)
    requires IsRun(run) && i < |run| && LookStep(run[i], s')
    ensures s'.consumer.Crashed? <==> run[i].queue.sleepy && Contents(run[i].queue.chain) == []
  {
    InvariantHolds(run, i);
    Looked(run[i]);
  }

  /** A wake-up of a consumer that sleeps on an empty queue, by a spurious step or a notify that was left over. */
  predicate WokenOnNothing(s: State, s': State) {
    s.consumer.Blocked? && Contents(s.queue.chain) == [] && (SpuriousStep(s, s') || NotifyStep(s, s'))
  }

  /** Until the consumer looks, the marker stays and the queue holds just what was pushed since. */
  lemma {:induction false} StillMarked(run: seq<State>, i: nat, k: nat)
    requires IsRun(run) && i < k < |run| && WokenOnNothing(run[i], run[i + 1])
    requires forall m :: i < m <= k ==> run[m].consumer.Looking?
    ensures run[k].queue.sleepy && run[k].pushed == run[i].pushed + Contents(run[k].queue.chain)
  {
    hide ValidQueue, Contents, Push, LookStep, PushStep;
    InvariantHolds(run, i);
    if k == i + 1 {
      assert run[i].pushed + [] == run[i].pushed;
    } else {
      StillMarked(run, i, k - 1);
      InvariantHolds(run, k - 1);
      var s, s' := run[k - 1], run[k];
      assert Next(s, s');
      assert !LookStep(s, s') by { LookEnds(s, s'); }
      if w :| PushStep(s, s', w) {
        PushedMore(s, s', w);
        assert run[i].pushed + Contents(s.queue.chain) + [w] == run[i].pushed + (Contents(s.queue.chain) + [w]);
      }
    }
  }

  lemma LookEnds(s: State, s': State)
    ensures LookStep(s, s') ==> !s'.consumer.Looking?
  {
    hide CanSleep, Pop;
  }

  lemma PushedMore(s: State, s': State, w: Work)
    requires ValidQueue(s.queue) && PushStep(s, s', w)
    ensures s'.queue.sleepy == s.queue.sleepy && s'.pushed == s.pushed + [w]
    ensures Contents(s'.queue.chain) == Contents(s.queue.chain) + [w]
  {
    hide ValidQueue, Contents, Push;
    PushAdds(s.queue, w);
  }

  /** In every run, after a wake-up on an empty queue the next look fails exactly if nothing was pushed in between. */
  lemma WokenOnNothingFailsIff(run: seq<State>, i: nat, k: nat)
    requires IsRun(run) && i < k && k + 1 < |run| && WokenOnNothing(run[i], run[i + 1])
    requires (forall m :: i < m <= k ==> run[m].consumer.Looking?) && LookStep(run[k], run[k + 1])
    ensures run[k + 1].consumer.Crashed? <==> run[k].pushed == run[i].pushed
  {
    hide Contents, LookStep, IsRun, WokenOnNothing;
    StillMarked(run, i, k);
    FailsIffOnlyMarker(run, k, run[k + 1]);
  }

  lemma RunLonger(run: seq<State>, s: State)
    requires IsRun(run) && Next(run[|run| - 1], s)
    ensures IsRun(run + [s])
  {
    hide Next, Init;
    var more := run + [s];
    forall i | 0 <= i < |more| - 1 ensures Next(more[i], more[i + 1]) {
      if i < |run| - 1 { assert more[i] == run[i] && more[i + 1] == run[i + 1]; } else { assert more[i] == run[i] && more[i + 1] == s; }
    }
  }

  const MARKED := Queue([Stub, Sleeping], true)

  /** The consumer looks at the empty queue and goes to sleep. */
  lemma FallsAsleep(run: seq<State>) returns (more: seq<State>)
    requires IsRun(run) && run[|run| - 1].consumer.Looking? && run[|run| - 1].queue == EMPTY_QUEUE
    ensures IsRun(more) && more == run + [run[|run| - 1].(queue := MARKED, consumer := Blocked)]
  {
    var s := run[|run| - 1];
    assert [Stub] + [Sleeping] == [Stub, Sleeping];
    var s' := s.(queue := MARKED, consumer := Blocked);
    assert LookStep(s, s');
    RunLonger(run, s');
    more := run + [s'];
  }

  /** A consumer that looks at the marker alone fails. */
  lemma LooksAtMarker(run: seq<State>) returns (more: seq<State>)
    requires IsRun(run) && run[|run| - 1].consumer.Looking? && run[|run| - 1].queue == MARKED
    ensures IsRun(more) && more == run + [run[|run| - 1].(queue := EMPTY_QUEUE, consumer := Crashed)]
  {
    var s := run[|run| - 1];
    assert [Stub, Sleeping][1..] == [Sleeping] && ([Sleeping] + [Stub])[1..] == [Stub];
    assert Pop(MARKED) == (EMPTY_QUEUE, Nothing);
    var s' := s.(queue := EMPTY_QUEUE, consumer := Crashed);
    assert LookStep(s, s');
    RunLonger(run, s');
    more := run + [s'];
  }

  lemma Asleep() returns (run: seq<State>)
    ensures IsRun(run) && |run| == 2 && run[1] == State(MARKED, 0, Blocked, [], [], [], 0)
  {
    run := FallsAsleep([State(EMPTY_QUEUE, 0, Looking, [], [], [], 0)]);
  }

  /** A spurious wake-up of a consumer that sleeps on an empty queue makes it fail. */
  lemma SpuriousWakeUpFails() returns (run: seq<State>)
    ensures IsRun(run) && run[|run| - 1].spurious == 1 && run[|run| - 1].pushed == [] && run[|run| - 1].consumer.Crashed?
  {
    run := Asleep();
    var s := run[1].(consumer := Looking, spurious := 1);
    assert SpuriousStep(run[1], s);
    RunLonger(run, s);
    run := LooksAtMarker(run + [s]);
  }

  /**
   * So does one on a queue with work in it, of any kind but the sign to stop: the notify for that work is left over,
   * and wakes the consumer when it sleeps again.
   */
  lemma LeftOverNotifyFails(task: int) returns (run: seq<State>)
    ensures IsRun(run) && run[|run| - 1].spurious == 1 && run[|run| - 1].consumer.Crashed?
    ensures run[|run| - 1].pushed == [Run(task)] && run[|run| - 1].executed == [task]
    ensures exists i :: 0 <= i < |run| - 1 && SpuriousStep(run[i], run[i + 1]) && Contents(run[i].queue.chain) == [Run(task)]
  {
    run := Asleep();
    var s2 := PushOnMarker(run[1], task);
    RunLonger(run, s2);
    run := run + [s2];
    var s3 := s2.(consumer := Looking, spurious := 1);
    assert SpuriousStep(s2, s3);
    RunLonger(run, s3);
    run := run + [s3];
    var s4 := TakeAfterMarker(s3, task);
    RunLonger(run, s4);
    run := run + [s4];
    var s5 := s4.(consumer := Looking, executed := [task]);
    assert [] + [task] == [task];
    assert RunStep(s4, s5);
    RunLonger(run, s5);
    run := FallsAsleep(run + [s5]);
    var s6 := run[|run| - 1];
    var s7 := s6.(notifies := 0, consumer := Looking);
    assert NotifyStep(s6, s7);
    RunLonger(run, s7);
    run := LooksAtMarker(run + [s7]);
    assert run[2] == s2 && run[3] == s3;
  }

  lemma PushOnMarker(s: State, task: int) returns (s': State)
    requires s == State(MARKED, 0, Blocked, [], [], [], 0)
    ensures Next(s, s') && s' == s.(queue := Queue([Stub, Sleeping, Entry(Run(task))], true), pushed := [Run(task)], notifies := 1)
    ensures Contents(s'.queue.chain) == [Run(task)]
  {
    var chain := [Stub, Sleeping, Entry(Run(task))];
    assert [Stub, Sleeping] + [Entry(Run(task))] == chain && [] + [Run(task)] == [Run(task)];
    s' := s.(queue := Queue(chain, true), pushed := [Run(task)], notifies := 1);
    assert PushStep(s, s', Run(task));
    assert chain[1..] == [Sleeping, Entry(Run(task))] && chain[1..][1..] == [Entry(Run(task))] && chain[1..][1..][1..] == [];
    assert Contents([Entry(Run(task))]) == [Run(task)];
    assert Contents(chain[1..]) == [Run(task)];
  }

  lemma TakeAfterMarker(s: State, task: int) returns (s': State)
    requires s == State(Queue([Stub, Sleeping, Entry(Run(task))], true), 1, Looking, [Run(task)], [], [], 1)
    ensures Next(s, s') && s' == s.(queue := EMPTY_QUEUE, consumer := Running(task), taken := [Run(task)])
  {
    var chain := [Stub, Sleeping, Entry(Run(task))];
    assert chain[1..] == [Sleeping, Entry(Run(task))] && chain[1..][1..] == [Entry(Run(task))];
    assert ([Entry(Run(task))] + [Stub])[1..] == [Stub] && [] + [Run(task)] == [Run(task)];
    assert Pop(s.queue) == (EMPTY_QUEUE, Value(Run(task)));
    s' := s.(queue := EMPTY_QUEUE, consumer := Running(task), taken := [Run(task)]);
    assert LookStep(s, s');
  }
}
