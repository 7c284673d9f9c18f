/** A thread pool that runs groups of tasks one after the other: one producer adds a group and waits for it, any
    number of workers take tasks off a queue, and a semaphore counts the tasks that are done. */
module GenerationPool {
  import opened Totals

  /** A task, or the null pointer, which makes a worker leave. */
  datatype Job = Null | Task(id: nat)

  datatype Worker = Fetching | Running(job: Job) | Ran(job: Job) | Gone

  datatype Producer = Idle | Adding(next: nat) | Waiting

  datatype State = State(
    producer: Producer,
    genSize: nat,
    queue: seq<Job>,
    workers: seq<Worker>,
    permits: nat,
    // History of the last group: its jobs, those that were run, and the null jobs that were taken.
    group: seq<Job>,
    done: multiset<Job>,
    taken: nat)

  datatype Action =
    | AddGroup(jobs: seq<Job>) | Enqueue | WaitGroup | Consume | Return
    | Dequeue(worker: nat) | Run(worker: nat) | Signal(worker: nat)

  predicate Enabled(s: State, a: Action)
  {
    match a
    case AddGroup(_) => s.producer == Idle
    case Enqueue => s.producer.Adding? && s.producer.next <= |s.group|
    case WaitGroup => s.producer == Idle
    case Consume => s.producer == Waiting && 0 < s.genSize && 0 < s.permits
    case Return => s.producer == Waiting && s.genSize == 0
    case Dequeue(w) => w < |s.workers| && s.workers[w] == Fetching && s.queue != []
    case Run(w) => w < |s.workers| && s.workers[w].Running?
    case Signal(w) => w < |s.workers| && s.workers[w].Ran?
  }

  function Apply(s: State, a: Action): State
    requires Enabled(s, a)
  {
    match a
    case AddGroup(jobs) =>
      // A group that is not complete refuses the next one.
      if s.genSize != 0 then s
      else s.(producer := Adding(0), genSize := |jobs|, group := jobs, done := multiset{}, taken := 0)
    case Enqueue =>
      if s.producer.next < |s.group| then
        s.(producer := Adding(s.producer.next + 1), queue := s.queue + [s.group[s.producer.next]])
      else s.(producer := Idle)
    case WaitGroup => s.(producer := Waiting)
    case Consume => s.(permits := s.permits - 1, genSize := s.genSize - 1)
    case Return => s.(producer := Idle)
    case Dequeue(w) =>
      var job := s.queue[0];
      if job == Null then s.(queue := s.queue[1..], workers := s.workers[w := Gone], taken := s.taken + 1)
      else s.(queue := s.queue[1..], workers := s.workers[w := Running(job)])
    case Run(w) => s.(workers := s.workers[w := Ran(s.workers[w].job)], done := s.done + multiset{s.workers[w].job})
    case Signal(w) => s.(workers := s.workers[w := Fetching], permits := s.permits + 1)
  }

  function Begin(workers: nat): State
  {
    State(Idle, 0, [], seq(workers, i => Fetching), 0, [], multiset{}, 0)
  }

  // ----- What every step keeps -----

  /** The jobs that are not in the queue yet. */
  function Pending(s: State): seq<Job>
    requires s.producer.Adding? ==> s.producer.next <= |s.group|
  {
    if s.producer.Adding? then s.group[s.producer.next..] else []
  }

  const BUSY: Worker -> nat := (w: Worker) => if w.Running? || w.Ran? then 1 else 0

  /** The worker has taken the job and not yet run it. */
  function HasInHand(job: Job): Worker -> nat
  {
    (w: Worker) => if w == Running(job) then 1 else 0
  }

  /** Every copy of the job is in exactly one place. */
  predicate Placed(s: State, job: Job)
    requires s.producer.Adding? ==> s.producer.next <= |s.group|
  {
    multiset(Pending(s))[job] + multiset(s.queue)[job] + Total(s.workers, HasInHand(job)) + s.done[job]
    + (if job == Null then s.taken else 0) == multiset(s.group)[job]
  }

  /** What is still to come, and the signals that were not consumed, is what the producer waits for; every job of
      the group is in exactly one place; and nobody runs the null job. */
  ghost predicate Inv(s: State)
  {
    && (s.producer.Adding? ==> s.producer.next <= |s.group|)
    && |Pending(s)| + |s.queue| + Total(s.workers, BUSY) + s.taken + s.permits == s.genSize
    && (forall job :: Placed(s, job))
    && Null !in s.done
    && forall w :: 0 <= w < |s.workers| ==> s.workers[w] != Running(Null)
  }

  lemma BeginInv(workers: nat)
    ensures Inv(Begin(workers))
  {
    NoneWeigh(Begin(workers).workers, BUSY);
    forall job
      ensures Placed(Begin(workers), job)
    {
      NoneWeigh(Begin(workers).workers, HasInHand(job));
    }
  }

  lemma FrontOf(jobs: seq<Job>)
    requires jobs != []
    ensures multiset(jobs) == multiset{jobs[0]} + multiset(jobs[1..])
  {
    assert jobs == [jobs[0]] + jobs[1..];
  }

  /** The producer moves a job to the queue. */
  lemma EnqueueInv(s: State)
    requires Inv(s) && Enabled(s, Enqueue)
    ensures Inv(Apply(s, Enqueue))
  {
    hide Total;
    var t := Apply(s, Enqueue);
    if s.producer.next < |s.group| {
      FrontOf(Pending(s));
      assert Pending(s)[1..] == Pending(t);
    } else {
      assert Pending(s) == [];
    }
    forall job
      ensures Placed(t, job)
    {
      assert Placed(s, job);
    }
  }

  /** A worker takes a job. */
  lemma DequeueInv(s: State, w: nat)
    requires Inv(s) && Enabled(s, Dequeue(w))
    ensures Inv(Apply(s, Dequeue(w)))
  {
    hide Total, Placed;
    var t := Apply(s, Dequeue(w));
    TotalUpdate(s.workers, BUSY, w, t.workers[w]);
    forall job
      ensures Placed(t, job)
    {
      assert Placed(s, job);
      DequeuePlaces(s, w, job);
    }
  }

  lemma FrontCount(jobs: seq<Job>, job: Job)
    requires jobs != []
    ensures multiset(jobs)[job] == multiset(jobs[1..])[job] + if jobs[0] == job then 1 else 0
  {
    FrontOf(jobs);
  }

  lemma DequeuePlaces(s: State, w: nat, job: Job)
    requires s.producer.Adding? ==> s.producer.next <= |s.group|
    requires Placed(s, job) && Enabled(s, Dequeue(w))
    ensures Placed(Apply(s, Dequeue(w)), job)
  {
    hide Total;
    FrontCount(s.queue, job);
    TotalUpdate(s.workers, HasInHand(job), w, Apply(s, Dequeue(w)).workers[w]);
  }

  /** A worker runs its job, and then signals. */
  lemma WorkInv(s: State, w: nat, a: Action)
    requires Inv(s) && Enabled(s, a) && (a == Run(w) || a == Signal(w))
    ensures Inv(Apply(s, a))
  {
    hide Total, Placed;
    var t := Apply(s, a);
    TotalUpdate(s.workers, BUSY, w, t.workers[w]);
    forall job
      ensures Placed(t, job)
    {
      assert Placed(s, job);
      WorkPlaces(s, w, a, job);
    }
  }

  lemma WorkPlaces(s: State, w: nat, a: Action, job: Job)
    requires s.producer.Adding? ==> s.producer.next <= |s.group|
    requires Placed(s, job) && Enabled(s, a) && (a == Run(w) || a == Signal(w))
    ensures Placed(Apply(s, a), job)
  {
    hide Total;
    TotalUpdate(s.workers, HasInHand(job), w, Apply(s, a).workers[w]);
  }

  /** A new group starts only when nothing of the last one is left, and is refused otherwise. */
  lemma AddGroupInv(s: State, jobs: seq<Job>)
    requires Inv(s) && Enabled(s, AddGroup(jobs))
    ensures Inv(Apply(s, AddGroup(jobs)))
    ensures if s.genSize != 0 then Apply(s, AddGroup(jobs)) == s
            else Pending(s) == [] && s.queue == [] && Total(s.workers, BUSY) == 0 && s.permits == 0 && s.taken == 0
  {
    if s.genSize == 0 {
      assert jobs[0..] == jobs;
      forall job
        ensures Placed(Apply(s, AddGroup(jobs)), job)
      {
        NobodyHas(s, job);
      }
    }
  }

  lemma NobodyHas(s: State, job: Job)
    requires Total(s.workers, BUSY) == 0
    ensures Total(s.workers, HasInHand(job)) == 0
  {
    TotalMono(s.workers, HasInHand(job), BUSY);
  }

  /** The producer begins to wait, consumes a signal, or returns. */
  lemma WaitInv(s: State, a: Action)
    requires Inv(s) && Enabled(s, a) && (a == WaitGroup || a == Consume || a == Return)
    ensures Inv(Apply(s, a))
  {
    hide Total;
    var t := Apply(s, a);
    forall job
      ensures Placed(t, job)
    {
      assert Placed(s, job);
    }
  }

  lemma StepInv(s: State, a: Action)
    requires Inv(s) && Enabled(s, a)
    ensures Inv(Apply(s, a))
  {
    hide Inv;
    match a
    case AddGroup(jobs) => AddGroupInv(s, jobs);
    case Enqueue => EnqueueInv(s);
    case Dequeue(w) => DequeueInv(s, w);
    case Run(w) => WorkInv(s, w, a);
    case Signal(w) => WorkInv(s, w, a);
    case _ => WaitInv(s, a);
  }

  predicate Possible(s: State, schedule: seq<Action>)
    decreases |schedule|
  {
    schedule == [] || (Enabled(s, schedule[0]) && Possible(Apply(s, schedule[0]), schedule[1..]))
  }

  function After(s: State, schedule: seq<Action>): State
    requires Possible(s, schedule)
    decreases |schedule|
  {
    if schedule == [] then s else After(Apply(s, schedule[0]), schedule[1..])
  }

  lemma {:induction false} RunInv(s: State, schedule: seq<Action>)
    requires Inv(s) && Possible(s, schedule)
    ensures Inv(After(s, schedule))
    decreases |schedule|
  {
    hide Inv;
    if schedule != [] {
      StepInv(s, schedule[0]);
      RunInv(Apply(s, schedule[0]), schedule[1..]);
    }
  }

  /** When waitGroup returns, in any run with any number of workers, each task of the group has run exactly as often
      as the group lists it, there was no null among them, no worker still has one, and no signal is left for
      the next group. */
  lemma GroupComplete(workers: nat, schedule: seq<Action>)
    requires Possible(Begin(workers), schedule) && Enabled(After(Begin(workers), schedule), Return)
    ensures var s := After(Begin(workers), schedule);
            && s.done == multiset(s.group) && Null !in s.group
            && s.queue == [] && s.permits == 0
            && (forall w :: 0 <= w < |s.workers| ==> !s.workers[w].Running? && !s.workers[w].Ran?)
  {
    BeginInv(workers);
    RunInv(Begin(workers), schedule);
    var s := After(Begin(workers), schedule);
    forall w | 0 <= w < |s.workers|
      ensures !s.workers[w].Running? && !s.workers[w].Ran?
    {
      TotalAtLeast(s.workers, BUSY, w);
    }
    forall job
      ensures s.done[job] == multiset(s.group)[job]
    {
      assert Placed(s, job);
      NobodyHas(s, job);
    }
    assert Null in s.group <==> Null in multiset(s.group);
  }

  // ----- Jobs are taken in order -----

  /** What is in the queue or still to come are the last jobs of the group, in its order. */
  predicate InOrder(s: State)
    requires s.producer.Adding? ==> s.producer.next <= |s.group|
  {
    |s.queue + Pending(s)| <= |s.group|
    && s.queue + Pending(s) == s.group[|s.group| - |s.queue + Pending(s)|..]
  }

  lemma StepInOrder(s: State, a: Action)
    requires Inv(s) && Enabled(s, a) && InOrder(s)
    ensures Inv(Apply(s, a)) && InOrder(Apply(s, a))
  {
    StepInv(s, a);
    match a
    case AddGroup(jobs) => AddGroupInOrder(s, jobs);
    case Enqueue => EnqueueInOrder(s);
    case Dequeue(w) => DequeueInOrder(s, w);
    case _ => OtherInOrder(s, a);
  }

  lemma AddGroupInOrder(s: State, jobs: seq<Job>)
    requires Inv(s) && InOrder(s) && Enabled(s, AddGroup(jobs))
    ensures InOrder(Apply(s, AddGroup(jobs)))
  {
    AddGroupInv(s, jobs);
    hide Inv;
    if s.genSize == 0 {
      assert [] + jobs[0..] == jobs == jobs[0..];
    }
  }

  lemma DequeueInOrder(s: State, w: nat)
    requires s.producer.Adding? ==> s.producer.next <= |s.group|
    requires InOrder(s) && Enabled(s, Dequeue(w))
    ensures InOrder(Apply(s, Dequeue(w)))
  {
    WithoutFirst(s.queue, Pending(s), s.group);
  }

  lemma WithoutFirst(queue: seq<Job>, pending: seq<Job>, group: seq<Job>)
    requires queue != [] && |queue + pending| <= |group| && queue + pending == group[|group| - |queue + pending|..]
    ensures queue[1..] + pending == group[|group| - |queue[1..] + pending|..]
  {
    var all := queue + pending;
    assert queue[1..] + pending == all[1..];
    assert group[|group| - |all|..][1..] == group[|group| - |all| + 1..];
  }

  lemma EnqueueInOrder(s: State)
    requires s.producer.Adding? && s.producer.next <= |s.group| && InOrder(s)
    ensures InOrder(Apply(s, Enqueue))
  {
    var n := s.producer.next;
    if n < |s.group| {
      assert s.group[n..] == [s.group[n]] + s.group[n + 1..];
      assert s.queue + s.group[n..] == s.queue + [s.group[n]] + s.group[n + 1..];
    } else {
      assert s.group[n..] == [];
    }
  }

  lemma OtherInOrder(s: State, a: Action)
    requires s.producer.Adding? ==> s.producer.next <= |s.group|
    requires InOrder(s) && Enabled(s, a) && !a.AddGroup? && !a.Dequeue? && a != Enqueue
    ensures InOrder(Apply(s, a))
  {
    var t := Apply(s, a);
    assert t.queue == s.queue && t.group == s.group && Pending(t) == Pending(s);
  }

  lemma {:induction false} TakenInOrder(s: State, schedule: seq<Action>)
    requires Inv(s) && InOrder(s) && Possible(s, schedule)
    ensures Inv(After(s, schedule)) && InOrder(After(s, schedule))
    decreases |schedule|
  {
    hide Inv, InOrder;
    if schedule != [] {
      StepInOrder(s, schedule[0]);
      TakenInOrder(Apply(s, schedule[0]), schedule[1..]);
    }
  }

  /** In every run, while the producer waits, what is in the queue are the last jobs of the group in its order: the
      others were taken before them. */
  lemma JobsInOrder(workers: nat, schedule: seq<Action>)
    requires Possible(Begin(workers), schedule)
    ensures var s := After(Begin(workers), schedule);
            s.producer == Waiting ==> |s.queue| <= |s.group| && s.queue == s.group[|s.group| - |s.queue|..]
  {
    BeginInv(workers);
    TakenInOrder(Begin(workers), schedule);
    var s := After(Begin(workers), schedule);
    if s.producer == Waiting {
      assert s.queue + [] == s.queue;
    }
  }

  // ----- Waiting ends -----

  const WORK: Worker -> nat := (w: Worker) => match w case Running(_) => 3 case Ran(_) => 2 case _ => 0

  /** A bound for the steps until the producer has waited for its group. */
  function Rank(s: State): nat
  {
    5 * |s.queue| + Total(s.workers, WORK) + s.permits + 1
  }

  /** While the producer waits every step brings it nearer to the end of the group. */
  lemma EveryStepCounts(s: State, a: Action)
    requires Inv(s) && s.producer == Waiting && Enabled(s, a)
    ensures Inv(Apply(s, a)) && (a != Return ==> Rank(Apply(s, a)) < Rank(s))
    ensures a != Return ==> Apply(s, a).producer == Waiting
  {
    StepInv(s, a);
    hide Inv, Total;
    match a
    case Dequeue(w) => TotalUpdate(s.workers, WORK, w, Apply(s, a).workers[w]);
    case Run(w) => TotalUpdate(s.workers, WORK, w, Apply(s, a).workers[w]);
    case Signal(w) => TotalUpdate(s.workers, WORK, w, Apply(s, a).workers[w]);
    case _ =>
  }

  /** The producer has returned from waitGroup somewhere in the schedule. */
  predicate Returns(s: State, schedule: seq<Action>)
    requires Possible(s, schedule)
    decreases |schedule|
  {
    schedule != [] && (schedule[0] == Return || Returns(Apply(s, schedule[0]), schedule[1..]))
  }

  /** Under every schedule waitGroup returns within as many steps as the rank says. */
  lemma {:induction false} WaitTerminates(s: State, schedule: seq<Action>)
    requires Inv(s) && s.producer == Waiting && Possible(s, schedule) && Rank(s) <= |schedule|
    ensures Returns(s, schedule)
    decreases |schedule|
  {
    hide Inv;
    EveryStepCounts(s, schedule[0]);
    if schedule[0] != Return {
      WaitTerminates(Apply(s, schedule[0]), schedule[1..]);
    }
  }

  /** No worker has left unless a null was taken; without workers nothing is ever taken or signalled. */
  predicate Crew(s: State)
  {
    && (s.taken == 0 ==> forall w :: 0 <= w < |s.workers| ==> s.workers[w] != Gone)
    && (s.workers == [] ==> s.permits == 0 && s.taken == 0 && s.done == multiset{})
  }

  lemma StepCrew(s: State, a: Action)
    requires Inv(s) && Crew(s) && Enabled(s, a)
    ensures Crew(Apply(s, a)) && |Apply(s, a).workers| == |s.workers|
  {
    hide Total, Placed;
  }

  lemma {:induction false} RunCrew(s: State, schedule: seq<Action>)
    requires Inv(s) && Crew(s) && Possible(s, schedule)
    ensures Inv(After(s, schedule)) && Crew(After(s, schedule)) && |After(s, schedule).workers| == |s.workers|
    decreases |schedule|
  {
    hide Inv, Crew;
    if schedule != [] {
      StepInv(s, schedule[0]);
      StepCrew(s, schedule[0]);
      RunCrew(Apply(s, schedule[0]), schedule[1..]);
    }
  }

  /** All tasks of the group can be done: none of them is null, and there is somebody to do them. */
  predicate Doable(group: seq<Job>, workers: nat)
  {
    Null !in group && (0 < workers || group == [])
  }

  /** As long as the producer waits for such a group, some step is possible. */
  lemma SomeStep(s: State) returns (a: Action)
    requires Inv(s) && Crew(s) && s.producer == Waiting && Doable(s.group, |s.workers|)
    ensures Enabled(s, a)
  {
    assert Placed(s, Null);
    assert Null !in multiset(s.group);
    if s.queue != [] {
      assert Placed(s, s.queue[0]);
    }
    if s.genSize == 0 {
      a := Return;
    } else if 0 < s.permits {
      a := Consume;
    } else if s.workers[0] == Fetching && s.queue != [] {
      a := Dequeue(0);
    } else if s.workers[0].Running? {
      a := Run(0);
    } else if s.workers[0].Ran? {
      a := Signal(0);
    } else {
      var k := SomeWeigh(s.workers, BUSY);
      a := if s.workers[k].Running? then Run(k) else Signal(k);
    }
  }

  lemma NobodyHasNull(s: State)
    requires Inv(s)
    ensures Total(s.workers, HasInHand(Null)) == 0
  {
    NoneWeigh(s.workers, HasInHand(Null));
  }

  /** For any other group there is always something left to wait for. */
  lemma NotDoable(s: State)
    requires Inv(s) && Crew(s) && s.producer == Waiting && !Doable(s.group, |s.workers|)
    ensures 0 < s.genSize
  {
    if Null in s.group {
      assert Null in multiset(s.group);
      assert Placed(s, Null);
      NobodyHasNull(s);
    } else {
      assert s.group[0] in multiset(s.group);
      assert Placed(s, s.group[0]);
    }
  }

  /** While the producer waits the group stays the same. */
  lemma {:induction false} StillWaiting(s: State, schedule: seq<Action>)
    requires s.producer == Waiting && Possible(s, schedule) && !Returns(s, schedule)
    ensures After(s, schedule).producer == Waiting && After(s, schedule).group == s.group
    decreases |schedule|
  {
    if schedule != [] {
      StillWaiting(Apply(s, schedule[0]), schedule[1..]);
    }
  }

  /** The workers take what they can, and then everybody waits for ever. */
  lemma {:induction false} GetsStuck(s: State) returns (schedule: seq<Action>)
    requires Inv(s) && Crew(s) && s.producer == Waiting && !Doable(s.group, |s.workers|)
    ensures Possible(s, schedule) && !Returns(s, schedule)
    ensures forall a :: !Enabled(After(s, schedule), a)
    decreases Rank(s)
  {
    hide Inv, Crew, Doable, Rank;
    schedule := [];
    if a :| Enabled(s, a) {
      NotDoable(s);
      EveryStepCounts(s, a);
      StepCrew(s, a);
      var rest := GetsStuck(Apply(s, a));
      schedule := [a] + rest;
    }
  }

  /** The producer comes back from waitGroup, whatever the others do: until then somebody can go on, and not for
      longer than the rank says. */
  ghost predicate AlwaysReturns(s: State)
  {
    forall schedule :: Possible(s, schedule) && !Returns(s, schedule) ==>
      |schedule| < Rank(s) && exists a :: Enabled(After(s, schedule), a)
  }

  /** In every state that can be reached, waitGroup comes back if and only if no job of the group is null and there is
      a worker, or nothing to do; otherwise some schedule leads to where nobody can take a step. */
  lemma ReturnsExactly(workers: nat, schedule: seq<Action>)
    requires Possible(Begin(workers), schedule) && After(Begin(workers), schedule).producer == Waiting
    ensures AlwaysReturns(After(Begin(workers), schedule))
            <==> Doable(After(Begin(workers), schedule).group, workers)
  {
    BeginInv(workers);
    RunCrew(Begin(workers), schedule);
    var s := After(Begin(workers), schedule);
    hide Inv, Crew, Doable, Rank, Begin, Apply, Enabled;
    if Doable(s.group, workers) {
      forall more | Possible(s, more) && !Returns(s, more)
        ensures |more| < Rank(s) && exists a :: Enabled(After(s, more), a)
      {
        if Rank(s) <= |more| {
          WaitTerminates(s, more);
        }
        RunCrew(s, more);
        StillWaiting(s, more);
        var a := SomeStep(After(s, more));
      }
    } else {
      var stuck := GetsStuck(s);
    }
  }

  /** One worker and one null: once the worker has taken it nobody can take a step. */
  lemma NullNeverReturns()
    ensures var schedule := [AddGroup([Null]), Enqueue, Enqueue, WaitGroup, Dequeue(0)];
            Possible(Begin(1), schedule) && forall a :: !Enabled(After(Begin(1), schedule), a)
  {
  }
}
