/** The Win32 condition variable: a count of waiters, a semaphore that wakes them, and an event on which a
    broadcast waits for the last of them. Any number of threads, each step of which other threads can interleave. */
module ConditionVariable {
  import opened Totals

  /** The most tokens the semaphore holds; a release that would go beyond it adds none. */
  const MAX_TOKENS: nat := 0x7FFFFFFF

  /** Where a thread is: outside, or holding the mutex; in wait, counted but still with the mutex, blocked on
      the semaphore, past it, past the count as the last or not; in signal; or in broadcast. */
  datatype PC =
    | Outside | Owning
    | Counted | Blocked | Woken | LastWaiter | Reacquiring
    | Signalling(haveWaiters: bool)
    | Broadcasting | Resetting

  datatype Mutex = Free | HeldBy(thread: nat)

  datatype State = State(
    pcs: seq<PC>,
    mutex: Mutex,
    numWaiters: nat,
    tokens: nat,
    waitersAreDone: bool,
    wasBroadcast: bool,
    // History: the waiters that the last broadcast found, and how often the event was set since.
    cohort: set<nat>,
    timesSet: nat)

  datatype Action =
    | Lock | Unlock
    | CountWaiter | ReleaseAndWait | PassSemaphore | UncountWaiter | SetEvent | Relock
    | ReadWaiters | Post
    | BroadcastToWaiters | PassEvent | ResetBroadcast

  function Release(tokens: nat, n: nat): (r: nat)
  {
    if tokens + n <= MAX_TOKENS then tokens + n else tokens
  }

  predicate Waits(pc: PC)
  {
    pc == Counted || pc == Blocked || pc == Woken
  }

  /** A thread can take the step now. */
  predicate Enabled(s: State, i: nat, a: Action)
  {
    && i < |s.pcs|
    && var pc := s.pcs[i];
       match a
       case Lock => pc == Outside && s.mutex == Free
       case Unlock => pc == Owning
       case CountWaiter => pc == Owning
       case ReleaseAndWait => pc == Counted
       case PassSemaphore => pc == Blocked && 0 < s.tokens
       case UncountWaiter => pc == Woken
       case SetEvent => pc == LastWaiter
       case Relock => pc == Reacquiring && s.mutex == Free
       case ReadWaiters => pc == Owning
       case Post => pc.Signalling?
       case BroadcastToWaiters => pc == Owning
       case PassEvent => pc == Broadcasting && s.waitersAreDone
       case ResetBroadcast => pc == Resetting
  }

  function Apply(s: State, i: nat, a: Action): State
    requires Enabled(s, i, a)
  {
    match a
    case Lock => s.(pcs := s.pcs[i := Owning], mutex := HeldBy(i))
    case Unlock => s.(pcs := s.pcs[i := Outside], mutex := Free)
    case CountWaiter => s.(pcs := s.pcs[i := Counted], numWaiters := s.numWaiters + 1)
    case ReleaseAndWait => s.(pcs := s.pcs[i := Blocked], mutex := Free)
    case PassSemaphore => s.(pcs := s.pcs[i := Woken], tokens := s.tokens - 1)
    case UncountWaiter =>
      var left := if s.numWaiters == 0 then 0 else s.numWaiters - 1;
      var lastWaiter := s.wasBroadcast && left == 0;
      s.(pcs := s.pcs[i := if lastWaiter then LastWaiter else Reacquiring], numWaiters := left)
    case SetEvent => s.(pcs := s.pcs[i := Reacquiring], waitersAreDone := true, timesSet := s.timesSet + 1)
    case Relock => s.(pcs := s.pcs[i := Owning], mutex := HeldBy(i))
    case ReadWaiters => s.(pcs := s.pcs[i := Signalling(s.numWaiters > 0)])
    case Post =>
      s.(pcs := s.pcs[i := Owning], tokens := if s.pcs[i].haveWaiters then Release(s.tokens, 1) else s.tokens)
    case BroadcastToWaiters =>
      if s.numWaiters > 0 then
        s.(pcs := s.pcs[i := Broadcasting], wasBroadcast := true, tokens := Release(s.tokens, s.numWaiters),
           cohort := (set k | 0 <= k < |s.pcs| && Waits(s.pcs[k])), timesSet := 0)
      else s
    case PassEvent => s.(pcs := s.pcs[i := Resetting], waitersAreDone := false)
    case ResetBroadcast => s.(pcs := s.pcs[i := Owning], wasBroadcast := false)
  }

  function Begin(threads: nat): State
  {
    State(seq(threads, i => Outside), Free, 0, 0, false, false, {}, 0)
  }

  // ----- What every step keeps -----

  predicate Holds(pc: PC)
  {
    pc == Owning || pc == Counted || pc.Signalling? || pc == Broadcasting || pc == Resetting
  }

  const WAITS: PC -> nat := pc => if Waits(pc) then 1 else 0
  const BLOCKED: PC -> nat := pc => if pc == Blocked then 1 else 0
  const LAST: PC -> nat := pc => if pc == LastWaiter then 1 else 0

  /** The thread that holds the mutex is in the middle of a broadcast that waits for the event. */
  predicate InBroadcast(s: State, pc: PC)
  {
    s.mutex.HeldBy? && s.mutex.thread < |s.pcs| && s.pcs[s.mutex.thread] == pc
  }

  predicate MutexHeld(s: State)
  {
    forall i :: 0 <= i < |s.pcs| ==> (Holds(s.pcs[i]) <==> s.mutex == HeldBy(i))
  }

  /** Threads that a broadcast found have passed the semaphore, or can. */
  predicate CohortWaits(s: State)
  {
    && (forall i :: 0 <= i < |s.pcs| && Waits(s.pcs[i]) ==> i in s.cohort)
    && (forall i :: i in s.cohort ==> i < |s.pcs| && s.pcs[i] in {Blocked, Woken, LastWaiter, Reacquiring})
  }

  predicate CohortDone(s: State)
  {
    forall i :: i in s.cohort ==> i < |s.pcs| && s.pcs[i] == Reacquiring
  }

  predicate Inv(s: State)
  {
    && |s.pcs| <= MAX_TOKENS / 2
    && MutexHeld(s)
    && (s.mutex.HeldBy? ==> s.mutex.thread < |s.pcs|)
    && s.numWaiters == Total(s.pcs, WAITS)
    && (s.wasBroadcast <==> InBroadcast(s, Broadcasting) || InBroadcast(s, Resetting))
    && Total(s.pcs, LAST) + (if s.waitersAreDone then 1 else 0)
       == (if InBroadcast(s, Broadcasting) && s.numWaiters == 0 then 1 else 0)
    && (InBroadcast(s, Broadcasting) ==>
          && Total(s.pcs, BLOCKED) <= s.tokens
          && CohortWaits(s)
          && s.timesSet == if s.waitersAreDone then 1 else 0)
    && (InBroadcast(s, Resetting) ==> s.numWaiters == 0 && CohortDone(s) && s.timesSet == 1)
  }

  lemma BeginInv(threads: nat)
    requires threads <= MAX_TOKENS / 2
    ensures Inv(Begin(threads))
  {
    NoneWeigh(Begin(threads).pcs, WAITS);
    NoneWeigh(Begin(threads).pcs, LAST);
  }

  lemma Moves(s: State, i: nat, pc: PC)
    requires i < |s.pcs|
    ensures Total(s.pcs[i := pc], WAITS) + WAITS(s.pcs[i]) == Total(s.pcs, WAITS) + WAITS(pc)
    ensures Total(s.pcs[i := pc], BLOCKED) + BLOCKED(s.pcs[i]) == Total(s.pcs, BLOCKED) + BLOCKED(pc)
    ensures Total(s.pcs[i := pc], LAST) + LAST(s.pcs[i]) == Total(s.pcs, LAST) + LAST(pc)
    ensures WAITS(s.pcs[i]) <= Total(s.pcs, WAITS) && LAST(s.pcs[i]) <= Total(s.pcs, LAST)
  {
    TotalUpdate(s.pcs, WAITS, i, pc);
    TotalUpdate(s.pcs, BLOCKED, i, pc);
    TotalUpdate(s.pcs, LAST, i, pc);
  }

  /** Taking and giving back the mutex. */
  lemma MutexStepInv(s: State, i: nat, a: Action)
    requires Inv(s) && Enabled(s, i, a) && a in {Lock, Unlock, CountWaiter, ReleaseAndWait, Relock}
    ensures Inv(Apply(s, i, a))
  {
    hide Total;
    Moves(s, i, Apply(s, i, a).pcs[i]);
  }

  /** Waking up. */
  lemma WakingStepInv(s: State, i: nat, a: Action)
    requires Inv(s) && Enabled(s, i, a) && a in {PassSemaphore, UncountWaiter, SetEvent}
    ensures Inv(Apply(s, i, a))
  {
    hide Total;
    Moves(s, i, Apply(s, i, a).pcs[i]);
  }

  /** Signalling and broadcasting. */
  lemma SignallingStepInv(s: State, i: nat, a: Action)
    requires Inv(s) && Enabled(s, i, a) && a in {ReadWaiters, Post, BroadcastToWaiters, PassEvent, ResetBroadcast}
    ensures Inv(Apply(s, i, a))
  {
    hide Total;
    Moves(s, i, Apply(s, i, a).pcs[i]);
    if a == BroadcastToWaiters {
      TotalBounded(s.pcs, WAITS);
      TotalMono(s.pcs, BLOCKED, WAITS);
    } else if a == PassEvent {
      NoWaiters(s);
    }
  }

  /** Every step of every thread keeps the invariant. */
  lemma StepInv(s: State, i: nat, a: Action)
    requires Inv(s) && Enabled(s, i, a)
    ensures Inv(Apply(s, i, a))
  {
    hide Inv;
    if a in {Lock, Unlock, CountWaiter, ReleaseAndWait, Relock} {
      MutexStepInv(s, i, a);
    } else if a in {PassSemaphore, UncountWaiter, SetEvent} {
      WakingStepInv(s, i, a);
    } else {
      SignallingStepInv(s, i, a);
    }
  }

  lemma NoWaiters(s: State)
    requires Total(s.pcs, WAITS) == 0 && Total(s.pcs, LAST) == 0
    ensures forall i :: 0 <= i < |s.pcs| ==> !Waits(s.pcs[i]) && s.pcs[i] != LastWaiter
  {
    forall i | 0 <= i < |s.pcs|
      ensures !Waits(s.pcs[i]) && s.pcs[i] != LastWaiter
    {
      TotalAtLeast(s.pcs, WAITS, i);
      TotalAtLeast(s.pcs, LAST, i);
    }
  }

  // ----- Runs -----

  datatype Choice = Choice(thread: nat, action: Action)

  /** The threads can take these steps one after the other. */
  predicate Possible(s: State, schedule: seq<Choice>)
    decreases |schedule|
  {
    schedule == []
    || (Enabled(s, schedule[0].thread, schedule[0].action)
        && Possible(Apply(s, schedule[0].thread, schedule[0].action), schedule[1..]))
  }

  function After(s: State, schedule: seq<Choice>): State
    requires Possible(s, schedule)
    decreases |schedule|
  {
    if schedule == [] then s
    else After(Apply(s, schedule[0].thread, schedule[0].action), schedule[1..])
  }

  lemma {:induction false} RunInv(s: State, schedule: seq<Choice>)
    requires Inv(s) && Possible(s, schedule)
    ensures Inv(After(s, schedule))
    decreases |schedule|
  {
    hide Inv;
    if schedule != [] {
      StepInv(s, schedule[0].thread, schedule[0].action);
      RunInv(Apply(s, schedule[0].thread, schedule[0].action), schedule[1..]);
    }
  }

  /** In every run of any number of threads, when a broadcast returns, every waiter that it found has passed the
      semaphore and uncounted itself and now queues for the mutex; the event was set exactly once; and nothing is
      counted, so that no thread reads mWasBroadcast while it is reset without the critical section. */
  lemma BroadcastReturns(threads: nat, schedule: seq<Choice>, i: nat)
    requires threads <= MAX_TOKENS / 2 && Possible(Begin(threads), schedule)
    requires Enabled(After(Begin(threads), schedule), i, ResetBroadcast)
    ensures var s := After(Begin(threads), schedule);
            && (forall k :: k in s.cohort ==> k < |s.pcs| && s.pcs[k] == Reacquiring)
            && s.timesSet == 1 && !s.waitersAreDone
            && (forall k :: 0 <= k < |s.pcs| ==> !Waits(s.pcs[k]))
            && (forall k, a :: a == UncountWaiter || a == BroadcastToWaiters ==> !Enabled(s, k, a))
  {
    BeginInv(threads);
    RunInv(Begin(threads), schedule);
    var s := After(Begin(threads), schedule);
    LastBounded(s);
    NoWaiters(s);
  }

  lemma LastBounded(s: State)
    requires Inv(s) && !InBroadcast(s, Broadcasting)
    ensures Total(s.pcs, LAST) == 0
  {
  }

  /** While a broadcast waits, the semaphore has a token for every waiter that is still blocked, and every
      thread that is still counted is one that the broadcast found. */
  lemma TokensCoverBlocked(threads: nat, schedule: seq<Choice>)
    requires threads <= MAX_TOKENS / 2 && Possible(Begin(threads), schedule)
    requires InBroadcast(After(Begin(threads), schedule), Broadcasting)
    ensures var s := After(Begin(threads), schedule);
            && Total(s.pcs, BLOCKED) <= s.tokens
            && (forall k :: 0 <= k < |s.pcs| && Waits(s.pcs[k]) ==> k in s.cohort)
            && (s.waitersAreDone ==> forall k :: 0 <= k < |s.pcs| ==> !Waits(s.pcs[k]))
  {
    BeginInv(threads);
    RunInv(Begin(threads), schedule);
    var s := After(Begin(threads), schedule);
    if s.waitersAreDone {
      NoWaiters(s);
    }
  }

  /** At most one thread holds the mutex. */
  lemma MutualExclusion(threads: nat, schedule: seq<Choice>, i: nat, j: nat)
    requires threads <= MAX_TOKENS / 2 && Possible(Begin(threads), schedule)
    requires i < j < |After(Begin(threads), schedule).pcs|
    ensures !(Holds(After(Begin(threads), schedule).pcs[i]) && Holds(After(Begin(threads), schedule).pcs[j]))
  {
    BeginInv(threads);
    RunInv(Begin(threads), schedule);
  }

  // ----- A signal is not lost -----

  /** In every run signal finds waiters exactly when some thread is counted and has not uncounted itself. */
  lemma SignalFindsWaiters(threads: nat, schedule: seq<Choice>, i: nat)
    requires threads <= MAX_TOKENS / 2 && Possible(Begin(threads), schedule)
    requires Enabled(After(Begin(threads), schedule), i, ReadWaiters)
    ensures var s := After(Begin(threads), schedule);
            Apply(s, i, ReadWaiters).pcs[i] == Signalling(exists k: nat :: k < |s.pcs| && Waits(s.pcs[k]))
  {
    BeginInv(threads);
    RunInv(Begin(threads), schedule);
    var s := After(Begin(threads), schedule);
    if k: nat :| k < |s.pcs| && Waits(s.pcs[k]) {
      TotalAtLeast(s.pcs, WAITS, k);
    } else {
      NoneWeigh(s.pcs, WAITS);
    }
  }

  /** After a signal that found waiters, whatever steps are taken, each thread that is blocked can pass the semaphore
      as long as no other thread does. */
  lemma {:induction false} SignalStays(s: State, i: nat, schedule: seq<Choice>, k: nat)
    requires Enabled(s, i, Post) && s.pcs[i].haveWaiters && Possible(Apply(s, i, Post), schedule)
    requires forall j :: 0 <= j < |schedule| ==> schedule[j].action != PassSemaphore
    requires k < |After(Apply(s, i, Post), schedule).pcs|
    requires After(Apply(s, i, Post), schedule).pcs[k] == Blocked
    ensures Enabled(After(Apply(s, i, Post), schedule), k, PassSemaphore)
  {
    TokensStay(Apply(s, i, Post), schedule);
  }

  lemma {:induction false} TokensStay(s: State, schedule: seq<Choice>)
    requires Possible(s, schedule) && forall j :: 0 <= j < |schedule| ==> schedule[j].action != PassSemaphore
    ensures s.tokens <= After(s, schedule).tokens
    decreases |schedule|
  {
    if schedule != [] {
      assert schedule[0].action != PassSemaphore;
      TokensStay(Apply(s, schedule[0].thread, schedule[0].action), schedule[1..]);
    }
  }

  // ----- Nobody wakes up who was not woken -----

  /** The tokens that the steps of a schedule are to give: one for each signal that found waiters, and for each
      broadcast as many as there are waiters. */
  function Given(s: State, schedule: seq<Choice>): nat
    requires Possible(s, schedule)
    decreases |schedule|
  {
    if schedule == [] then 0
    else
      var i, a := schedule[0].thread, schedule[0].action;
      GivenBy(s, i, a) + Given(Apply(s, i, a), schedule[1..])
  }

  function GivenBy(s: State, i: nat, a: Action): nat
    requires Enabled(s, i, a)
  {
    if a == Post && s.pcs[i] == Signalling(true) then 1
    else if a == BroadcastToWaiters then Total(s.pcs, WAITS)
    else 0
  }

  lemma TokensNext(s: State, i: nat, a: Action)
    requires Inv(s) && Enabled(s, i, a) && s.tokens <= MAX_TOKENS
    ensures var tokens, passes := Apply(s, i, a).tokens, if a == PassSemaphore then 1 else 0;
            && tokens + passes <= s.tokens + GivenBy(s, i, a) && tokens <= MAX_TOKENS
            && (s.tokens + GivenBy(s, i, a) <= MAX_TOKENS ==> tokens + passes == s.tokens + GivenBy(s, i, a))
  {
    hide MutexHeld, CohortWaits, CohortDone, InBroadcast, Total;
  }

  /** How often a thread has passed the semaphore. */
  function Passes(schedule: seq<Choice>): nat
  {
    if schedule == [] then 0
    else (if schedule[0].action == PassSemaphore then 1 else 0) + Passes(schedule[1..])
  }

  lemma {:induction false} TokensFrom(s: State, schedule: seq<Choice>)
    requires Inv(s) && Possible(s, schedule) && s.tokens <= MAX_TOKENS
    ensures After(s, schedule).tokens + Passes(schedule) <= s.tokens + Given(s, schedule)
    ensures After(s, schedule).tokens <= MAX_TOKENS
    ensures s.tokens + Given(s, schedule) <= MAX_TOKENS ==>
      After(s, schedule).tokens + Passes(schedule) == s.tokens + Given(s, schedule)
    decreases |schedule|
  {
    hide Inv, Apply, Enabled, GivenBy;
    if schedule != [] {
      var i, a := schedule[0].thread, schedule[0].action;
      StepInv(s, i, a);
      TokensNext(s, i, a);
      TokensFrom(Apply(s, i, a), schedule[1..]);
    }
  }

  /** In every run there have never been more threads past the semaphore, and tokens left in it, than tokens were given
      by signals that found waiters and by broadcasts; and just as many unless the semaphore has reached its limit. */
  lemma TokensAreGiven(threads: nat, schedule: seq<Choice>)
    requires threads <= 0x3FFF_FFFF && Possible(Begin(threads), schedule)
    ensures After(Begin(threads), schedule).tokens + Passes(schedule) <= Given(Begin(threads), schedule)
    ensures After(Begin(threads), schedule).tokens <= 0x7FFF_FFFF
    ensures Given(Begin(threads), schedule) <= 0x7FFF_FFFF ==>
      After(Begin(threads), schedule).tokens + Passes(schedule) == Given(Begin(threads), schedule)
  {
    BeginInv(threads);
    TokensFrom(Begin(threads), schedule);
  }

  /** A signal that is sent before anybody waits does not wake the thread that waits next. */
  lemma EarlySignalIsLost()
    ensures var schedule := [Choice(0, Lock), Choice(0, ReadWaiters), Choice(0, Post), Choice(0, CountWaiter),
                             Choice(0, ReleaseAndWait)];
            Possible(Begin(1), schedule)
            && After(Begin(1), schedule).pcs[0] == Blocked && !Enabled(After(Begin(1), schedule), 0, PassSemaphore)
  {
  }

  // ----- A broadcast always returns -----

  predicate Returning(s: State)
  {
    InBroadcast(s, Broadcasting) || InBroadcast(s, Resetting)
  }

  /** How many steps a thread is from queueing for the mutex, or from having returned from broadcast. */
  const REMAINING: PC -> nat := (pc: PC) =>
    match pc
    case Blocked => 3
    case Woken => 2
    case LastWaiter => 1
    case Broadcasting => 2
    case Resetting => 1
    case _ => 0

  function Rank(s: State): nat
  {
    Total(s.pcs, REMAINING)
  }

  /** No waiter is stranded: until a broadcast has returned some thread can take a step. */
  lemma SomeStep(s: State) returns (i: nat, a: Action)
    requires Inv(s) && Returning(s)
    ensures Enabled(s, i, a) && a in {ResetBroadcast, PassEvent, UncountWaiter, PassSemaphore, SetEvent}
  {
    i := s.mutex.thread;
    if s.pcs[i] == Resetting {
      a := ResetBroadcast;
    } else if s.waitersAreDone {
      a := PassEvent;
    } else if 0 < s.numWaiters {
      i := SomeWeigh(s.pcs, WAITS);
      if s.pcs[i] == Woken {
        a := UncountWaiter;
      } else {
        TotalAtLeast(s.pcs, BLOCKED, i);
        a := PassSemaphore;
      }
    } else {
      i := SomeWeigh(s.pcs, LAST);
      a := SetEvent;
    }
  }

  /** A step by which a thread goes on with what it has begun. */
  predicate GoesOn(a: Action)
  {
    a != Lock && a != CountWaiter && a != ReadWaiters && a != BroadcastToWaiters
  }

  /** Unless every thread is outside, or blocked on a semaphore without tokens, one of them can go on: so a waiter that
      was woken gets to the mutex, and the one that holds the mutex can give it back. */
  lemma NoDeadlock(s: State, w: nat) returns (i: nat, a: Action)
    requires Inv(s) && w < |s.pcs| && s.pcs[w] != Outside && (s.pcs[w] == Blocked ==> 0 < s.tokens)
    ensures Enabled(s, i, a) && GoesOn(a)
  {
    if Returning(s) {
      i, a := SomeStep(s);
    } else {
      i := w;
      if s.pcs[w] == Reacquiring && s.mutex.HeldBy? {
        i := s.mutex.thread;
      }
      a := match s.pcs[i]
           case Owning => Unlock
           case Counted => ReleaseAndWait
           case Blocked => PassSemaphore
           case Woken => UncountWaiter
           case LastWaiter => SetEvent
           case Reacquiring => Relock
           case _ => Post;
    }
  }

  /** Whatever step is taken meanwhile brings the broadcast nearer to its return. */
  lemma EveryStepCounts(s: State, i: nat, a: Action)
    requires Inv(s) && Returning(s) && Enabled(s, i, a)
    ensures Rank(Apply(s, i, a)) < Rank(s)
    ensures Returning(Apply(s, i, a)) || a == ResetBroadcast
  {
    TotalUpdate(s.pcs, REMAINING, i, Apply(s, i, a).pcs[i]);
  }

  /** The broadcast in this state has returned somewhere in the schedule. */
  predicate Returns(s: State, schedule: seq<Choice>)
    requires Possible(s, schedule)
    decreases |schedule|
  {
    schedule != []
    && (schedule[0].action == ResetBroadcast
        || Returns(Apply(s, schedule[0].thread, schedule[0].action), schedule[1..]))
  }

  /** Under every schedule a broadcast returns within as many steps as its rank says. */
  lemma {:induction false} BroadcastTerminates(s: State, schedule: seq<Choice>)
    requires Inv(s) && Returning(s) && Possible(s, schedule) && Rank(s) <= |schedule|
    ensures Returns(s, schedule)
    decreases |schedule|
  {
    hide Inv, Returning, Enabled;
    if schedule == [] {
      RankPositive(s);
    } else {
      var i, a := schedule[0].thread, schedule[0].action;
      StepInv(s, i, a);
      EveryStepCounts(s, i, a);
      if a != ResetBroadcast {
        BroadcastTerminates(Apply(s, i, a), schedule[1..]);
      }
    }
  }

  lemma RankPositive(s: State)
    requires Inv(s) && Returning(s)
    ensures 0 < Rank(s)
  {
    TotalAtLeast(s.pcs, REMAINING, s.mutex.thread);
  }
}
