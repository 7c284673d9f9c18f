/** The reader/writer lock built from one counting semaphore: a reader holds one permit, a writer all of them.
    Any number of threads, whose steps interleave. */
module ReadersWriter {
  import opened Totals

  /** Where a thread is. A writer takes its permits one by one while it holds the mutex, and gives them back
      one by one without it. */
  datatype PC =
    | Outside
    | WaitingToRead | Reading
    | WaitingToWrite | Taking(permits: nat) | Writing | Returning(permits: nat)

  /** The threads, the permits that nobody holds, and whether the mutex is held. */
  datatype State = State(pcs: seq<PC>, free: nat, locked: bool)

  datatype Action =
    | RequestRead | LockRead | UnlockRead
    | RequestWrite | LockMutex | TakePermit | UnlockMutex | BeginReturn | ReturnPermit | EndReturn

  predicate Enabled(max: nat, s: State, i: nat, a: Action)
  {
    && i < |s.pcs|
    && var pc := s.pcs[i];
       match a
       case RequestRead => pc == Outside
       case LockRead => pc == WaitingToRead && 0 < s.free
       case UnlockRead => pc == Reading
       case RequestWrite => pc == Outside
       case LockMutex => pc == WaitingToWrite && !s.locked
       case TakePermit => pc.Taking? && pc.permits < max && 0 < s.free
       case UnlockMutex => pc.Taking? && max <= pc.permits
       case BeginReturn => pc == Writing
       case ReturnPermit => pc.Returning? && 0 < pc.permits
       case EndReturn => pc.Returning? && pc.permits == 0
  }

  function Apply(max: nat, s: State, i: nat, a: Action): State
    requires Enabled(max, s, i, a)
  {
    match a
    case RequestRead => s.(pcs := s.pcs[i := WaitingToRead])
    case LockRead => s.(pcs := s.pcs[i := Reading], free := s.free - 1)
    case UnlockRead => s.(pcs := s.pcs[i := Outside], free := s.free + 1)
    case RequestWrite => s.(pcs := s.pcs[i := WaitingToWrite])
    case LockMutex => s.(pcs := s.pcs[i := Taking(0)], locked := true)
    case TakePermit => s.(pcs := s.pcs[i := Taking(s.pcs[i].permits + 1)], free := s.free - 1)
    case UnlockMutex => s.(pcs := s.pcs[i := Writing], locked := false)
    case BeginReturn => s.(pcs := s.pcs[i := Returning(max)])
    case ReturnPermit => s.(pcs := s.pcs[i := Returning(s.pcs[i].permits - 1)], free := s.free + 1)
    case EndReturn => s.(pcs := s.pcs[i := Outside])
  }

  function Begin(max: nat, threads: nat): State
  {
    State(seq(threads, i => Outside), max, false)
  }

  // ----- What every step keeps -----

  /** The permits that a thread holds. */
  function Held(max: nat): PC -> nat
  {
    (pc: PC) =>
      match pc
      case Reading => 1
      case Taking(permits) => permits
      case Writing => max
      case Returning(permits) => permits
      case _ => 0
  }

  const TAKING: PC -> nat := (pc: PC) => if pc.Taking? then 1 else 0

  predicate Inv(max: nat, s: State)
  {
    && s.free + Total(s.pcs, Held(max)) == max
    && Total(s.pcs, TAKING) == (if s.locked then 1 else 0)
    && forall i :: 0 <= i < |s.pcs| && s.pcs[i].Taking? ==> s.pcs[i].permits <= max
  }

  lemma BeginInv(max: nat, threads: nat)
    ensures Inv(max, Begin(max, threads))
  {
    NoneWeigh(Begin(max, threads).pcs, Held(max));
    NoneWeigh(Begin(max, threads).pcs, TAKING);
  }

  /** Every step of every thread keeps the permits together, and lets only one writer take them. */
  lemma StepInv(max: nat, s: State, i: nat, a: Action)
    requires Inv(max, s) && Enabled(max, s, i, a)
    ensures Inv(max, Apply(max, s, i, a))
  {
    hide Total;
    var t := Apply(max, s, i, a);
    TotalUpdate(s.pcs, Held(max), i, t.pcs[i]);
    TotalUpdate(s.pcs, TAKING, i, t.pcs[i]);
  }

  datatype Choice = Choice(thread: nat, action: Action)

  predicate Possible(max: nat, s: State, schedule: seq<Choice>)
    decreases |schedule|
  {
    schedule == []
    || (Enabled(max, s, schedule[0].thread, schedule[0].action)
        && Possible(max, Apply(max, s, schedule[0].thread, schedule[0].action), schedule[1..]))
  }

  function After(max: nat, s: State, schedule: seq<Choice>): State
    requires Possible(max, s, schedule)
    decreases |schedule|
  {
    if schedule == [] then s else After(max, Apply(max, s, schedule[0].thread, schedule[0].action), schedule[1..])
  }

  lemma {:induction false} RunInv(max: nat, s: State, schedule: seq<Choice>)
    requires Inv(max, s) && Possible(max, s, schedule)
    ensures Inv(max, After(max, s, schedule))
    decreases |schedule|
  {
    hide Inv;
    if schedule != [] {
      StepInv(max, s, schedule[0].thread, schedule[0].action);
      RunInv(max, Apply(max, s, schedule[0].thread, schedule[0].action), schedule[1..]);
    }
  }

  // ----- Exclusion -----

  /** A thread past lockWrite is the only one that reads, writes, or holds any permit. */
  predicate Exclusive(max: nat, s: State)
  {
    forall i, j :: 0 <= i < |s.pcs| && 0 <= j < |s.pcs| && i != j && s.pcs[i] == Writing ==>
      s.pcs[j] != Reading && s.pcs[j] != Writing && Held(max)(s.pcs[j]) == 0
  }

  /** In every run with at least one permit, writers are exclusive. */
  lemma WriterExcludes(max: nat, threads: nat, schedule: seq<Choice>)
    requires 0 < max && Possible(max, Begin(max, threads), schedule)
    ensures Exclusive(max, After(max, Begin(max, threads), schedule))
  {
    BeginInv(max, threads);
    RunInv(max, Begin(max, threads), schedule);
    var s := After(max, Begin(max, threads), schedule);
    forall i, j | 0 <= i < |s.pcs| && 0 <= j < |s.pcs| && i != j && s.pcs[i] == Writing
      ensures s.pcs[j] != Reading && s.pcs[j] != Writing && Held(max)(s.pcs[j]) == 0
    {
      if i < j {
        TotalAtLeastTwo(s.pcs, Held(max), i, j);
      } else {
        TotalAtLeastTwo(s.pcs, Held(max), j, i);
      }
    }
  }

  lemma {:induction false} RunTwo(max: nat, s: State, a: Choice, b: Choice)
    requires Enabled(max, s, a.thread, a.action)
    requires Enabled(max, Apply(max, s, a.thread, a.action), b.thread, b.action)
    ensures Possible(max, s, [a, b])
    ensures After(max, s, [a, b]) == Apply(max, Apply(max, s, a.thread, a.action), b.thread, b.action)
  {
    assert [a, b][1..] == [b];
    RunOne(max, Apply(max, s, a.thread, a.action), b);
  }

  lemma RunOne(max: nat, s: State, a: Choice)
    requires Enabled(max, s, a.thread, a.action)
    ensures Possible(max, s, [a]) && After(max, s, [a]) == Apply(max, s, a.thread, a.action)
  {
  }

  lemma {:induction false} RunMore(max: nat, s: State, first: seq<Choice>, second: seq<Choice>)
    requires Possible(max, s, first) && Possible(max, After(max, s, first), second)
    ensures Possible(max, s, first + second)
    ensures After(max, s, first + second) == After(max, After(max, s, first), second)
    decreases |first|
  {
    if first == [] {
      assert first + second == second;
    } else {
      assert (first + second)[1..] == first[1..] + second;
      RunMore(max, Apply(max, s, first[0].thread, first[0].action), first[1..], second);
    }
  }

  /** Without a permit nothing keeps two writers apart. */
  lemma NoPermitsNoExclusion(threads: nat) returns (schedule: seq<Choice>)
    requires 2 <= threads
    ensures Possible(0, Begin(0, threads), schedule) && !Exclusive(0, After(0, Begin(0, threads), schedule))
  {
    var s := Begin(0, threads);
    var one := EnterWithoutPermits(s, 0);
    var t := After(0, s, one);
    var two := EnterWithoutPermits(t, 1);
    RunMore(0, s, one, two);
    schedule := one + two;
    var u := After(0, t, two);
    assert u.pcs[0] == Writing && u.pcs[1] == Writing;
  }

  /** The lock excludes exactly when it has a permit at all. */
  lemma ExclusionExactly(max: nat)
    ensures (forall threads, schedule :: Possible(max, Begin(max, threads), schedule) ==>
                                           Exclusive(max, After(max, Begin(max, threads), schedule)))
            <==> 0 < max
  {
    if 0 < max {
      forall threads, schedule | Possible(max, Begin(max, threads), schedule)
        ensures Exclusive(max, After(max, Begin(max, threads), schedule))
      {
        WriterExcludes(max, threads, schedule);
      }
    } else {
      var schedule := NoPermitsNoExclusion(2);
    }
  }

  lemma EnterWithoutPermits(s: State, i: nat) returns (schedule: seq<Choice>)
    requires i < |s.pcs| && s.pcs[i] == Outside && !s.locked
    ensures Possible(0, s, schedule) && After(0, s, schedule) == s.(pcs := s.pcs[i := Writing])
  {
    var a, b := Choice(i, RequestWrite), Choice(i, LockMutex);
    RunTwo(0, s, a, b);
    var t := After(0, s, [a, b]);
    RunOne(0, t, Choice(i, UnlockMutex));
    RunMore(0, s, [a, b], [Choice(i, UnlockMutex)]);
    schedule := [a, b] + [Choice(i, UnlockMutex)];
    assert t.pcs[i := Writing] == s.pcs[i := Writing];
  }

  // ----- Readers share -----

  const READING: PC -> nat := (pc: PC) => if pc == Reading then 1 else 0

  predicate Writes(pc: PC)
  {
    pc.Taking? || pc == Writing || pc.Returning?
  }

  /** In every run at most as many threads read as there are permits, and while nobody is on the way to write or back
      a thread that wants to read can do so exactly when fewer read already. */
  lemma ReadersShare(max: nat, threads: nat, schedule: seq<Choice>, i: nat)
    requires Possible(max, Begin(max, threads), schedule) && i < |After(max, Begin(max, threads), schedule).pcs|
    ensures var s := After(max, Begin(max, threads), schedule);
            && Total(s.pcs, READING) <= max
            && (s.pcs[i] == WaitingToRead && (forall k :: 0 <= k < |s.pcs| ==> !Writes(s.pcs[k])) ==>
                (Enabled(max, s, i, LockRead) <==> Total(s.pcs, READING) < max))
  {
    BeginInv(max, threads);
    RunInv(max, Begin(max, threads), schedule);
    var s := After(max, Begin(max, threads), schedule);
    TotalMono(s.pcs, READING, Held(max));
    if forall k :: 0 <= k < |s.pcs| ==> !Writes(s.pcs[k]) {
      TotalMono(s.pcs, Held(max), READING);
    }
  }

  /** There is a run after which as many threads read as there are permits. */
  lemma {:induction false} ReadersTogether(max: nat, threads: nat, n: nat) returns (schedule: seq<Choice>)
    requires n <= max && n <= threads
    ensures Possible(max, Begin(max, threads), schedule)
    ensures After(max, Begin(max, threads), schedule)
         == State(seq(threads, i => if i < n then Reading else Outside), max - n, false)
  {
    schedule := [];
    if n == 0 {
      assert Begin(max, threads).pcs == seq(threads, i => if i < n then Reading else Outside);
    } else {
      var before := ReadersTogether(max, threads, n - 1);
      var s, a, b := After(max, Begin(max, threads), before), Choice(n - 1, RequestRead), Choice(n - 1, LockRead);
      RunTwo(max, s, a, b);
      RunMore(max, Begin(max, threads), before, [a, b]);
      schedule := before + [a, b];
      assert After(max, s, [a, b]).pcs == seq(threads, i => if i < n then Reading else Outside);
    }
  }

  // ----- Nobody waits for ever for permits that nobody can give back -----

  /** Two writers never both hold some of the permits and want more. */
  lemma OneTakes(max: nat, s: State, i: nat, j: nat)
    requires Inv(max, s) && i < j < |s.pcs|
    ensures !(s.pcs[i].Taking? && s.pcs[j].Taking?)
  {
    TotalAtLeastTwo(s.pcs, TAKING, i, j);
  }

  /** A step by which a thread goes on with what it has begun. */
  predicate GoesOn(a: Action)
  {
    a != RequestRead && a != RequestWrite
  }

  /** Unless all threads are outside, one of them can go on: if a writer lacks permits, then someone who has one
      and can give it back. */
  lemma NoDeadlock(max: nat, s: State, w: nat) returns (i: nat, a: Action)
    requires 0 < max && Inv(max, s) && w < |s.pcs| && s.pcs[w] != Outside
    ensures Enabled(max, s, i, a) && GoesOn(a)
  {
    hide Total;
    if s.locked {
      i := SomeWeigh(s.pcs, TAKING);
      if max <= s.pcs[i].permits {
        a := UnlockMutex;
      } else if 0 < s.free {
        a := TakePermit;
      } else {
        TotalUpdate(s.pcs, Held(max), i, Outside);
        var others := s.pcs[i := Outside];
        TotalUpdate(s.pcs, TAKING, i, Outside);
        var k := SomeWeigh(others, Held(max));
        TotalAtLeast(others, TAKING, k);
        assert !others[k].Taking?;
        i, a := GivesBack(max, s, k);
      }
    } else if s.pcs[w] == WaitingToWrite {
      i, a := w, LockMutex;
    } else if s.pcs[w].Taking? {
      TotalAtLeast(s.pcs, TAKING, w);
      assert false;
    } else if s.pcs[w] == WaitingToRead {
      if 0 < s.free {
        i, a := w, LockRead;
      } else {
        var k := SomeWeigh(s.pcs, Held(max));
        TotalAtLeast(s.pcs, TAKING, k);
        i, a := GivesBack(max, s, k);
      }
    } else if s.pcs[w].Returning? && s.pcs[w].permits == 0 {
      i, a := w, EndReturn;
    } else {
      i, a := GivesBack(max, s, w);
    }
  }

  /** A reader, and a writer that has all permits, can give them back. */
  lemma GivesBack(max: nat, s: State, k: nat) returns (i: nat, a: Action)
    requires k < |s.pcs| && !s.pcs[k].Taking? && 0 < Held(max)(s.pcs[k])
    ensures i == k && Enabled(max, s, i, a) && (a == UnlockRead || a == BeginReturn || a == ReturnPermit)
  {
    i := k;
    a := match s.pcs[k] case Reading => UnlockRead case Writing => BeginReturn case _ => ReturnPermit;
  }
}
