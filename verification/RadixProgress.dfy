/** Interleaved insertions make progress: a thread's own turns finish it, and all of them can always finish. */
module RadixProgress {
  import opened Strings
  import opened RadixTree
  import opened RadixThreads

  function Turns(schedule: seq<nat>, i: nat): nat {
    if schedule == [] then 0
    else Turns(schedule[..|schedule| - 1], i) + if schedule[|schedule| - 1] == i then 1 else 0
  }

  lemma {:induction false} TurnsLowerRank(sys: System, schedule: seq<nat>, i: nat)
    requires SysOK(sys) && ValidSchedule(schedule, |sys.threads|) && i < |sys.threads|
    ensures Rank(Run(sys, schedule).threads[i]) == 0 ||
            Rank(Run(sys, schedule).threads[i]) + Turns(schedule, i) <= Rank(sys.threads[i])
    decreases |schedule|
  {
    hide Turn, WF;
    if schedule != [] {
      var before, last := schedule[..|schedule| - 1], schedule[|schedule| - 1];
      TurnsLowerRank(sys, before, i);
      TurnLowersRank(Run(sys, before), last, i);
    }
  }

  /** No thread can be starved by the splits of others: its own turns alone finish it. */
  lemma OwnTurnsFinish(sys: System, schedule: seq<nat>, i: nat)
    requires SysOK(sys) && ValidSchedule(schedule, |sys.threads|) && i < |sys.threads|
    requires Turns(schedule, i) >= |sys.threads[i].text| + 3
    ensures Run(sys, schedule).threads[i].phase == Done
  {
    hide Run, WF, Turns;
    TurnsLowerRank(sys, schedule, i);
    assert Rank(sys.threads[i]) <= |sys.threads[i].text| + 3;
  }

  function Repeat(i: nat, k: nat): seq<nat> { seq(k, _ => i) }

  /** One thread after the other, each until it must have finished. */
  function OneByOne(threads: seq<Thread>, n: nat): seq<nat>
    requires n <= |threads|
  {
    if n == 0 then [] else OneByOne(threads, n - 1) + Repeat(n - 1, |threads[n - 1].text| + 3)
  }

  lemma {:induction false} TurnsConcat(a: seq<nat>, b: seq<nat>, i: nat)
    ensures Turns(a + b, i) == Turns(a, i) + Turns(b, i)
  {
    if b == [] {
      assert a + b == a;
    } else {
      assert (a + b)[..|a + b| - 1] == a + b[..|b| - 1];
      TurnsConcat(a, b[..|b| - 1], i);
    }
  }

  lemma {:induction false} TurnsRepeat(i: nat, k: nat)
    ensures Turns(Repeat(i, k), i) == k
  {
    if k > 0 {
      assert Repeat(i, k)[..k - 1] == Repeat(i, k - 1);
      TurnsRepeat(i, k - 1);
    }
  }

  lemma {:induction false} OneByOneTurns(threads: seq<Thread>, n: nat, i: nat)
    requires i < n <= |threads|
    ensures Turns(OneByOne(threads, n), i) >= |threads[i].text| + 3
  {
    var before, own := OneByOne(threads, n - 1), Repeat(n - 1, |threads[n - 1].text| + 3);
    TurnsConcat(before, own, i);
    if i == n - 1 { TurnsRepeat(i, |threads[i].text| + 3); } else { OneByOneTurns(threads, n - 1, i); }
  }

  lemma {:induction false} OneByOneValid(threads: seq<Thread>, n: nat)
    requires n <= |threads|
    ensures ValidSchedule(OneByOne(threads, n), |threads|)
  {
    if n > 0 { OneByOneValid(threads, n - 1); }
  }

  lemma {:induction false} RunConcat(sys: System, a: seq<nat>, b: seq<nat>)
    requires SysOK(sys) && ValidSchedule(a, |sys.threads|) && ValidSchedule(b, |sys.threads|)
    ensures ValidSchedule(a + b, |sys.threads|) && Run(sys, a + b) == Run(Run(sys, a), b)
    decreases |b|
  {
    hide SysOK, Turn;
    if b == [] {
      assert a + b == a;
    } else {
      assert (a + b)[..|a + b| - 1] == a + b[..|b| - 1];
      RunConcat(sys, a, b[..|b| - 1]);
    }
  }

  /** Inserts never block each other: whatever has happened so far, some continuation finishes them all. */
  lemma AlwaysCompletable(sys: System, schedule: seq<nat>) returns (rest: seq<nat>)
    requires SysOK(sys) && ValidSchedule(schedule, |sys.threads|)
    ensures ValidSchedule(schedule + rest, |sys.threads|) && AllDone(Run(sys, schedule + rest))
  {
    hide SysOK, Run, Turns;
    var mid := Run(sys, schedule);
    rest := OneByOne(mid.threads, |mid.threads|);
    OneByOneValid(mid.threads, |mid.threads|);
    RunConcat(sys, schedule, rest);
    forall i | 0 <= i < |mid.threads| ensures Run(mid, rest).threads[i].phase == Done {
      OneByOneTurns(mid.threads, |mid.threads|, i);
      OwnTurnsFinish(mid, rest, i);
    }
  }
}
