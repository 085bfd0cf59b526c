/** The client discipline: issue, poll any number of times, wait.  A completed round gives back exactly
    the slot it took, so any number of rounds leaves the free list as it began. */
module Rounds {
  import opened McapiTypes
  import opened RequestPool
  import opened Requests
  import opened RequestRuns

  datatype Round = Round(issue: Call, polls: seq<Call>, wait: Call)

  ghost predicate WellFormed(r: Round) {
    && NeedsSlot(r.issue) && r.wait.Wait? && r.wait.Admissible()
    && forall k :: 0 <= k < |r.polls| ==> r.polls[k].Test? && r.polls[k].Admissible()
  }

  ghost function AfterPolls(s: State, r: Round): (t: State)
    requires Shaped(s.db) && WellFormed(r)
    ensures Shaped(t.db) && t.db.max == s.db.max
  {
    Exec(Step(s, r.issue).state, r.polls)
  }

  ghost function RunRound(s: State, r: Round): (t: State)
    requires Shaped(s.db) && WellFormed(r)
    ensures Shaped(t.db) && t.db.max == s.db.max
  {
    Step(AfterPolls(s, r), r.wait).state
  }

  /** The issue got a slot, and the wait on that slot gets past its checks. */
  ghost predicate Completes(s: State, r: Round)
    requires Shaped(s.db)
  {
    && WellFormed(r)
    && Step(s, r.issue).out.handle == Some(r.wait.handle)
    && ReachesRelease(AfterPolls(s, r), r.wait)
  }

  lemma {:induction false} PollsKeepFreeList(s: State, polls: seq<Call>)
    requires PoolInv(s.db) && forall k :: 0 <= k < |polls| ==> polls[k].Test? && polls[k].Admissible()
    ensures PoolInv(Exec(s, polls).db) && SameFreeList(s.db, Exec(s, polls).db)
    decreases |polls|
  {
    if polls == [] {
    } else {
      TestFreeList(s, polls[0]);
      StepKeepsInv(s, polls[0]);
      PollsKeepFreeList(Step(s, polls[0]).state, polls[1..]);
    }
  }

  /** A completed round restores head, count, every link and every flag exactly when at least two slots
      were free at its start; with one free slot the slot it took is lost. */
  lemma RoundRestores(s: State, r: Round)
    requires PoolInv(s.db) && Completes(s, r)
    ensures PoolInv(RunRound(s, r).db)
    ensures SameFreeList(s.db, RunRound(s, r).db) <==> s.db.count + 1 < s.db.max
  {
    var issued := Step(s, r.issue).state;
    StepFreeList(s, r.issue);
    StepKeepsInv(s, r.issue);
    PollsKeepFreeList(issued, r.polls);
    var polled := AfterPolls(s, r);
    WaitFreeList(polled, r.wait);
    StepKeepsInv(polled, r.wait);
    ReserveThenRemove(s.db);
    RemoveOfSame(Reserve(s.db).1, polled.db, r.wait.handle);
  }

  ghost predicate AllComplete(s: State, rounds: seq<Round>)
    requires Shaped(s.db)
    decreases |rounds|
  {
    rounds != [] ==> Completes(s, rounds[0]) && AllComplete(RunRound(s, rounds[0]), rounds[1..])
  }

  ghost function RunRounds(s: State, rounds: seq<Round>): (t: State)
    requires Shaped(s.db) && AllComplete(s, rounds)
    ensures Shaped(t.db) && t.db.max == s.db.max
    decreases |rounds|
  {
    if rounds == [] then s else RunRounds(RunRound(s, rounds[0]), rounds[1..])
  }

  /** Any number of completed rounds leaves the free list exactly as it began. */
  lemma {:induction false} RoundsRestore(s: State, rounds: seq<Round>)
    requires PoolInv(s.db) && s.db.count + 1 < s.db.max && AllComplete(s, rounds)
    ensures PoolInv(RunRounds(s, rounds).db) && SameFreeList(s.db, RunRounds(s, rounds).db)
    decreases |rounds|
  {
    if rounds == [] {
    } else {
      RoundRestores(s, rounds[0]);
      RoundsRestore(RunRound(s, rounds[0]), rounds[1..]);
    }
  }
}
