/** What holds over every run of issue, test and wait calls, from any state whose free list is sound. */
module RequestRuns {
  import opened McapiTypes
  import opened Handles
  import opened RequestPool
  import opened Requests

  ghost predicate AllAdmissible(calls: seq<Call>) {
    forall k :: 0 <= k < |calls| ==> calls[k].Admissible()
  }

  ghost function Exec(s: State, calls: seq<Call>): (r: State)
    requires Shaped(s.db) && AllAdmissible(calls)
    ensures Shaped(r.db) && r.db.max == s.db.max
    decreases |calls|
  {
    if calls == [] then s else Exec(Step(s, calls[0]).state, calls[1..])
  }

  ghost function Boot(size: nat): State
    requires 1 <= size <= UINT16_RANGE
  {
    State(InitialDb(size), map[])
  }

  lemma {:induction false} ExecKeepsInv(s: State, calls: seq<Call>)
    requires PoolInv(s.db) && AllAdmissible(calls)
    ensures PoolInv(Exec(s, calls).db)
    decreases |calls|
  {
    if calls == [] {
    } else {
      StepKeepsInv(s, calls[0]);
      ExecKeepsInv(Step(s, calls[0]).state, calls[1..]);
    }
  }

  ghost predicate NoneCancelled(db: Db) {
    forall r :: 0 <= r < |db.requests| ==> !db.requests[r].cancelled
  }

  lemma StepNoneCancelled(s: State, c: Call)
    requires Shaped(s.db) && c.Admissible() && NoneCancelled(s.db)
    ensures NoneCancelled(Step(s, c).state.db)
  {
  }

  lemma {:induction false} ExecNoneCancelled(s: State, calls: seq<Call>)
    requires Shaped(s.db) && AllAdmissible(calls) && NoneCancelled(s.db)
    ensures NoneCancelled(Exec(s, calls).db)
    decreases |calls|
  {
    if calls == [] {
    } else {
      StepNoneCancelled(s, calls[0]);
      ExecNoneCancelled(Step(s, calls[0]).state, calls[1..]);
    }
  }

  /** In every state reachable from initialisation, for any pool size, the free list is sound and no request
      is cancelled. */
  lemma ReachableFreeListSound(size: nat, calls: seq<Call>)
    requires 1 <= size <= UINT16_RANGE && AllAdmissible(calls)
    ensures var db := Exec(Boot(size), calls).db;
            PoolInv(db) && NoneCancelled(db) && db.max == size
  {
    InitialChain(size);
    ExecKeepsInv(Boot(size), calls);
    ExecNoneCancelled(Boot(size), calls);
  }

  // ---------- counting ----------

  /** A release that took effect: a wait that turned its slot's valid flag off. */
  ghost predicate Releases(s: State, c: Call)
    requires Shaped(s.db) && c.Admissible()
  {
    c.Wait? && c.handle < s.db.max && s.db.requests[c.handle].valid && !Step(s, c).state.db.requests[c.handle].valid
  }

  /** Calls that got past reservation: the ones that returned a handle, whatever their status. */
  ghost function Grants(s: State, calls: seq<Call>): nat
    requires Shaped(s.db) && AllAdmissible(calls)
    decreases |calls|
  {
    if calls == [] then 0
    else
      (if Step(s, calls[0]).out.handle.Some? then 1 else 0) + Grants(Step(s, calls[0]).state, calls[1..])
  }

  ghost function Returns(s: State, calls: seq<Call>): nat
    requires Shaped(s.db) && AllAdmissible(calls)
    decreases |calls|
  {
    if calls == [] then 0
    else
      (if Releases(s, calls[0]) then 1 else 0) + Returns(Step(s, calls[0]).state, calls[1..])
  }

  lemma StepCount(s: State, c: Call)
    requires PoolInv(s.db) && c.Admissible()
    ensures Releases(s, c) <==> ReachesRelease(s, c) && !Full(s.db)
    ensures Step(s, c).state.db.count == s.db.count
                                         + (if Step(s, c).out.handle.Some? then 1 else 0)
                                         - (if Releases(s, c) then 1 else 0)
  {
    StepFreeList(s, c);
    ReserveOutcome(s.db);
    if ReachesRelease(s, c) {
      RemoveOutcome(s.db, c.handle);
    }
  }

  /** Over any run the counter moves by the slots handed out minus the releases that took effect. */
  lemma {:induction false} CountBalance(s: State, calls: seq<Call>)
    requires PoolInv(s.db) && AllAdmissible(calls)
    ensures Exec(s, calls).db.count == s.db.count + Grants(s, calls) - Returns(s, calls)
    decreases |calls|
  {
    if calls == [] {
    } else {
      StepCount(s, calls[0]);
      StepKeepsInv(s, calls[0]);
      CountBalance(Step(s, calls[0]).state, calls[1..]);
    }
  }

  /** What a caller can see of a release: a wait that answered success, timeout or a general error. */
  predicate SeenReleasing(c: Call, out: Outcome) {
    c.Wait? && (out.status.Success? || out.status.Timeout? || out.status.ErrGeneral?)
  }

  /** A caller's own balance, handles received minus releases seen, stays below the pool size throughout. */
  ghost predicate StaysBelow(s: State, calls: seq<Call>, balance: int)
    requires Shaped(s.db) && AllAdmissible(calls)
    decreases |calls|
  {
    && balance < s.db.max
    && (calls != [] ==>
        var r := Step(s, calls[0]);
        var granted := if r.out.handle.Some? then 1 else 0;
        var returned := if SeenReleasing(calls[0], r.out) then 1 else 0;
        StaysBelow(r.state, calls[1..], balance + granted - returned))
  }

  /** No call of the run reports the limit, and every release a caller sees took effect. */
  ghost predicate NeverRefused(s: State, calls: seq<Call>)
    requires Shaped(s.db) && AllAdmissible(calls)
    decreases |calls|
  {
    calls != [] ==>
      var r := Step(s, calls[0]);
      && !r.out.status.ErrRequestLimit?
      && (SeenReleasing(calls[0], r.out) ==> Releases(s, calls[0]))
      && NeverRefused(r.state, calls[1..])
  }

  /** A caller whose own balance stays below N never gets the limit status and never has a release refused:
      counting only what the calls answer is enough, for the count is then the true one. */
  lemma {:induction false} BoundedRunNeverRefused(s: State, calls: seq<Call>)
    requires PoolInv(s.db) && AllAdmissible(calls) && StaysBelow(s, calls, s.db.count)
    ensures NeverRefused(s, calls)
    decreases |calls|
  {
    if calls == [] {
    } else {
      LimitOnlyWhenFull(s, calls[0]);
      StepFreeList(s, calls[0]);
      StepCount(s, calls[0]);
      StepKeepsInv(s, calls[0]);
      BoundedRunNeverRefused(Step(s, calls[0]).state, calls[1..]);
    }
  }

  /** Once every slot is taken nothing ever changes the free list or the counter again. */
  lemma {:induction false} FullIsAbsorbing(s: State, calls: seq<Call>)
    requires PoolInv(s.db) && Full(s.db) && AllAdmissible(calls)
    ensures SameFreeList(s.db, Exec(s, calls).db)
    ensures Grants(s, calls) == 0 && Returns(s, calls) == 0
    decreases |calls|
  {
    if calls == [] {
    } else {
      var next := Step(s, calls[0]).state;
      StepFreeList(s, calls[0]);
      StepCount(s, calls[0]);
      StepKeepsInv(s, calls[0]);
      if ReachesRelease(s, calls[0]) {
        RemoveOutcome(s.db, calls[0].handle);
      }
      FullIsAbsorbing(next, calls[1..]);
    }
  }

  /** Sends on an endpoint that cannot be found keep their slots: as many of them as there are free slots
      fill the pool, which by FullIsAbsorbing can then never be used again. */
  lemma {:induction false} LeakedSlotsExhaustThePool(s: State, calls: seq<Call>)
    requires PoolInv(s.db) && |calls| == s.db.max - s.db.count
    requires forall k :: 0 <= k < |calls| ==> calls[k].SendI? && !calls[k].local
    ensures AllAdmissible(calls) && Full(Exec(s, calls).db)
    decreases |calls|
  {
    if calls == [] {
    } else {
      StepCount(s, calls[0]);
      StepFreeList(s, calls[0]);
      StepKeepsInv(s, calls[0]);
      LeakedSlotsExhaustThePool(Step(s, calls[0]).state, calls[1..]);
    }
  }

  // ---------- the life of one request ----------

  /** The slot is in use now and after every call of the run, so it is one reservation throughout. */
  ghost predicate StaysOutstanding(s: State, calls: seq<Call>, h: nat)
    requires Shaped(s.db) && AllAdmissible(calls)
    decreases |calls|
  {
    && h < s.db.max && s.db.requests[h].valid
    && (calls != [] ==> StaysOutstanding(Step(s, calls[0]).state, calls[1..], h))
  }

  lemma {:induction false} OutstandingAtEnd(s: State, calls: seq<Call>, h: nat)
    requires PoolInv(s.db) && AllAdmissible(calls) && StaysOutstanding(s, calls, h)
    ensures Exec(s, calls).db.requests[h].valid && PoolInv(Exec(s, calls).db)
    ensures SameBinding(s.db.requests[h], Exec(s, calls).db.requests[h])
    decreases |calls|
  {
    if calls == [] {
    } else {
      StepKeepsInv(s, calls[0]);
      BindingKept(s, calls[0], h);
      OutstandingAtEnd(Step(s, calls[0]).state, calls[1..], h);
    }
  }

  /** Only a wait on it can end a reservation. */
  lemma {:induction false} UnwaitedStaysOutstanding(s: State, calls: seq<Call>, h: nat)
    requires PoolInv(s.db) && AllAdmissible(calls) && h < s.db.max && s.db.requests[h].valid
    requires forall k :: 0 <= k < |calls| ==> !(calls[k].Wait? && calls[k].handle == h)
    ensures StaysOutstanding(s, calls, h)
    decreases |calls|
  {
    if calls == [] {
    } else {
      StepKeepsInv(s, calls[0]);
      if calls[0].Targets(h) {
        TestFreeList(s, calls[0]);
      } else {
        OthersUntouched(s, calls[0], h);
      }
      UnwaitedStaysOutstanding(Step(s, calls[0]).state, calls[1..], h);
    }
  }

  /** A request left outstanding is never handed out a second time. */
  lemma OutstandingNeverReissued(s: State, calls: seq<Call>, h: nat, c: Call)
    requires PoolInv(s.db) && AllAdmissible(calls) && StaysOutstanding(s, calls, h) && c.Admissible()
    ensures Step(Exec(s, calls), c).out.handle != Some(h)
  {
    OutstandingAtEnd(s, calls, h);
    if Step(Exec(s, calls), c).out.handle.Some? {
      HandleIsFresh(Exec(s, calls), c);
    }
  }

  /** Whatever other requests do, an outstanding request nobody targets keeps its whole record. */
  lemma {:induction false} UntargetedUnchanged(s: State, calls: seq<Call>, h: nat)
    requires PoolInv(s.db) && AllAdmissible(calls) && h < s.db.max && s.db.requests[h].valid
    requires forall k :: 0 <= k < |calls| ==> !calls[k].Targets(h)
    ensures StaysOutstanding(s, calls, h)
    ensures Exec(s, calls).db.requests[h] == s.db.requests[h]
    decreases |calls|
  {
    if calls == [] {
    } else {
      StepKeepsInv(s, calls[0]);
      OthersUntouched(s, calls[0], h);
      UntargetedUnchanged(Step(s, calls[0]).state, calls[1..], h);
    }
  }

  /** A test on h that asked the driver, the request not being completed, and got success for an answer. */
  ghost predicate DriverSaysDone(s: State, c: Call, h: nat)
    requires Shaped(s.db) && c.Admissible()
  {
    && c.Test? && c.handle == h && c.dev.Ok? && Step(s, c).out.status.Success?
    && h < |s.db.requests| && !s.db.requests[h].completed
  }

  ghost predicate ReportedIn(s: State, calls: seq<Call>, h: nat)
    requires Shaped(s.db) && AllAdmissible(calls)
    decreases |calls|
  {
    calls != [] &&
    (DriverSaysDone(s, calls[0], h) || ReportedIn(Step(s, calls[0]).state, calls[1..], h))
  }

  lemma CompletedStep(s: State, c: Call, h: nat)
    requires PoolInv(s.db) && c.Admissible() && h < s.db.max && s.db.requests[h].valid
    requires !s.db.requests[h].cancelled && Step(s, c).state.db.requests[h].valid
    ensures Step(s, c).state.db.requests[h].completed <==> s.db.requests[h].completed || DriverSaysDone(s, c, h)
  {
    if !c.Targets(h) {
      OthersUntouched(s, c, h);
    }
  }

  lemma {:induction false} CompletedOverRun(s: State, calls: seq<Call>, h: nat)
    requires PoolInv(s.db) && AllAdmissible(calls) && StaysOutstanding(s, calls, h)
    requires !s.db.requests[h].cancelled
    ensures Exec(s, calls).db.requests[h].completed <==> s.db.requests[h].completed || ReportedIn(s, calls, h)
    ensures s.db.requests[h].completed ==> !ReportedIn(s, calls, h)
    decreases |calls|
  {
    if calls == [] {
    } else {
      var next := Step(s, calls[0]).state;
      assert StaysOutstanding(next, calls[1..], h);
      CompletedStep(s, calls[0], h);
      BindingKept(s, calls[0], h);
      StepKeepsInv(s, calls[0]);
      CompletedOverRun(next, calls[1..], h);
    }
  }

  /** An issue that bound its slot to an operation, as opposed to one that only kept the slot. */
  predicate Binds(status: Status) {
    status.Success? || status.Pending? || status.ErrTransmission?
  }

  lemma IssueBinds(s: State, c: Call)
    requires PoolInv(s.db) && c.Admissible() && Step(s, c).out.handle.Some? && Binds(Step(s, c).out.status)
    ensures var h := Step(s, c).out.handle.value;
            && h < s.db.max
            && var r := Step(s, c).state.db.requests[h];
               && r.valid && !r.cancelled && (r.completed <==> c.dev.Ok?)
               && r.kind == (if c.GetI? then GetEndpt else if c.SendI? then Send else Recv)
               && (c.GetI? ==>
                   && r.buffer == c.cell && r.size == 0 && r.handle == 0 && r.epEndpoint == 0 && r.payload == 0
                   && r.epNode == c.node && r.epPort == c.port && r.epDomain == c.domain)
               && (c.SendI? ==>
                   && r.handle == c.sendEp && r.epEndpoint == c.recvEp
                   && r.buffer == 0 && r.size == c.size && r.payload == c.payload)
               && (c.RecvI? ==>
                   && r.handle == c.recvEp && r.epEndpoint == Encode(Fields(0, c.fromNode, c.fromPort))
                   && r.buffer == c.buffer && r.payload == 0 && r.size == if c.dev.Ok? then c.len else c.size)
  {
    HandleIsFresh(s, c);
  }

  /** While a bound request is outstanding its completed flag says exactly whether the driver reported
      success for this very reservation, at issue or in a later test; nothing is inherited from an earlier
      user of the slot. */
  lemma CompletedMeansReported(s: State, c: Call, calls: seq<Call>)
    requires PoolInv(s.db) && c.Admissible() && AllAdmissible(calls)
    requires Step(s, c).out.handle.Some? && Binds(Step(s, c).out.status)
    requires StaysOutstanding(Step(s, c).state, calls, Step(s, c).out.handle.value)
    ensures var h := Step(s, c).out.handle.value;
            Exec(Step(s, c).state, calls).db.requests[h].completed <==>
            c.dev.Ok? || ReportedIn(Step(s, c).state, calls, h)
  {
    IssueBinds(s, c);
    StepKeepsInv(s, c);
    CompletedOverRun(Step(s, c).state, calls, Step(s, c).out.handle.value);
  }

  /** The law that completed means reported has one exception: an issue that ends with an invalid endpoint
      keeps the slot with the record of its previous user.  For any issue that got a slot, and however long it
      stays outstanding, the law holds exactly when the issue bound the slot or that user had not completed. */
  lemma UnboundInherits(s: State, c: Call, calls: seq<Call>)
    requires PoolInv(s.db) && NoneCancelled(s.db) && c.Admissible() && AllAdmissible(calls)
    requires Step(s, c).out.handle.Some?
    requires StaysOutstanding(Step(s, c).state, calls, Step(s, c).out.handle.value)
    ensures Step(s, c).out.handle.value < s.db.max
    ensures var h := Step(s, c).out.handle.value;
            var bound := Binds(Step(s, c).out.status);
            var reported := ReportedIn(Step(s, c).state, calls, h);
            var completed := Exec(Step(s, c).state, calls).db.requests[h].completed;
            (completed <==> (bound && c.dev.Ok?) || reported) <==> bound || !s.db.requests[h].completed
  {
    HandleIsFresh(s, c);
    if Binds(Step(s, c).out.status) {
      CompletedMeansReported(s, c, calls);
    } else {
      UnboundRecordKept(s, c);
      StepKeepsInv(s, c);
      CompletedOverRun(Step(s, c).state, calls, Step(s, c).out.handle.value);
    }
  }

  lemma UnboundRecordKept(s: State, c: Call)
    requires PoolInv(s.db) && c.Admissible() && Step(s, c).out.handle.Some? && !Binds(Step(s, c).out.status)
    ensures var h := Step(s, c).out.handle.value;
            h < s.db.max && Step(s, c).state.db.requests[h] == s.db.requests[h].(valid := true)
  {
    HandleIsFresh(s, c);
  }

  /** Such a slot is reached from initialisation for every pool size but 1, where the first user never gives
      its slot back: a send that completes and is waited for, then a send on a missing endpoint; a test on the
      second handle reports success with the first send's size. */
  lemma InheritedCompletionReachable(size: nat, bytes: u32)
    requires 2 <= size <= UINT16_RANGE
    ensures var send, missing := SendI(true, 0, 0, bytes, Ok, 0), SendI(false, 0, 0, 0, Failed, 0);
            var calls := [send, Wait(0, true, true, Failed, 0), missing];
            && AllAdmissible(calls)
            && Step(Exec(Boot(size), calls), Test(0, true, true, Failed, 0)).out ==
               Outcome(true, Success, None, Some(bytes))
  {
    var c0, c2 := SendI(true, 0, 0, bytes, Ok, 0), SendI(false, 0, 0, 0, Failed, 0);
    var c1 := Wait(0, true, true, Failed, 0);
    var s0 := Boot(size);
    var s1 := Step(s0, c0).state;
    assert s1.db.requests[0].completed && s1.db.requests[0].size == bytes && s1.db.count == 1;
    var s2 := Step(s1, c1).state;
    assert s2.db.head == 0 && s2.db.requests[0] == s1.db.requests[0].(valid := false);
    var s3 := Step(s2, c2).state;
    assert s3.db.requests[0] == s1.db.requests[0];
    var calls := [c0, c1, c2];
    assert calls[1..] == [c1, c2] && [c1, c2][1..] == [c2] && [c2][1..] == [];
    assert Exec(s0, calls) == Exec(s1, [c1, c2]) == Exec(s2, [c2]) == Exec(s3, []) == s3;
  }

  /** A completed request is frozen: nothing that leaves it outstanding changes any field of its record. */
  lemma {:induction false} CompletedFrozen(s: State, calls: seq<Call>, h: nat)
    requires PoolInv(s.db) && AllAdmissible(calls) && StaysOutstanding(s, calls, h)
    requires s.db.requests[h].completed
    ensures Exec(s, calls).db.requests[h] == s.db.requests[h]
    decreases |calls|
  {
    if calls == [] {
    } else {
      var next := Step(s, calls[0]).state;
      assert StaysOutstanding(next, calls[1..], h);
      if !calls[0].Targets(h) {
        OthersUntouched(s, calls[0], h);
      }
      assert next.db.requests[h] == s.db.requests[h];
      StepKeepsInv(s, calls[0]);
      CompletedFrozen(next, calls[1..], h);
    }
  }

  lemma TestSuccessCompletes(s: State, c: Call)
    requires Shaped(s.db) && c.Admissible() && c.Test? && c.sized && Step(s, c).out.status.Success?
    ensures c.handle < s.db.max
    ensures var r := Step(s, c).state.db.requests[c.handle];
            && r.valid && r.completed && !r.cancelled && r.kind == s.db.requests[c.handle].kind
            && (!r.kind.GetEndpt? ==> Step(s, c).out.size == Some(r.size))
  {
  }

  lemma CompletedAnswers(s: State, c: Call)
    requires Shaped(s.db) && c.Admissible() && (c.Test? || c.Wait?) && c.sized && ValidHandle(s.db, c.handle)
    requires s.db.requests[c.handle].completed && !s.db.requests[c.handle].cancelled
    requires c.Wait? && !s.db.requests[c.handle].kind.GetEndpt? ==> c.local
    ensures Step(s, c).out == Outcome(true, Success, None, Some(s.db.requests[c.handle].size))
    ensures c.Test? ==> Step(s, c).state == s
  {
  }

  lemma CompletedWaitAnswers(s: State, w: Call)
    requires Shaped(s.db) && w.Admissible() && w.Wait? && w.sized && ValidHandle(s.db, w.handle)
    requires s.db.requests[w.handle].completed && !s.db.requests[w.handle].kind.GetEndpt?
    ensures Step(s, w).out ==
            if w.local then Outcome(true, Success, None, Some(s.db.requests[w.handle].size))
            else Outcome(false, ErrNodeNotInit, None, None)
  {
  }

  /** A wait on a completed send or receive answers with its size, unless its endpoint cannot be found. */
  lemma CompletedWait(s: State, calls: seq<Call>, h: nat, w: Call)
    requires PoolInv(s.db) && AllAdmissible(calls) && w.Admissible() && StaysOutstanding(s, calls, h)
    requires s.db.requests[h].completed && !s.db.requests[h].kind.GetEndpt?
    requires w.Wait? && w.sized && w.handle == h
    ensures Step(Exec(s, calls), w).out ==
            if w.local then Outcome(true, Success, None, Some(s.db.requests[h].size))
            else Outcome(false, ErrNodeNotInit, None, None)
  {
    CompletedFrozen(s, calls, h);
    CompletedWaitAnswers(Exec(s, calls), w);
  }

  /** However long a completed request has been outstanding, it answers with the size it completed with. */
  lemma CompletedAnswersLater(s: State, calls: seq<Call>, h: nat, later: Call)
    requires PoolInv(s.db) && AllAdmissible(calls) && later.Admissible() && StaysOutstanding(s, calls, h)
    requires s.db.requests[h].completed && !s.db.requests[h].cancelled && !s.db.requests[h].kind.GetEndpt?
    requires later.Targets(h) && later.sized && (later.Wait? ==> later.local)
    ensures var end := Exec(s, calls);
            && Step(end, later).out == Outcome(true, Success, None, Some(s.db.requests[h].size))
            && (later.Test? ==> Step(end, later).state == end)
  {
    CompletedFrozen(s, calls, h);
    CompletedAnswers(Exec(s, calls), later);
  }

  /** Once a test has returned success with a size on a send or receive, every later test returns the same,
      whatever the driver would say and whatever happened in between, and changes nothing; and while the
      local endpoint can be found the closing wait returns the same as well. */
  lemma SuccessIsStable(s: State, first: Call, calls: seq<Call>, later: Call)
    requires PoolInv(s.db) && first.Admissible() && AllAdmissible(calls) && later.Admissible()
    requires first.Test? && first.sized && Step(s, first).out.status.Success?
    requires StaysOutstanding(Step(s, first).state, calls, first.handle)
    requires s.db.requests[first.handle].kind.Send? || s.db.requests[first.handle].kind.Recv?
    requires later.Targets(first.handle) && later.sized && (later.Wait? ==> later.local)
    ensures var end := Exec(Step(s, first).state, calls);
            && Step(end, later).out == Outcome(true, Success, None, Step(s, first).out.size)
            && (later.Test? ==> Step(end, later).state == end)
  {
    TestSuccessCompletes(s, first);
    StepKeepsInv(s, first);
    CompletedAnswersLater(Step(s, first).state, calls, first.handle, later);
  }

  /** A send or receive that succeeded at issue reports ever after the bytes sent or received. */
  lemma IssueSuccessIsStable(s: State, c: Call, calls: seq<Call>, later: Call)
    requires PoolInv(s.db) && c.Admissible() && (c.SendI? || c.RecvI?) && Step(s, c).out.status.Success?
    requires Step(s, c).out.handle.Some? && later.Targets(Step(s, c).out.handle.value)
    requires AllAdmissible(calls) && later.Admissible() && later.sized && (later.Wait? ==> later.local)
    requires StaysOutstanding(Step(s, c).state, calls, Step(s, c).out.handle.value)
    ensures Step(Exec(Step(s, c).state, calls), later).out ==
            Outcome(true, Success, None, Some(if c.SendI? then c.size else c.len))
  {
    IssueBinds(s, c);
    StepKeepsInv(s, c);
    CompletedAnswersLater(Step(s, c).state, calls, Step(s, c).out.handle.value, later);
  }

  /** Nothing that leaves an endpoint get outstanding changes its stored size. */
  lemma {:induction false} GetSizeStored(s: State, calls: seq<Call>, h: nat)
    requires PoolInv(s.db) && AllAdmissible(calls) && StaysOutstanding(s, calls, h)
    requires s.db.requests[h].kind.GetEndpt?
    ensures Exec(s, calls).db.requests[h].size == s.db.requests[h].size
    decreases |calls|
  {
    if calls == [] {
    } else {
      var next := Step(s, calls[0]).state;
      assert StaysOutstanding(next, calls[1..], h);
      if !calls[0].Targets(h) {
        OthersUntouched(s, calls[0], h);
      }
      BindingKept(s, calls[0], h);
      StepKeepsInv(s, calls[0]);
      GetSizeStored(next, calls[1..], h);
    }
  }

  lemma FirstGetTest(s: State, first: Call)
    requires PoolInv(s.db) && first.Admissible() && first.Test? && first.sized && ValidHandle(s.db, first.handle)
    requires var r := s.db.requests[first.handle]; r.kind.GetEndpt? && !r.cancelled && r.size == 0
    requires Step(s, first).out.status.Success?
    ensures var r := s.db.requests[first.handle];
            && Step(s, first).out.size == Some(if r.completed then 0 else first.len)
            && Step(s, first).state.db.requests[first.handle] == r.(completed := true)
  {
  }

  lemma LaterGetTest(s: State, calls: seq<Call>, h: nat, later: Call)
    requires PoolInv(s.db) && AllAdmissible(calls) && later.Admissible() && StaysOutstanding(s, calls, h)
    requires var r := s.db.requests[h]; r.kind.GetEndpt? && r.completed && !r.cancelled && r.size == 0
    requires later.Test? && later.sized && later.handle == h
    ensures Step(Exec(s, calls), later).out == Outcome(true, Success, None, Some(0))
  {
    CompletedFrozen(s, calls, h);
    CompletedAnswers(Exec(s, calls), later);
  }

  /** An issued endpoint get does not keep the size it reports: however many calls lie between, the first
      successful test and any later one agree on the size exactly when the get had completed at issue or the
      driver's length happened to be 0; the later ones all report 0. */
  lemma GetSizeNotKept(s: State, c: Call, before: seq<Call>, first: Call, after: seq<Call>, later: Call)
    requires PoolInv(s.db) && c.Admissible() && c.GetI? && Step(s, c).out.handle.Some?
    requires first.Admissible() && first.Test? && first.sized && first.handle == Step(s, c).out.handle.value
    requires later.Admissible() && later.Test? && later.sized && later.handle == first.handle
    requires AllAdmissible(before) && StaysOutstanding(Step(s, c).state, before, first.handle)
    requires !ReportedIn(Step(s, c).state, before, first.handle)
    requires Step(Exec(Step(s, c).state, before), first).out.status.Success?
    requires AllAdmissible(after)
    requires StaysOutstanding(Step(Exec(Step(s, c).state, before), first).state, after, first.handle)
    ensures var one := Step(Exec(Step(s, c).state, before), first);
            var two := Step(Exec(one.state, after), later);
            && two.out == Outcome(true, Success, None, Some(0))
            && (two.out.size == one.out.size <==> c.dev.Ok? || first.len == 0)
  {
    var issued := Step(s, c).state;
    IssueBinds(s, c);
    StepKeepsInv(s, c);
    OutstandingAtEnd(issued, before, first.handle);
    GetSizeStored(issued, before, first.handle);
    CompletedOverRun(issued, before, first.handle);
    var polled := Exec(issued, before);
    FirstGetTest(polled, first);
    StepKeepsInv(polled, first);
    LaterGetTest(Step(polled, first).state, after, first.handle, later);
  }

  /** A timeout is destructive: the wait that timed out can be repeated only if the pool was full, for
      otherwise the handle has become invalid. */
  lemma TimedOutWaitCannotBeRepeated(s: State, c: Call, again: Call)
    requires PoolInv(s.db) && c.Admissible() && again.Admissible()
    requires c.Wait? && Step(s, c).out.status.Timeout? && again.Wait? && again.sized && again.handle == c.handle
    ensures Step(Step(s, c).state, again).out.status.ErrRequestInvalid? <==> !Full(s.db)
  {
    WaitFreeList(s, c);
    WaitFreesItsSlot(s, c);
  }

  /** Both cases are reached from initialisation: a get that stays pending, a wait that times out, and a
      second wait, which is refused for every pool size but 1. */
  lemma TimedOutWaitReachable(size: nat, node: u32, port: u32)
    requires 1 <= size <= UINT16_RANGE
    ensures var get, wait := GetI(false, 0, node, port, 0, Again), Wait(0, true, true, TimedOut, 0);
            var pending := Step(Boot(size), get);
            var timedOut := Step(pending.state, wait);
            && pending.out == Outcome(false, Pending, Some(0), None)
            && timedOut.out.status.Timeout?
            && (Step(timedOut.state, wait).out.status.ErrRequestInvalid? <==> size > 1)
            && (Step(timedOut.state, wait).out.status.Timeout? <==> size == 1)
  {
    var get := GetI(false, 0, node, port, 0, Again);
    var pending := Step(Boot(size), get).state;
    assert pending.db.requests[0].valid && !pending.db.requests[0].completed && pending.db.count == 1;
  }

  /** After its slot was freed, and until the slot is handed out again, a handle is invalid: test and wait
      say so and change nothing. */
  lemma {:induction false} FreedStaysInvalid(s: State, calls: seq<Call>, h: nat, c: Call)
    requires PoolInv(s.db) && AllAdmissible(calls) && c.Admissible()
    requires h < s.db.max && !s.db.requests[h].valid && NotGranted(s, calls, h)
    requires c.Targets(h) && c.sized
    ensures Step(Exec(s, calls), c).out.status.ErrRequestInvalid?
    ensures Step(Exec(s, calls), c).state == Exec(s, calls)
    decreases |calls|
  {
    if calls == [] {
      ReleasedIsInvalid(s, c);
    } else {
      var next := Step(s, calls[0]).state;
      StaysFree(s, calls[0], h);
      StepKeepsInv(s, calls[0]);
      FreedStaysInvalid(next, calls[1..], h, c);
    }
  }

  ghost predicate NotGranted(s: State, calls: seq<Call>, h: nat)
    requires Shaped(s.db) && AllAdmissible(calls)
    decreases |calls|
  {
    calls != [] ==>
      Step(s, calls[0]).out.handle != Some(h) && NotGranted(Step(s, calls[0]).state, calls[1..], h)
  }

  lemma StaysFree(s: State, c: Call, h: nat)
    requires PoolInv(s.db) && c.Admissible() && h < s.db.max && !s.db.requests[h].valid
    requires Step(s, c).out.handle != Some(h)
    ensures !Step(s, c).state.db.requests[h].valid
  {
    StepFreeList(s, c);
    if c.Issues() {
      IssueTouchesOnlyItsSlot(s, c, h);
    }
  }

  lemma GetCompletes(s: State, c: Call, r: Request)
    requires Shaped(s.db) && c.Admissible() && (c.Test? || c.Wait?) && c.sized && c.dev.Ok?
    requires ValidHandle(s.db, c.handle) && SameBinding(r, s.db.requests[c.handle])
    requires r.kind.GetEndpt? && !r.cancelled && !s.db.requests[c.handle].completed
    ensures Step(s, c).out.status.Success?
    ensures Step(s, c).state.cells == s.cells[r.buffer := HandleOf(r.epNode, r.epPort)]
  {
  }

  lemma GetCompletesLater(s: State, calls: seq<Call>, h: nat, last: Call)
    requires PoolInv(s.db) && AllAdmissible(calls) && last.Admissible() && StaysOutstanding(s, calls, h)
    requires s.db.requests[h].kind.GetEndpt? && !s.db.requests[h].cancelled
    requires last.Targets(h) && last.sized && last.dev.Ok? && !Exec(s, calls).db.requests[h].completed
    ensures var r := s.db.requests[h];
            var end := Exec(s, calls);
            && Step(end, last).out.status.Success?
            && Step(end, last).state.cells == end.cells[r.buffer := HandleOf(r.epNode, r.epPort)]
  {
    OutstandingAtEnd(s, calls, h);
    GetCompletes(Exec(s, calls), last, s.db.requests[h]);
  }

  /** A non-blocking endpoint get, however many calls later its test or wait completes it, writes to the
      cell it was issued for the handle the blocking get returns. */
  lemma GetWritesBlockingHandle(s: State, c: Call, calls: seq<Call>, last: Call, local: bool)
    requires PoolInv(s.db) && c.Admissible() && c.GetI? && Step(s, c).out.handle.Some?
    requires AllAdmissible(calls) && StaysOutstanding(Step(s, c).state, calls, Step(s, c).out.handle.value)
    requires last.Admissible() && last.Targets(Step(s, c).out.handle.value) && last.sized && last.dev.Ok?
    requires !Exec(Step(s, c).state, calls).db.requests[last.handle].completed
    ensures var r := Step(Exec(Step(s, c).state, calls), last);
            && r.out.status.Success? && c.cell in r.state.cells
            && BlockingGet(local, c.node, c.port, Ok) == (Some(r.state.cells[c.cell]), Success)
  {
    IssueBinds(s, c);
    StepKeepsInv(s, c);
    GetCompletesLater(Step(s, c).state, calls, last.handle, last);
  }

  /** The same when the get completes at issue, locally or at the driver. */
  lemma GetAtIssueWritesBlockingHandle(s: State, c: Call, local: bool)
    requires PoolInv(s.db) && c.Admissible() && c.GetI? && Step(s, c).out.status.Success?
    ensures c.cell in Step(s, c).state.cells
    ensures BlockingGet(local, c.node, c.port, Ok) == (Some(Step(s, c).state.cells[c.cell]), Success)
  {
  }
}
