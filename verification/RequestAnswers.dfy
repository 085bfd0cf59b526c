/** What callers are told, and what each call changes, stated from the driver's answers alone: for every
    issue, and for every test and wait at any later point of the reservation it made. */
module RequestAnswers {
  import opened McapiTypes
  import opened Handles
  import opened RequestPool
  import opened Requests
  import opened RequestRuns

  // ---------- issue ----------

  /** The answer of an issuing call.  A get whose endpoint is found locally succeeds without a slot; any other
      call is refused by a full pool; a send or receive whose endpoint is not found keeps its slot; and
      otherwise the driver's answer decides. */
  lemma IssueAnswers(s: State, c: Call)
    requires PoolInv(s.db) && c.Issues()
    ensures var out := Step(s, c).out;
            && !out.rc && out.size.None?
            && (c.GetI? && c.local ==> out.status.Success? && out.handle.None?)
            && (NeedsSlot(c) && Full(s.db) ==> out.status.ErrRequestLimit? && out.handle.None?)
            && (NeedsSlot(c) && !Full(s.db) ==>
                && out.handle.Some?
                && (!c.GetI? && !c.local ==> out.status.ErrEndpInvalid?)
                && (c.GetI? || c.local ==>
                    && (out.status.Success? <==> c.dev.Ok?)
                    && (out.status.Pending? <==> c.dev.Again?)
                    && (out.status.ErrTransmission? <==> c.dev.TimedOut? || c.dev.Failed?)))
  {
    ReserveOutcome(s.db);
  }

  // ---------- test and wait at any later point ----------

  /** Whether a slot counts as completed right after the issue that took it: for an issue that bound it, by
      the driver's answer, and otherwise by what its previous user left. */
  ghost predicate CompletedAtIssue(s: State, c: Call)
    requires PoolInv(s.db) && c.Admissible() && Step(s, c).out.handle.Some?
  {
    HandleIsFresh(s, c);
    if Binds(Step(s, c).out.status) then c.dev.Ok? else s.db.requests[Step(s, c).out.handle.value].completed
  }

  /** Whether the slot stands for an endpoint get, which needs no local endpoint. */
  ghost predicate IsGet(s: State, c: Call)
    requires PoolInv(s.db) && c.Admissible() && Step(s, c).out.handle.Some?
  {
    HandleIsFresh(s, c);
    if Binds(Step(s, c).out.status) then c.GetI? else s.db.requests[Step(s, c).out.handle.value].kind.GetEndpt?
  }

  /** Any outstanding slot, at any later point: it is completed exactly when it was so at issue or the driver
      reported it since, and it never turns into or from an endpoint get. */
  lemma Standing(s: State, c: Call, calls: seq<Call>)
    requires PoolInv(s.db) && NoneCancelled(s.db) && c.Admissible() && AllAdmissible(calls)
    requires Step(s, c).out.handle.Some?
    requires StaysOutstanding(Step(s, c).state, calls, Step(s, c).out.handle.value)
    ensures var h := Step(s, c).out.handle.value;
            && h < s.db.max
            && var r := Exec(Step(s, c).state, calls).db.requests[h];
               && r.valid && !r.cancelled
               && (r.completed <==> CompletedAtIssue(s, c) || ReportedIn(Step(s, c).state, calls, h))
               && (r.kind.GetEndpt? <==> IsGet(s, c))
  {
    var h := Step(s, c).out.handle.value;
    HandleIsFresh(s, c);
    if Binds(Step(s, c).out.status) {
      IssueBinds(s, c);
    } else {
      UnboundRecordKept(s, c);
    }
    StepKeepsInv(s, c);
    OutstandingAtEnd(Step(s, c).state, calls, h);
    CompletedOverRun(Step(s, c).state, calls, h);
  }

  lemma TestAnswer(s: State, t: Call)
    requires Shaped(s.db) && t.Admissible() && t.Test? && t.sized && ValidHandle(s.db, t.handle)
    requires !s.db.requests[t.handle].cancelled
    ensures var r := s.db.requests[t.handle];
            var asked := !r.completed && (r.kind.GetEndpt? || t.local);
            var (out, after) := (Step(s, t).out, Step(s, t).state);
            && out.handle.None? && (out.rc <==> out.status.Success?)
            && (out.status.Success? <==> r.completed || (asked && t.dev.Ok?))
            && (out.status.Pending? <==> asked && t.dev.Again?)
            && (out.status.ErrGeneral? <==> asked && (t.dev.TimedOut? || t.dev.Failed?))
            && (out.status.ErrNodeNotInit? <==> !r.completed && !asked)
            && out.size == (if r.completed then Some(r.size) else if asked then Some(t.len) else None)
            && (asked && t.dev.Ok? ==> after.db.requests[t.handle] ==
                                       r.(completed := true, size := if r.kind.GetEndpt? then r.size else t.len))
            && (!(asked && t.dev.Ok?) ==> after == s)
  {
  }

  lemma WaitAnswer(s: State, w: Call)
    requires Shaped(s.db) && w.Admissible() && w.Wait? && w.sized && ValidHandle(s.db, w.handle)
    ensures var r := s.db.requests[w.handle];
            var passed := r.kind.GetEndpt? || w.local;
            var out := Step(s, w).out;
            && out.handle.None? && (out.rc <==> out.status.Success?)
            && (out.status.Success? <==> passed && (r.completed || w.dev.Ok?))
            && (out.status.Timeout? <==> passed && !r.completed && w.dev.TimedOut?)
            && (out.status.ErrGeneral? <==> passed && !r.completed && (w.dev.Again? || w.dev.Failed?))
            && (out.status.ErrNodeNotInit? <==> !passed)
            && out.size == (if !passed then None else if r.completed then Some(r.size) else Some(w.len))
            && (!passed ==> Step(s, w).state == s)
  {
  }

  /** The answer of a test at any later point of a reservation.  It is success, with return value true, exactly
      when the driver reported success at issue, in the run, or, the endpoint being found or not needed, to
      this test.  It is pending exactly when the driver is asked and says EAGAIN, a general error for any other
      refusal, and an uninitialised node when the driver cannot be asked.  A test that does not complete the
      request changes nothing. */
  lemma TestAnswers(s: State, c: Call, calls: seq<Call>, t: Call)
    requires PoolInv(s.db) && NoneCancelled(s.db) && c.Admissible() && AllAdmissible(calls) && t.Admissible()
    requires Step(s, c).out.handle.Some?
    requires StaysOutstanding(Step(s, c).state, calls, Step(s, c).out.handle.value)
    requires t.Test? && t.sized && t.handle == Step(s, c).out.handle.value
    ensures var end := Exec(Step(s, c).state, calls);
            var done := CompletedAtIssue(s, c) || ReportedIn(Step(s, c).state, calls, t.handle);
            var asked := !done && (IsGet(s, c) || t.local);
            var out := Step(end, t).out;
            && (out.rc <==> out.status.Success?)
            && (out.status.Success? <==> done || (asked && t.dev.Ok?))
            && (out.status.Pending? <==> asked && t.dev.Again?)
            && (out.status.ErrGeneral? <==> asked && (t.dev.TimedOut? || t.dev.Failed?))
            && (out.status.ErrNodeNotInit? <==> !done && !asked)
            && (asked ==> out.size == Some(t.len))
            && (!(asked && t.dev.Ok?) ==> Step(end, t).state == end)
  {
    Standing(s, c, calls);
    TestAnswer(Exec(Step(s, c).state, calls), t);
  }

  /** The answer of a wait at any later point of a reservation.  Past the lookup it is success, with return
      value true, exactly when the driver reported success at issue, in the run or to this wait; a timeout
      exactly when it did not and the driver timed out; and a general error exactly otherwise.  Without the
      endpoint it is an uninitialised node, even for a completed request, and nothing changes. */
  lemma WaitAnswers(s: State, c: Call, calls: seq<Call>, w: Call)
    requires PoolInv(s.db) && NoneCancelled(s.db) && c.Admissible() && AllAdmissible(calls) && w.Admissible()
    requires Step(s, c).out.handle.Some?
    requires StaysOutstanding(Step(s, c).state, calls, Step(s, c).out.handle.value)
    requires w.Wait? && w.sized && w.handle == Step(s, c).out.handle.value
    ensures var end := Exec(Step(s, c).state, calls);
            var done := CompletedAtIssue(s, c) || ReportedIn(Step(s, c).state, calls, w.handle);
            var passed := IsGet(s, c) || w.local;
            var out := Step(end, w).out;
            && (out.rc <==> out.status.Success?)
            && (out.status.Success? <==> passed && (done || w.dev.Ok?))
            && (out.status.Timeout? <==> passed && !done && w.dev.TimedOut?)
            && (out.status.ErrGeneral? <==> passed && !done && (w.dev.Again? || w.dev.Failed?))
            && (out.status.ErrNodeNotInit? <==> !passed)
            && (passed && !done ==> out.size == Some(w.len))
            && (!passed ==> Step(end, w).state == end)
  {
    Standing(s, c, calls);
    WaitAnswer(Exec(Step(s, c).state, calls), w);
  }

  /** The checks in front: a missing size parameter comes before the handle, a free slot is invalid, and the
      two calls return different values for it; a cancelled request is refused by test alone. */
  lemma RefusedArguments(s: State, c: Call)
    requires Shaped(s.db) && c.Admissible() && (c.Test? || c.Wait?)
    ensures var r := Step(s, c);
            var used := c.handle < s.db.max && s.db.requests[c.handle].valid;
            && (!c.sized ==> r == Result(s, Outcome(true, ErrParameter, None, None)))
            && (c.sized && !used ==> r == Result(s, Outcome(c.Test?, ErrRequestInvalid, None, None)))
            && (r.out.status.ErrRequestCancelled? <==> c.sized && used && c.Test? && s.db.requests[c.handle].cancelled)
            && (r.out.status.ErrRequestCancelled? ==> !r.out.rc && r.out.size.None? && r.state == s)
  {
  }

  // ---------- the callers' memory ----------

  /** The only calls that write to a caller's cell: a get that answers success at issue writes its own, and a
      test or wait that completes a get writes the one the get was issued for. */
  lemma CellsWritten(s: State, c: Call)
    requires Shaped(s.db) && c.Admissible()
    ensures var (out, after) := (Step(s, c).out, Step(s, c).state.cells);
            if c.Issues() then
              after == if c.GetI? && out.status.Success? then s.cells[c.cell := HandleOf(c.node, c.port)] else s.cells
            else if out.status.Success? && c.handle < s.db.max && s.db.requests[c.handle].kind.GetEndpt?
                    && !s.db.requests[c.handle].completed then
              var r := s.db.requests[c.handle];
              after == s.cells[r.buffer := HandleOf(r.epNode, r.epPort)]
            else after == s.cells
  {
  }
}
