/** The non-blocking request machine as a function from states and calls to states and outcomes.
    `local` is the answer of the endpoint lookup the call makes, `dev` and `len` are the driver's answer. */
module Requests {
  import opened McapiTypes
  import opened Handles
  import opened RequestPool
  import Registry

  /** The request table and the caller's memory cells that endpoint gets write handles to. */
  datatype State = State(db: Db, cells: map<u32, u32>)

  datatype Call =
    | GetI(local: bool, domain: u32, node: u32, port: u32, cell: u32, dev: Device)
    | SendI(local: bool, sendEp: u32, recvEp: u32, size: u32, dev: Device, payload: u32)
    | RecvI(local: bool, recvEp: u32, buffer: u32, size: u32, dev: Device, len: u32, fromNode: u16, fromPort: u16)
    | Test(handle: u32, sized: bool, local: bool, dev: Device, len: u32)
    | Wait(handle: u32, sized: bool, local: bool, dev: Device, len: u32)
  {
    /** Handles are decoded through a 16-bit index but used unreduced, so callers must stay below 65536. */
    predicate Admissible() {
      Test? || Wait? ==> handle < UINT16_RANGE
    }

    predicate Issues() {
      GetI? || SendI? || RecvI?
    }

    predicate Targets(h: nat) {
      (Test? || Wait?) && handle == h
    }
  }

  /** What a caller sees: return value (false for the void calls), status, and what was written to the
      request and size parameters. */
  datatype Outcome = Outcome(rc: bool, status: Status, handle: Option<nat>, size: Option<u32>)

  datatype Result = Result(state: State, out: Outcome)

  /** A valid handle names a slot below the table size whose valid flag is on. */
  predicate ValidHandle(db: Db, h: nat) {
    h % UINT16_RANGE < |db.requests| && db.requests[h % UINT16_RANGE].valid
  }

  /** The lookup test and wait make: the endpoint recorded in the request. */
  predicate FoundRequest(requests: seq<Request>, dom: Registry.Domain, h: nat)
    requires Registry.DomainInv(dom) && Registry.ScanBound(dom)
  {
    h < |requests| && Registry.FoundHandle(dom, requests[h].handle)
  }

  function Put(db: Db, id: nat, r: Request): Db
    requires id < |db.requests|
  {
    db.(requests := db.requests[id := r])
  }

  function SetUp(r: Request, localEp: u32, remoteEp: u32, buffer: u32, size: u32, payload: u32, kind: Kind): Request {
    r.(epEndpoint := remoteEp, handle := localEp, valid := true, size := size, cancelled := false,
       kind := kind, buffer := buffer, payload := payload)
  }

  function IssueStatus(dev: Device): Status {
    match dev
    case Ok => Success
    case Again => Pending
    case _ => ErrTransmission
  }

  function Refused(s: State): Result {
    Result(s, Outcome(false, ErrRequestLimit, None, None))
  }

  function Issued(s: State, db: Db, id: nat, status: Status): Result {
    Result(s.(db := db), Outcome(false, status, Some(id), None))
  }

  function StepGetI(s: State, c: Call): Result
    requires Shaped(s.db) && c.GetI?
  {
    var written := s.cells[c.cell := HandleOf(c.node, c.port)];
    if c.local then
      Result(s.(cells := written), Outcome(false, Success, None, None))
    else
      match Reserve(s.db)
      case (None, _) => Refused(s)
      case (Some(id), db) =>
        var bound := db.requests[id].(completed := c.dev.Ok?, epNode := c.node, epPort := c.port, epDomain := c.domain);
        var filled := Put(db, id, SetUp(bound, 0, 0, c.cell, 0, 0, GetEndpt));
        Issued(if c.dev.Ok? then s.(cells := written) else s, filled, id, IssueStatus(c.dev))
  }

  function StepSendI(s: State, c: Call): Result
    requires Shaped(s.db) && c.SendI?
  {
    match Reserve(s.db)
    case (None, _) => Refused(s)
    case (Some(id), db) =>
      if !c.local then
        Issued(s, db, id, ErrEndpInvalid)
      else
        var marked := db.requests[id].(completed := c.dev.Ok?);
        Issued(s, Put(db, id, SetUp(marked, c.sendEp, c.recvEp, 0, c.size, c.payload, Send)), id, IssueStatus(c.dev))
  }

  function StepRecvI(s: State, c: Call): Result
    requires Shaped(s.db) && c.RecvI?
  {
    match Reserve(s.db)
    case (None, _) => Refused(s)
    case (Some(id), db) =>
      if !c.local then
        Issued(s, db, id, ErrEndpInvalid)
      else
        var length := if c.dev.Ok? then c.len else c.size;
        var sender := Encode(Fields(0, c.fromNode, c.fromPort));
        var marked := db.requests[id].(completed := c.dev.Ok?);
        Issued(s, Put(db, id, SetUp(marked, c.recvEp, sender, c.buffer, length, 0, Recv)), id, IssueStatus(c.dev))
  }

  function StepTest(s: State, c: Call): Result
    requires Shaped(s.db) && c.Test? && c.Admissible()
  {
    if !c.sized then
      Result(s, Outcome(true, ErrParameter, None, None))
    else if !ValidHandle(s.db, c.handle) then
      Result(s, Outcome(true, ErrRequestInvalid, None, None))
    else
      var r := s.db.requests[c.handle];
      if r.cancelled then
        Result(s, Outcome(false, ErrRequestCancelled, None, None))
      else if r.completed then
        Result(s, Outcome(true, Success, None, Some(r.size)))
      else if !r.kind.GetEndpt? && !c.local then
        Result(s, Outcome(false, ErrNodeNotInit, None, None))
      else if !c.dev.Ok? then
        Result(s, Outcome(false, if c.dev.Again? then Pending else ErrGeneral, None, Some(c.len)))
      else if r.kind.GetEndpt? then
        Result(State(Put(s.db, c.handle, r.(completed := true)), s.cells[r.buffer := HandleOf(r.epNode, r.epPort)]),
               Outcome(true, Success, None, Some(c.len)))
      else
        Result(s.(db := Put(s.db, c.handle, r.(completed := true, size := c.len))),
               Outcome(true, Success, None, Some(c.len)))
  }

  function StepWait(s: State, c: Call): Result
    requires Shaped(s.db) && c.Wait? && c.Admissible()
  {
    if !c.sized then
      Result(s, Outcome(true, ErrParameter, None, None))
    else if !ValidHandle(s.db, c.handle) then
      Result(s, Outcome(false, ErrRequestInvalid, None, None))
    else
      var r := s.db.requests[c.handle];
      if !r.kind.GetEndpt? && !c.local then
        Result(s, Outcome(false, ErrNodeNotInit, None, None))
      else if r.completed then
        Result(s.(db := Remove(s.db, c.handle)), Outcome(true, Success, None, Some(r.size)))
      else if !c.dev.Ok? then
        Result(s.(db := Remove(s.db, c.handle)),
               Outcome(false, if c.dev.TimedOut? then Timeout else ErrGeneral, None, Some(c.len)))
      else if r.kind.GetEndpt? then
        Result(State(Remove(s.db, c.handle), s.cells[r.buffer := HandleOf(r.epNode, r.epPort)]),
               Outcome(true, Success, None, Some(c.len)))
      else
        Result(s.(db := Remove(Put(s.db, c.handle, r.(size := c.len)), c.handle)),
               Outcome(true, Success, None, Some(c.len)))
  }

  function Step(s: State, c: Call): (r: Result)
    requires Shaped(s.db) && c.Admissible()
    ensures Shaped(r.state.db) && r.state.db.max == s.db.max
  {
    match c
    case GetI(_, _, _, _, _, _) => StepGetI(s, c)
    case SendI(_, _, _, _, _, _) => StepSendI(s, c)
    case RecvI(_, _, _, _, _, _, _, _) => StepRecvI(s, c)
    case Test(_, _, _, _, _) => StepTest(s, c)
    case Wait(_, _, _, _, _) => StepWait(s, c)
  }

  /** The blocking get: the handle it writes, or nothing, with its status. */
  function BlockingGet(local: bool, node: u32, port: u32, dev: Device): (Option<u32>, Status) {
    if local || dev.Ok? then (Some(HandleOf(node, port)), Success)
    else (None, if dev.TimedOut? then Timeout else ErrGeneral)
  }

  /** The parts of a record that name the operation it stands for. */
  ghost predicate SameBinding(a: Request, b: Request) {
    a == b.(completed := a.completed, size := a.size)
  }

  /** A wait that gets past its checks: the only call that ever tries to release a slot. */
  predicate ReachesRelease(s: State, c: Call) {
    && c.Wait? && c.sized
    && c.handle < |s.db.requests| && s.db.requests[c.handle].valid
    && (s.db.requests[c.handle].kind.GetEndpt? || c.local)
  }

  /** The outcome shows whether a call asked for a slot, tried to release one, or did neither. */
  ghost predicate NeedsSlot(c: Call) {
    c.Issues() && !(c.GetI? && c.local)
  }

  lemma IssueFreeList(s: State, c: Call)
    requires Shaped(s.db) && c.Issues()
    ensures var r := Step(s, c);
            if NeedsSlot(c) then
              Reserve(s.db).0 == r.out.handle && SameFreeList(Reserve(s.db).1, r.state.db)
            else
              r.out.handle.None? && r.state.db == s.db
  {
  }

  lemma TestFreeList(s: State, c: Call)
    requires Shaped(s.db) && c.Test? && c.Admissible()
    ensures Step(s, c).out.handle.None? && SameFreeList(s.db, Step(s, c).state.db)
  {
  }

  lemma WaitFreeList(s: State, c: Call)
    requires Shaped(s.db) && c.Wait? && c.Admissible()
    ensures var r := Step(s, c);
            && r.out.handle.None?
            && (ReachesRelease(s, c) <==> r.out.status.Success? || r.out.status.Timeout? || r.out.status.ErrGeneral?)
            && if ReachesRelease(s, c) then SameFreeList(Remove(s.db, c.handle), r.state.db) else r.state == s
  {
  }

  /** An issuing call never reports a failed check of its caller's arguments other than the endpoint's. */
  lemma IssueStatuses(s: State, c: Call)
    requires Shaped(s.db) && c.Issues()
    ensures !Step(s, c).out.status.ErrMsgLimit? && !Step(s, c).out.status.ErrParameter?
  {
  }

  /** Every call does to the free list one of three things: what Reserve does, what Remove does, or nothing;
      the caller can tell which from the outcome. */
  lemma StepFreeList(s: State, c: Call)
    requires PoolInv(s.db) && c.Admissible()
    ensures var r := Step(s, c);
            && (r.out.handle.Some? <==> NeedsSlot(c) && !Full(s.db))
            && (ReachesRelease(s, c) <==>
                c.Wait? && (r.out.status.Success? || r.out.status.Timeout? || r.out.status.ErrGeneral?))
            && if r.out.handle.Some? then
                 Reserve(s.db).0 == r.out.handle && SameFreeList(Reserve(s.db).1, r.state.db)
               else if ReachesRelease(s, c) then
                 SameFreeList(Remove(s.db, c.handle), r.state.db)
               else
                 SameFreeList(s.db, r.state.db)
  {
    ReserveOutcome(s.db);
    if c.Issues() {
      IssueFreeList(s, c);
    } else if c.Test? {
      TestFreeList(s, c);
    } else {
      WaitFreeList(s, c);
    }
  }

  lemma StepKeepsInv(s: State, c: Call)
    requires PoolInv(s.db) && c.Admissible()
    ensures PoolInv(Step(s, c).state.db)
  {
    StepFreeList(s, c);
    ReserveOutcome(s.db);
    var r := Step(s, c);
    if r.out.handle.Some? {
      SameFreeListKeepsInv(Reserve(s.db).1, r.state.db);
    } else if ReachesRelease(s, c) {
      RemoveOutcome(s.db, c.handle);
      SameFreeListKeepsInv(Remove(s.db, c.handle), r.state.db);
    } else {
      SameFreeListKeepsInv(s.db, r.state.db);
    }
  }

  /** A new handle names a slot that was free, so it differs from every outstanding one. */
  lemma HandleIsFresh(s: State, c: Call)
    requires PoolInv(s.db) && c.Admissible() && Step(s, c).out.handle.Some?
    ensures var h := Step(s, c).out.handle.value;
            h < s.db.max && !s.db.requests[h].valid && Step(s, c).state.db.requests[h].valid
  {
    StepFreeList(s, c);
    ReserveOutcome(s.db);
  }

  /** The limit status is reported exactly when a slot is needed and the pool is full. */
  lemma LimitOnlyWhenFull(s: State, c: Call)
    requires PoolInv(s.db) && c.Admissible()
    ensures Step(s, c).out.status.ErrRequestLimit? <==> NeedsSlot(c) && Full(s.db)
    ensures Step(s, c).out.status.ErrRequestLimit? ==> Step(s, c).state == s
  {
    ReserveOutcome(s.db);
  }

  /** An issuing call touches one slot only, the one it hands out. */
  lemma IssueTouchesOnlyItsSlot(s: State, c: Call, h: nat)
    requires Shaped(s.db) && c.Issues() && h < s.db.max && Step(s, c).out.handle != Some(h)
    ensures Step(s, c).state.db.requests[h] == s.db.requests[h]
  {
  }

  /** No call changes a record it neither targets nor hands out: in particular none of an outstanding request
      it does not target. */
  lemma OthersUntouched(s: State, c: Call, h: nat)
    requires PoolInv(s.db) && c.Admissible()
    requires h < s.db.max && !c.Targets(h)
    requires s.db.requests[h].valid || Step(s, c).out.handle != Some(h)
    ensures Step(s, c).state.db.requests[h] == s.db.requests[h]
  {
    if c.Issues() {
      ReserveOutcome(s.db);
      IssueFreeList(s, c);
      IssueTouchesOnlyItsSlot(s, c, h);
    }
  }

  /** A call that leaves a request outstanding leaves the operation it stands for unchanged. */
  lemma BindingKept(s: State, c: Call, h: nat)
    requires PoolInv(s.db) && c.Admissible()
    requires h < s.db.max && s.db.requests[h].valid && Step(s, c).state.db.requests[h].valid
    ensures SameBinding(s.db.requests[h], Step(s, c).state.db.requests[h])
  {
    if !c.Targets(h) {
      OthersUntouched(s, c, h);
    }
  }

  /** A wait that passes its checks frees exactly its own slot, whatever the driver answers, unless the
      pool is full, in which case the slot stays.  The record is otherwise left for the next user: only the
      size changes, when this wait completes a send or receive. */
  lemma WaitFreesItsSlot(s: State, c: Call)
    requires PoolInv(s.db) && c.Admissible() && ReachesRelease(s, c)
    ensures var after := Step(s, c).state.db;
            && (after.requests[c.handle].valid <==> Full(s.db))
            && SameBinding(s.db.requests[c.handle].(valid := Full(s.db)), after.requests[c.handle])
            && after.requests[c.handle].completed == s.db.requests[c.handle].completed
            && after.requests[c.handle].size ==
               (if Step(s, c).out.status.Success? && !s.db.requests[c.handle].kind.GetEndpt?
                   && !s.db.requests[c.handle].completed then c.len else s.db.requests[c.handle].size)
            && after.count == (if Full(s.db) then s.db.count else s.db.count - 1)
            && forall h :: 0 <= h < s.db.max && h != c.handle ==> after.requests[h] == s.db.requests[h]
  {
    RemoveOutcome(s.db, c.handle);
  }

  /** On a slot that is not outstanding, test and wait report an invalid request and change nothing. */
  lemma ReleasedIsInvalid(s: State, c: Call)
    requires PoolInv(s.db) && c.Admissible() && (c.Test? || c.Wait?) && c.sized
    requires c.handle < s.db.max ==> !s.db.requests[c.handle].valid
    ensures Step(s, c).state == s && Step(s, c).out.status.ErrRequestInvalid?
  {
  }
}
