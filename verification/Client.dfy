/** The message test client: send and receive in modes 0 to 2, and any number of rounds of both.  The
    driver's answers are a script; a poll loop that outlives its script is reported as still polling. */
module Client {
  import opened McapiTypes
  import opened RequestPool
  import opened Requests
  import opened Registry
  import opened Api
  import opened Database
  import opened PublicApi

  datatype Answer = Answer(dev: Device, len: u32)

  /** The driver's side of one operation: message counts, then the answers to issue, polls and wait. */
  datatype Script = Script(available: seq<Option<u32>>, issue: Answer, polls: seq<Answer>, wait: Answer,
                           fromNode: u16, fromPort: u16)

  datatype Progress = Done | Aborted | StillPolling

  /** The test client accepts a status that is neither an error nor a timeout. */
  predicate Accepted(status: Status) {
    status.Success? || status.Pending?
  }

  /** What one operation does to the pool, when two slots were free before it: it leaves the free list as it
      was, unless it ends still holding the slot it took. */
  ghost predicate Effect(before: Db, after: Db, held: bool) {
    before.count + 1 < before.max ==>
      if held then after.count == before.count + 1 && after.max == before.max else SameFreeList(before, after)
  }

  /** The slot holds a request that was issued to an endpoint that can be found. */
  ghost predicate Active(db: Database, h: nat)
    requires db.Scannable()
    reads db, db.requests, db.nextIndex, db.domains
  {
    && h < db.requests.Length && db.requests[h].valid && !db.requests[h].cancelled
    && !db.requests[h].kind.GetEndpt? && FoundRequest(db.requests[..], db.domains[0], h)
  }

  /** An active request that is completed: what it will answer is the size in its record. */
  ghost predicate Finished(db: Database, h: nat)
    requires db.Scannable()
    reads db, db.requests, db.nextIndex, db.domains
  {
    Active(db, h) && db.requests[h].completed
  }

  ghost predicate Unfinished(db: Database, h: nat)
    requires db.Scannable()
    reads db, db.requests, db.nextIndex, db.domains
  {
    Active(db, h) && !db.requests[h].completed
  }

  /** A test answered success with this size, and the finished request will answer it again. */
  ghost predicate Reports(db: Database, h: nat, status: Status, size: Option<u32>, bytes: u32)
    requires db.Scannable()
    reads db, db.requests, db.nextIndex, db.domains
  {
    Finished(db, h) && db.requests[h].size == bytes && status.Success? && size == Some(bytes)
  }

  method TestOnce(db: Database, h: u32, a: Answer) returns (status: Status, size: Option<u32>)
    requires db.Scannable() && h < UINT16_RANGE && ValidHandle(db.Table().db, h)
    modifies db, db.requests
    ensures db.Scannable() && SameFreeList(old(db.Table().db), db.Table().db)
    ensures old(Finished(db, h)) ==> Reports(db, h, status, size, old(db.requests[h].size))
    ensures old(Unfinished(db, h)) && a.dev.Ok? ==> Reports(db, h, status, size, a.len)
    ensures old(Unfinished(db, h)) && !a.dev.Ok? ==>
              Unfinished(db, h) && status == if a.dev.Again? then Pending else ErrGeneral
  {
    ghost var s := db.Table();
    ghost var c := RequestCall(Snapshot(db), TestRequest(h, true, a.dev, a.len));
    TestFreeList(s, c);
    var rc;
    rc, status, size := McapiTest(db, h, true, a.dev, a.len);
  }

  method WaitOnce(db: Database, h: u32, a: Answer) returns (status: Status, size: Option<u32>)
    requires db.Scannable() && h < UINT16_RANGE && ValidHandle(db.Table().db, h)
    modifies db, db.requests, db.nextIndex
    ensures db.Scannable()
    ensures if status.ErrNodeNotInit? then db.Table() == old(db.Table())
            else SameFreeList(Remove(old(db.Table().db), h), db.Table().db)
    ensures old(Finished(db, h)) ==> status.Success? && size == Some(old(db.requests[h].size))
    ensures old(Unfinished(db, h)) && a.dev.Ok? ==> status.Success? && size == Some(a.len)
    ensures old(Unfinished(db, h)) && !a.dev.Ok? ==> status == if a.dev.TimedOut? then Timeout else ErrGeneral
  {
    ghost var c := RequestCall(Snapshot(db), WaitRequest(h, true, a.dev, a.len));
    WaitFreeList(db.Table(), c);
    var rc;
    rc, status, size := McapiWait(db, h, true, a.dev, a.len);
  }

  /** The length with which the driver ends a poll: the first answer that is not EAGAIN, if it is a success. */
  ghost function Delivered(polls: seq<Answer>): Option<u32> {
    if polls == [] then None
    else if polls[0].dev.Ok? then Some(polls[0].len)
    else if polls[0].dev.Again? then Delivered(polls[1..])
    else None
  }

  /** The size a poll loop will report: the recorded one of a finished request, or what the driver delivers. */
  ghost function Promised(db: Database, h: nat, polls: seq<Answer>): Option<u32>
    requires db.Scannable()
    reads db, db.requests, db.nextIndex, db.domains
  {
    if Finished(db, h) && polls != [] then Some(db.requests[h].size)
    else if Unfinished(db, h) then Delivered(polls)
    else None
  }

  /** Test until the status is not pending.  A finished request is reported at once with its size; one the
      driver finishes while it is polled, with the length the driver delivered; and no other as a success. */
  method Poll(db: Database, h: u32, polls: seq<Answer>) returns (status: Status, size: Option<u32>)
    requires db.Scannable() && h < UINT16_RANGE && ValidHandle(db.Table().db, h)
    modifies db, db.requests
    ensures db.Scannable() && SameFreeList(old(db.Table().db), db.Table().db)
    ensures old(Promised(db, h, polls)).Some? ==> Reports(db, h, status, size, old(Promised(db, h, polls)).value)
    ensures old(Active(db, h) && Promised(db, h, polls).None?) ==> !status.Success?
  {
    ghost var promise, lost := Promised(db, h, polls), Active(db, h) && Promised(db, h, polls).None?;
    status, size := Pending, None;
    var i := 0;
    assert polls[i..] == polls;
    while status.Pending? && i < |polls|
      invariant 0 <= i <= |polls|
      invariant db.Scannable() && SameFreeList(old(db.Table().db), db.Table().db)
      invariant promise.Some? && status.Pending? ==> Promised(db, h, polls[i..]) == promise
      invariant promise.Some? && !status.Pending? ==> Reports(db, h, status, size, promise.value)
      invariant lost ==> !status.Success?
      invariant lost && status.Pending? ==> Active(db, h) && Promised(db, h, polls[i..]).None?
      decreases |polls| - i
    {
      assert polls[i..][1..] == polls[i + 1..];
      status, size := TestOnce(db, h, polls[i]);
      i := i + 1;
    }
  }

  /** The slot was given back: the free list is what Remove makes of the one on entry. */
  ghost predicate GivenBack(before: Db, after: Db, h: nat) {
    Shaped(before) && h < before.max && SameFreeList(Remove(before, h), after)
  }

  /** The driver brings a request left pending to an end within the limit: in a poll, or in the wait. */
  ghost predicate Concludes(script: Script, polling: bool, limit: u32) {
    if polling then Delivered(script.polls).Some? && Delivered(script.polls).value <= limit
    else script.wait.dev.Ok? && script.wait.len <= limit
  }

  /** What follows an issue that returned a handle: a refused status ends the operation holding the slot;
      otherwise poll if asked to, and wait.  A request finished at issue goes through, and so does one the
      driver finishes later; no other does. */
  method Finish(db: Database, issue: Status, h: u32, polling: bool, limit: u32, script: Script)
    returns (progress: Progress, held: bool)
    requires db.Scannable() && h < UINT16_RANGE && ValidHandle(db.Table().db, h)
    modifies db, db.requests, db.nextIndex
    ensures db.Scannable()
    ensures if held then SameFreeList(old(db.Table().db), db.Table().db)
            else GivenBack(old(db.Table().db), db.Table().db, h)
    ensures progress.Done? ==> !held
    ensures !Accepted(issue) ==> !progress.Done?
    ensures Accepted(issue) && old(Finished(db, h)) ==>
              (progress.Done? <==> old(db.requests[h].size) <= limit && (polling ==> script.polls != []))
    ensures Accepted(issue) && old(Unfinished(db, h)) ==> (progress.Done? <==> Concludes(script, polling, limit))
  {
    if !Accepted(issue) {
      return Aborted, true;
    }
    ghost var entry := db.Table().db;
    var status, size;
    if polling {
      status, size := Poll(db, h, script.polls);
      if status.Pending? {
        return StillPolling, true;
      }
      if !Accepted(status) || (size.Some? && size.value > limit) {
        return Aborted, true;
      }
    }
    RemoveOfSame(entry, db.Table().db, h);
    status, size := WaitOnce(db, h, script.wait);
    held := status.ErrNodeNotInit?;
    progress := if Accepted(status) && (size.Some? ==> size.value <= limit) then Done else Aborted;
  }

  /** What the issuing calls tell the client about the pool. */
  ghost predicate Granted(before: Db, after: Db, request: Option<nat>) {
    PoolInv(before) &&
    if request.None? then SameFreeList(before, after)
    else Reserve(before).0 == request && SameFreeList(Reserve(before).1, after)
  }

  method IssueSend(db: Database, sendEp: u32, recvEp: u32, size: u32, dev: Device)
    returns (status: Status, request: Option<nat>)
    requires db.Scannable()
    modifies db, db.requests
    ensures db.Scannable() && Granted(old(db.Table().db), db.Table().db, request)
    ensures old(Full(db.Table().db) || !FoundHandle(db.domains[0], sendEp)) ==> !Accepted(status)
    ensures old(!Full(db.Table().db) && FoundHandle(db.domains[0], sendEp)) ==>
              && status == IssueStatus(dev) && request.Some? && Active(db, request.value)
              && db.requests[request.value].completed == dev.Ok? && db.requests[request.value].size == size
  {
    ghost var before := db.Table();
    ghost var c := RequestCall(Snapshot(db), ApiCall.MsgSendI(sendEp, recvEp, size, dev, 0));
    IssueFreeList(before, c);
    ReserveOutcome(before.db);
    status, request := McapiMsgSendI(db, sendEp, recvEp, size, dev, 0);
  }

  method IssueReceive(db: Database, recvEp: u32, buffer: u32, size: u32, script: Script)
    returns (status: Status, request: Option<nat>)
    requires db.Scannable()
    modifies db, db.requests
    ensures db.Scannable() && Granted(old(db.Table().db), db.Table().db, request)
    ensures old(Full(db.Table().db) || !FoundHandle(db.domains[0], recvEp)) ==> !Accepted(status)
    ensures old(!Full(db.Table().db) && FoundHandle(db.domains[0], recvEp)) ==>
              && status == IssueStatus(script.issue.dev) && request.Some? && Active(db, request.value)
              && db.requests[request.value].completed == script.issue.dev.Ok?
              && db.requests[request.value].size == if script.issue.dev.Ok? then script.issue.len else size
  {
    ghost var before := db.Table();
    ghost var c := RequestCall(Snapshot(db), ApiCall.MsgRecvI(recvEp, buffer, size, script.issue.dev,
                                                              script.issue.len, script.fromNode, script.fromPort));
    IssueFreeList(before, c);
    ReserveOutcome(before.db);
    status, request := McapiMsgRecvI(db, recvEp, buffer, size, true, script.issue.dev, script.issue.len,
                                     script.fromNode, script.fromPort);
  }

  /** The driver takes or delivers a message of at most `limit` bytes: at issue, or after EAGAIN in the polls
      or the wait that follow. */
  ghost predicate Succeeds(script: Script, received: bool, polling: bool, limit: u32) {
    || (script.issue.dev.Ok? && (received ==> script.issue.len <= limit) && (polling ==> script.polls != []))
    || (script.issue.dev.Again? && Concludes(script, polling, limit))
  }

  lemma OperationEffect(before: Db, issued: Db, after: Db, request: Option<nat>, held: bool)
    requires Granted(before, issued, request) && Shaped(issued)
    requires request.None? ==> after == issued && !held
    requires request.Some? ==> if held then SameFreeList(issued, after) else GivenBack(issued, after, request.value)
    ensures Effect(before, after, held)
  {
    ReserveOutcome(before);
    if request.Some? && !held {
      ReserveThenRemove(before);
      RemoveOfSame(Reserve(before).1, issued, request.value);
    }
  }

  /** One send; modes 0 and 1 poll before waiting.  It succeeds exactly when there is a slot, the endpoint is
      found, and the driver takes the message, at once or later. */
  method Send(db: Database, sendEp: u32, recvEp: u32, size: u32, mode: nat, script: Script)
    returns (progress: Progress, held: bool)
    requires db.Scannable() && mode < 3
    modifies db, db.requests, db.nextIndex
    ensures db.Scannable()
    ensures Effect(old(db.Table().db), db.Table().db, held)
    ensures progress.Done? ==> !held
    ensures progress.Done? <==>
            old(!Full(db.Table().db) && FoundHandle(db.domains[0], sendEp)) && Succeeds(script, false, mode != 2, size)
  {
    ghost var before := db.Table().db;
    var status, request := IssueSend(db, sendEp, recvEp, size, script.issue.dev);
    ghost var issued := db.Table().db;
    if request.None? {
      OperationEffect(before, issued, issued, request, false);
      return Aborted, false;
    }
    ReserveOutcome(before);
    progress, held := Finish(db, status, request.value, mode != 2, size, script);
    OperationEffect(before, issued, db.Table().db, request, held);
  }

  /** The driver announces a message after any number of counts that are zero or missing. */
  ghost predicate Announced(available: seq<Option<u32>>) {
    exists k :: 0 <= k < |available| && available[k].Some? && available[k].value > 0
  }

  /** Ask for the number of messages until there is one: on an endpoint that is not valid, for ever. */
  method AwaitMessage(db: Database, recvEp: u32, available: seq<Option<u32>>) returns (arrived: bool)
    requires db.Scannable()
    ensures arrived <==> ValidEndpoint(db.domains[..], recvEp) && Announced(available)
  {
    var count: u32, status := 0, Pending;
    var i := 0;
    while count == 0 && i < |available|
      invariant 0 <= i <= |available|
      invariant count > 0 ==> ValidEndpoint(db.domains[..], recvEp) && Announced(available)
      invariant count == 0 && ValidEndpoint(db.domains[..], recvEp) ==>
                  forall k :: 0 <= k < i ==> available[k].None? || available[k].value == 0
      decreases |available| - i
    {
      count, status := McapiMsgAvailable(db, recvEp, available[i]);
      i := i + 1;
    }
    arrived := count > 0;
  }

  /** A receive from its issue on. */
  method ReceiveNow(db: Database, recvEp: u32, buffer: u32, size: u32, polling: bool, script: Script)
    returns (progress: Progress, held: bool)
    requires db.Scannable()
    modifies db, db.requests, db.nextIndex
    ensures db.Scannable()
    ensures Effect(old(db.Table().db), db.Table().db, held)
    ensures progress.Done? ==> !held
    ensures progress.Done? <==>
            old(!Full(db.Table().db) && FoundHandle(db.domains[0], recvEp)) && Succeeds(script, true, polling, size)
  {
    ghost var before := db.Table().db;
    var status, request := IssueReceive(db, recvEp, buffer, size, script);
    ghost var issued := db.Table().db;
    if request.None? {
      OperationEffect(before, issued, issued, request, false);
      return Aborted, false;
    }
    ReserveOutcome(before);
    progress, held := Finish(db, status, request.value, polling, size, script);
    OperationEffect(before, issued, db.Table().db, request, held);
  }

  /** One receive: mode 0 first loops until a message is available, and so never issues on an endpoint that is
      not valid; only mode 1 polls before waiting.  It succeeds exactly when there is a slot, the endpoint is
      found, and the driver announces, where asked, and delivers a message that fits. */
  method Receive(db: Database, recvEp: u32, buffer: u32, size: u32, mode: nat, script: Script)
    returns (progress: Progress, held: bool)
    requires db.Scannable() && mode < 3
    modifies db, db.requests, db.nextIndex
    ensures db.Scannable()
    ensures Effect(old(db.Table().db), db.Table().db, held)
    ensures progress.Done? ==> !held
    ensures mode == 0 && !(ValidEndpoint(db.domains[..], recvEp) && Announced(script.available)) ==>
              progress.StillPolling? && !held && db.Table() == old(db.Table())
    ensures progress.Done? <==>
            && old(!Full(db.Table().db) && FoundHandle(db.domains[0], recvEp))
            && (mode == 0 ==> ValidEndpoint(db.domains[..], recvEp) && Announced(script.available))
            && Succeeds(script, true, mode == 1, size)
  {
    if mode == 0 {
      var arrived := AwaitMessage(db, recvEp, script.available);
      if !arrived {
        return StillPolling, false;
      }
    }
    progress, held := ReceiveNow(db, recvEp, buffer, size, mode == 1, script);
  }

  /** The driver takes the message of round k, and announces and delivers one, each at once or after any
      number of EAGAINs, none longer than asked for. */
  ghost predicate RoundSucceeds(scripts: seq<(Script, Script)>, size: u32, k: nat)
    requires k < |scripts|
  {
    && Succeeds(scripts[k].0, false, k % 3 != 2, size)
    && Succeeds(scripts[k].1, true, k % 3 == 1, size)
    && (k % 3 == 0 ==> Announced(scripts[k].1.available))
  }

  ghost predicate Cooperates(scripts: seq<(Script, Script)>, size: u32) {
    forall k :: 0 <= k < |scripts| ==> RoundSucceeds(scripts, size, k)
  }

  /** How many of the first n rounds the driver lets succeed. */
  ghost function Successes(scripts: seq<(Script, Script)>, size: u32, n: nat): nat
    requires n <= |scripts|
  {
    if n == 0 then 0 else Successes(scripts, size, n - 1) + if RoundSucceeds(scripts, size, n - 1) then 1 else 0
  }

  /** What several operations do to the pool: the counter grows by exactly the slots they ended holding, and if
      there were none the free list is as it began. */
  ghost predicate Growth(before: Db, after: Db, held: nat) {
    && (before.count + held + 1 < before.max ==> after.count == before.count + held && after.max == before.max)
    && (held == 0 && before.count + 1 < before.max ==> SameFreeList(before, after))
  }

  /** Round k: one send and one receive in mode k modulo 3; the client ignores a failed operation. */
  method RunRound(db: Database, localEp: u32, remoteEp: u32, buffer: u32, size: u32,
                  scripts: seq<(Script, Script)>, k: nat)
    returns (held: nat, passed: bool, stuck: bool)
    requires db.Scannable() && k < |scripts|
    modifies db, db.requests, db.nextIndex
    ensures db.Scannable() && Growth(old(db.Table().db), db.Table().db, held)
    ensures passed ==> RoundSucceeds(scripts, size, k)
    ensures old(db.Table().db.count + 1 < db.Table().db.max && ValidEndpoint(db.domains[..], localEp)) ==>
              RoundSucceeds(scripts, size, k) ==> held == 0 && passed && !stuck
  {
    var sent, kept := Send(db, localEp, remoteEp, size, k % 3, scripts[k].0);
    held := if kept then 1 else 0;
    if sent.StillPolling? {
      return held, false, true;
    }
    var received;
    received, kept := Receive(db, localEp, buffer, size, k % 3, scripts[k].1);
    held := held + if kept then 1 else 0;
    passed, stuck := sent.Done? && received.Done?, received.StillPolling?;
  }

  /** Rounds of one send and one receive in modes 0, 1, 2, 0, ...  The counter grows by exactly the operations
      that ended holding their slot, and if there was none the free list is exactly as it began, however many
      rounds there were.  No more rounds pass than the driver lets succeed, and a cooperating driver carries
      every round to its end, both operations done. */
  method TransRounds(db: Database, localEp: u32, remoteEp: u32, buffer: u32, size: u32, scripts: seq<(Script, Script)>)
    returns (held: nat, passed: nat, rounds: nat)
    requires db.Scannable()
    modifies db, db.requests, db.nextIndex
    ensures db.Scannable() && Growth(old(db.Table().db), db.Table().db, held)
    ensures rounds <= |scripts| && passed <= Successes(scripts, size, rounds)
    ensures old(db.Table().db.count + 1 < db.Table().db.max && ValidEndpoint(db.domains[..], localEp)) ==>
              Cooperates(scripts, size) ==> held == 0 && passed == rounds == |scripts|
  {
    ghost var before := db.Table().db;
    held, passed, rounds := 0, 0, 0;
    while rounds < |scripts|
      invariant rounds <= |scripts| && passed <= Successes(scripts, size, rounds)
      invariant db.Scannable() && Growth(before, db.Table().db, held)
      invariant before.count + 1 < before.max && ValidEndpoint(db.domains[..], localEp) ==>
                  Cooperates(scripts, size) ==> held == 0 && passed == rounds
    {
      var kept, ok, stuck := RunRound(db, localEp, remoteEp, buffer, size, scripts, rounds);
      held := held + kept;
      if stuck {
        return;
      }
      passed := passed + if ok then 1 else 0;
      rounds := rounds + 1;
    }
  }
}
