/** The public calls: the checks in front of the transport, and which transport steps they let through. */
module PublicApi {
  import opened McapiTypes
  import opened Handles
  import opened RequestPool
  import opened Requests
  import opened Registry
  import opened RegistryRuns
  import opened Api
  import opened Database

  ghost function Snapshot(db: Database): System
    reads db, db.requests, db.nextIndex, db.domains
  {
    System(db.Table(), db.domains[..])
  }

  /** Initialisation refuses the node already in the first slot, and otherwise rebuilds the free list and
      registers the node, reporting success even when the registration was refused.  The pool is sound
      afterwards exactly when no request was outstanding. */
  method McapiInitialize(db: Database, id: u32, num: u32) returns (status: Status)
    requires Shaped(db.Table().db) && RegistryInv(db.domains[..])
    modifies db, db.nextIndex, db.domains
    ensures RegistryInv(db.domains[..])
    ensures old(db.domains[0].nodes[0].valid && db.domains[0].nodes[0].num == num) ==>
              status.ErrNodeInitialized? && Snapshot(db) == old(Snapshot(db))
    ensures !old(db.domains[0].nodes[0].valid && db.domains[0].nodes[0].num == num) ==>
              && status.Success?
              && db.Table() == old(db.Table()).(db := Reinitialised(old(db.Table().db)))
              && db.domains[..] == AddNode(old(db.domains[..]), id, num).1
              && (db.Valid() <==> old(forall r :: 0 <= r < db.requests.Length ==> !db.requests[r].valid))
  {
    if db.domains[0].nodes[0].valid && db.domains[0].nodes[0].num == num {
      return ErrNodeInitialized;
    }
    ReinitialisedSound(db.Table().db);
    db.InitRequestIndexedArray();
    var added := db.AddNodeToDb(id, num);
    return Success;
  }

  method McapiEndpointCreate(db: Database, port: u32, idx: nat) returns (status: Status, endpoint: Option<u32>)
    requires db.Valid() && Enabled(db.domains[..], Created(port, idx))
    modifies db.domains
    ensures db.Valid() && Snapshot(db) == ApiStep(old(Snapshot(db)), EndpointCreate(port, idx))
    ensures old(db.domains[0].valid) ==>
              && db.domains[0].nodes[0].endpoints[idx].valid && db.domains[0].nodes[0].endpoints[idx].port == port
              && !db.domains[0].nodes[0].endpoints[idx].anonymous
    ensures if old(db.domains[0].valid)
            then status.Success? && endpoint == Some(HandleOf(old(db.domains[0].nodes[0].num), port))
            else status.ErrNodeNotInit? && endpoint.None?
  {
    if !db.domains[0].valid {
      return ErrNodeNotInit, None;
    }
    var e := db.EndpointCreate(port, false, idx);
    return Success, Some(e);
  }

  method McapiEndpointDelete(db: Database, endpoint: u32) returns (status: Status)
    requires db.Scannable()
    modifies db.domains
    ensures db.Scannable() && Snapshot(db) == ApiStep(old(Snapshot(db)), EndpointDelete(endpoint))
    ensures status == if old(ValidEndpoint(db.domains[..], endpoint)) then Success else ErrEndpInvalid
  {
    var valid := db.CheckEndpoint(endpoint);
    if !valid {
      return ErrEndpInvalid;
    }
    ValidEndpointHasNode(db.domains[..], endpoint);
    var open := db.ChannelIsOpen(endpoint);
    if open {
      return ErrChanOpen;
    }
    db.EndpointDelete(endpoint);
    return Success;
  }

  method McapiEndpointGetI(db: Database, domain: u32, node: u32, port: u32, cell: u32, dev: Device)
    returns (status: Status, request: Option<nat>)
    requires db.Scannable()
    modifies db, db.requests
    ensures db.Scannable()
    ensures var c := ApiCall.EndpointGetI(domain, node, port, cell, dev);
            && Snapshot(db) == ApiStep(old(Snapshot(db)), c)
            && Outcome(false, status, request, None) ==
               Step(old(db.Table()), RequestCall(old(Snapshot(db)), c)).out
  {
    status, request := db.EndpointGetI(domain, node, port, cell, dev);
  }

  /** The checks only set a status that the transport then overwrites: an invalid endpoint or an oversized
      message goes through to the transport, and the size limit is never reported. */
  method McapiMsgSendI(db: Database, sendEp: u32, recvEp: u32, size: u32, dev: Device, payload: u32)
    returns (status: Status, request: Option<nat>)
    requires db.Scannable()
    modifies db, db.requests
    ensures db.Scannable()
    ensures var c := ApiCall.MsgSendI(sendEp, recvEp, size, dev, payload);
            && Snapshot(db) == ApiStep(old(Snapshot(db)), c)
            && Outcome(false, status, request, None) ==
               Step(old(db.Table()), RequestCall(old(Snapshot(db)), c)).out
    ensures !status.ErrMsgLimit?
  {
    IssueStatuses(db.Table(), RequestCall(Snapshot(db), ApiCall.MsgSendI(sendEp, recvEp, size, dev, payload)));
    status := Success;
    var valid := db.CheckEndpoint(sendEp);
    if !valid {
      status := ErrEndpInvalid;
    } else if size > MCAPI_MAX_MSG_SIZE {
      status := ErrMsgLimit;
    }
    status, request := db.MsgSendI(sendEp, recvEp, size, dev, payload);
  }

  /** The same holds for receiving: a missing buffer or invalid endpoint does not keep the call from the
      transport.  Only a missing request parameter does. */
  method McapiMsgRecvI(db: Database, recvEp: u32, buffer: u32, size: u32, requestGiven: bool, dev: Device, len: u32,
                       fromNode: u16, fromPort: u16)
    returns (status: Status, request: Option<nat>)
    requires db.Scannable()
    modifies db, db.requests
    ensures db.Scannable()
    ensures requestGiven ==>
              var c := ApiCall.MsgRecvI(recvEp, buffer, size, dev, len, fromNode, fromPort);
              && Snapshot(db) == ApiStep(old(Snapshot(db)), c)
              && Outcome(false, status, request, None) ==
                 Step(old(db.Table()), RequestCall(old(Snapshot(db)), c)).out
    ensures !requestGiven ==> Snapshot(db) == old(Snapshot(db)) && request.None?
    ensures status.ErrParameter? <==> !requestGiven
  {
    if !requestGiven {
      return ErrParameter, None;
    }
    ghost var c := ApiCall.MsgRecvI(recvEp, buffer, size, dev, len, fromNode, fromPort);
    IssueStatuses(db.Table(), RequestCall(Snapshot(db), c));
    status := Success;
    if buffer == 0 {
      status := ErrParameter;
    } else {
      var valid := db.CheckEndpoint(recvEp);
      if !valid {
        status := ErrEndpInvalid;
      }
    }
    status, request := db.MsgRecvI(recvEp, buffer, size, dev, len, fromNode, fromPort);
  }

  /** An endpoint that is not valid has no messages available, whatever the driver would say. */
  method McapiMsgAvailable(db: Database, endpoint: u32, answer: Option<u32>) returns (count: u32, status: Status)
    requires db.Scannable()
    ensures (count, status) ==
            if !ValidEndpoint(db.domains[..], endpoint) then (0, ErrEndpInvalid)
            else if answer.None? then (0, ErrGeneral)
            else (answer.value, Success)
  {
    var valid := db.CheckEndpoint(endpoint);
    if !valid {
      return 0, ErrEndpInvalid;
    }
    count, status := db.MsgAvailable(endpoint, answer);
  }

  /** A request handle is valid when its low 16 bits name a slot in use. */
  method CheckRequest(db: Database, handle: u32) returns (valid: bool)
    requires db.Valid()
    ensures valid <==> ValidHandle(db.Table().db, handle)
  {
    var r := handle % UINT16_RANGE;
    valid := r < db.requests.Length && db.requests[r].valid;
  }

  method McapiTest(db: Database, handle: u32, sized: bool, dev: Device, len: u32)
    returns (rc: bool, status: Status, size: Option<u32>)
    requires db.Scannable() && (ValidHandle(db.Table().db, handle) ==> handle < UINT16_RANGE)
    modifies db, db.requests
    ensures db.Scannable()
    ensures handle < UINT16_RANGE ==>
              var c := TestRequest(handle, sized, dev, len);
              && Snapshot(db) == ApiStep(old(Snapshot(db)), c)
              && Outcome(rc, status, None, size) == Step(old(db.Table()), RequestCall(old(Snapshot(db)), c)).out
    ensures handle >= UINT16_RANGE ==>
              && Snapshot(db) == old(Snapshot(db)) && size.None?
              && (rc, status) == if sized then (true, ErrRequestInvalid) else (true, ErrParameter)
  {
    if !sized {
      return true, ErrParameter, None;
    }
    var valid := CheckRequest(db, handle);
    if !valid {
      return true, ErrRequestInvalid, None;
    }
    rc, status, size := db.TestI(handle, dev, len);
  }

  method McapiWait(db: Database, handle: u32, sized: bool, dev: Device, len: u32)
    returns (rc: bool, status: Status, size: Option<u32>)
    requires db.Scannable() && (ValidHandle(db.Table().db, handle) ==> handle < UINT16_RANGE)
    modifies db, db.requests, db.nextIndex
    ensures db.Scannable()
    ensures handle < UINT16_RANGE ==>
              var c := WaitRequest(handle, sized, dev, len);
              && Snapshot(db) == ApiStep(old(Snapshot(db)), c)
              && Outcome(rc, status, None, size) == Step(old(db.Table()), RequestCall(old(Snapshot(db)), c)).out
    ensures handle >= UINT16_RANGE ==>
              && Snapshot(db) == old(Snapshot(db)) && size.None?
              && (rc, status) == if sized then (false, ErrRequestInvalid) else (true, ErrParameter)
  {
    if !sized {
      return true, ErrParameter, None;
    }
    var valid := CheckRequest(db, handle);
    if !valid {
      return false, ErrRequestInvalid, None;
    }
    rc, status, size := db.Wait(handle, dev, len);
  }
}
