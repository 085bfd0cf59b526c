/** The whole library as one machine: the request table and the registry, driven by public calls.
    The lookup that the request machine takes as given is here made in the registry. */
module Api {
  import opened McapiTypes
  import opened Handles
  import opened RequestPool
  import opened Requests
  import opened RequestRuns
  import opened Registry
  import opened RegistryRuns

  datatype System = System(table: State, domains: seq<Domain>)

  datatype ApiCall =
    | EndpointCreate(port: u32, idx: nat)
    | EndpointDelete(endpoint: u32)
    | EndpointGetI(domain: u32, node: u32, port: u32, cell: u32, dev: Device)
    | MsgSendI(sendEp: u32, recvEp: u32, size: u32, dev: Device, payload: u32)
    | MsgRecvI(recvEp: u32, buffer: u32, size: u32, dev: Device, len: u32, fromNode: u16, fromPort: u16)
    | TestRequest(handle: u32, sized: bool, dev: Device, len: u32)
    | WaitRequest(handle: u32, sized: bool, dev: Device, len: u32)
  {
    predicate OnRegistry() {
      EndpointCreate? || EndpointDelete?
    }
  }

  ghost predicate SystemInv(sys: System) {
    PoolInv(sys.table.db) && RegistryInv(sys.domains)
  }

  ghost predicate CallOk(sys: System, c: ApiCall)
    requires SystemInv(sys)
  {
    if c.OnRegistry() then Enabled(sys.domains, RegistryCall(c))
    else ScanBound(sys.domains[0]) && (c.TestRequest? || c.WaitRequest? ==> c.handle < UINT16_RANGE)
  }

  ghost function RegistryCall(c: ApiCall): RegCall
    requires c.OnRegistry()
  {
    match c
    case EndpointCreate(port, idx) => Created(port, idx)
    case EndpointDelete(endpoint) => Deleted(endpoint)
  }

  ghost function RequestCall(sys: System, c: ApiCall): (r: Call)
    requires SystemInv(sys) && CallOk(sys, c) && !c.OnRegistry()
    ensures r.Admissible()
  {
    var dom := sys.domains[0];
    match c
    case EndpointGetI(domain, node, port, cell, dev) => GetI(Found(dom, node, port), domain, node, port, cell, dev)
    case MsgSendI(sendEp, recvEp, size, dev, payload) =>
      SendI(FoundHandle(dom, sendEp), sendEp, recvEp, size, dev, payload)
    case MsgRecvI(recvEp, buffer, size, dev, len, fromNode, fromPort) =>
      RecvI(FoundHandle(dom, recvEp), recvEp, buffer, size, dev, len, fromNode, fromPort)
    case TestRequest(handle, sized, dev, len) =>
      Test(handle, sized, FoundRequest(sys.table.db.requests, dom, handle), dev, len)
    case WaitRequest(handle, sized, dev, len) =>
      Wait(handle, sized, FoundRequest(sys.table.db.requests, dom, handle), dev, len)
  }

  /** The lookup each call makes: a get by the node and port it was given, a send or receive by its own
      endpoint's handle, a test or wait by the handle recorded in the request. */
  lemma LookupsMade(sys: System, c: ApiCall)
    requires SystemInv(sys) && CallOk(sys, c) && !c.OnRegistry()
    ensures var dom := sys.domains[0];
            var requests := sys.table.db.requests;
            var call := RequestCall(sys, c);
            && (c.EndpointGetI? ==> (call.local <==> exists j: nat :: LiveAt(dom, c.node, c.port, j)))
            && (c.MsgSendI? ==> (call.local <==> HandleIsLive(dom, c.sendEp)))
            && (c.MsgRecvI? ==> (call.local <==> HandleIsLive(dom, c.recvEp)))
            && ((c.TestRequest? || c.WaitRequest?) && c.handle < |requests| ==>
                (call.local <==> HandleIsLive(dom, requests[c.handle].handle)))
  {
    match c
    case EndpointGetI(_, node, port, _, _) => FoundMeansLive(sys.domains[0], node, port);
    case MsgSendI(sendEp, _, _, _, _) => FoundHandleMeansLive(sys.domains[0], sendEp);
    case MsgRecvI(recvEp, _, _, _, _, _, _) => FoundHandleMeansLive(sys.domains[0], recvEp);
    case TestRequest(handle, _, _, _) =>
      if handle < |sys.table.db.requests| {
        FoundHandleMeansLive(sys.domains[0], sys.table.db.requests[handle].handle);
      }
    case WaitRequest(handle, _, _, _) =>
      if handle < |sys.table.db.requests| {
        FoundHandleMeansLive(sys.domains[0], sys.table.db.requests[handle].handle);
      }
  }

  ghost function ApiStep(sys: System, c: ApiCall): System
    requires SystemInv(sys) && CallOk(sys, c)
  {
    if c.OnRegistry() then
      sys.(domains := RegStep(sys.domains, RegistryCall(c)))
    else
      sys.(table := Step(sys.table, RequestCall(sys, c)).state)
  }

  lemma ApiStepKeepsInv(sys: System, c: ApiCall)
    requires SystemInv(sys) && CallOk(sys, c)
    ensures SystemInv(ApiStep(sys, c))
  {
    if c.OnRegistry() {
      RegStepKeepsInv(sys.domains, RegistryCall(c));
    } else {
      StepKeepsInv(sys.table, RequestCall(sys, c));
    }
  }

  ghost predicate ApiRunOk(sys: System, calls: seq<ApiCall>)
    requires SystemInv(sys)
    decreases |calls|
  {
    calls != [] ==>
      && CallOk(sys, calls[0])
      && (ApiStepKeepsInv(sys, calls[0]);
          ApiRunOk(ApiStep(sys, calls[0]), calls[1..]))
  }

  ghost function ApiExec(sys: System, calls: seq<ApiCall>): (r: System)
    requires SystemInv(sys) && ApiRunOk(sys, calls)
    ensures SystemInv(r)
    decreases |calls|
  {
    if calls == [] then sys
    else
      ApiStepKeepsInv(sys, calls[0]);
      ApiExec(ApiStep(sys, calls[0]), calls[1..])
  }

  ghost function RequestCalls(sys: System, calls: seq<ApiCall>): (r: seq<Call>)
    requires SystemInv(sys) && ApiRunOk(sys, calls)
    ensures AllAdmissible(r)
    decreases |calls|
  {
    if calls == [] then []
    else
      ApiStepKeepsInv(sys, calls[0]);
      (if calls[0].OnRegistry() then [] else [RequestCall(sys, calls[0])])
      + RequestCalls(ApiStep(sys, calls[0]), calls[1..])
  }

  ghost function RegistryCalls(calls: seq<ApiCall>): seq<RegCall> {
    if calls == [] then []
    else (if calls[0].OnRegistry() then [RegistryCall(calls[0])] else []) + RegistryCalls(calls[1..])
  }

  /** Seen from the request table, a run of the library is a run of the request machine, so every theorem
      about the latter holds whatever endpoints are created and deleted in between. */
  lemma {:induction false} TableProjection(sys: System, calls: seq<ApiCall>)
    requires SystemInv(sys) && ApiRunOk(sys, calls)
    ensures ApiExec(sys, calls).table == Exec(sys.table, RequestCalls(sys, calls))
    decreases |calls|
  {
    if calls == [] {
    } else {
      ApiStepKeepsInv(sys, calls[0]);
      var next := ApiStep(sys, calls[0]);
      TableProjection(next, calls[1..]);
      var rest := RequestCalls(next, calls[1..]);
      if !calls[0].OnRegistry() {
        assert RequestCalls(sys, calls)[1..] == rest;
      } else {
        assert RequestCalls(sys, calls) == rest;
      }
    }
  }

  /** Seen from the registry, it is a run of the registry. */
  lemma {:induction false} DomainProjection(sys: System, calls: seq<ApiCall>)
    requires SystemInv(sys) && ApiRunOk(sys, calls)
    ensures RunOk(sys.domains, RegistryCalls(calls))
    ensures ApiExec(sys, calls).domains == RegExec(sys.domains, RegistryCalls(calls))
    decreases |calls|
  {
    if calls == [] {
    } else {
      ApiStepKeepsInv(sys, calls[0]);
      DomainProjection(ApiStep(sys, calls[0]), calls[1..]);
      if calls[0].OnRegistry() {
        assert RegistryCalls(calls)[1..] == RegistryCalls(calls[1..]);
      } else {
        assert RegistryCalls(calls) == RegistryCalls(calls[1..]);
      }
    }
  }

  /** The state after one initialisation of zeroed memory, which registers the calling node. */
  ghost function BootSystem(size: nat, id: u32, num: u32): (sys: System)
    requires 1 <= size <= UINT16_RANGE
    ensures SystemInv(sys)
  {
    InitialChain(size);
    AddNodeKeepsInv(ZeroRegistry(), id, num);
    System(Boot(size), AddNode(ZeroRegistry(), id, num).1)
  }

  lemma TableKept(sys: System, calls: seq<ApiCall>)
    requires SystemInv(sys) && ApiRunOk(sys, calls)
    ensures ApiExec(sys, calls).table.db.max == sys.table.db.max
    ensures NoneCancelled(sys.table.db) ==> NoneCancelled(ApiExec(sys, calls).table.db)
  {
    TableProjection(sys, calls);
    if NoneCancelled(sys.table.db) {
      ExecNoneCancelled(sys.table, RequestCalls(sys, calls));
    }
  }

  /** A sound free list without cancelled requests, a sound registry, an endpoint count of 1 plus the creations
      on the local node, of which there are at most 2 * MCAPI_MAX_ENDPOINTS - 1, and scans that stay inside
      their tables exactly while at most MCAPI_MAX_ENDPOINTS - 1 endpoints were created. */
  ghost predicate SoundState(sys: System, creates: nat) {
    && PoolInv(sys.table.db) && NoneCancelled(sys.table.db) && RegistryInv(sys.domains)
    && creates <= 2 * MCAPI_MAX_ENDPOINTS - 1
    && (sys.domains[0].valid ==> sys.domains[0].nodes[0].numEndpoints == 1 + creates)
    && (ScanBound(sys.domains[0]) <==> creates <= MCAPI_MAX_ENDPOINTS - 1)
  }

  ghost predicate SoundAfter(boot: System, calls: seq<ApiCall>)
    requires SystemInv(boot) && ApiRunOk(boot, calls)
  {
    RunOk(boot.domains, RegistryCalls(calls)) &&
    SoundState(ApiExec(boot, calls), Creates(boot.domains, RegistryCalls(calls)))
  }

  lemma SystemSoundFrom(boot: System, calls: seq<ApiCall>)
    requires SystemInv(boot) && ApiRunOk(boot, calls) && Counted(boot.domains, 0) && NoneCancelled(boot.table.db)
    ensures SoundAfter(boot, calls) && ApiExec(boot, calls).table.db.max == boot.table.db.max
  {
    TableKept(boot, calls);
    DomainProjection(boot, calls);
    RunSound(boot.domains, RegistryCalls(calls));
  }

  /** Every state the library reaches after one initialisation, for any pool size and any mix of public
      calls, is sound. */
  lemma ReachableSystemSound(size: nat, id: u32, num: u32, boot: System, calls: seq<ApiCall>)
    requires 1 <= size <= UINT16_RANGE && boot == BootSystem(size, id, num) && ApiRunOk(boot, calls)
    ensures SoundAfter(boot, calls) && ApiExec(boot, calls).table.db.max == size
  {
    assert Counted(boot.domains, 0) by {
      AddCounted(ZeroRegistry(), id, num, 0);
    }
    SystemSoundFrom(boot, calls);
  }

  predicate Waits(c: Call, h: nat) {
    c.Wait? && c.handle == h
  }

  lemma {:induction false} UnwaitedInRequestCalls(sys: System, calls: seq<ApiCall>, h: nat)
    requires SystemInv(sys) && ApiRunOk(sys, calls)
    requires forall k :: 0 <= k < |calls| ==> !(calls[k].WaitRequest? && calls[k].handle == h)
    ensures forall c :: c in RequestCalls(sys, calls) ==> !Waits(c, h)
    decreases |calls|
  {
    if calls == [] {
    } else {
      ApiStepKeepsInv(sys, calls[0]);
      var next := ApiStep(sys, calls[0]);
      UnwaitedInRequestCalls(next, calls[1..], h);
      forall c | c in RequestCalls(sys, calls) ensures !Waits(c, h) {
        assert c in RequestCalls(next, calls[1..]) || (!calls[0].OnRegistry() && c == RequestCall(sys, calls[0]));
      }
    }
  }

  /** A completed send or receive keeps answering tests with its size until it is waited for, whatever public
      calls are made meanwhile: even after its own endpoint was deleted.  The closing wait answers with the
      size too if the endpoint can be found then, and with an uninitialised node if not. */
  lemma CompletedOutlivesEndpoint(sys: System, calls: seq<ApiCall>, h: nat, t: ApiCall)
    requires SystemInv(sys) && ApiRunOk(sys, calls) && h < sys.table.db.max
    requires var r := sys.table.db.requests[h]; r.valid && r.completed && !r.cancelled && !r.kind.GetEndpt?
    requires forall k :: 0 <= k < |calls| ==> !(calls[k].WaitRequest? && calls[k].handle == h)
    requires CallOk(ApiExec(sys, calls), t) && (t.TestRequest? || t.WaitRequest?) && t.handle == h && t.sized
    ensures var end := ApiExec(sys, calls);
            var r := sys.table.db.requests[h];
            var answer := Outcome(true, Success, None, Some(r.size));
            if t.TestRequest? then Step(end.table, RequestCall(end, t)) == Result(end.table, answer)
            else Step(end.table, RequestCall(end, t)).out ==
                 if FoundHandle(end.domains[0], r.handle) then answer
                 else Outcome(false, ErrNodeNotInit, None, None)
  {
    var end := ApiExec(sys, calls);
    var made := UnwaitedProjection(sys, calls, h);
    if t.TestRequest? {
      CompletedAnswersLater(sys.table, made, h, RequestCall(end, t));
    } else {
      CompletedFrozen(sys.table, made, h);
      CompletedWait(sys.table, made, h, RequestCall(end, t));
    }
  }

  /** The request calls of a run that does not wait for h keep it outstanding. */
  lemma UnwaitedProjection(sys: System, calls: seq<ApiCall>, h: nat) returns (made: seq<Call>)
    requires SystemInv(sys) && ApiRunOk(sys, calls) && h < sys.table.db.max && sys.table.db.requests[h].valid
    requires forall k :: 0 <= k < |calls| ==> !(calls[k].WaitRequest? && calls[k].handle == h)
    ensures AllAdmissible(made) && ApiExec(sys, calls).table == Exec(sys.table, made)
    ensures StaysOutstanding(sys.table, made, h)
  {
    made := RequestCalls(sys, calls);
    TableProjection(sys, calls);
    UnwaitedInRequestCalls(sys, calls, h);
    assert forall k :: 0 <= k < |made| ==> !Waits(made[k], h);
    UnwaitedStaysOutstanding(sys.table, made, h);
  }

  // ---------- deleting an endpoint under a request ----------

  /** No entry in the local node's table holds the port, and the local node is node 0. */
  ghost predicate PortGone(reg: seq<Domain>, port: u32) {
    Local(reg) && reg[0].nodes[0].num == MASTER_NODE_NUM && !PortInUse(reg[0].nodes[0], port)
  }

  lemma PortGoneMeansNotFound(reg: seq<Domain>, port: u32)
    requires PortGone(reg, port) && ScanBound(reg[0])
    ensures !Found(reg[0], MASTER_NODE_NUM, port)
  {
    MasterLookup(reg, port);
  }

  lemma PortStaysGone(reg: seq<Domain>, c: RegCall, port: u32)
    requires PortGone(reg, port) && Enabled(reg, c) && (c.Created? ==> c.port != port)
    ensures PortGone(RegStep(reg, c), port)
  {
    RegStepKeepsInv(reg, c);
    var table := reg[0].nodes[0].endpoints;
    assert forall j :: 0 <= j < |table| ==> !Holds(table[j], port);
    match c
    case NodeAdded(id, num) =>
      if AddNode(reg, id, num).0 {
        DomainSlotMeaning(reg, id);
        UnusedNodeIsNumNodes(reg[DomainSlot(reg, id)]);
      }
    case Created(_, _) =>
    case Deleted(handle) =>
      if ValidEndpoint(reg, handle) {
        ValidEndpointHasNode(reg, handle);
      }
  }

  ghost predicate SendsOrReceivesOn(r: Request, port: u32) {
    && r.valid && !r.kind.GetEndpt?
    && Decode(r.handle).node == MASTER_NODE_NUM && Decode(r.handle).port == port
  }

  /** A wait releases an outstanding request exactly when the pool is not full and, for a send or receive, its
      endpoint can be found. */
  lemma WaitReleasesWhenFound(sys: System, w: ApiCall)
    requires SystemInv(sys) && CallOk(sys, w) && w.WaitRequest? && w.sized
    requires w.handle < sys.table.db.max && sys.table.db.requests[w.handle].valid
    ensures var requests := sys.table.db.requests;
            var found := FoundRequest(requests, sys.domains[0], w.handle);
            !ApiStep(sys, w).table.db.requests[w.handle].valid <==>
            !Full(sys.table.db) && (requests[w.handle].kind.GetEndpt? || found)
  {
    StepCount(sys.table, RequestCall(sys, w));
  }

  /** Deleting a valid endpoint makes its port disappear exactly when no second entry held it. */
  lemma DeletionRemovesPort(reg: seq<Domain>, handle: u32)
    requires MasterFirst(reg) && ValidEndpoint(reg, handle)
    ensures var f := Decode(handle);
            var table := reg[0].nodes[0].endpoints;
            PortGone(RegStep(reg, Deleted(handle)), f.port) <==>
            forall j :: 0 <= j < |table| && j != PortIndex(reg[0], f.node, f.port) ==> !Holds(table[j], f.port)
  {
    var f := Decode(handle);
    ValidEndpointHasNode(reg, handle);
    DeleteKeepsInv(reg, handle);
    MasterLookup(reg, f.port);
    var gone := PortIndex(reg[0], f.node, f.port);
    var before, after := reg[0].nodes[0].endpoints, Delete(reg, handle)[0].nodes[0].endpoints;
    forall j | 0 <= j < |before| ensures Holds(after[j], f.port) <==> j != gone && Holds(before[j], f.port) {
    }
  }

  /** While no entry holds its port, no sequence of public calls frees a send or receive or changes its
      record. */
  lemma {:induction false} PortGoneStrandsRequest(sys: System, calls: seq<ApiCall>, port: u32, h: nat)
    requires SystemInv(sys) && ApiRunOk(sys, calls) && PortGone(sys.domains, port)
    requires h < sys.table.db.max && SendsOrReceivesOn(sys.table.db.requests[h], port)
    requires forall k :: 0 <= k < |calls| && calls[k].EndpointCreate? ==> calls[k].port != port
    ensures var end := ApiExec(sys, calls);
            && h < end.table.db.max && end.table.db.requests[h] == sys.table.db.requests[h]
            && PortGone(end.domains, port)
    decreases |calls|
  {
    if calls == [] {
    } else {
      var c := calls[0];
      ApiStepKeepsInv(sys, c);
      if c.OnRegistry() {
        PortStaysGone(sys.domains, RegistryCall(c), port);
      } else {
        PortGoneMeansNotFound(sys.domains, port);
        StrandedStep(sys.table, RequestCall(sys, c), h);
      }
      PortGoneStrandsRequest(ApiStep(sys, c), calls[1..], port, h);
    }
  }

  lemma StrandedAfter(sys: System, calls: seq<ApiCall>, port: u32, h: nat, w: ApiCall)
    requires SystemInv(sys) && ApiRunOk(sys, calls) && PortGone(sys.domains, port)
    requires h < sys.table.db.max && SendsOrReceivesOn(sys.table.db.requests[h], port)
    requires forall k :: 0 <= k < |calls| && calls[k].EndpointCreate? ==> calls[k].port != port
    requires CallOk(ApiExec(sys, calls), w) && w.WaitRequest? && w.sized && w.handle == h
    ensures var end := ApiExec(sys, calls);
            && h < end.table.db.max && end.table.db.requests[h] == sys.table.db.requests[h]
            && Step(end.table, RequestCall(end, w)).out == Outcome(false, ErrNodeNotInit, None, None)
  {
    PortGoneStrandsRequest(sys, calls, port, h);
    var end := ApiExec(sys, calls);
    PortGoneMeansNotFound(end.domains, port);
    StrandedStep(end.table, RequestCall(end, w), h);
  }

  /** Deleting an endpoint whose port no second entry holds strands its sends and receives: until some call
      creates the port again, no sequence of public calls frees such a request or changes its record, and
      every wait on it reports an uninitialised node. */
  lemma DeletedEndpointStrandsRequest(sys: System, endpoint: u32, calls: seq<ApiCall>, h: nat, w: ApiCall)
    requires SystemInv(sys) && MasterFirst(sys.domains) && ValidEndpoint(sys.domains, endpoint)
    requires var f := Decode(endpoint);
             var table := sys.domains[0].nodes[0].endpoints;
             forall j :: 0 <= j < |table| && j != PortIndex(sys.domains[0], f.node, f.port) ==> !Holds(table[j], f.port)
    requires h < sys.table.db.max && SendsOrReceivesOn(sys.table.db.requests[h], Decode(endpoint).port)
    requires ApiRunOk(sys, [EndpointDelete(endpoint)] + calls)
    requires forall k :: 0 <= k < |calls| && calls[k].EndpointCreate? ==> calls[k].port != Decode(endpoint).port
    requires CallOk(ApiExec(sys, [EndpointDelete(endpoint)] + calls), w)
    requires w.WaitRequest? && w.sized && w.handle == h
    ensures var end := ApiExec(sys, [EndpointDelete(endpoint)] + calls);
            && h < end.table.db.max && end.table.db.requests[h] == sys.table.db.requests[h]
            && Step(end.table, RequestCall(end, w)).out == Outcome(false, ErrNodeNotInit, None, None)
  {
    var run := [EndpointDelete(endpoint)] + calls;
    var port := Decode(endpoint).port;
    assert run[0] == EndpointDelete(endpoint) && run[1..] == calls;
    var next := ApiStep(sys, run[0]);
    ApiStepKeepsInv(sys, run[0]);
    assert next.table == sys.table && ApiRunOk(next, calls);
    assert ApiExec(sys, run) == ApiExec(next, calls);
    assert PortGone(next.domains, port) by {
      DeletionRemovesPort(sys.domains, endpoint);
    }
    StrandedAfter(next, calls, port, h, w);
  }

  /** One step of the request machine on a slot whose endpoint lookup fails. */
  lemma StrandedStep(s: State, c: Call, h: nat)
    requires PoolInv(s.db) && c.Admissible() && h < s.db.max
    requires s.db.requests[h].valid && !s.db.requests[h].kind.GetEndpt?
    requires c.Targets(h) ==> !c.local
    ensures Step(s, c).state.db.requests[h] == s.db.requests[h]
    ensures c.Wait? && c.handle == h && c.sized ==> Step(s, c).out == Outcome(false, ErrNodeNotInit, None, None)
  {
    if !c.Targets(h) {
      OthersUntouched(s, c, h);
    }
  }

  /** The registry after the first initialisation as node 0 of domain 0 and the creation of `port`. */
  lemma FirstCreation(port: u16)
    ensures var reg := AddNode(ZeroRegistry(), 0, MASTER_NODE_NUM).1;
            && MasterFirst(reg) && FreeIndex(reg, 0)
            && var after := Create(reg, port, false, 0);
               && MasterFirst(after) && CreatedHandle(reg, port) == HandleOf(MASTER_NODE_NUM, port)
               && ValidEndpoint(after, HandleOf(MASTER_NODE_NUM, port))
               && Decode(HandleOf(MASTER_NODE_NUM, port)) == Fields(0, 0, port)
               && PortIndex(after[0], 0, port) == 0
               && forall j :: 0 < j < MCAPI_MAX_ENDPOINTS ==> !Holds(after[0].nodes[0].endpoints[j], port)
  {
    var zero := ZeroRegistry();
    AddNodeKeepsInv(zero, 0, MASTER_NODE_NUM);
    assert FirstWithId(zero, 0, 0) == 0;
    UnusedNodeIsNumNodes(zero[0]);
    var reg := AddNode(zero, 0, MASTER_NODE_NUM).1;
    assert reg[0] == WithNode(zero[0], 0, 0, MASTER_NODE_NUM);
    CreatedIsFound(reg, port, 0);
    HandleOfDecodes(MASTER_NODE_NUM, port);
  }

  /** A stranded request is reached from initialisation: create an endpoint, send on it with the driver
      answering EAGAIN, delete it; every wait then reports an uninitialised node and the slot stays. */
  lemma StrandedRequestReachable(size: nat, port: u16, recvEp: u32, bytes: u32, w: ApiCall)
    requires 1 <= size <= UINT16_RANGE && w.WaitRequest? && w.sized && w.handle == 0
    ensures var endpoint := HandleOf(MASTER_NODE_NUM, port);
            var boot := BootSystem(size, 0, MASTER_NODE_NUM);
            var create, send := EndpointCreate(port, 0), MsgSendI(endpoint, recvEp, bytes, Again, 0);
            && CallOk(boot, create)
            && var created := ApiStep(boot, create);
               && SystemInv(created) && CallOk(created, send)
               && var sent := ApiStep(created, send);
                  && SystemInv(sent) && CallOk(sent, EndpointDelete(endpoint))
                  && var deleted := ApiStep(sent, EndpointDelete(endpoint));
                     && SystemInv(deleted) && CallOk(deleted, w)
                     && deleted.table.db.requests[0].valid
                     && Step(deleted.table, RequestCall(deleted, w)).out == Outcome(false, ErrNodeNotInit, None, None)
  {
    FirstCreation(port);
    var endpoint := HandleOf(MASTER_NODE_NUM, port);
    var boot := BootSystem(size, 0, MASTER_NODE_NUM);
    var create, send := EndpointCreate(port, 0), MsgSendI(endpoint, recvEp, bytes, Again, 0);
    var created := ApiStep(boot, create);
    ApiStepKeepsInv(boot, create);
    var sent := ApiStep(created, send);
    ApiStepKeepsInv(created, send);
    assert SendsOrReceivesOn(sent.table.db.requests[0], port);
    var delete := EndpointDelete(endpoint);
    var deleted := ApiStep(sent, delete);
    ApiStepKeepsInv(sent, delete);
    DeletionRemovesPort(sent.domains, endpoint);
    ValidEndpointHasNode(sent.domains, endpoint);
    DeleteKeepsInv(sent.domains, endpoint);
    StrandedAfter(deleted, [], port, 0, w);
  }
}
