/** The shared database and the transport functions that update it in place.  Each call is one atomic
    step; the driver's answers are parameters. */
module Database {
  import opened McapiTypes
  import opened Handles
  import opened RequestPool
  import opened Requests
  import opened Registry

  class Database {
    const requests: array<Request>
    const nextIndex: array<int>   // request_reserves_header.array[..].next_index
    var emptyHead: int
    var currCount: int
    var maxCount: int
    const domains: array<Domain>
    var cells: map<u32, u32>      // the callers' endpoint variables, by address

    ghost function Table(): State
      reads this, requests, nextIndex
    {
      State(Db(requests[..], nextIndex[..], emptyHead, currCount, maxCount), cells)
    }

    ghost predicate Valid()
      reads this, requests, nextIndex, domains
    {
      PoolInv(Table().db) && RegistryInv(domains[..])
    }

    ghost predicate Scannable()
      reads this, requests, nextIndex, domains
    {
      Valid() && ScanBound(domains[0])
    }

    /** Zeroed shared memory with an initialised free list. */
    constructor (size: nat)
      requires 1 <= size <= UINT16_RANGE
      ensures Valid() && Table() == State(InitialDb(size), map[]) && domains[..] == ZeroRegistry()
      ensures fresh(requests) && fresh(nextIndex) && fresh(domains)
    {
      requests := new Request[size](_ => ZERO_REQUEST);
      nextIndex := new int[size](_ => 0);
      emptyHead, currCount, maxCount := 0, 0, size;
      var zero := ZeroRegistry();
      domains := new Domain[MCA_MAX_DOMAINS](i requires 0 <= i < |zero| => zero[i]);
      cells := map[];
      new;
      assert Table().db.next == seq(size, _ => 0);
      InitRequestIndexedArray();
      InitialChain(size);
      assert requests[..] == InitialDb(size).requests;
      assert domains[..] == zero;
    }

    // ---------- request pool ----------

    method InitRequestIndexedArray()
      requires Shaped(Table().db)
      modifies this`emptyHead, this`currCount, this`maxCount, nextIndex
      ensures Table() == old(Table()).(db := Reinitialised(old(Table().db)))
    {
      var n := requests.Length;
      assert maxCount == n;
      currCount := 0;
      maxCount := n;
      emptyHead := 0;
      for i := 0 to n
        modifies nextIndex
        invariant forall k :: 0 <= k < i ==> nextIndex[k] == k + 1
      {
        nextIndex[i] := i + 1;
      }
      nextIndex[n - 1] := -1;
      assert nextIndex[..] == InitialDb(n).next;
    }

    method ReserveRequest() returns (r: Option<nat>)
      requires Valid()
      modifies this`emptyHead, this`currCount, requests
      ensures Valid()
      ensures (r, Table().db) == Reserve(old(Table().db))
    {
      ReserveOutcome(Table().db);
      if emptyHead != -1 {
        var id := emptyHead;
        r := Some(id);
        requests[id] := requests[id].(valid := true);
        emptyHead := nextIndex[emptyHead];
        currCount := currCount + 1;
      } else {
        r := None;
      }
      assert Table().db == Reserve(old(Table().db)).1;
    }

    method RemoveRequest(r: nat) returns (ok: bool)
      requires Valid() && r < requests.Length && requests[r].valid
      modifies this`emptyHead, this`currCount, requests, nextIndex
      ensures Valid()
      ensures Table().db == Remove(old(Table().db), r)
      ensures ok <==> !old(Full(Table().db))
    {
      RemoveOutcome(Table().db, r);
      ok := false;
      if currCount < maxCount {
        requests[r] := requests[r].(valid := false);
        nextIndex[r] := emptyHead;
        emptyHead := r;
        currCount := currCount - 1;
        ok := true;
      }
      assert Table().db == Remove(old(Table().db), r);
    }

    /** The completed flag and the status an issue function derives from the driver's answer. */
    method RecordAnswer(id: nat, dev: Device) returns (status: Status)
      requires id < requests.Length
      modifies requests
      ensures status == IssueStatus(dev)
      ensures requests[..] == old(requests[..])[id := old(requests[id]).(completed := dev.Ok?)]
    {
      if !dev.Ok? {
        requests[id] := requests[id].(completed := false);
        status := if dev.Again? then Pending else ErrTransmission;
      } else {
        requests[id] := requests[id].(completed := true);
        status := Success;
      }
    }

    /** The fields an issue function fills in last; the completed flag is not among them. */
    method SetUpRequest(id: nat, localEp: u32, remoteEp: u32, buffer: u32, size: u32, payload: u32, kind: Kind)
      requires id < requests.Length
      modifies requests
      ensures requests[..] ==
              old(requests[..])[id := SetUp(old(requests[id]), localEp, remoteEp, buffer, size, payload, kind)]
    {
      requests[id] := requests[id].(epEndpoint := remoteEp, handle := localEp, valid := true, size := size,
                                    cancelled := false, kind := kind, buffer := buffer, payload := payload);
    }

    // ---------- lookups ----------

    method GetNodeIndex(num: u32) returns (index: nat)
      requires Valid() && FirstNumbered(domains[0], num, 0) < domains[0].numNodes
      ensures index == FirstNumbered(domains[0], num, 0)
    {
      index := MCA_MAX_NODES;
      var i := 0;
      while i < domains[0].numNodes
        invariant i <= FirstNumbered(domains[0], num, 0)
      {
        if domains[0].nodes[i].num == num {
          index := i;
          break;
        }
        i := i + 1;
      }
    }

    /** The double loop: the inner search stops at the first match, the outer one runs on. */
    method GetPortIndex(num: u32, port: u32) returns (index: nat)
      requires Scannable()
      ensures index == PortIndex(domains[0], num, port)
    {
      index := MCAPI_MAX_ENDPOINTS;
      var i := 0;
      while i < domains[0].numNodes
        invariant 0 <= i <= domains[0].numNodes
        invariant index == if FirstNumbered(domains[0], num, 0) < i then PortIndex(domains[0], num, port)
                           else MCAPI_MAX_ENDPOINTS
      {
        if domains[0].nodes[i].num == num {
          assert FirstNumbered(domains[0], num, 0) == i;
          var j := 0;
          while j < domains[0].nodes[i].numEndpoints
            invariant 0 <= j <= FirstPort(domains[0].nodes[i], port, 0)
            invariant index == MCAPI_MAX_ENDPOINTS
          {
            if domains[0].nodes[i].endpoints[j].valid && domains[0].nodes[i].endpoints[j].port == port {
              index := j;
              break;
            }
            j := j + 1;
          }
        }
        i := i + 1;
      }
    }

    method CheckEndpoint(endpoint: u32) returns (valid: bool)
      requires Scannable()
      ensures valid <==> ValidEndpoint(domains[..], endpoint)
    {
      var f := Decode(endpoint);
      if f.node != MASTER_NODE_NUM {
        return false;
      }
      var index := GetPortIndex(f.node, f.port);
      if index >= MCAPI_MAX_ENDPOINTS {
        return false;
      }
      valid := domains[0].nodes[0].endpoints[index].valid;
    }

    method ChannelIsOpen(endpoint: u32) returns (open: bool)
      requires Scannable()
      ensures !open
    {
      var f := Decode(endpoint);
      var index := GetPortIndex(f.node, f.port);
      if index >= MCAPI_MAX_ENDPOINTS {
        return false;
      }
      open := domains[0].nodes[0].endpoints[index].open;
    }

    // ---------- nodes and endpoints ----------

    /** The entry carrying the id, else the first one not in use. */
    method FindDomain(id: u32) returns (d: nat)
      requires Sized(domains[..])
      ensures d == DomainSlot(domains[..], id)
    {
      d := 0;
      while d < MCA_MAX_DOMAINS
        invariant d <= FirstWithId(domains[..], id, 0)
      {
        if domains[d].id == id {
          return;
        }
        d := d + 1;
      }
      d := 0;
      while d < MCA_MAX_DOMAINS
        invariant d <= FirstUnused(domains[..], 0)
      {
        if !domains[d].valid {
          return;
        }
        d := d + 1;
      }
    }

    /** The first unused entry, unless the node is there already or there is no such entry. */
    method FindUnusedNode(d: nat, num: u32) returns (ok: bool, n: nat)
      requires Sized(domains[..]) && d < MCA_MAX_DOMAINS
      ensures ok <==> FirstValidNumbered(domains[d].nodes, num, 0) == MCA_MAX_NODES
                      && FirstUnusedNode(domains[d].nodes, 0) < MCA_MAX_NODES
      ensures ok ==> n == FirstUnusedNode(domains[d].nodes, 0)
    {
      n := 0;
      while n < MCA_MAX_NODES
        invariant n <= FirstValidNumbered(domains[d].nodes, num, 0)
      {
        if domains[d].nodes[n].valid && domains[d].nodes[n].num == num {
          return false, n;
        }
        n := n + 1;
      }
      n := 0;
      while n < MCA_MAX_NODES
        invariant n <= FirstUnusedNode(domains[d].nodes, 0)
      {
        if !domains[d].nodes[n].valid {
          return true, n;
        }
        n := n + 1;
      }
      ok := false;
    }

    /** Writes the new node into its entry, endpoint by endpoint. */
    method EnterNode(id: u32, d: nat, n: nat, num: u32)
      requires Sized(domains[..]) && d < MCA_MAX_DOMAINS && n < MCA_MAX_NODES
      modifies domains
      ensures domains[..] == old(domains[..])[d := WithNode(old(domains[d]), id, n, num)]
    {
      ghost var dom := domains[d];
      domains[d] := domains[d].(id := id, valid := true, numNodes := domains[d].numNodes + 1);
      var node := domains[d].nodes[n].(valid := true, num := num);
      for i := 0 to MCAPI_MAX_ENDPOINTS
        invariant |node.endpoints| == MCAPI_MAX_ENDPOINTS
        invariant node == dom.nodes[n].(valid := true, num := num, endpoints := node.endpoints)
        invariant forall k :: 0 <= k < i ==> node.endpoints[k] == ZERO_ENDPOINT
      {
        node := node.(endpoints := node.endpoints[i := ZERO_ENDPOINT]);
      }
      assert node.endpoints == ZeroEndpoints();
      node := node.(numEndpoints := 1);
      domains[d] := domains[d].(nodes := domains[d].nodes[n := node]);
    }

    method AddNodeToDb(id: u32, num: u32) returns (ok: bool)
      requires RegistryInv(domains[..])
      modifies domains
      ensures (ok, domains[..]) == AddNode(old(domains[..]), id, num)
      ensures RegistryInv(domains[..])
    {
      AddNodeKeepsInv(domains[..], id, num);
      if domains[0].numNodes == MCA_MAX_NODES {
        return false;
      }
      var d := FindDomain(id);
      if d == MCA_MAX_DOMAINS {
        return false;
      }
      var n;
      ok, n := FindUnusedNode(d, num);
      if ok {
        EnterNode(id, d, n, num);
      }
    }

    /** Creation at the driver's index, which the code asserts to be free. */
    method EndpointCreate(port: u32, anonymous: bool, idx: nat) returns (endpoint: u32)
      requires Valid() && Local(domains[..]) && FreeIndex(domains[..], idx)
      modifies domains
      ensures Valid()
      ensures domains[..] == Create(old(domains[..]), port, anonymous, idx)
      ensures endpoint == CreatedHandle(old(domains[..]), port)
    {
      ghost var reg := domains[..];
      CreateKeepsInv(reg, port, anonymous, idx);
      var num := domains[0].nodes[0].num;
      var n := GetNodeIndex(num);
      assert n == 0;
      var node := domains[0].nodes[n];
      var entry := node.endpoints[idx].(valid := true, port := port, open := false, anonymous := anonymous,
                                        numAttributes := 0);
      node := node.(endpoints := node.endpoints[idx := entry], numEndpoints := (node.numEndpoints + 1) % UINT16_RANGE);
      domains[0] := domains[0].(nodes := domains[0].nodes[n := node]);
      assert domains[..] == Create(reg, port, anonymous, idx);
      endpoint := HandleOf(num, port);
    }

    method EndpointDelete(endpoint: u32)
      requires Scannable() && FirstNumbered(domains[0], Decode(endpoint).node, 0) < domains[0].numNodes
      modifies domains
      ensures Scannable()
      ensures domains[..] == Delete(old(domains[..]), endpoint)
    {
      ghost var reg := domains[..];
      DeleteKeepsInv(reg, endpoint);
      var f := Decode(endpoint);
      var n := GetNodeIndex(f.node);
      var index := GetPortIndex(f.node, f.port);
      if index >= MCAPI_MAX_ENDPOINTS {
        assert domains[..] == Delete(reg, endpoint);
        return;
      }
      var node := domains[0].nodes[n];
      node := node.(endpoints := node.endpoints[index := ZERO_ENDPOINT]);
      domains[0] := domains[0].(nodes := domains[0].nodes[n := node]);
      assert domains[..] == Delete(reg, endpoint);
    }

    /** The blocking get; `dev` answers the driver query that follows a failed local lookup.  It succeeds, and
        writes the handle, exactly when a live entry holds the port or the driver answers success. */
    method EndpointGet(node: u32, port: u32, cell: u32, dev: Device) returns (rc: bool, status: Status)
      requires Scannable()
      modifies this`cells
      ensures rc <==> (exists j: nat :: LiveAt(domains[0], node, port, j)) || dev.Ok?
      ensures rc ==> status.Success? && cells == old(cells)[cell := HandleOf(node, port)]
      ensures !rc ==> cells == old(cells) && status == if dev.TimedOut? then Timeout else ErrGeneral
      ensures var (written, s) := BlockingGet(old(Found(domains[0], node, port)), node, port, dev);
              status == s && cells == if written.Some? then old(cells)[cell := written.value] else old(cells)
    {
      FoundMeansLive(domains[0], node, port);
      var index := GetPortIndex(node, port);
      if index != MCAPI_MAX_ENDPOINTS {
        cells := cells[cell := HandleOf(node, port)];
        return true, Success;
      }
      if !dev.Ok? {
        return false, if dev.TimedOut? then Timeout else ErrGeneral;
      }
      cells := cells[cell := HandleOf(node, port)];
      return true, Success;
    }

    /** How many messages wait on a local endpoint; `answer` is the driver's count, if it gives one. */
    method MsgAvailable(endpoint: u32, answer: Option<u32>) returns (count: u32, status: Status)
      requires Scannable() && Decode(endpoint).node == MASTER_NODE_NUM
      ensures (count, status) ==
              if !FoundHandle(domains[0], endpoint) then (0, ErrEndpInvalid)
              else if answer.None? then (0, ErrGeneral)
              else (answer.value, Success)
    {
      var f := Decode(endpoint);
      var index := GetPortIndex(f.node, f.port);
      if index >= MCAPI_MAX_ENDPOINTS {
        return 0, ErrEndpInvalid;
      }
      if answer.None? {
        return 0, ErrGeneral;
      }
      return answer.value, Success;
    }

    // ---------- non-blocking requests ----------

    method EndpointGetI(domain: u32, node: u32, port: u32, cell: u32, dev: Device)
      returns (status: Status, request: Option<nat>)
      requires Scannable()
      modifies this`emptyHead, this`currCount, this`cells, requests
      ensures Scannable()
      ensures Result(Table(), Outcome(false, status, request, None)) ==
              Step(old(Table()), GetI(old(Found(domains[0], node, port)), domain, node, port, cell, dev))
    {
      ghost var call := GetI(Found(domains[0], node, port), domain, node, port, cell, dev);
      ghost var before := Table();
      var index := GetPortIndex(node, port);
      if index != MCAPI_MAX_ENDPOINTS {
        cells := cells[cell := HandleOf(node, port)];
        return Success, None;
      }
      request := ReserveRequest();
      if request.None? {
        return ErrRequestLimit, None;
      }
      var id := request.value;
      ghost var reserved := Table().db;
      status := RecordAnswer(id, dev);
      if dev.Ok? {
        cells := cells[cell := HandleOf(node, port)];
      }
      requests[id] := requests[id].(epNode := node, epPort := port, epDomain := domain);
      SetUpRequest(id, 0, 0, cell, 0, 0, GetEndpt);
      ghost var bound := reserved.requests[id].(completed := dev.Ok?, epNode := node, epPort := port,
                                                epDomain := domain);
      assert requests[..] == reserved.requests[id := SetUp(bound, 0, 0, cell, 0, 0, GetEndpt)];
      StepKeepsInv(before, call);
    }

    method MsgSendI(sendEp: u32, recvEp: u32, size: u32, dev: Device, payload: u32)
      returns (status: Status, request: Option<nat>)
      requires Scannable()
      modifies this`emptyHead, this`currCount, requests
      ensures Scannable()
      ensures Result(Table(), Outcome(false, status, request, None)) ==
              Step(old(Table()), SendI(old(FoundHandle(domains[0], sendEp)), sendEp, recvEp, size, dev, payload))
    {
      ghost var call := SendI(FoundHandle(domains[0], sendEp), sendEp, recvEp, size, dev, payload);
      ghost var before := Table();
      request := ReserveRequest();
      if request.None? {
        return ErrRequestLimit, None;
      }
      var id := request.value;
      ghost var reserved := Table().db;
      var f := Decode(sendEp);
      var index := GetPortIndex(f.node, f.port);
      if index >= MCAPI_MAX_ENDPOINTS {
        return ErrEndpInvalid, request;
      }
      status := RecordAnswer(id, dev);
      SetUpRequest(id, sendEp, recvEp, 0, size, payload, Send);
      ghost var marked := reserved.requests[id].(completed := dev.Ok?);
      assert requests[..] == reserved.requests[id := SetUp(marked, sendEp, recvEp, 0, size, payload, Send)];
      StepKeepsInv(before, call);
    }

    /** The driver writes the length only on success, and then also the sender's node and port. */
    method MsgRecvI(recvEp: u32, buffer: u32, size: u32, dev: Device, len: u32, fromNode: u16, fromPort: u16)
      returns (status: Status, request: Option<nat>)
      requires Scannable()
      modifies this`emptyHead, this`currCount, requests
      ensures Scannable()
      ensures Result(Table(), Outcome(false, status, request, None)) ==
              Step(old(Table()), RecvI(old(FoundHandle(domains[0], recvEp)), recvEp, buffer, size, dev, len,
                                       fromNode, fromPort))
    {
      ghost var call := RecvI(FoundHandle(domains[0], recvEp), recvEp, buffer, size, dev, len, fromNode, fromPort);
      ghost var before := Table();
      request := ReserveRequest();
      if request.None? {
        return ErrRequestLimit, None;
      }
      var id := request.value;
      ghost var reserved := Table().db;
      var f := Decode(recvEp);
      var index := GetPortIndex(f.node, f.port);
      if index >= MCAPI_MAX_ENDPOINTS {
        return ErrEndpInvalid, request;
      }
      var length := if dev.Ok? then len else size;
      status := RecordAnswer(id, dev);
      requests[id] := requests[id].(size := length);
      var sender := Encode(Fields(0, fromNode, fromPort));
      SetUpRequest(id, recvEp, sender, buffer, length, 0, Recv);
      ghost var marked := reserved.requests[id].(completed := dev.Ok?);
      assert requests[..] == reserved.requests[id := SetUp(marked, recvEp, sender, buffer, length, 0, Recv)];
      StepKeepsInv(before, call);
    }

    method TestI(handle: u32, dev: Device, len: u32) returns (rc: bool, status: Status, size: Option<u32>)
      requires Scannable() && handle < UINT16_RANGE && ValidHandle(Table().db, handle)
      modifies this`cells, requests
      ensures Scannable()
      ensures Result(Table(), Outcome(rc, status, None, size)) ==
              Step(old(Table()), Test(handle, true, old(FoundRequest(requests[..], domains[0], handle)), dev, len))
    {
      ghost var call := Test(handle, true, FoundRequest(requests[..], domains[0], handle), dev, len);
      StepKeepsInv(Table(), call);
      size := None;
      if requests[handle].cancelled {
        return false, ErrRequestCancelled, size;
      }
      if requests[handle].completed {
        return true, Success, Some(requests[handle].size);
      }
      if !requests[handle].kind.GetEndpt? {
        var f := Decode(requests[handle].handle);
        var index := GetPortIndex(f.node, f.port);
        if index >= MCAPI_MAX_ENDPOINTS {
          return false, ErrNodeNotInit, size;
        }
      }
      size := Some(len);
      if !dev.Ok? {
        status := if dev.Again? then Pending else ErrGeneral;
        requests[handle] := requests[handle].(completed := false);
        rc := false;
      } else if requests[handle].kind.GetEndpt? {
        cells := cells[requests[handle].buffer := HandleOf(requests[handle].epNode, requests[handle].epPort)];
        requests[handle] := requests[handle].(completed := true);
        rc, status := true, Success;
      } else {
        requests[handle] := requests[handle].(completed := true);
        requests[handle] := requests[handle].(size := len);
        rc, status := true, Success;
      }
      assert Table() == Step(old(Table()), call).state;
    }

    /** Every path past the lookup releases the slot, success, timeout and error alike. */
    method Wait(handle: u32, dev: Device, len: u32) returns (rc: bool, status: Status, size: Option<u32>)
      requires Scannable() && handle < UINT16_RANGE && ValidHandle(Table().db, handle)
      modifies this`emptyHead, this`currCount, this`cells, requests, nextIndex
      ensures Scannable()
      ensures Result(Table(), Outcome(rc, status, None, size)) ==
              Step(old(Table()),
                   Requests.Wait(handle, true, old(FoundRequest(requests[..], domains[0], handle)), dev, len))
    {
      size := None;
      if !requests[handle].kind.GetEndpt? {
        var f := Decode(requests[handle].handle);
        var index := GetPortIndex(f.node, f.port);
        if index >= MCAPI_MAX_ENDPOINTS {
          return false, ErrNodeNotInit, size;
        }
      }
      size := Some(requests[handle].size);
      var released;
      if requests[handle].completed {
        released := RemoveRequest(handle);
        return true, Success, size;
      }
      size := Some(len);
      if !dev.Ok? {
        status := if dev.TimedOut? then Timeout else ErrGeneral;
        released := RemoveRequest(handle);
        return false, status, size;
      }
      if requests[handle].kind.GetEndpt? {
        cells := cells[requests[handle].buffer := HandleOf(requests[handle].epNode, requests[handle].epPort)];
      } else {
        ghost var table := Table().db;
        requests[handle] := requests[handle].(size := len);
        assert Table().db == Put(table, handle, requests[handle]);
        SameFreeListKeepsInv(table, Table().db);
      }
      released := RemoveRequest(handle);
      return true, Success, size;
    }
  }
}
