/** What holds of the registry over every run of node registrations, endpoint creations and deletions from
    zeroed memory. */
module RegistryRuns {
  import opened McapiTypes
  import opened Registry
  import RequestPool

  datatype RegCall =
    | NodeAdded(id: u32, num: u32)
    | Created(port: u32, idx: nat)   // idx is the driver's choice
    | Deleted(handle: u32)

  /** Creation relies on the driver for a free index; deletion relies on the scans staying in the tables. */
  ghost predicate Enabled(reg: seq<Domain>, c: RegCall)
    requires RegistryInv(reg)
  {
    match c
    case NodeAdded(_, _) => true
    case Created(_, idx) => Local(reg) ==> FreeIndex(reg, idx)
    case Deleted(_) => ScanBound(reg[0])
  }

  /** One public call: creation before initialisation and deletion of an invalid handle change nothing. */
  ghost function RegStep(reg: seq<Domain>, c: RegCall): seq<Domain>
    requires RegistryInv(reg) && Enabled(reg, c)
  {
    match c
    case NodeAdded(id, num) => AddNode(reg, id, num).1
    case Created(port, idx) => if reg[0].valid then Create(reg, port, false, idx) else reg
    case Deleted(handle) =>
      if ValidEndpoint(reg, handle) then
        ValidEndpointHasNode(reg, handle);
        Delete(reg, handle)
      else reg
  }

  lemma RegStepKeepsInv(reg: seq<Domain>, c: RegCall)
    requires RegistryInv(reg) && Enabled(reg, c)
    ensures RegistryInv(RegStep(reg, c))
  {
    match c
    case NodeAdded(id, num) => AddNodeKeepsInv(reg, id, num);
    case Created(port, idx) =>
      if reg[0].valid {
        CreateKeepsInv(reg, port, false, idx);
      }
    case Deleted(handle) =>
      if ValidEndpoint(reg, handle) {
        ValidEndpointHasNode(reg, handle);
        DeleteKeepsInv(reg, handle);
      }
  }

  ghost predicate RunOk(reg: seq<Domain>, run: seq<RegCall>)
    requires RegistryInv(reg)
    decreases |run|
  {
    run != [] ==>
      && Enabled(reg, run[0])
      && (RegStepKeepsInv(reg, run[0]);
          RunOk(RegStep(reg, run[0]), run[1..]))
  }

  ghost function RegExec(reg: seq<Domain>, run: seq<RegCall>): (r: seq<Domain>)
    requires RegistryInv(reg) && RunOk(reg, run)
    ensures RegistryInv(r)
    decreases |run|
  {
    if run == [] then reg
    else
      RegStepKeepsInv(reg, run[0]);
      RegExec(RegStep(reg, run[0]), run[1..])
  }

  /** 1 for a creation that is not refused, 0 for every other call. */
  ghost function Adds(reg: seq<Domain>, c: RegCall): nat
    requires RegistryInv(reg)
  {
    if c.Created? && reg[0].valid then 1 else 0
  }

  /** Creations that were not refused, counted over the run. */
  ghost function Creates(reg: seq<Domain>, run: seq<RegCall>): nat
    requires RegistryInv(reg) && RunOk(reg, run)
    decreases |run|
  {
    if run == [] then 0
    else
      RegStepKeepsInv(reg, run[0]);
      Adds(reg, run[0]) + Creates(RegStep(reg, run[0]), run[1..])
  }

  /** The endpoint counts after `creates` creations: 1 plus the creations in 16 bits on the local node, 1 on
      every other node, 0 where there is no node. */
  ghost predicate Counted(reg: seq<Domain>, creates: nat)
    requires Sized(reg)
  {
    && (creates > 0 ==> reg[0].valid)
    && forall d, n :: 0 <= d < MCA_MAX_DOMAINS && 0 <= n < MCA_MAX_NODES ==>
         reg[d].nodes[n].numEndpoints ==
         if !reg[d].nodes[n].valid then 0 else if d == 0 && n == 0 then (1 + creates) % UINT16_RANGE else 1
  }

  lemma AddCounted(reg: seq<Domain>, id: u32, num: u32, creates: nat)
    requires RegistryInv(reg) && Counted(reg, creates)
    requires reg[0].valid || creates == 0
    ensures Counted(AddNode(reg, id, num).1, creates)
  {
    if AddNode(reg, id, num).0 {
      DomainSlotMeaning(reg, id);
      UnusedNodeIsNumNodes(reg[DomainSlot(reg, id)]);
    }
  }

  lemma CreateCounted(reg: seq<Domain>, port: u32, idx: nat, creates: nat)
    requires Local(reg) && FreeIndex(reg, idx) && Counted(reg, creates)
    ensures Counted(Create(reg, port, false, idx), creates + 1)
  {
    assert reg[0].nodes[0].valid;
  }

  lemma StepCounted(reg: seq<Domain>, c: RegCall, creates: nat)
    requires RegistryInv(reg) && Enabled(reg, c) && Counted(reg, creates)
    ensures RegistryInv(RegStep(reg, c))
    ensures Counted(RegStep(reg, c), creates + Adds(reg, c))
  {
    RegStepKeepsInv(reg, c);
    match c
    case NodeAdded(id, num) => AddCounted(reg, id, num, creates);
    case Created(port, idx) =>
      if reg[0].valid {
        CreateCounted(reg, port, idx, creates);
      }
    case Deleted(handle) =>
      if ValidEndpoint(reg, handle) {
        ValidEndpointHasNode(reg, handle);
      }
  }

  lemma {:induction false} RunCounted(reg: seq<Domain>, run: seq<RegCall>, creates: nat)
    requires RegistryInv(reg) && RunOk(reg, run) && Counted(reg, creates)
    ensures Counted(RegExec(reg, run), creates + Creates(reg, run))
    decreases |run|
  {
    if run == [] {
    } else {
      StepCounted(reg, run[0], creates);
      RunCounted(RegStep(reg, run[0]), run[1..], creates + Adds(reg, run[0]));
    }
  }

  /** The live entries of the local node's table. */
  ghost function Live(reg: seq<Domain>): set<int>
    requires Sized(reg)
  {
    set j | 0 <= j < MCAPI_MAX_ENDPOINTS && reg[0].nodes[0].endpoints[j].valid
  }

  lemma LiveBounded(reg: seq<Domain>)
    requires Sized(reg)
    ensures |Live(reg)| <= MCAPI_MAX_ENDPOINTS
  {
    var all := RequestPool.UpTo(MCAPI_MAX_ENDPOINTS);
    assert all == Live(reg) + (all - Live(reg));
  }

  /** Beyond MCAPI_MAX_ENDPOINTS - 1 creations nothing can be deleted, so every further one fills an entry. */
  ghost predicate Within(reg: seq<Domain>, creates: nat)
    requires Sized(reg)
  {
    creates <= MCAPI_MAX_ENDPOINTS - 1 + |Live(reg)|
  }

  lemma StepWithin(reg: seq<Domain>, c: RegCall, creates: nat)
    requires RegistryInv(reg) && Enabled(reg, c) && Counted(reg, creates) && Within(reg, creates)
    ensures RegistryInv(RegStep(reg, c))
    ensures Within(RegStep(reg, c), creates + Adds(reg, c))
  {
    RegStepKeepsInv(reg, c);
    LiveBounded(reg);
    match c
    case NodeAdded(id, num) =>
      if AddNode(reg, id, num).0 {
        DomainSlotMeaning(reg, id);
        UnusedNodeIsNumNodes(reg[DomainSlot(reg, id)]);
        if reg[0].valid {
          assert Live(RegStep(reg, c)) == Live(reg);
        }
      }
    case Created(port, idx) =>
      if reg[0].valid {
        assert Live(RegStep(reg, c)) == Live(reg) + {idx};
      }
    case Deleted(handle) =>
      CountedScans(reg, creates);
  }

  lemma {:induction false} RunWithin(reg: seq<Domain>, run: seq<RegCall>, creates: nat)
    requires RegistryInv(reg) && RunOk(reg, run) && Counted(reg, creates) && Within(reg, creates)
    ensures Within(RegExec(reg, run), creates + Creates(reg, run))
    decreases |run|
  {
    if run == [] {
    } else {
      StepWithin(reg, run[0], creates);
      StepCounted(reg, run[0], creates);
      RunWithin(RegStep(reg, run[0]), run[1..], creates + Adds(reg, run[0]));
    }
  }

  /** Short of 16-bit wrap-around, counting creations is reading the endpoint count. */
  lemma CountedScans(reg: seq<Domain>, creates: nat)
    requires RegistryInv(reg) && Counted(reg, creates) && creates < UINT16_RANGE - 1
    ensures reg[0].valid ==> reg[0].nodes[0].numEndpoints == 1 + creates
    ensures ScanBound(reg[0]) <==> creates <= MCAPI_MAX_ENDPOINTS - 1
  {
    if reg[0].valid {
      assert reg[0].nodes[0].valid;
    }
  }

  /** What holds from any registry in which nothing was created yet: the endpoint count is 1 plus the
      creations, of which there can be at most 2 * MCAPI_MAX_ENDPOINTS - 1, so the 16-bit field never wraps;
      and the scans stay inside the tables exactly when there were at most MCAPI_MAX_ENDPOINTS - 1. */
  lemma RunSound(reg: seq<Domain>, run: seq<RegCall>)
    requires RegistryInv(reg) && RunOk(reg, run) && Counted(reg, 0)
    ensures var creates := Creates(reg, run);
            var after := RegExec(reg, run);
            && RegistryInv(after) && Counted(after, creates)
            && creates <= 2 * MCAPI_MAX_ENDPOINTS - 1
            && (after[0].valid ==> after[0].nodes[0].numEndpoints == 1 + creates)
            && (ScanBound(after[0]) <==> creates <= MCAPI_MAX_ENDPOINTS - 1)
  {
    RunCounted(reg, run, 0);
    RunWithin(reg, run, 0);
    LiveBounded(RegExec(reg, run));
    CountedScans(RegExec(reg, run), Creates(reg, run));
  }

  /** The same for every run from zeroed memory. */
  lemma ReachableRegistry(run: seq<RegCall>)
    requires RunOk(ZeroRegistry(), run)
    ensures var creates := Creates(ZeroRegistry(), run);
            var reg := RegExec(ZeroRegistry(), run);
            && RegistryInv(reg)
            && creates <= 2 * MCAPI_MAX_ENDPOINTS - 1
            && (reg[0].valid ==> reg[0].nodes[0].numEndpoints == 1 + creates)
            && (ScanBound(reg[0]) <==> creates <= MCAPI_MAX_ENDPOINTS - 1)
  {
    RunSound(ZeroRegistry(), run);
  }

  // ---------- a driver that picks the lowest free index ----------

  ghost predicate LowestIndex(reg: seq<Domain>, c: RegCall)
    requires RegistryInv(reg) && Enabled(reg, c)
  {
    c.Created? && reg[0].valid ==> forall j :: 0 <= j < c.idx ==> reg[0].nodes[0].endpoints[j].valid
  }

  ghost predicate LowestIndexRun(reg: seq<Domain>, run: seq<RegCall>)
    requires RegistryInv(reg) && RunOk(reg, run)
    decreases |run|
  {
    run != [] ==>
      && LowestIndex(reg, run[0])
      && (RegStepKeepsInv(reg, run[0]);
          LowestIndexRun(RegStep(reg, run[0]), run[1..]))
  }

  /** Live entries lie below the number of creations. */
  ghost predicate Compact(reg: seq<Domain>, creates: nat)
    requires RegistryInv(reg)
  {
    forall j :: 0 <= j < MCAPI_MAX_ENDPOINTS && reg[0].nodes[0].endpoints[j].valid ==> j < creates
  }

  lemma StepCompact(reg: seq<Domain>, c: RegCall, creates: nat)
    requires RegistryInv(reg) && Enabled(reg, c) && LowestIndex(reg, c) && Compact(reg, creates)
    ensures RegistryInv(RegStep(reg, c))
    ensures Compact(RegStep(reg, c), creates + Adds(reg, c))
  {
    RegStepKeepsInv(reg, c);
    match c
    case NodeAdded(id, num) =>
      if AddNode(reg, id, num).0 {
        DomainSlotMeaning(reg, id);
        UnusedNodeIsNumNodes(reg[DomainSlot(reg, id)]);
      }
    case Created(port, idx) =>
      assert creates < MCAPI_MAX_ENDPOINTS ==> !reg[0].nodes[0].endpoints[creates].valid;
    case Deleted(handle) =>
      if ValidEndpoint(reg, handle) {
        ValidEndpointHasNode(reg, handle);
      }
  }

  lemma {:induction false} RunCompact(reg: seq<Domain>, run: seq<RegCall>, creates: nat)
    requires RegistryInv(reg) && RunOk(reg, run) && LowestIndexRun(reg, run) && Compact(reg, creates)
    ensures Compact(RegExec(reg, run), creates + Creates(reg, run))
    decreases |run|
  {
    if run == [] {
    } else {
      StepCompact(reg, run[0], creates);
      RunCompact(RegStep(reg, run[0]), run[1..], creates + Adds(reg, run[0]));
    }
  }

  lemma LiveIsReached(reg: seq<Domain>, j: nat)
    requires RegistryInv(reg) && ScanBound(reg[0]) && reg[0].valid
    requires j < reg[0].nodes[0].numEndpoints && reg[0].nodes[0].endpoints[j].valid
    ensures var node := reg[0].nodes[0];
            var found := PortIndex(reg[0], node.num, node.endpoints[j].port);
            && found <= j
            && (found == j <==> forall k :: 0 <= k < j ==> !Holds(node.endpoints[k], node.endpoints[j].port))
  {
    var node := reg[0].nodes[0];
    assert Holds(node.endpoints[j], node.endpoints[j].port);
    assert FirstPort(node, node.endpoints[j].port, 0) <= j;
  }

  /** With a driver that gives the lowest free index, after any run, ports reused or not, every live endpoint
      of the local node lies below num_endpoints.  So while at most MCAPI_MAX_ENDPOINTS - 1 endpoints were
      created the lookup of its port reaches it: it gives an index no higher, and this very index exactly
      when no lower entry holds the port. */
  lemma EveryLiveEndpointIsReached(run: seq<RegCall>, j: nat)
    requires RunOk(ZeroRegistry(), run) && LowestIndexRun(ZeroRegistry(), run)
    requires j < MCAPI_MAX_ENDPOINTS && RegExec(ZeroRegistry(), run)[0].nodes[0].endpoints[j].valid
    ensures var dom := RegExec(ZeroRegistry(), run)[0];
            var node := dom.nodes[0];
            && j < node.numEndpoints
            && (Creates(ZeroRegistry(), run) <= MCAPI_MAX_ENDPOINTS - 1 ==>
                && ScanBound(dom)
                && var found := PortIndex(dom, node.num, node.endpoints[j].port);
                   && found <= j
                   && (found == j <==> forall k :: 0 <= k < j ==> !Holds(node.endpoints[k], node.endpoints[j].port)))
  {
    RunSound(ZeroRegistry(), run);
    RunCompact(ZeroRegistry(), run, 0);
    var reg := RegExec(ZeroRegistry(), run);
    if ScanBound(reg[0]) {
      LiveIsReached(reg, j);
    }
  }

  // ---------- a client that reuses no live port ----------

  ghost predicate FreshPort(reg: seq<Domain>, c: RegCall)
    requires RegistryInv(reg) && Enabled(reg, c)
  {
    c.Created? && reg[0].valid ==> !PortInUse(reg[0].nodes[0], c.port)
  }

  ghost predicate FreshPortRun(reg: seq<Domain>, run: seq<RegCall>)
    requires RegistryInv(reg) && RunOk(reg, run)
    decreases |run|
  {
    run != [] ==>
      && FreshPort(reg, run[0])
      && (RegStepKeepsInv(reg, run[0]);
          FreshPortRun(RegStep(reg, run[0]), run[1..]))
  }

  ghost predicate UniquePorts(reg: seq<Domain>)
    requires RegistryInv(reg)
  {
    var table := reg[0].nodes[0].endpoints;
    forall j, k :: 0 <= j < k < MCAPI_MAX_ENDPOINTS && table[j].valid && table[k].valid ==>
      table[j].port != table[k].port
  }

  lemma StepUnique(reg: seq<Domain>, c: RegCall)
    requires RegistryInv(reg) && Enabled(reg, c) && FreshPort(reg, c) && UniquePorts(reg)
    ensures RegistryInv(RegStep(reg, c)) && UniquePorts(RegStep(reg, c))
  {
    RegStepKeepsInv(reg, c);
    var table := reg[0].nodes[0].endpoints;
    match c
    case NodeAdded(id, num) =>
      if AddNode(reg, id, num).0 {
        DomainSlotMeaning(reg, id);
        UnusedNodeIsNumNodes(reg[DomainSlot(reg, id)]);
      }
    case Created(port, idx) =>
      assert reg[0].valid ==> forall j :: 0 <= j < MCAPI_MAX_ENDPOINTS ==> !Holds(table[j], port);
    case Deleted(handle) =>
      if ValidEndpoint(reg, handle) {
        ValidEndpointHasNode(reg, handle);
      }
  }

  lemma {:induction false} RunUnique(reg: seq<Domain>, run: seq<RegCall>)
    requires RegistryInv(reg) && RunOk(reg, run) && FreshPortRun(reg, run) && UniquePorts(reg)
    ensures UniquePorts(RegExec(reg, run))
    decreases |run|
  {
    if run == [] {
    } else {
      StepUnique(reg, run[0]);
      RunUnique(RegStep(reg, run[0]), run[1..]);
    }
  }

  /** If moreover no live port is reused, every live endpoint is looked up at its own index. */
  lemma EveryLiveEndpointIsFound(run: seq<RegCall>, j: nat)
    requires RunOk(ZeroRegistry(), run) && LowestIndexRun(ZeroRegistry(), run) && FreshPortRun(ZeroRegistry(), run)
    requires Creates(ZeroRegistry(), run) <= MCAPI_MAX_ENDPOINTS - 1
    requires j < MCAPI_MAX_ENDPOINTS && RegExec(ZeroRegistry(), run)[0].nodes[0].endpoints[j].valid
    ensures var dom := RegExec(ZeroRegistry(), run)[0];
            ScanBound(dom) && PortIndex(dom, dom.nodes[0].num, dom.nodes[0].endpoints[j].port) == j
  {
    EveryLiveEndpointIsReached(run, j);
    RunUnique(ZeroRegistry(), run);
  }

  /** For every driver and every run within the scan bound: a live endpoint is looked up at its own index
      exactly when that index is at most the number of creations and no lower entry holds its port. */
  lemma LookupFindsOwnIndex(run: seq<RegCall>, j: nat)
    requires RunOk(ZeroRegistry(), run) && Creates(ZeroRegistry(), run) <= MCAPI_MAX_ENDPOINTS - 1
    requires RegExec(ZeroRegistry(), run)[0].valid
    requires j < MCAPI_MAX_ENDPOINTS && RegExec(ZeroRegistry(), run)[0].nodes[0].endpoints[j].valid
    ensures var dom := RegExec(ZeroRegistry(), run)[0];
            var node := dom.nodes[0];
            && ScanBound(dom)
            && (PortIndex(dom, node.num, node.endpoints[j].port) == j <==>
                && j <= Creates(ZeroRegistry(), run)
                && forall k :: 0 <= k < j ==> !Holds(node.endpoints[k], node.endpoints[j].port))
  {
    RunSound(ZeroRegistry(), run);
    var reg := RegExec(ZeroRegistry(), run);
    if j < reg[0].nodes[0].numEndpoints {
      LiveIsReached(reg, j);
    }
  }

  /** So without the lowest-index driver a live endpoint can be out of reach: the first creation at any index
      past 1 is not found. */
  lemma HighIndexIsLost(num: u32, port: u32, idx: nat)
    requires 2 <= idx < MCAPI_MAX_ENDPOINTS
    ensures var reg := AddNode(ZeroRegistry(), 0, num).1;
            && Local(reg) && FreeIndex(reg, idx)
            && var dom := Create(reg, port, false, idx)[0];
               && DomainInv(dom) && ScanBound(dom) && dom.nodes[0].endpoints[idx].valid
               && PortIndex(dom, num, port) == MCAPI_MAX_ENDPOINTS
  {
    AddNodeKeepsInv(ZeroRegistry(), 0, num);
    var reg := AddNode(ZeroRegistry(), 0, num).1;
    assert FirstWithId(ZeroRegistry(), 0, 0) == 0;
    UnusedNodeIsNumNodes(ZeroRegistry()[0]);
    assert reg[0] == WithNode(ZeroRegistry()[0], 0, 0, num);
    CreateKeepsInv(reg, port, false, idx);
  }
}
