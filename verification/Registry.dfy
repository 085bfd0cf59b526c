/** Domains, their nodes and the nodes' endpoint tables, with the searches through them. */
module Registry {
  import opened McapiTypes
  import opened Handles

  datatype Endpoint = Endpoint(valid: bool, port: u32, anonymous: bool, open: bool, connected: bool, numAttributes: u32)

  datatype Node = Node(valid: bool, num: u32, numEndpoints: nat, endpoints: seq<Endpoint>)

  datatype Domain = Domain(valid: bool, id: u32, numNodes: nat, nodes: seq<Node>)

  const ZERO_ENDPOINT: Endpoint := Endpoint(false, 0, false, false, false, 0)

  function ZeroEndpoints(): seq<Endpoint> {
    seq(MCAPI_MAX_ENDPOINTS, _ => ZERO_ENDPOINT)
  }

  ghost predicate Sized(reg: seq<Domain>) {
    && |reg| == MCA_MAX_DOMAINS
    && forall d :: 0 <= d < |reg| ==> SizedDomain(reg[d])
  }

  ghost predicate SizedDomain(dom: Domain) {
    && |dom.nodes| == MCA_MAX_NODES
    && forall n :: 0 <= n < |dom.nodes| ==> |dom.nodes[n].endpoints| == MCAPI_MAX_ENDPOINTS
  }

  /** A domain's valid nodes are exactly its first numNodes entries, with distinct numbers, and no endpoint
      is open; a domain is valid exactly when it has a node. */
  ghost predicate DomainInv(dom: Domain) {
    && SizedDomain(dom)
    && dom.numNodes <= MCA_MAX_NODES
    && (dom.valid <==> dom.numNodes > 0)
    && (forall n :: 0 <= n < MCA_MAX_NODES ==> (dom.nodes[n].valid <==> n < dom.numNodes))
    && (forall m, n :: 0 <= m < n < dom.numNodes ==> dom.nodes[m].num != dom.nodes[n].num)
    && (forall n, j :: 0 <= n < MCA_MAX_NODES && 0 <= j < MCAPI_MAX_ENDPOINTS ==> !dom.nodes[n].endpoints[j].open)
  }

  /** Valid domains come first and have distinct ids; unused domains still carry the zero id. */
  ghost predicate RegistryInv(reg: seq<Domain>) {
    && |reg| == MCA_MAX_DOMAINS
    && (forall d :: 0 <= d < |reg| ==> DomainInv(reg[d]))
    && (forall d, e :: 0 <= d < e < |reg| && reg[e].valid ==> reg[d].valid && reg[d].id != reg[e].id)
    && (forall d :: 0 <= d < |reg| && !reg[d].valid ==> reg[d].id == 0)
  }

  /** The domains of zeroed memory. */
  function ZeroRegistry(): (reg: seq<Domain>)
    ensures RegistryInv(reg)
  {
    seq(MCA_MAX_DOMAINS, _ => Domain(false, 0, 0, seq(MCA_MAX_NODES, _ => Node(false, 0, 0, ZeroEndpoints()))))
  }

  // ---------- the searches of add_node ----------

  function FirstWithId(reg: seq<Domain>, id: u32, from: nat): (d: nat)
    requires from <= |reg|
    ensures from <= d <= |reg|
    ensures d < |reg| ==> reg[d].id == id
    ensures forall k :: from <= k < d ==> reg[k].id != id
    decreases |reg| - from
  {
    if from == |reg| || reg[from].id == id then from else FirstWithId(reg, id, from + 1)
  }

  function FirstUnused(reg: seq<Domain>, from: nat): (d: nat)
    requires from <= |reg|
    ensures from <= d <= |reg|
    ensures d < |reg| ==> !reg[d].valid
    ensures forall k :: from <= k < d ==> reg[k].valid
    decreases |reg| - from
  {
    if from == |reg| || !reg[from].valid then from else FirstUnused(reg, from + 1)
  }

  function FirstValidNumbered(nodes: seq<Node>, num: u32, from: nat): (n: nat)
    requires from <= |nodes|
    ensures from <= n <= |nodes|
    ensures n < |nodes| ==> nodes[n].valid && nodes[n].num == num
    ensures forall k :: from <= k < n ==> !(nodes[k].valid && nodes[k].num == num)
    decreases |nodes| - from
  {
    if from == |nodes| || (nodes[from].valid && nodes[from].num == num) then from
    else FirstValidNumbered(nodes, num, from + 1)
  }

  function FirstUnusedNode(nodes: seq<Node>, from: nat): (n: nat)
    requires from <= |nodes|
    ensures from <= n <= |nodes|
    ensures n < |nodes| ==> !nodes[n].valid
    ensures forall k :: from <= k < n ==> nodes[k].valid
    decreases |nodes| - from
  {
    if from == |nodes| || !nodes[from].valid then from else FirstUnusedNode(nodes, from + 1)
  }

  /** The entry add_node works on: the one carrying the id, else the first unused one, else none. */
  function DomainSlot(reg: seq<Domain>, id: u32): nat {
    var d := FirstWithId(reg, id, 0);
    if d < |reg| then d else FirstUnused(reg, 0)
  }

  function WithNode(dom: Domain, id: u32, n: nat, num: u32): Domain
    requires n < |dom.nodes|
  {
    var node := dom.nodes[n].(valid := true, num := num, numEndpoints := 1, endpoints := ZeroEndpoints());
    dom.(id := id, valid := true, numNodes := dom.numNodes + 1, nodes := dom.nodes[n := node])
  }

  /** Registering a node; the limit test looks at the first domain whatever domain is asked for. */
  function AddNode(reg: seq<Domain>, id: u32, num: u32): (bool, seq<Domain>)
    requires Sized(reg)
  {
    var d := DomainSlot(reg, id);
    if reg[0].numNodes == MCA_MAX_NODES || d == |reg| then (false, reg)
    else if FirstValidNumbered(reg[d].nodes, num, 0) < MCA_MAX_NODES then (false, reg)
    else
      var n := FirstUnusedNode(reg[d].nodes, 0);
      if n == MCA_MAX_NODES then (false, reg) else (true, reg[d := WithNode(reg[d], id, n, num)])
  }

  ghost predicate Registered(reg: seq<Domain>, id: u32, num: u32)
    requires Sized(reg)
  {
    exists d, n :: RegisteredAt(reg, id, num, d, n)
  }

  ghost predicate RegisteredAt(reg: seq<Domain>, id: u32, num: u32, d: int, n: int)
    requires Sized(reg)
  {
    && 0 <= d < MCA_MAX_DOMAINS && 0 <= n < MCA_MAX_NODES
    && reg[d].valid && reg[d].id == id && reg[d].nodes[n].valid && reg[d].nodes[n].num == num
  }

  /** Where a domain already in use has room, or, for a new one, where an entry is unused. */
  ghost predicate HasRoom(reg: seq<Domain>, id: u32)
    requires Sized(reg)
  {
    || (exists d :: 0 <= d < |reg| && reg[d].valid && reg[d].id == id && reg[d].numNodes < MCA_MAX_NODES)
    || ((forall d :: 0 <= d < |reg| && reg[d].valid ==> reg[d].id != id) && exists d :: 0 <= d < |reg| && !reg[d].valid)
  }

  /** In a sound registry the search by id finds the valid domain with that id if there is one, and
      otherwise the first unused entry. */
  lemma DomainSlotMeaning(reg: seq<Domain>, id: u32)
    requires RegistryInv(reg)
    ensures var d := DomainSlot(reg, id);
            && (d < |reg| && reg[d].valid ==> reg[d].id == id)
            && (d < |reg| && !reg[d].valid ==>
                && (forall k :: 0 <= k < d ==> reg[k].valid)
                && forall k :: 0 <= k < |reg| && reg[k].valid ==> reg[k].id != id)
            && (d == |reg| ==> forall k :: 0 <= k < |reg| ==> reg[k].valid && reg[k].id != id)
  {
    var d := FirstWithId(reg, id, 0);
    if d < |reg| && !reg[d].valid {
      forall k | 0 <= k < |reg| && reg[k].valid ensures reg[k].id != id && k < d {
        assert k < d;
      }
      forall k | 0 <= k < d ensures reg[k].valid {
        assert reg[k].id != id && id == 0;
      }
    }
  }

  /** The searches of add_node agree with the invariant: unused nodes start at numNodes. */
  lemma UnusedNodeIsNumNodes(dom: Domain)
    requires DomainInv(dom)
    ensures FirstUnusedNode(dom.nodes, 0) == dom.numNodes
  {
  }

  lemma WithNodeKeepsInv(dom: Domain, id: u32, num: u32)
    requires DomainInv(dom) && dom.numNodes < MCA_MAX_NODES
    requires FirstValidNumbered(dom.nodes, num, 0) == MCA_MAX_NODES
    ensures DomainInv(WithNode(dom, id, dom.numNodes, num))
  {
    assert forall n :: 0 <= n < dom.numNodes ==> dom.nodes[n].valid;
  }

  /** Registration keeps the registry sound, and a refused call changes nothing. */
  lemma AddNodeKeepsInv(reg: seq<Domain>, id: u32, num: u32)
    requires RegistryInv(reg)
    ensures RegistryInv(AddNode(reg, id, num).1)
    ensures !AddNode(reg, id, num).0 ==> AddNode(reg, id, num).1 == reg
  {
    var (ok, after) := AddNode(reg, id, num);
    if ok {
      var d := DomainSlot(reg, id);
      DomainSlotMeaning(reg, id);
      UnusedNodeIsNumNodes(reg[d]);
      WithNodeKeepsInv(reg[d], id, num);
    }
  }

  /** A node is accepted exactly when it is not registered yet, its domain has room and the first domain is
      not full. */
  lemma AddNodeAccepts(reg: seq<Domain>, id: u32, num: u32)
    requires RegistryInv(reg)
    ensures AddNode(reg, id, num).0 <==>
            reg[0].numNodes < MCA_MAX_NODES && !Registered(reg, id, num) && HasRoom(reg, id)
  {
    DomainSlotMeaning(reg, id);
    var d := DomainSlot(reg, id);
    if d < |reg| {
      UnusedNodeIsNumNodes(reg[d]);
      var n := FirstValidNumbered(reg[d].nodes, num, 0);
      if n < MCA_MAX_NODES && reg[d].valid {
        assert RegisteredAt(reg, id, num, d, n);
      }
    }
  }

  /** An accepted call registers that node and no other. */
  lemma AddNodeRegisters(reg: seq<Domain>, id: u32, num: u32, i: u32, x: u32)
    requires RegistryInv(reg) && AddNode(reg, id, num).0
    ensures Sized(AddNode(reg, id, num).1)
    ensures Registered(AddNode(reg, id, num).1, i, x) <==> Registered(reg, i, x) || (i == id && x == num)
  {
    AddNodeKeepsInv(reg, id, num);
    DomainSlotMeaning(reg, id);
    var d := DomainSlot(reg, id);
    UnusedNodeIsNumNodes(reg[d]);
    var n := reg[d].numNodes;
    var after := AddNode(reg, id, num).1;
    assert RegisteredAt(after, id, num, d, n);
    if Registered(reg, i, x) {
      var e, m :| RegisteredAt(reg, i, x, e, m);
      assert RegisteredAt(after, i, x, e, m);
    }
    if Registered(after, i, x) && !(i == id && x == num) {
      var e, m :| RegisteredAt(after, i, x, e, m);
      assert RegisteredAt(reg, i, x, e, m);
    }
  }

  /** An accepted call writes one entry, the first unused one of its domain, and nothing else: a valid node
      with that number, one counted endpoint and an empty table. */
  lemma AddNodeWritesOneEntry(reg: seq<Domain>, id: u32, num: u32)
    requires RegistryInv(reg) && AddNode(reg, id, num).0
    ensures var after := AddNode(reg, id, num).1;
            var d := DomainSlot(reg, id);
            && d < |reg| && |after| == |reg|
            && (forall e :: 0 <= e < |reg| && e != d ==> after[e] == reg[e])
            && var n := reg[d].numNodes;
               && n < MCA_MAX_NODES
               && after[d].nodes[n] ==
                  Node(true, num, 1, seq(MCAPI_MAX_ENDPOINTS, _ => Endpoint(false, 0, false, false, false, 0)))
               && after[d] == Domain(true, id, n + 1, reg[d].nodes[n := after[d].nodes[n]])
  {
    DomainSlotMeaning(reg, id);
    UnusedNodeIsNumNodes(reg[DomainSlot(reg, id)]);
  }

  // ---------- lookups ----------

  /** No node's scan reaches past its endpoint table. */
  ghost predicate ScanBound(dom: Domain) {
    forall n :: 0 <= n < dom.numNodes && n < |dom.nodes| ==> dom.nodes[n].numEndpoints <= MCAPI_MAX_ENDPOINTS
  }

  function FirstNumbered(dom: Domain, num: u32, from: nat): (n: nat)
    requires from <= dom.numNodes <= |dom.nodes|
    ensures from <= n <= dom.numNodes
    ensures n < dom.numNodes ==> dom.nodes[n].num == num
    ensures forall k :: from <= k < n ==> dom.nodes[k].num != num
    decreases dom.numNodes - from
  {
    if from == dom.numNodes || dom.nodes[from].num == num then from else FirstNumbered(dom, num, from + 1)
  }

  predicate Holds(e: Endpoint, port: u32) {
    e.valid && e.port == port
  }

  function FirstPort(node: Node, port: u32, from: nat): (j: nat)
    requires from <= node.numEndpoints <= |node.endpoints|
    ensures from <= j <= node.numEndpoints
    ensures j < node.numEndpoints ==> Holds(node.endpoints[j], port)
    ensures forall k :: from <= k < j ==> !Holds(node.endpoints[k], port)
    decreases node.numEndpoints - from
  {
    if from == node.numEndpoints || Holds(node.endpoints[from], port) then from else FirstPort(node, port, from + 1)
  }

  /** The index of an endpoint in its node's table, or MCAPI_MAX_ENDPOINTS. */
  function PortIndex(dom: Domain, num: u32, port: u32): nat
    requires DomainInv(dom) && ScanBound(dom)
  {
    var n := FirstNumbered(dom, num, 0);
    if n == dom.numNodes then MCAPI_MAX_ENDPOINTS
    else
      var j := FirstPort(dom.nodes[n], port, 0);
      if j == dom.nodes[n].numEndpoints then MCAPI_MAX_ENDPOINTS else j
  }

  /** Entry j of the node with this number is live, within the scan, and holds the port. */
  ghost predicate LiveAt(dom: Domain, num: u32, port: u32, j: nat)
    requires DomainInv(dom)
  {
    exists n :: 0 <= n < dom.numNodes && dom.nodes[n].num == num
                && j < dom.nodes[n].numEndpoints && j < MCAPI_MAX_ENDPOINTS && Holds(dom.nodes[n].endpoints[j], port)
  }

  /** The lookup is the least live index, and the table size exactly when there is none. */
  lemma PortIndexIsLeast(dom: Domain, num: u32, port: u32)
    requires DomainInv(dom) && ScanBound(dom)
    ensures var r := PortIndex(dom, num, port);
            && r <= MCAPI_MAX_ENDPOINTS
            && (r < MCAPI_MAX_ENDPOINTS ==>
                LiveAt(dom, num, port, r) && forall j: nat :: j < r ==> !LiveAt(dom, num, port, j))
            && (r == MCAPI_MAX_ENDPOINTS <==> forall j: nat :: !LiveAt(dom, num, port, j))
  {
    var n := FirstNumbered(dom, num, 0);
    if n < dom.numNodes {
      forall m | 0 <= m < dom.numNodes && dom.nodes[m].num == num ensures m == n {
      }
      var j := FirstPort(dom.nodes[n], port, 0);
      if j < dom.nodes[n].numEndpoints {
        assert LiveAt(dom, num, port, j);
      }
    }
  }

  predicate Found(dom: Domain, num: u32, port: u32)
    requires DomainInv(dom) && ScanBound(dom)
  {
    PortIndex(dom, num, port) < MCAPI_MAX_ENDPOINTS
  }

  /** A lookup succeeds exactly when some entry is live. */
  lemma FoundMeansLive(dom: Domain, num: u32, port: u32)
    requires DomainInv(dom) && ScanBound(dom)
    ensures Found(dom, num, port) <==> exists j: nat :: LiveAt(dom, num, port, j)
  {
    PortIndexIsLeast(dom, num, port);
  }

  /** A new node has no endpoints to find, and every other node of the first domain is looked up as before. */
  lemma AddNodeKeepsLookups(reg: seq<Domain>, id: u32, num: u32, x: u32, port: u32)
    requires RegistryInv(reg) && ScanBound(reg[0]) && AddNode(reg, id, num).0
    ensures var after := AddNode(reg, id, num).1;
            && RegistryInv(after) && ScanBound(after[0])
            && (DomainSlot(reg, id) == 0 && x == num ==> PortIndex(after[0], x, port) == MCAPI_MAX_ENDPOINTS)
            && (DomainSlot(reg, id) != 0 || x != num ==> PortIndex(after[0], x, port) == PortIndex(reg[0], x, port))
  {
    AddNodeKeepsInv(reg, id, num);
    AddNodeWritesOneEntry(reg, id, num);
    var after := AddNode(reg, id, num).1;
    var n, m := FirstNumbered(reg[0], x, 0), FirstNumbered(after[0], x, 0);
    if DomainSlot(reg, id) == 0 && x != num {
      assert n < reg[0].numNodes ==> m == n && after[0].nodes[m] == reg[0].nodes[n];
      assert n == reg[0].numNodes ==> m == after[0].numNodes;
    }
  }

  /** Whether the lookup of an endpoint handle succeeds. */
  predicate FoundHandle(dom: Domain, endpoint: u32)
    requires DomainInv(dom) && ScanBound(dom)
  {
    Found(dom, Decode(endpoint).node, Decode(endpoint).port)
  }

  /** The handle check: only node 0 is accepted, and the entry is then read from the first node. */
  predicate ValidEndpoint(reg: seq<Domain>, handle: u32)
    requires RegistryInv(reg) && ScanBound(reg[0])
  {
    var f := Decode(handle);
    && f.node == MASTER_NODE_NUM
    && var j := PortIndex(reg[0], f.node, f.port);
       j < MCAPI_MAX_ENDPOINTS && reg[0].nodes[0].endpoints[j].valid
  }

  /** Some entry is live for the node and port a handle names: its second byte and its low 16 bits. */
  ghost predicate HandleIsLive(dom: Domain, endpoint: u32)
    requires DomainInv(dom)
  {
    exists j: nat :: LiveAt(dom, endpoint / 0x1_0000 % 0x100, endpoint % 0x1_0000, j)
  }

  lemma FoundHandleMeansLive(dom: Domain, endpoint: u32)
    requires DomainInv(dom) && ScanBound(dom)
    ensures FoundHandle(dom, endpoint) <==> HandleIsLive(dom, endpoint)
  {
    FoundMeansLive(dom, Decode(endpoint).node, Decode(endpoint).port);
  }

  /** A handle is valid exactly when it names node 0, some entry of that node is live with its port, and the
      entry of the first node at the least such index is in use. */
  lemma ValidEndpointExact(reg: seq<Domain>, handle: u32)
    requires RegistryInv(reg) && ScanBound(reg[0])
    ensures var port: u32 := handle % 0x1_0000;
            ValidEndpoint(reg, handle) <==>
            && handle / 0x1_0000 % 0x100 == 0
            && exists j: nat :: LiveAt(reg[0], 0, port, j) && reg[0].nodes[0].endpoints[j].valid
                                && forall i: nat :: i < j ==> !LiveAt(reg[0], 0, port, i)
  {
    var port: u32 := handle % 0x1_0000;
    PortIndexIsLeast(reg[0], 0, port);
    var found := PortIndex(reg[0], 0, port);
    forall j: nat | LiveAt(reg[0], 0, port, j) && forall i: nat :: i < j ==> !LiveAt(reg[0], 0, port, i)
      ensures j == found
    {
      assert !(found < j) && !(j < found);
    }
  }

  // ---------- create and delete ----------

  ghost predicate Local(reg: seq<Domain>) {
    RegistryInv(reg) && reg[0].valid
  }

  predicate FreeIndex(reg: seq<Domain>, idx: nat)
    requires Local(reg)
  {
    idx < MCAPI_MAX_ENDPOINTS && !reg[0].nodes[0].endpoints[idx].valid
  }

  function SetNode(reg: seq<Domain>, n: nat, node: Node): seq<Domain>
    requires Sized(reg) && n < MCA_MAX_NODES
  {
    reg[0 := reg[0].(nodes := reg[0].nodes[n := node])]
  }

  /** Creation on the local node, at the index the driver chose; the endpoint count is a 16-bit field. */
  function Create(reg: seq<Domain>, port: u32, anonymous: bool, idx: nat): seq<Domain>
    requires Local(reg) && FreeIndex(reg, idx)
  {
    var node := reg[0].nodes[0];
    var entry := node.endpoints[idx].(valid := true, port := port, open := false, anonymous := anonymous,
                                      numAttributes := 0);
    SetNode(reg, 0, node.(endpoints := node.endpoints[idx := entry],
                          numEndpoints := (node.numEndpoints + 1) % UINT16_RANGE))
  }

  function CreatedHandle(reg: seq<Domain>, port: u32): u32
    requires Local(reg)
  {
    HandleOf(reg[0].nodes[0].num, port)
  }

  /** Deletion zeroes the entry the lookup finds and leaves the endpoint count alone. */
  function Delete(reg: seq<Domain>, handle: u32): seq<Domain>
    requires RegistryInv(reg) && ScanBound(reg[0])
    requires FirstNumbered(reg[0], Decode(handle).node, 0) < reg[0].numNodes
  {
    var f := Decode(handle);
    var n := FirstNumbered(reg[0], f.node, 0);
    var j := PortIndex(reg[0], f.node, f.port);
    if j >= MCAPI_MAX_ENDPOINTS then reg
    else
      var node := reg[0].nodes[n];
      SetNode(reg, n, node.(endpoints := node.endpoints[j := ZERO_ENDPOINT]))
  }

  /** A valid handle names a registered node, so deletion is defined for it. */
  lemma ValidEndpointHasNode(reg: seq<Domain>, handle: u32)
    requires RegistryInv(reg) && ScanBound(reg[0]) && ValidEndpoint(reg, handle)
    ensures reg[0].valid && FirstNumbered(reg[0], Decode(handle).node, 0) < reg[0].numNodes
  {
  }

  lemma CreateKeepsInv(reg: seq<Domain>, port: u32, anonymous: bool, idx: nat)
    requires Local(reg) && FreeIndex(reg, idx)
    ensures Local(Create(reg, port, anonymous, idx))
  {
    assert DomainInv(Create(reg, port, anonymous, idx)[0]);
  }

  lemma DeleteKeepsInv(reg: seq<Domain>, handle: u32)
    requires RegistryInv(reg) && ScanBound(reg[0])
    requires FirstNumbered(reg[0], Decode(handle).node, 0) < reg[0].numNodes
    ensures RegistryInv(Delete(reg, handle)) && ScanBound(Delete(reg, handle)[0])
  {
    assert DomainInv(Delete(reg, handle)[0]);
  }

  /** Creation writes the chosen entry and the count of the first node, and nothing else. */
  lemma CreateWritesOneEntry(reg: seq<Domain>, port: u32, anonymous: bool, idx: nat)
    requires Local(reg) && FreeIndex(reg, idx)
    ensures var after := Create(reg, port, anonymous, idx);
            var (before, node) := (reg[0].nodes[0], after[0].nodes[0]);
            && |after| == |reg| && (forall d :: 0 < d < |reg| ==> after[d] == reg[d])
            && after[0] == reg[0].(nodes := reg[0].nodes[0 := node])
            && node.valid == before.valid && node.num == before.num
            && node.numEndpoints == (before.numEndpoints + 1) % 0x1_0000
            && node.endpoints == before.endpoints[idx := node.endpoints[idx]]
            && node.endpoints[idx] ==
               Endpoint(true, port, anonymous, false, before.endpoints[idx].connected, 0)
  {
  }

  /** Deletion zeroes the entry the lookup finds, in the first node with the handle's number, and nothing
      else; if the lookup finds none, nothing at all. */
  lemma DeleteClearsOneEntry(reg: seq<Domain>, handle: u32)
    requires RegistryInv(reg) && ScanBound(reg[0])
    requires FirstNumbered(reg[0], Decode(handle).node, 0) < reg[0].numNodes
    ensures var after := Delete(reg, handle);
            var n := FirstNumbered(reg[0], handle / 0x1_0000 % 0x100, 0);
            var j := PortIndex(reg[0], handle / 0x1_0000 % 0x100, handle % 0x1_0000);
            if j == MCAPI_MAX_ENDPOINTS then after == reg
            else
              && n < MCA_MAX_NODES && j < MCAPI_MAX_ENDPOINTS && |after| == |reg|
              && (forall d :: 0 < d < |reg| ==> after[d] == reg[d])
              && var node := reg[0].nodes[n];
                 after[0] == reg[0].(nodes := reg[0].nodes[n := node.(endpoints :=
                   node.endpoints[j := Endpoint(false, 0, false, false, false, 0)])])
  {
    PortIndexIsLeast(reg[0], Decode(handle).node, Decode(handle).port);
  }

  /** With node 0 in the first slot, the node a lookup for node 0 scans is the first one. */
  ghost predicate MasterFirst(reg: seq<Domain>) {
    Local(reg) && reg[0].nodes[0].num == MASTER_NODE_NUM && ScanBound(reg[0])
  }

  lemma MasterLookup(reg: seq<Domain>, port: u32)
    requires MasterFirst(reg)
    ensures var node := reg[0].nodes[0];
            var j := FirstPort(node, port, 0);
            PortIndex(reg[0], MASTER_NODE_NUM, port) == if j == node.numEndpoints then MCAPI_MAX_ENDPOINTS else j
  {
  }

  ghost predicate PortInUse(node: Node, port: u32) {
    exists j :: 0 <= j < |node.endpoints| && Holds(node.endpoints[j], port)
  }

  /** A freshly created handle looks up the new entry exactly when its port fits in 16 bits and the driver's
      index lies within the grown scan. */
  lemma CreatedIsFound(reg: seq<Domain>, port: u32, idx: nat)
    requires MasterFirst(reg) && FreeIndex(reg, idx) && !PortInUse(reg[0].nodes[0], port)
    requires reg[0].nodes[0].numEndpoints < MCAPI_MAX_ENDPOINTS
    ensures var after := Create(reg, port, false, idx);
            var f := Decode(CreatedHandle(reg, port));
            && MasterFirst(after) && f.node == MASTER_NODE_NUM
            && (PortIndex(after[0], f.node, f.port) == idx <==> port < 0x1_0000 && idx <= reg[0].nodes[0].numEndpoints)
            && (PortIndex(after[0], f.node, f.port) == idx ==> ValidEndpoint(after, CreatedHandle(reg, port)))
  {
    var after := Create(reg, port, false, idx);
    CreateKeepsInv(reg, port, false, idx);
    HandleOfDecodes(reg[0].nodes[0].num, port);
    var f := Decode(CreatedHandle(reg, port));
    MasterLookup(after, f.port);
    var node := after[0].nodes[0];
    assert Holds(node.endpoints[idx], f.port) <==> port < 0x1_0000;
    if port < 0x1_0000 {
      forall j | 0 <= j < MCAPI_MAX_ENDPOINTS && j != idx ensures !Holds(node.endpoints[j], port) {
        assert node.endpoints[j] == reg[0].nodes[0].endpoints[j];
      }
    }
  }

  /** Creating an endpoint changes the lookup of another port in exactly one way: it brings into reach a live
      entry that held that port just past the scan, when no entry within the scan did. */
  lemma CreateKeepsOtherLookups(reg: seq<Domain>, port: u32, idx: nat, other: u32)
    requires MasterFirst(reg) && FreeIndex(reg, idx) && other != port
    requires reg[0].nodes[0].numEndpoints < MCAPI_MAX_ENDPOINTS
    ensures var after := Create(reg, port, false, idx);
            var node := reg[0].nodes[0];
            var before := PortIndex(reg[0], MASTER_NODE_NUM, other);
            && MasterFirst(after)
            && (PortIndex(after[0], MASTER_NODE_NUM, other) == before <==>
                !(Holds(node.endpoints[node.numEndpoints], other) && before == MCAPI_MAX_ENDPOINTS))
  {
    var after := Create(reg, port, false, idx);
    CreateKeepsInv(reg, port, false, idx);
    MasterLookup(reg, other);
    MasterLookup(after, other);
    forall j | 0 <= j < MCAPI_MAX_ENDPOINTS
      ensures Holds(after[0].nodes[0].endpoints[j], other) <==> Holds(reg[0].nodes[0].endpoints[j], other)
    {
    }
  }

  /** After a deletion the handle stays valid exactly when another live entry within the scan holds the same
      port; every other port is looked up as before. */
  lemma DeletedLookups(reg: seq<Domain>, handle: u32, other: u32)
    requires MasterFirst(reg) && ValidEndpoint(reg, handle) && other != Decode(handle).port
    ensures FirstNumbered(reg[0], Decode(handle).node, 0) < reg[0].numNodes
    ensures var after := Delete(reg, handle);
            var f := Decode(handle);
            var node := reg[0].nodes[0];
            && MasterFirst(after)
            && (ValidEndpoint(after, handle) <==>
                exists j :: 0 <= j < node.numEndpoints && j != PortIndex(reg[0], f.node, f.port)
                            && Holds(node.endpoints[j], f.port))
            && PortIndex(after[0], MASTER_NODE_NUM, other) == PortIndex(reg[0], MASTER_NODE_NUM, other)
  {
    ValidEndpointHasNode(reg, handle);
    DeleteKeepsInv(reg, handle);
    var after := Delete(reg, handle);
    var f := Decode(handle);
    MasterLookup(reg, f.port);
    MasterLookup(after, f.port);
    MasterLookup(reg, other);
    MasterLookup(after, other);
    var gone := PortIndex(reg[0], f.node, f.port);
    forall j | 0 <= j < MCAPI_MAX_ENDPOINTS
      ensures Holds(after[0].nodes[0].endpoints[j], f.port) <==>
              j != gone && Holds(reg[0].nodes[0].endpoints[j], f.port)
      ensures Holds(after[0].nodes[0].endpoints[j], other) <==> Holds(reg[0].nodes[0].endpoints[j], other)
    {
    }
  }
}
