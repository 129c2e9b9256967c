/**
 Mock nodes that reject a second peer with the same address, their connection counters, and
 the topologies a test scenario builds from them.
 */
module MockNetwork {

  datatype NodeState = Stopped | Running

  // `id` is a random identifier, chosen by the caller of AddPeer here.
  datatype MockPeer = MockPeer(id: string, address: string)

  // The fields of a node.
  datatype NodeView = NodeView(state: NodeState, peers: seq<MockPeer>, total: nat, active: nat)

  const NEW_NODE := NodeView(Stopped, [], 0, 0)

  predicate Connected(peers: seq<MockPeer>, address: string) {
    exists i :: 0 <= i < |peers| && peers[i].address == address
  }

  function Addresses(peers: seq<MockPeer>): (r: seq<string>)
    ensures |r| == |peers|
    ensures forall a :: a in r <==> Connected(peers, a)
  {
    var r := seq(|peers|, i requires 0 <= i < |peers| => peers[i].address);
    assert forall i | 0 <= i < |peers| :: r[i] == peers[i].address;
    r
  }

  function Retained(peers: seq<MockPeer>, id: string): (r: seq<MockPeer>)
    ensures |r| <= |peers|
    ensures forall p :: p in r <==> p in peers && p.id != id
    ensures |r| == |peers| ==> r == peers
  {
    if peers == [] then []
    else
      var rest := Retained(peers[..|peers| - 1], id);
      var last := peers[|peers| - 1];
      assert peers == peers[..|peers| - 1] + [last];
      if last.id != id then rest + [last] else rest
  }

  function AfterAdd(v: NodeView, id: string, address: string): NodeView {
    if Connected(v.peers, address) then v
    else v.(peers := v.peers + [MockPeer(id, address)], total := v.total + 1, active := v.active + 1)
  }

  function AfterRemove(v: NodeView, id: string): NodeView {
    var rest := Retained(v.peers, id);
    if |rest| == |v.peers| then v
    else v.(peers := rest, active := if v.active == 0 then 0 else v.active - 1)
  }

  function AfterStart(v: NodeView): NodeView {
    if v.state.Stopped? then v.(state := Running) else v
  }

  // Stopping drops the peers but does not touch the counters.
  function AfterStop(v: NodeView): NodeView {
    if v.state.Running? then v.(state := Stopped, peers := []) else v
  }

  class MockNode {
    const id: string
    var state: NodeState
    var peers: seq<MockPeer>
    var totalConnections: nat
    var activeConnections: nat

    ghost function View(): NodeView
      reads this
    {
      NodeView(state, peers, totalConnections, activeConnections)
    }

    constructor (id: string)
      ensures this.id == id && View() == NEW_NODE
    {
      this.id := id;
      state, peers := Stopped, [];
      totalConnections, activeConnections := 0, 0;
    }

    method Start() returns (ok: bool)
      modifies this
      ensures ok == old(View()).state.Stopped?
      ensures View() == AfterStart(old(View()))
      ensures View() == old(View()).(state := Running)
    {
      ok := state.Stopped?;
      if ok {
        state := Running;
      }
    }

    method Stop() returns (ok: bool)
      modifies this
      ensures ok == old(View()).state.Running?
      ensures View() == AfterStop(old(View()))
      ensures View() == old(View()).(state := Stopped, peers := if ok then [] else old(peers))
    {
      ok := state.Running?;
      if ok {
        state := Stopped;
        peers := [];
      }
    }

    method AddPeer(uuid: string, address: string) returns (ok: bool)
      modifies this
      ensures ok == !Connected(old(View()).peers, address)
      ensures View() == AfterAdd(old(View()), uuid, address)
      ensures ok <==> forall p | p in old(peers) :: p.address != address
      ensures peers == old(peers) + if ok then [MockPeer(uuid, address)] else []
      ensures totalConnections == old(totalConnections) + if ok then 1 else 0
      ensures activeConnections == old(activeConnections) + if ok then 1 else 0
      ensures state == old(state)
    {
      if Connected(peers, address) {
        return false;
      }
      peers := peers + [MockPeer(uuid, address)];
      totalConnections := totalConnections + 1;
      activeConnections := activeConnections + 1;
      return true;
    }

    method RemovePeer(peerId: string) returns (ok: bool)
      modifies this
      ensures ok == exists p :: p in old(View()).peers && p.id == peerId
      ensures View() == AfterRemove(old(View()), peerId)
      ensures forall p :: p in peers <==> p in old(peers) && p.id != peerId
      ensures activeConnections == if ok && old(activeConnections) > 0 then old(activeConnections) - 1
                                   else old(activeConnections)
      ensures totalConnections == old(totalConnections) && state == old(state)
    {
      var initialCount := |peers|;
      ghost var before := peers;
      peers := Retained(peers, peerId);
      if |peers| == initialCount {
        assert forall p | p in before :: p in peers;
        return false;
      }
      activeConnections := if activeConnections == 0 then 0 else activeConnections - 1;
      assert exists p :: p in before && p.id == peerId by {
        if forall p | p in before :: p.id != peerId {
          RetainedAll(before, peerId);
        }
      }
      return true;
    }
  }

  lemma {:induction false} RetainedAll(peers: seq<MockPeer>, id: string)
    requires forall p | p in peers :: p.id != id
    ensures Retained(peers, id) == peers
  {
    if peers != [] {
      RetainedAll(peers[..|peers| - 1], id);
    }
  }

  lemma RetainedOne(peers: seq<MockPeer>, p: MockPeer, id: string)
    ensures Retained(peers + [p], id) == Retained(peers, id) + if p.id != id then [p] else []
  {
    assert (peers + [p])[..|peers|] == peers;
  }

  // Part by part, so those that stay keep their order.
  lemma {:induction false} RetainedConcat(a: seq<MockPeer>, b: seq<MockPeer>, id: string)
    ensures Retained(a + b, id) == Retained(a, id) + Retained(b, id)
  {
    if b == [] {
      assert a + b == a;
    } else {
      var init, last := b[..|b| - 1], b[|b| - 1];
      assert a + b == (a + init) + [last] && b == init + [last];
      RetainedConcat(a, init, id);
      RetainedOne(a + init, last, id);
      RetainedOne(init, last, id);
    }
  }

  // --- Counters over whole runs ---

  datatype Op =
    | Add(id: string, address: string)
    | Remove(id: string)
    | Start
    | Stop

  function Step(v: NodeView, op: Op): NodeView {
    match op
    case Add(id, address) => AfterAdd(v, id, address)
    case Remove(id) => AfterRemove(v, id)
    case Start => AfterStart(v)
    case Stop => AfterStop(v)
  }

  function Run(ops: seq<Op>): NodeView {
    if ops == [] then NEW_NODE else Step(Run(ops[..|ops| - 1]), ops[|ops| - 1])
  }

  // Peers an operation drops without counting them: all those present when the node stops, and
  // all but one of those that share the removed identifier.
  function Uncounted(v: NodeView, op: Op): nat {
    match op
    case Stop => if v.state.Running? then |v.peers| else 0
    case Remove(id) =>
      var dropped := |v.peers| - |Retained(v.peers, id)|;
      if dropped == 0 then 0 else dropped - 1
    case _ => 0
  }

  function Drift(ops: seq<Op>): nat {
    if ops == [] then 0
    else Drift(ops[..|ops| - 1]) + Uncounted(Run(ops[..|ops| - 1]), ops[|ops| - 1])
  }

  function Accepted(ops: seq<Op>): nat {
    if ops == [] then 0
    else
      var op := ops[|ops| - 1];
      Accepted(ops[..|ops| - 1])
      + if op.Add? && !Connected(Run(ops[..|ops| - 1]).peers, op.address) then 1 else 0
  }

  ghost predicate DistinctAddresses(peers: seq<MockPeer>) {
    forall i, j | 0 <= i < j < |peers| :: peers[i].address != peers[j].address
  }

  lemma {:induction false} RetainedDistinct(peers: seq<MockPeer>, id: string)
    requires DistinctAddresses(peers)
    ensures DistinctAddresses(Retained(peers, id))
  {
    if peers != [] {
      var n := |peers| - 1;
      RetainedDistinct(peers[..n], id);
      var rest := Retained(peers[..n], id);
      forall i | 0 <= i < |rest| ensures rest[i].address != peers[n].address {
        assert rest[i] in peers[..n];
      }
    }
  }

  lemma {:induction false} CountersAlongRun(ops: seq<Op>)
    ensures DistinctAddresses(Run(ops).peers)
    ensures Run(ops).total == Accepted(ops)
    ensures Run(ops).active == |Run(ops).peers| + Drift(ops)
  {
    if ops != [] {
      var v, op := Run(ops[..|ops| - 1]), ops[|ops| - 1];
      CountersAlongRun(ops[..|ops| - 1]);
      if op.Remove? {
        RetainedDistinct(v.peers, op.id);
      }
    }
  }

  // How many peers have the identifier.
  function Holders(peers: seq<MockPeer>, id: string): nat {
    if peers == [] then 0
    else Holders(peers[..|peers| - 1], id) + if peers[|peers| - 1].id == id then 1 else 0
  }

  // The operations that drop a peer without counting it: a stop that meets a running node with
  // peers, and a removal by an identifier that several peers share.
  predicate Forgets(v: NodeView, op: Op) {
    || (op.Stop? && v.state.Running? && v.peers != [])
    || (op.Remove? && Holders(v.peers, op.id) > 1)
  }

  ghost predicate NeverForgets(ops: seq<Op>) {
    forall k | 0 <= k < |ops| :: ForgetsNotAt(ops, k)
  }

  ghost predicate ForgetsNotAt(ops: seq<Op>, k: nat)
    requires k < |ops|
  {
    !Forgets(Run(ops[..k]), ops[k])
  }

  lemma {:induction false} RetainedCount(peers: seq<MockPeer>, id: string)
    ensures |Retained(peers, id)| + Holders(peers, id) == |peers|
  {
    if peers != [] {
      RetainedCount(peers[..|peers| - 1], id);
    }
  }

  lemma UncountedIff(v: NodeView, op: Op)
    ensures Uncounted(v, op) == 0 <==> !Forgets(v, op)
  {
    if op.Remove? {
      RetainedCount(v.peers, op.id);
    }
  }

  lemma SameForgets(ops: seq<Op>, n: nat, k: nat)
    requires k < n <= |ops|
    ensures ForgetsNotAt(ops[..n], k) <==> ForgetsNotAt(ops, k)
  {
    assert ops[..n][..k] == ops[..k] && ops[..n][k] == ops[k];
  }

  lemma {:induction false} DriftIff(ops: seq<Op>)
    ensures Drift(ops) == 0 <==> NeverForgets(ops)
  {
    if ops != [] {
      var n := |ops| - 1;
      DriftIff(ops[..n]);
      UncountedIff(Run(ops[..n]), ops[n]);
      assert ForgetsNotAt(ops, n) <==> Uncounted(Run(ops[..n]), ops[n]) == 0;
      forall k | 0 <= k < n ensures ForgetsNotAt(ops[..n], k) <==> ForgetsNotAt(ops, k) {
        SameForgets(ops, n, k);
      }
    }
  }

  /** Over every run: no two peers share an address; `total` counts the accepted peers; `active` is
      never below the number of peers, so its saturating decrement never saturates; and it is the
      number of peers if and only if no stop met a running node with peers and no removal met an
      identifier that several peers share. */
  lemma {:induction false} CountersOverRun(ops: seq<Op>)
    ensures DistinctAddresses(Run(ops).peers)
    ensures Run(ops).total == Accepted(ops)
    ensures Run(ops).active >= |Run(ops).peers|
    ensures Run(ops).active == |Run(ops).peers| <==> NeverForgets(ops)
  {
    CountersAlongRun(ops);
    DriftIff(ops);
  }

  // Start, add a peer, stop: one connection is still counted as active, and there are no peers.
  lemma StopLeavesActive(id: string, address: string)
    ensures var v := Run([Start, Add(id, address), Stop]);
            v.peers == [] && v.active == 1 && v.state.Stopped?
  {
    var ops := [Start, Add(id, address), Stop];
    assert ops[..2] == [Start, Add(id, address)] && ops[..2][..1] == [Start] && [Start][..0] == [];
    assert Run(ops[..2][..1]) == NEW_NODE.(state := Running);
    assert Run(ops[..2]) == AfterAdd(NEW_NODE.(state := Running), id, address);
  }

  // --- Topologies ---

  function Address(id: string): string {
    id + ":8080"
  }

  lemma AddressInjective(a: string, b: string)
    requires Address(a) == Address(b)
    ensures a == b
  {
    assert |a| == |b|;
    assert a == Address(a)[..|a|] == Address(b)[..|a|] == b;
  }

  function Next(i: nat, n: nat): nat
    requires i < n
  {
    (i + 1) % n
  }

  function Previous(i: nat, n: nat): nat
    requires i < n
  {
    if i == 0 then n - 1 else i - 1
  }

  // Random identifiers: uuid(i, k) is the one node i draws for its call number k.
  type Uuids = (nat, nat) -> string

  function RingView(v: NodeView, ids: seq<string>, i: nat, uuid: Uuids): NodeView
    requires i < |ids|
  {
    AfterAdd(AfterAdd(v, uuid(i, 0), Address(ids[Next(i, |ids|)])), uuid(i, 1), Address(ids[Previous(i, |ids|)]))
  }

  function MeetOther(v: NodeView, ids: seq<string>, i: nat, j: nat, uuid: Uuids): NodeView
    requires j < |ids|
  {
    if j == i then v else AfterAdd(v, uuid(i, j), Address(ids[j]))
  }

  // Node i after meeting those of the first j nodes that are not itself.
  function MeshView(v: NodeView, ids: seq<string>, i: nat, j: nat, uuid: Uuids): NodeView
    requires j <= |ids|
  {
    if j == 0 then v else MeetOther(MeshView(v, ids, i, j - 1, uuid), ids, i, j - 1, uuid)
  }

  function IndexOf(ids: seq<string>, id: string): (i: nat)
    requires id in ids
    ensures i < |ids| && ids[i] == id
  {
    if ids[0] == id then 0 else 1 + IndexOf(ids[1..], id)
  }

  class TestScenario {
    const nodes: map<string, MockNode>

    // Each name has its own node.
    ghost predicate Valid() {
      forall a, b | a in nodes && b in nodes && a != b :: nodes[a] != nodes[b]
    }

    // `ids` lists the names in some order, as iterating over the hash map does.
    ghost predicate Enumerates(ids: seq<string>) {
      Lists(ids) && forall a | a in nodes :: a in ids
    }

    ghost predicate Lists(ids: seq<string>) {
      && (forall i, j | 0 <= i < j < |ids| :: ids[i] != ids[j])
      && (forall i | 0 <= i < |ids| :: ids[i] in nodes)
    }

    ghost function Nodes(): set<MockNode> {
      set a | a in nodes :: nodes[a]
    }

    constructor (nodes: map<string, MockNode>)
      ensures this.nodes == nodes
    {
      this.nodes := nodes;
    }

    // What every node looks like, in the order of `ids`.
    ghost function Views(ids: seq<string>): (r: seq<NodeView>)
      requires forall i | 0 <= i < |ids| :: ids[i] in nodes
      reads Nodes()
      ensures |r| == |ids|
    {
      seq(|ids|, i requires 0 <= i < |ids| reads Nodes() => assert nodes[ids[i]] in Nodes(); nodes[ids[i]].View())
    }

    // One add_peer call on the i-th node; its result is ignored, as in the code.
    method Connect(ids: seq<string>, i: nat, uuid: string, address: string)
      requires Valid() && Lists(ids) && i < |ids|
      modifies Nodes()
      ensures Views(ids) == old(Views(ids))[i := AfterAdd(old(Views(ids))[i], uuid, address)]
    {
      ghost var before := Views(ids);
      assert ids[i] in nodes;
      var node := nodes[ids[i]];
      assert node in Nodes();
      assert before[i] == node.View();
      var _ := node.AddPeer(uuid, address);
      forall j | 0 <= j < |ids| && j != i ensures Views(ids)[j] == before[j] {
        assert ids[j] in nodes && nodes[ids[j]] != node && nodes[ids[j]] in Nodes();
      }
      assert Views(ids)[i] == node.View();
    }

    method ConfigureRing(ids: seq<string>, uuid: Uuids)
      requires Valid() && Enumerates(ids)
      modifies Nodes()
      ensures forall i | 0 <= i < |ids| :: Views(ids)[i] == RingView(old(Views(ids))[i], ids, i, uuid)
    {
      ghost var before := Views(ids);
      var n := |ids|;
      for i := 0 to n
        invariant forall j | 0 <= j < i :: Views(ids)[j] == RingView(before[j], ids, j, uuid)
        invariant forall j | i <= j < n :: Views(ids)[j] == before[j]
      {
        RingRow(ids, i, uuid);
      }
    }

    // Node i connects to the next node in the ring, then to the previous one.
    method RingRow(ids: seq<string>, i: nat, uuid: Uuids)
      requires Valid() && Lists(ids) && i < |ids|
      modifies Nodes()
      ensures Views(ids) == old(Views(ids))[i := RingView(old(Views(ids))[i], ids, i, uuid)]
    {
      var n := |ids|;
      var nextIdx := (i + 1) % n;
      Connect(ids, i, uuid(i, 0), Address(ids[nextIdx]));
      var prevIdx := if i == 0 then n - 1 else i - 1;
      Connect(ids, i, uuid(i, 1), Address(ids[prevIdx]));
    }

    method ConfigureFullMesh(ids: seq<string>, uuid: Uuids)
      requires Valid() && Enumerates(ids)
      modifies Nodes()
      ensures forall i | 0 <= i < |ids| :: Views(ids)[i] == MeshView(old(Views(ids))[i], ids, i, |ids|, uuid)
    {
      ghost var before := Views(ids);
      var n := |ids|;
      for i := 0 to n
        invariant forall k | 0 <= k < i :: Views(ids)[k] == MeshView(before[k], ids, k, n, uuid)
        invariant forall k | i <= k < n :: Views(ids)[k] == before[k]
      {
        MeshRow(ids, i, uuid);
      }
    }

    // The inner loop: node i meets every other node.
    method MeshRow(ids: seq<string>, i: nat, uuid: Uuids)
      requires Valid() && Lists(ids) && i < |ids|
      modifies Nodes()
      ensures Views(ids) == old(Views(ids))[i := MeshView(old(Views(ids))[i], ids, i, |ids|, uuid)]
    {
      ghost var before := Views(ids);
      for j := 0 to |ids|
        invariant Views(ids) == before[i := MeshView(before[i], ids, i, j, uuid)]
      {
        MeshMeet(ids, i, j, uuid);
      }
    }

    // Its body: node i connects to node j, unless they are the same.
    method MeshMeet(ids: seq<string>, i: nat, j: nat, uuid: Uuids)
      requires Valid() && Lists(ids) && i < |ids| && j < |ids|
      modifies Nodes()
      ensures Views(ids) == old(Views(ids))[i := MeetOther(old(Views(ids))[i], ids, i, j, uuid)]
    {
      if i != j {
        Connect(ids, i, uuid(i, j), Address(ids[j]));
      }
    }

    // Connect the i-th node to the c-th, then the c-th to it.
    method ConnectBoth(ids: seq<string>, i: nat, c: nat, first: string, second: string)
      requires Valid() && Lists(ids) && i < |ids| && c < |ids| && i != c
      modifies Nodes()
      ensures var v := old(Views(ids));
              Views(ids) == v[i := AfterAdd(v[i], first, Address(ids[c]))][c := AfterAdd(v[c], second, Address(ids[i]))]
    {
      Connect(ids, i, first, Address(ids[c]));
      Connect(ids, c, second, Address(ids[i]));
    }

    /** `c` is where the enumeration lists the centre. */
    method ConfigureStar(ids: seq<string>, center: string, uuid: Uuids) returns (ghost c: nat)
      requires Valid() && Enumerates(ids)
      modifies Nodes()
      ensures center !in nodes ==> Views(ids) == old(Views(ids))
      ensures center in nodes ==>
                && c < |ids| && ids[c] == center
                && Views(ids)[c] == MeshView(old(Views(ids))[c], ids, c, |ids|, uuid)
                && forall i | 0 <= i < |ids| && i != c ::
                     Views(ids)[i] == AfterAdd(old(Views(ids))[i], uuid(i, c), Address(center))
    {
      c := 0;
      if center in nodes {
        c := IndexOf(ids, center);
        StarRows(ids, IndexOf(ids, center), uuid);
      }
    }

    // The loop of configure_star, once the centre is known to exist.
    method StarRows(ids: seq<string>, c: nat, uuid: Uuids)
      requires Valid() && Lists(ids) && c < |ids|
      modifies Nodes()
      ensures forall k | 0 <= k < |ids| :: Views(ids)[k] == StarView(old(Views(ids))[k], ids, c, |ids|, k, uuid)
    {
      ghost var before := Views(ids);
      for i := 0 to |ids|
        invariant forall k | 0 <= k < |ids| :: Views(ids)[k] == StarView(before[k], ids, c, i, k, uuid)
      {
        StarRow(ids, i, c, uuid);
      }
    }

    // Its body: node i and the centre meet, unless they are the same.
    method StarRow(ids: seq<string>, i: nat, c: nat, uuid: Uuids)
      requires Valid() && Lists(ids) && i < |ids| && c < |ids|
      modifies Nodes()
      ensures forall k | 0 <= k < |ids| ::
                Views(ids)[k] == (if k == c then MeetOther(old(Views(ids))[k], ids, c, i, uuid)
                                  else if k == i then AfterAdd(old(Views(ids))[k], uuid(k, c), Address(ids[c]))
                                  else old(Views(ids))[k])
    {
      if ids[i] != ids[c] {
        ConnectBoth(ids, i, c, uuid(i, c), uuid(c, i));
      }
    }
  }

  // Node k when the first n nodes of the enumeration and the c-th have met.
  function StarView(v: NodeView, ids: seq<string>, c: nat, n: nat, k: nat, uuid: Uuids): NodeView
    requires c < |ids| && n <= |ids| && k < |ids|
  {
    if k == c then MeshView(v, ids, c, n, uuid)
    else if k < n then AfterAdd(v, uuid(k, c), Address(ids[c]))
    else v
  }
}
