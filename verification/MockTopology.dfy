/**
 The topologies as graphs: what the nodes of a new scenario list as peers once it is
 configured, for every set of names and every order in which they are enumerated.
 */
module MockTopology {
  import opened MockNetwork

  ghost predicate Distinct(ids: seq<string>) {
    forall i, j | 0 <= i < j < |ids| :: ids[i] != ids[j]
  }

  lemma SameAddress(ids: seq<string>, i: nat, j: nat)
    requires Distinct(ids) && i < |ids| && j < |ids| && Address(ids[i]) == Address(ids[j])
    ensures i == j
  {
    AddressInjective(ids[i], ids[j]);
  }

  // --- Ring ---

  function RingPeers(ids: seq<string>, i: nat, uuid: Uuids): seq<string>
    requires i < |ids|
  {
    Addresses(RingView(NEW_NODE, ids, i, uuid).peers)
  }

  lemma NextIs(i: nat, n: nat)
    requires i < n
    ensures Next(i, n) == if i + 1 == n then 0 else i + 1
  {
  }

  // The next node and the previous one, or just one of them when they are the same.
  lemma RingPeersAre(ids: seq<string>, i: nat, uuid: Uuids)
    requires Distinct(ids) && i < |ids|
    ensures var next, prev := if i + 1 == |ids| then 0 else i + 1, if i == 0 then |ids| - 1 else i - 1;
            RingPeers(ids, i, uuid)
            == if next == prev then [ids[next] + ":8080"] else [ids[next] + ":8080", ids[prev] + ":8080"]
  {
    var next, prev := Next(i, |ids|), Previous(i, |ids|);
    NextIs(i, |ids|);
    var v := AfterAdd(NEW_NODE, uuid(i, 0), Address(ids[next]));
    assert v.peers == [MockPeer(uuid(i, 0), Address(ids[next]))];
    assert Connected(v.peers, Address(ids[next])) by {
      assert v.peers[0].address == Address(ids[next]);
    }
    if next != prev {
      if Connected(v.peers, Address(ids[prev])) {
        SameAddress(ids, prev, next);
      }
    }
  }

  /** Every node of a ring has two peers exactly when there are at least three nodes; then they
      are distinct and neither is the node itself. Two nodes have each other, and a single
      node has itself. */
  lemma RingDegreeIff(ids: seq<string>, uuid: Uuids)
    requires Distinct(ids) && ids != []
    ensures (forall i | 0 <= i < |ids| :: |RingPeers(ids, i, uuid)| == 2) <==> |ids| >= 3
    ensures |ids| >= 3 ==> forall i | 0 <= i < |ids| ::
              && RingPeers(ids, i, uuid)[0] != RingPeers(ids, i, uuid)[1]
              && Address(ids[i]) !in RingPeers(ids, i, uuid)
    ensures |ids| == 1 ==> RingPeers(ids, 0, uuid) == [ids[0] + ":8080"]
  {
    forall i | 0 <= i < |ids|
      ensures |RingPeers(ids, i, uuid)| == if |ids| >= 3 then 2 else 1
      ensures |ids| >= 3 ==> RingPeers(ids, i, uuid)[0] != RingPeers(ids, i, uuid)[1]
      ensures |ids| >= 3 ==> Address(ids[i]) !in RingPeers(ids, i, uuid)
    {
      NextIs(i, |ids|);
      RingPeersAre(ids, i, uuid);
      RingNamesDiffer(ids, i, Next(i, |ids|), Previous(i, |ids|));
    }
    RingPeersAre(ids, 0, uuid);
    assert |RingPeers(ids, 0, uuid)| == if |ids| >= 3 then 2 else 1;
  }

  lemma RingNamesDiffer(ids: seq<string>, i: nat, j: nat, k: nat)
    requires Distinct(ids) && i < |ids| && j < |ids| && k < |ids|
    ensures Address(ids[i]) == Address(ids[j]) ==> i == j
    ensures Address(ids[i]) == Address(ids[k]) ==> i == k
    ensures Address(ids[j]) == Address(ids[k]) ==> j == k
  {
    if Address(ids[i]) == Address(ids[j]) { SameAddress(ids, i, j); }
    if Address(ids[i]) == Address(ids[k]) { SameAddress(ids, i, k); }
    if Address(ids[j]) == Address(ids[k]) { SameAddress(ids, j, k); }
  }

  ghost predicate RingEdge(ids: seq<string>, uuid: Uuids, i: nat, j: nat) {
    i < |ids| && j < |ids| && Address(ids[j]) in RingPeers(ids, i, uuid)
  }

  lemma RingEdgeIff(ids: seq<string>, uuid: Uuids, i: nat, j: nat)
    requires Distinct(ids) && i < |ids| && j < |ids|
    ensures RingEdge(ids, uuid, i, j) <==> j == Next(i, |ids|) || i == Next(j, |ids|)
  {
    NextIs(i, |ids|);
    NextIs(j, |ids|);
    RingPeersAre(ids, i, uuid);
    RingNamesDiffer(ids, j, Next(i, |ids|), Previous(i, |ids|));
  }

  // If one node lists another, the other lists it back.
  lemma {:induction false} RingSymmetric(ids: seq<string>, uuid: Uuids, i: nat, j: nat)
    requires Distinct(ids) && i < |ids| && j < |ids|
    ensures RingEdge(ids, uuid, i, j) <==> RingEdge(ids, uuid, j, i)
  {
    RingEdgeIff(ids, uuid, i, j);
    RingEdgeIff(ids, uuid, j, i);
  }

  ghost predicate IsPath(ids: seq<string>, uuid: Uuids, path: seq<nat>, i: nat, j: nat) {
    && path != [] && path[0] == i && path[|path| - 1] == j
    && forall k | 0 <= k < |path| - 1 :: RingEdge(ids, uuid, path[k], path[k + 1])
  }

  lemma {:induction false} WalkForward(ids: seq<string>, uuid: Uuids, i: nat, d: nat) returns (path: seq<nat>)
    requires Distinct(ids) && i < |ids| && d < |ids|
    ensures IsPath(ids, uuid, path, i, if i + d < |ids| then i + d else i + d - |ids|)
    ensures |path| == d + 1
  {
    if d == 0 {
      path := [i];
    } else {
      var prefix := WalkForward(ids, uuid, i, d - 1);
      var last := prefix[d - 1];
      NextIs(last, |ids|);
      RingEdgeIff(ids, uuid, last, Next(last, |ids|));
      path := prefix + [Next(last, |ids|)];
    }
  }

  lemma Reversed(ids: seq<string>, uuid: Uuids, path: seq<nat>, i: nat, j: nat) returns (back: seq<nat>)
    requires Distinct(ids) && i < |ids| && IsPath(ids, uuid, path, i, j)
    ensures IsPath(ids, uuid, back, j, i) && |back| == |path|
  {
    var n := |path|;
    back := seq(n, k requires 0 <= k < n => path[n - 1 - k]);
    forall k | 0 <= k < n - 1 ensures RingEdge(ids, uuid, back[k], back[k + 1]) {
      assert RingEdge(ids, uuid, path[n - 2 - k], path[n - 2 - k + 1]);
      RingSymmetric(ids, uuid, path[n - 2 - k], path[n - 1 - k]);
    }
  }

  /** Every node of a ring reaches every other, in at most half the ring. */
  lemma RingConnected(ids: seq<string>, uuid: Uuids, i: nat, j: nat) returns (path: seq<nat>)
    requires Distinct(ids) && i < |ids| && j < |ids|
    ensures IsPath(ids, uuid, path, i, j)
    ensures |path| - 1 <= |ids| / 2
  {
    var n := |ids|;
    var d := if i <= j then j - i else j + n - i;
    if d <= n / 2 {
      path := WalkForward(ids, uuid, i, d);
    } else {
      var there := WalkForward(ids, uuid, j, n - d);
      path := Reversed(ids, uuid, there, j, i);
    }
  }

  // --- Full mesh and star ---

  lemma {:induction false} MeshPeersUpTo(ids: seq<string>, i: nat, j: nat, uuid: Uuids)
    requires Distinct(ids) && i < |ids| && j <= |ids|
    ensures var peers := Addresses(MeshView(NEW_NODE, ids, i, j, uuid).peers);
            && |peers| == (if i < j then j - 1 else j)
            && forall a :: a in peers <==> exists k :: 0 <= k < j && k != i && a == Address(ids[k])
  {
    if j > 0 {
      var n := j - 1;
      MeshPeersUpTo(ids, i, n, uuid);
      var v, v' := MeshView(NEW_NODE, ids, i, n, uuid), MeshView(NEW_NODE, ids, i, j, uuid);
      if n != i {
        if Connected(v.peers, Address(ids[n])) {
          assert Address(ids[n]) in Addresses(v.peers);
          var k :| 0 <= k < n && k != i && Address(ids[n]) == Address(ids[k]);
          SameAddress(ids, n, k);
        }
        assert Addresses(v'.peers) == Addresses(v.peers) + [Address(ids[n])];
      }
    }
  }

  /** In a full mesh each node lists exactly the others, each once: n - 1 of them. In a star this
      is what the centre lists. */
  lemma MeshPeersAreTheOthers(ids: seq<string>, i: nat, uuid: Uuids)
    requires Distinct(ids) && i < |ids|
    ensures var peers := Addresses(MeshView(NEW_NODE, ids, i, |ids|, uuid).peers);
            && |peers| == |ids| - 1
            && forall j | 0 <= j < |ids| :: (ids[j] + ":8080") in peers <==> j != i
  {
    MeshPeersUpTo(ids, i, |ids|, uuid);
    var peers := Addresses(MeshView(NEW_NODE, ids, i, |ids|, uuid).peers);
    forall j | 0 <= j < |ids| ensures (ids[j] + ":8080") in peers <==> j != i {
      assert Address(ids[j]) == ids[j] + ":8080";
      if Address(ids[j]) in peers {
        var k :| 0 <= k < |ids| && k != i && Address(ids[j]) == Address(ids[k]);
        SameAddress(ids, j, k);
      }
    }
  }

  lemma {:induction false} MeshConnects(v: NodeView, ids: seq<string>, i: nat, j: nat, k: nat, uuid: Uuids)
    requires i < |ids| && k < j <= |ids| && k != i
    ensures Connected(MeshView(v, ids, i, j, uuid).peers, Address(ids[k]))
  {
    var w, w' := MeshView(v, ids, i, j - 1, uuid), MeshView(v, ids, i, j, uuid);
    if k < j - 1 {
      MeshConnects(v, ids, i, j - 1, k, uuid);
      var m :| 0 <= m < |w.peers| && w.peers[m].address == Address(ids[k]);
      assert w'.peers[m].address == Address(ids[k]);
    } else if !Connected(w.peers, Address(ids[k])) {
      assert w'.peers[|w.peers|].address == Address(ids[k]);
    }
  }

  lemma {:induction false} MeshNothingNew(v: NodeView, ids: seq<string>, i: nat, j: nat, uuid: Uuids)
    requires i < |ids| && j <= |ids|
    requires forall k | 0 <= k < j && k != i :: Connected(v.peers, Address(ids[k]))
    ensures MeshView(v, ids, i, j, uuid) == v
  {
    if j > 0 {
      MeshNothingNew(v, ids, i, j - 1, uuid);
    }
  }

  /** Configuring a mesh again changes nothing, counters included, whatever identifiers are drawn:
      every second call of add_peer is refused. */
  lemma MeshIdempotent(v: NodeView, ids: seq<string>, i: nat, uuid: Uuids, again: Uuids)
    requires i < |ids|
    ensures var w := MeshView(v, ids, i, |ids|, uuid); MeshView(w, ids, i, |ids|, again) == w
  {
    var w := MeshView(v, ids, i, |ids|, uuid);
    forall k | 0 <= k < |ids| && k != i ensures Connected(w.peers, Address(ids[k])) {
      MeshConnects(v, ids, i, |ids|, k, uuid);
    }
    MeshNothingNew(w, ids, i, |ids|, again);
  }

  // A node at the edge of a star lists the centre and nothing else.
  lemma StarEdgeListsCentre(ids: seq<string>, i: nat, c: nat, uuid: Uuids)
    requires Distinct(ids) && i < |ids| && c < |ids| && i != c
    ensures Addresses(AfterAdd(NEW_NODE, uuid(i, c), Address(ids[c])).peers) == [ids[c] + ":8080"]
    ensures Address(ids[i]) in Addresses(MeshView(NEW_NODE, ids, c, |ids|, uuid).peers)
  {
    MeshPeersAreTheOthers(ids, c, uuid);
  }
}
