/**
 The persistent peer database. Files hold lists of records; identifiers drawn by the network, the
 transport, the time and the order in which the hash map is iterated are inputs.
 */
module PeerStore {
  import opened Options
  import opened PeerNetwork

  datatype PeerInfo = PeerInfo(
    id: string,
    address: string,
    nickname: Option<string>,
    trustLevel: nat,
    firstSeen: nat,
    lastSeen: nat,
    totalMessages: nat,
    successRate: real,
    avgLatencyMs: Option<real>,
    tags: seq<string>,
    persistent: bool)

  type PeerMap = map<string, PeerInfo>

  const NEUTRAL_TRUST: nat := 50
  const BANNED := "banned"

  // A record created now, with neutral trust.
  function NewPeer(id: string, address: string, now: nat): PeerInfo {
    PeerInfo(id, address, None, NEUTRAL_TRUST, now, now, 0, 1.0, None, [], false)
  }

  // Every record is filed under its own id.
  ghost predicate Keyed(m: PeerMap) {
    forall k | k in m :: m[k].id == k
  }

  ghost predicate DistinctIds(list: seq<PeerInfo>) {
    forall i, j | 0 <= i < j < |list| :: list[i].id != list[j].id
  }

  // The list holds each record of the map once, in some order.
  ghost predicate Enumerates(list: seq<PeerInfo>, m: PeerMap) {
    && (forall i | 0 <= i < |list| :: list[i].id in m && m[list[i].id] == list[i])
    && DistinctIds(list)
    && (forall k | k in m :: exists i :: 0 <= i < |list| && list[i].id == k)
  }

  // Inserting a list record by record; of repeated ids the last one wins.
  function Inserted(m: PeerMap, list: seq<PeerInfo>): PeerMap {
    if list == [] then m
    else Inserted(m, list[..|list| - 1])[list[|list| - 1].id := list[|list| - 1]]
  }

  predicate HasAnyTag(p: PeerInfo, tags: seq<string>) {
    exists t :: t in tags && t in p.tags
  }

  ghost function Tagged(m: PeerMap, tags: seq<string>): PeerMap {
    map k | k in m && HasAnyTag(m[k], tags) :: m[k]
  }

  function RemoveTag(tags: seq<string>, tag: string): seq<string> {
    if tags == [] then []
    else
      var rest := RemoveTag(tags[..|tags| - 1], tag);
      if tags[|tags| - 1] == tag then rest else rest + [tags[|tags| - 1]]
  }

  function Banned(p: PeerInfo): PeerInfo {
    p.(trustLevel := 0, tags := p.tags + [BANNED])
  }

  function Unbanned(p: PeerInfo): PeerInfo {
    p.(trustLevel := NEUTRAL_TRUST, tags := RemoveTag(p.tags, BANNED))
  }

  // What the network reports about a connected peer, and the time when it is looked at.
  datatype Contact = Contact(id: string, address: string, latencyMs: real, now: nat)

  function Refreshed(m: PeerMap, c: Contact): PeerMap {
    var p := if c.id in m then m[c.id] else NewPeer(c.id, c.address, c.now);
    m[c.id := p.(lastSeen := c.now, avgLatencyMs := Some(c.latencyMs))]
  }

  /** How peer ids are written as text, and read back from the bytes of a text. */
  datatype IdCodec = IdCodec(text: PeerId -> string, parse: string -> Option<PeerId>)

  // The peer in the order whose record has the address, if there is one: the first of them.
  function FirstAt(m: PeerMap, order: seq<string>, address: string): Option<string> {
    if order == [] then None
    else if order[0] in m && m[order[0]].address == address then Some(order[0])
    else FirstAt(m, order[1..], address)
  }

  function AfterUnban(m: PeerMap, order: seq<string>, address: string): PeerMap {
    var id := FirstAt(m, order, address);
    if id.Some? && id.value in m then m[id.value := Unbanned(m[id.value])] else m
  }

  // An order in which the hash map may yield its keys.
  ghost predicate IsOrder(order: seq<string>, m: PeerMap) {
    && (forall i, j | 0 <= i < j < |order| :: order[i] != order[j])
    && (forall k :: k in order <==> k in m)
  }

  class PeerManager {
    var peers: PeerMap
    var file: Option<seq<PeerInfo>>   // the data file, if it exists
    const network: NetworkManager
    const codec: IdCodec

    ghost predicate Valid()
      reads this
    {
      Keyed(peers)
    }

    // Load what the file holds; without a file the database starts empty.
    constructor (file: Option<seq<PeerInfo>>, network: NetworkManager, codec: IdCodec)
      ensures Valid() && this.file == file && this.network == network && this.codec == codec
      ensures peers == Inserted(map[], if file.Some? then file.value else [])
    {
      this.file, this.network, this.codec := file, network, codec;
      peers := map[];
      new;
      if file.Some? {
        var _ := InsertAll(file.value);
      }
    }

    // The loop shared by loading and importing; it counts the ids that were new.
    method InsertAll(list: seq<PeerInfo>) returns (count: nat)
      requires Valid()
      modifies this`peers
      ensures Valid()
      ensures peers == Inserted(old(peers), list)
      ensures |peers| == |old(peers)| + count
    {
      count := 0;
      for i := 0 to |list|
        invariant Valid()
        invariant peers == Inserted(old(peers), list[..i])
        invariant |peers| == |old(peers)| + count
      {
        var peer := list[i];
        if peer.id !in peers {
          count := count + 1;
        }
        assert list[..i + 1][..i] == list[..i];
        peers := peers[peer.id := peer];
      }
      assert list[..|list|] == list;
    }

    // The values of a map, in any order.
    method Values(m: PeerMap) returns (list: seq<PeerInfo>)
      requires Keyed(m)
      ensures Enumerates(list, m)
    {
      list := [];
      var rest := m.Keys;
      while rest != {}
        invariant rest <= m.Keys
        invariant Enumerates(list, m - rest)
        decreases |rest|
      {
        var k :| k in rest;
        EnumeratesExtend(list, m - rest, m[k]);
        assert m - (rest - {k}) == (m - rest)[k := m[k]];
        rest := rest - {k};
        list := list + [m[k]];
      }
      assert m - rest == m;
    }

    method SavePeers()
      requires Valid()
      modifies this`file
      ensures file.Some? && Enumerates(file.value, peers)
    {
      var list := Values(peers);
      file := Some(list);
    }

    // `due` tells whether the interval since the last save has passed.
    method AutoSaveIfNeeded(due: bool)
      requires Valid()
      modifies this`file
      ensures AutoSaved(old(file), file, peers, due)
    {
      if due {
        SavePeers();
      }
    }

    /** A valid address that connects gives a fresh record, under the text of the id the network drew
        for this connection. */
    method AddPeer(address: string, nickname: Option<string>, validAddress: bool,
                   drawn: PeerId, connects: bool, now: nat, due: bool)
      returns (id: Option<string>)
      requires Valid()
      modifies this`peers, this`file
      ensures Valid() && AutoSaved(old(file), file, peers, due && id.Some?)
      ensures id == if validAddress && connects && drawn !in network.blacklist then Some(codec.text(drawn)) else None
      ensures peers == if id.None? then old(peers)
                       else old(peers)[id.value :=
                              PeerInfo(id.value, address, nickname, 50, now, now, 0, 1.0, None, [], true)]
    {
      if !validAddress {
        return None;
      }
      var peerId := network.ConnectPeer(address, drawn, connects);
      if peerId.None? {
        return None;
      }
      id := Some(codec.text(peerId.value));
      var info := NewPeer(id.value, address, now);
      if nickname.Some? {
        info := info.(nickname := nickname);
      }
      info := info.(persistent := true);
      peers := peers[id.value := info];
      AutoSaveIfNeeded(due);
    }

    // Disconnecting always succeeds, so only an id whose bytes do not parse is refused.
    method RemovePeer(id: string, due: bool) returns (ok: bool)
      requires Valid()
      modifies this`peers, this`file
      ensures Valid() && ok == codec.parse(id).Some? && AutoSaved(old(file), file, peers, due && ok)
      ensures peers == if ok then old(peers) - {id} else old(peers)
    {
      ok := codec.parse(id).Some?;
      if ok {
        peers := peers - {id};
        AutoSaveIfNeeded(due);
      }
    }

    /** Refresh the records of the connected peers, creating those that are missing, and return
        every record. */
    method ListPeers(contacts: seq<Contact>) returns (list: seq<PeerInfo>)
      requires Valid()
      modifies this`peers
      ensures Valid() && Enumerates(list, peers)
      ensures peers == RefreshedAll(old(peers), contacts)
      ensures forall k :: IsRefreshed(old(peers), contacts, peers, k)
    {
      for i := 0 to |contacts|
        invariant Valid()
        invariant peers == RefreshedAll(old(peers), contacts[..i])
      {
        var c := contacts[i];
        assert contacts[..i + 1][..i] == contacts[..i];
        if c.id in peers {
          peers := peers[c.id := peers[c.id].(lastSeen := c.now, avgLatencyMs := Some(c.latencyMs))];
        } else {
          var info := NewPeer(c.id, c.address, c.now);
          info := info.(lastSeen := c.now, avgLatencyMs := Some(c.latencyMs));
          peers := peers[c.id := info];
        }
      }
      assert contacts[..|contacts|] == contacts;
      forall k ensures IsRefreshed(old(peers), contacts, peers, k) {
        RefreshedLookup(old(peers), contacts, k);
      }
      list := Values(peers);
    }

    /** An id that parses costs its peer a hundred points with the network; a record under it loses
        its trust and gains the tag. Any other id changes nothing at all. */
    method BanPeer(id: string, now: nat, due: bool) returns (ok: bool)
      requires Valid()
      modifies this`peers, this`file, network
      ensures Valid() && ok == codec.parse(id).Some? && AutoSaved(old(file), file, peers, due && ok)
      ensures network.View() == if ok then AfterUpdate(old(network.View()), codec.parse(id).value, BAN_DELTA, now)
                                else old(network.View())
      ensures peers == if ok && id in old(peers)
                       then old(peers)[id := old(peers)[id].(trustLevel := 0, tags := old(peers)[id].tags + ["banned"])]
                       else old(peers)
    {
      var peerId := codec.parse(id);
      ok := peerId.Some?;
      if ok {
        network.BlacklistPeer(peerId.value, now);
        if id in peers {
          peers := peers[id := peers[id].(trustLevel := 0, tags := peers[id].tags + [BANNED])];
        }
        AutoSaveIfNeeded(due);
      }
    }

    /** Whichever record with that address the map yields first is unbanned; there is none exactly when
        no record has the address. The network is not called. */
    method UnbanPeer(address: string, order: seq<string>, due: bool) returns (id: Option<string>)
      requires Valid() && IsOrder(order, peers)
      modifies this`peers, this`file
      ensures Valid() && AutoSaved(old(file), file, peers, due)
      ensures id == FirstAt(old(peers), order, address)
      ensures id.None? <==> forall k | k in old(peers) :: old(peers)[k].address != address
      ensures id.Some? ==> id.value in old(peers) && old(peers)[id.value].address == address
      ensures id.Some? ==> exists n | 0 <= n < |order| :: order[n] == id.value
                             && forall j | 0 <= j < n :: old(peers)[order[j]].address != address
      ensures peers == AfterUnban(old(peers), order, address)
      ensures id.Some? ==> peers == old(peers)[id.value :=
                             old(peers)[id.value].(trustLevel := 50, tags := peers[id.value].tags)]
      ensures id.Some? ==> multiset(peers[id.value].tags) == multiset(old(peers)[id.value].tags)["banned" := 0]
    {
      FirstAtMember(peers, order, address);
      id := None;
      for i := 0 to |order|
        invariant id.None? && peers == old(peers)
        invariant FirstAt(peers, order, address) == FirstAt(peers, order[i..], address)
        invariant forall j | 0 <= j < i :: order[j] in peers && peers[order[j]].address != address
      {
        assert order[i] in order && order[i..][1..] == order[i + 1..];
        if peers[order[i]].address == address {
          id := Some(order[i]);
          break;
        }
      }
      if id.Some? {
        TagIsRemoved(peers[id.value].tags, BANNED);
        peers := peers[id.value := Unbanned(peers[id.value])];
      }
      AutoSaveIfNeeded(due);
    }

    /** Import replaces the database or merges into it; the count is how much it grew. */
    method ImportPeers(list: seq<PeerInfo>, merge: bool) returns (count: nat)
      requires Valid()
      modifies this`peers, this`file
      ensures Valid()
      ensures var base := if merge then old(peers) else map[];
              peers == Inserted(base, list) && count == |peers| - |base|
      ensures file.Some? && Enumerates(file.value, peers)
    {
      if !merge {
        peers := map[];
      }
      count := InsertAll(list);
      SavePeers();
    }

    method ExportPeers(filterTags: Option<seq<string>>) returns (list: seq<PeerInfo>)
      requires Valid()
      ensures Enumerates(list, if filterTags.Some? then Tagged(peers, filterTags.value) else peers)
      ensures forall p :: p in list <==> && p.id in peers && peers[p.id] == p
                                         && (filterTags.None? || exists t :: t in filterTags.value && t in p.tags)
    {
      list := Values(peers);
      EnumeratesMembers(list, peers);
      if filterTags.Some? {
        FilteredMembers(list, filterTags.value);
        FilteredEnumerates(list, peers, filterTags.value);
        list := Filtered(list, filterTags.value);
      }
    }
  }

  // Those of the list that have one of the tags, in the same order.
  function Filtered(list: seq<PeerInfo>, tags: seq<string>): seq<PeerInfo> {
    if list == [] then []
    else
      var rest, last := Filtered(list[..|list| - 1], tags), list[|list| - 1];
      if HasAnyTag(last, tags) then rest + [last] else rest
  }

  lemma {:induction false} FilteredMembers(list: seq<PeerInfo>, tags: seq<string>)
    ensures forall p :: p in Filtered(list, tags) <==> p in list && HasAnyTag(p, tags)
  {
    if list != [] {
      FilteredMembers(list[..|list| - 1], tags);
      assert list == list[..|list| - 1] + [list[|list| - 1]];
    }
  }

  lemma {:induction false} FilteredDistinct(list: seq<PeerInfo>, tags: seq<string>)
    requires DistinctIds(list)
    ensures DistinctIds(Filtered(list, tags))
  {
    if list != [] {
      var n := |list| - 1;
      FilteredDistinct(list[..n], tags);
      FilteredMembers(list[..n], tags);
      var rest := Filtered(list[..n], tags);
      forall i | 0 <= i < |rest| ensures rest[i].id != list[n].id {
        assert rest[i] in list[..n];
      }
    }
  }

  lemma FilteredEnumerates(list: seq<PeerInfo>, m: PeerMap, tags: seq<string>)
    requires Enumerates(list, m)
    ensures Enumerates(Filtered(list, tags), Tagged(m, tags))
  {
    var r := Filtered(list, tags);
    FilteredMembers(list, tags);
    FilteredDistinct(list, tags);
    forall i | 0 <= i < |r| ensures r[i].id in Tagged(m, tags) && Tagged(m, tags)[r[i].id] == r[i] {
      assert r[i] in list;
    }
    forall k | k in Tagged(m, tags) ensures exists i :: 0 <= i < |r| && r[i].id == k {
      var j :| 0 <= j < |list| && list[j].id == k;
      assert list[j] in r;
    }
  }

  // The file after an operation that may save: written afresh when a save is due, else as it was.
  ghost predicate AutoSaved(before: Option<seq<PeerInfo>>, after: Option<seq<PeerInfo>>, m: PeerMap, due: bool) {
    if due then after.Some? && Enumerates(after.value, m) else after == before
  }

  function RefreshedAll(m: PeerMap, contacts: seq<Contact>): PeerMap {
    if contacts == [] then m
    else Refreshed(RefreshedAll(m, contacts[..|contacts| - 1]), contacts[|contacts| - 1])
  }

  lemma EnumeratesMembers(list: seq<PeerInfo>, m: PeerMap)
    requires Enumerates(list, m)
    ensures forall p :: p in list <==> p.id in m && m[p.id] == p
  {
    forall p: PeerInfo | p.id in m && m[p.id] == p ensures p in list {
      var i :| 0 <= i < |list| && list[i].id == p.id;
      assert list[i] == p;
    }
  }

  // The contact at i is the first, or the last, of those with its id.
  ghost predicate IsFirst(contacts: seq<Contact>, i: nat) {
    i < |contacts| && forall j | 0 <= j < i :: contacts[j].id != contacts[i].id
  }

  ghost predicate IsLast(contacts: seq<Contact>, i: nat) {
    i < |contacts| && forall j | i < j < |contacts| :: contacts[j].id != contacts[i].id
  }

  // A record after a refresh and before it: seen at another time, otherwise the same.
  ghost predicate SameButSeen(p: PeerInfo, q: PeerInfo) {
    && q.id == p.id && q.address == p.address && q.nickname == p.nickname && q.trustLevel == p.trustLevel
    && q.firstSeen == p.firstSeen && q.totalMessages == p.totalMessages && q.successRate == p.successRate
    && q.tags == p.tags && q.persistent == p.persistent
  }

  ghost predicate IsNew(c: Contact, q: PeerInfo) {
    SameButSeen(PeerInfo(c.id, c.address, None, 50, c.now, 0, 0, 1.0, None, [], false), q)
  }

  ghost predicate SeenBy(q: PeerInfo, c: Contact) {
    q.lastSeen == c.now && q.avgLatencyMs == Some(c.latencyMs)
  }

  /** What refreshing does to one id: a record there was stays as it was, but for when it was last seen and
      its latency, which are those of its last contact, if any; where there was none, its first contact
      makes a neutral one. */
  ghost predicate IsRefreshed(m: PeerMap, contacts: seq<Contact>, r: PeerMap, k: string) {
    && (k in r <==> k in m || exists i :: 0 <= i < |contacts| && contacts[i].id == k)
    && (k in m ==> SameButSeen(m[k], r[k]))
    && (k in m && (forall i | 0 <= i < |contacts| :: contacts[i].id != k) ==> r[k] == m[k])
    && (forall i: nat | IsLast(contacts, i) && contacts[i].id == k :: k in r && SeenBy(r[k], contacts[i]))
    && (k !in m ==> forall i: nat | IsFirst(contacts, i) && contacts[i].id == k ::
          k in r && IsNew(contacts[i], r[k]))
  }

  lemma {:induction false} RefreshedLookup(m: PeerMap, contacts: seq<Contact>, k: string)
    ensures IsRefreshed(m, contacts, RefreshedAll(m, contacts), k)
  {
    if contacts != [] {
      var n := |contacts| - 1;
      RefreshedLookup(m, contacts[..n], k);
      RefreshedStep(m, contacts, RefreshedAll(m, contacts[..n]), k);
    }
  }

  // One more contact.
  lemma RefreshedStep(m: PeerMap, contacts: seq<Contact>, before: PeerMap, k: string)
    requires contacts != [] && IsRefreshed(m, contacts[..|contacts| - 1], before, k)
    ensures IsRefreshed(m, contacts, Refreshed(before, contacts[|contacts| - 1]), k)
  {
    var n := |contacts| - 1;
    var c, init, r := contacts[n], contacts[..n], Refreshed(before, contacts[n]);
    assert forall i | 0 <= i < n :: init[i] == contacts[i];
    assert k in r <==> k in before || c.id == k;
    assert k in before && k in r ==> SameButSeen(before[k], r[k]);
    assert c.id != k && k in r ==> r[k] == before[k];
    forall i: nat | IsLast(contacts, i) && contacts[i].id == k ensures k in r && SeenBy(r[k], contacts[i]) {
      if i < n {
        assert IsLast(init, i) && init[i].id == k && c.id != k;
      }
    }
    if k !in m {
      forall i: nat | IsFirst(contacts, i) && contacts[i].id == k
        ensures k in r && IsNew(contacts[i], r[k])
      {
        if i < n {
          assert IsFirst(init, i) && init[i].id == k;
        }
      }
    }
  }

  lemma EnumeratesExtend(list: seq<PeerInfo>, m: PeerMap, p: PeerInfo)
    requires Enumerates(list, m) && p.id !in m
    ensures Enumerates(list + [p], m[p.id := p])
  {
    var r, m' := list + [p], m[p.id := p];
    forall k | k in m' ensures exists i :: 0 <= i < |r| && r[i].id == k {
      if k == p.id {
        assert r[|list|].id == k;
      } else {
        var i :| 0 <= i < |list| && list[i].id == k;
        assert r[i].id == k;
      }
    }
  }

  // --- Round trips ---

  // The last record of the list with the id, if there is one.
  function LastIn(list: seq<PeerInfo>, k: string): Option<PeerInfo> {
    if list == [] then None
    else if list[|list| - 1].id == k then Some(list[|list| - 1])
    else LastIn(list[..|list| - 1], k)
  }

  lemma {:induction false} InsertedLookup(base: PeerMap, list: seq<PeerInfo>, k: string)
    ensures k in Inserted(base, list) <==> k in base || LastIn(list, k).Some?
    ensures k in Inserted(base, list) ==>
              Inserted(base, list)[k] == if LastIn(list, k).Some? then LastIn(list, k).value else base[k]
  {
    if list != [] {
      InsertedLookup(base, list[..|list| - 1], k);
    }
  }

  lemma {:induction false} LastInIs(list: seq<PeerInfo>, i: nat)
    requires DistinctIds(list) && i < |list|
    ensures LastIn(list, list[i].id) == Some(list[i])
  {
    var n := |list| - 1;
    if i < n {
      assert list[..n][i] == list[i];
      LastInIs(list[..n], i);
    }
  }

  lemma {:induction false} LastInMember(list: seq<PeerInfo>, k: string)
    ensures LastIn(list, k).Some? ==> LastIn(list, k).value in list && LastIn(list, k).value.id == k
  {
    if list != [] {
      LastInMember(list[..|list| - 1], k);
    }
  }

  lemma EnumeratedLookup(list: seq<PeerInfo>, m: PeerMap, k: string)
    requires Enumerates(list, m)
    ensures LastIn(list, k) == if k in m then Some(m[k]) else None
  {
    LastInMember(list, k);
    if k in m {
      var i :| 0 <= i < |list| && list[i].id == k;
      LastInIs(list, i);
    }
  }

  /** Importing an exported list lays the exported records over the database; into an empty one,
      and for a save followed by a load, it restores exactly the map that was written. */
  lemma ImportAfterExport(base: PeerMap, m: PeerMap, list: seq<PeerInfo>)
    requires Enumerates(list, m)
    ensures Inserted(base, list) == base + m
    ensures base == map[] ==> Inserted(base, list) == m
  {
    forall k
      ensures k in Inserted(base, list) <==> k in base + m
      ensures k in base + m ==> Inserted(base, list)[k] == (base + m)[k]
    {
      InsertedLookup(base, list, k);
      EnumeratedLookup(list, m, k);
    }
    assert map[] + m == m;
  }

  // Save, then start again from the file: the same database, whatever order it was written in.
  method SaveThenLoad(manager: PeerManager) returns (again: PeerManager)
    requires manager.Valid()
    modifies manager`file
    ensures again.Valid() && again.peers == manager.peers && again.network == manager.network
  {
    manager.SavePeers();
    again := new PeerManager(manager.file, manager.network, manager.codec);
    ImportAfterExport(map[], manager.peers, manager.file.value);
  }

  // Export everything, then import it without merging: nothing changes and every record counts.
  method ExportThenImport(manager: PeerManager) returns (count: nat)
    requires manager.Valid()
    modifies manager`peers, manager`file
    ensures manager.Valid() && manager.peers == old(manager.peers) && count == |manager.peers|
  {
    var list := manager.ExportPeers(None);
    count := manager.ImportPeers(list, false);
    ImportAfterExport(map[], old(manager.peers), list);
  }

  // Importing the same list twice changes nothing the second time.
  lemma ImportTwice(base: PeerMap, list: seq<PeerInfo>)
    ensures Inserted(Inserted(base, list), list) == Inserted(base, list)
  {
    var once := Inserted(base, list);
    forall k
      ensures k in Inserted(once, list) <==> k in once
      ensures k in once ==> Inserted(once, list)[k] == once[k]
    {
      InsertedLookup(base, list, k);
      InsertedLookup(once, list, k);
    }
  }

  lemma {:induction false} RemoveTagIdentity(tags: seq<string>, tag: string)
    ensures RemoveTag(tags, tag) == tags <==> tag !in tags
    ensures |RemoveTag(tags, tag)| <= |tags|
    ensures tag !in RemoveTag(tags, tag)
  {
    if tags != [] {
      RemoveTagIdentity(tags[..|tags| - 1], tag);
      assert tags == tags[..|tags| - 1] + [tags[|tags| - 1]];
    }
  }

  lemma RemoveTagOne(tags: seq<string>, t: string, tag: string)
    ensures RemoveTag(tags + [t], tag) == RemoveTag(tags, tag) + if t == tag then [] else [t]
  {
    assert (tags + [t])[..|tags|] == tags;
  }

  // Every occurrence of the tag goes, and nothing else.
  lemma {:induction false} TagIsRemoved(tags: seq<string>, tag: string)
    ensures multiset(RemoveTag(tags, tag)) == multiset(tags)[tag := 0]
  {
    if tags != [] {
      var init, last := tags[..|tags| - 1], tags[|tags| - 1];
      assert tags == init + [last];
      TagIsRemoved(init, tag);
      RemoveTagOne(init, last, tag);
    }
  }

  // Part by part, so the tags that stay keep their order.
  lemma {:induction false} RemoveTagConcat(a: seq<string>, b: seq<string>, tag: string)
    ensures RemoveTag(a + b, tag) == RemoveTag(a, tag) + RemoveTag(b, tag)
  {
    if b == [] {
      assert a + b == a;
    } else {
      var init, last := b[..|b| - 1], b[|b| - 1];
      assert a + b == (a + init) + [last] && b == init + [last];
      RemoveTagConcat(a, init, tag);
      RemoveTagOne(a + init, last, tag);
      RemoveTagOne(init, last, tag);
    }
  }

  /** Unbanning lifts every ban, but gives back the record as it was before the ban only if its
      trust was neutral and it was not banned already. */
  lemma UnbanRestoresIff(p: PeerInfo)
    ensures "banned" !in Unbanned(Banned(p)).tags
    ensures Unbanned(Banned(p)) == p <==> p.trustLevel == 50 && "banned" !in p.tags
  {
    var tags := p.tags + [BANNED];
    RemoveTagIdentity(tags, BANNED);
    RemoveTagIdentity(p.tags, BANNED);
    assert tags[..|tags| - 1] == p.tags;
  }

  // --- Which record an unban by address reaches ---

  lemma {:induction false} FirstAtMember(m: PeerMap, order: seq<string>, address: string)
    ensures var id := FirstAt(m, order, address);
            && (id.Some? ==> id.value in order && id.value in m && m[id.value].address == address)
            && (id.None? ==> forall k | k in order && k in m :: m[k].address != address)
  {
    if order != [] {
      FirstAtMember(m, order[1..], address);
    }
  }

  lemma {:induction false} OrderOf(keys: set<string>) returns (order: seq<string>)
    ensures forall i, j | 0 <= i < j < |order| :: order[i] != order[j]
    ensures forall k :: k in order <==> k in keys
    decreases |keys|
  {
    order := [];
    if keys != {} {
      var k :| k in keys;
      var rest := OrderOf(keys - {k});
      order := [k] + rest;
    }
  }

  // Any record may be the one the map yields first.
  lemma OrderFrom(m: PeerMap, first: string) returns (order: seq<string>)
    requires first in m
    ensures IsOrder(order, m) && order[0] == first
  {
    var rest := OrderOf(m.Keys - {first});
    order := [first] + rest;
  }

  /** An unban by a banned peer's own address lifts its ban, whatever order the map yields its records
      in, if and only if no other record has that address. */
  lemma UnbanLiftsIff(m: PeerMap, id: string)
    requires id in m && BANNED in m[id].tags
    ensures (forall order | IsOrder(order, m) :: BANNED !in AfterUnban(m, order, m[id].address)[id].tags)
       <==> (forall k | k in m && k != id :: m[k].address != m[id].address)
  {
    var address := m[id].address;
    if k :| k in m && k != id && m[k].address == address {
      var order := OrderFrom(m, k);
      assert AfterUnban(m, order, address)[id] == m[id];
    } else {
      forall order | IsOrder(order, m) ensures BANNED !in AfterUnban(m, order, address)[id].tags {
        FirstAtMember(m, order, address);
        RemoveTagIdentity(m[id].tags, BANNED);
      }
    }
  }

  // Two records at one address, one of them banned: unbanning the address may leave it banned.
  lemma UnbanMissesThePeer() returns (m: PeerMap, order: seq<string>)
    ensures m.Keys == {"a", "b"} && Keyed(m) && IsOrder(order, m)
    ensures m["a"].address == m["b"].address && BANNED in m["a"].tags
    ensures BANNED in AfterUnban(m, order, m["a"].address)["a"].tags
  {
    var b := NewPeer("b", "127.0.0.1:8000", 0);
    m := map["a" := Banned(b.(id := "a")), "b" := b];
    order := ["b", "a"];
  }

  // --- Bans and the network ---

  /** Banning a peer and unbanning it by its address, which no other record has, gives back its record
      unbanned; with the network nothing is undone. It has the peer blacklisted exactly when it
      had before, or when the peer's score was under fifty. */
  method BanThenUnban(manager: PeerManager, id: string, now: nat, order: seq<string>)
    requires manager.Valid() && id in manager.peers && manager.codec.parse(id).Some?
    requires forall k | k in manager.peers && k != id :: manager.peers[k].address != manager.peers[id].address
    requires IsOrder(order, manager.peers)
    modifies manager`peers, manager`file, manager.network
    ensures manager.Valid() && manager.peers == old(manager.peers)[id := Unbanned(Banned(old(manager.peers)[id]))]
    ensures BANNED !in manager.peers[id].tags
    ensures var peer := manager.codec.parse(id).value;
            && manager.network.View() == AfterUpdate(old(manager.network.View()), peer, BAN_DELTA, now)
            && (peer in manager.network.blacklist <==>
                  peer in old(manager.network.blacklist) || ScoreOf(old(manager.network.scores), peer) < 50.0)
  {
    var p := manager.peers[id];
    var ok := manager.BanPeer(id, now, false);
    FirstAtMember(manager.peers, order, p.address);
    var found := manager.UnbanPeer(p.address, order, false);
    UnbanRestoresIff(p);
  }

  /** A ban does not reach the address: whatever was banned, adding the same address again connects
      unless the identifier drawn this time is itself blacklisted, and it leaves a second record
      with that address. */
  method BanThenConnect(manager: PeerManager, id: string, drawn: PeerId, now: nat) returns (again: Option<string>)
    requires manager.Valid() && id in manager.peers && manager.codec.parse(id).Some?
    requires drawn != manager.codec.parse(id).value
    modifies manager`peers, manager`file, manager.network
    ensures manager.Valid()
    ensures again.Some? <==> drawn !in old(manager.network.blacklist)
    ensures again.Some? ==>
              && again.value == manager.codec.text(drawn) && again.value in manager.peers
              && manager.peers[again.value].address == old(manager.peers)[id].address
              && (again.value != id ==> id in manager.peers && manager.peers[id] == Banned(old(manager.peers)[id]))
  {
    var address := manager.peers[id].address;
    var ok := manager.BanPeer(id, now, false);
    again := manager.AddPeer(address, None, true, drawn, true, now, false);
  }

  // --- Ids that were filed by the network ---

  predicate IsBase58(c: char) {
    '1' <= c <= '9' || ('A' <= c <= 'Z' && c != 'I' && c != 'O') || ('a' <= c <= 'z' && c != 'l')
  }

  /** What the libp2p specification of peer ids says: an id is written as a text in base58, and its bytes
      are a multihash, which begins with the code of the identity function or of SHA2-256. */
  ghost predicate IsLibp2p(codec: IdCodec) {
    && (forall id, c | c in codec.text(id) :: IsBase58(c))
    && (forall s | codec.parse(s).Some? :: s != [] && (s[0] as int == 0x00 || s[0] as int == 0x12))
  }

  /** The text under which a record was filed never parses as the bytes of an id, since neither code is
      a base58 character. */
  lemma FiledNeverParses(codec: IdCodec, id: PeerId)
    requires IsLibp2p(codec)
    ensures codec.parse(codec.text(id)).None?
  {
    var s := codec.text(id);
    if s != [] {
      assert s[0] in s && IsBase58(s[0]);
    }
  }

  /** So a peer that was added can neither be banned nor removed by the id it was given: both calls fail
      and change neither the database nor the network. */
  method AddedCannotBeBanned(manager: PeerManager, address: string, drawn: PeerId, now: nat)
    returns (id: Option<string>, banned: bool, removed: bool)
    requires manager.Valid() && IsLibp2p(manager.codec)
    modifies manager`peers, manager`file, manager.network
    ensures manager.Valid()
    ensures id.Some? ==>
              && !banned && !removed
              && manager.peers == old(manager.peers)[id.value := NewPeer(id.value, address, now).(persistent := true)]
              && manager.network.View() == old(manager.network.View())
  {
    banned, removed := false, false;
    id := manager.AddPeer(address, None, true, drawn, true, now, false);
    if id.Some? {
      FiledNeverParses(manager.codec, drawn);
      banned := manager.BanPeer(id.value, now, false);
      removed := manager.RemovePeer(id.value, false);
    }
  }
}
