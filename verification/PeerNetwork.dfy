/**
 The part of the network manager that banning a peer reaches: reputation scores, the blacklist
 with its expiry, and the connection that consults it. Times are nanoseconds, scores exact reals.
 */
module PeerNetwork {
  import opened Options

  // The bytes of a peer id.
  type PeerId = string

  const LOWEST := -100.0
  const HIGHEST := 100.0
  const BLACKLIST_BELOW := -50.0
  const TRUSTED_SCORE := 75.0
  const BAN_DELTA := -100.0
  const EXPIRY: nat := 24 * 60 * 60 * 1_000_000_000

  datatype Reputation = Reputation(scores: map<PeerId, real>, blacklist: map<PeerId, nat>, trusted: set<PeerId>)

  const NO_REPUTATION := Reputation(map[], map[], {})

  function Clamp(x: real): real {
    if x < LOWEST then LOWEST else if x > HIGHEST then HIGHEST else x
  }

  function ScoreOf(scores: map<PeerId, real>, id: PeerId): real {
    if id in scores then scores[id] else 0.0
  }

  function AfterUpdate(r: Reputation, id: PeerId, delta: real, now: nat): Reputation {
    var score := Clamp(ScoreOf(r.scores, id) + delta);
    r.(scores := r.scores[id := score],
       blacklist := if score < BLACKLIST_BELOW then r.blacklist[id := now] else r.blacklist)
  }

  function AfterTrust(r: Reputation, id: PeerId): Reputation {
    r.(scores := r.scores[id := TRUSTED_SCORE], trusted := r.trusted + {id})
  }

  // An instant in the future has not been there for any time.
  predicate Expired(since: nat, now: nat) {
    now >= since + EXPIRY
  }

  ghost function AfterCleanup(r: Reputation, now: nat): Reputation {
    r.(blacklist := map id | id in r.blacklist && !Expired(r.blacklist[id], now) :: r.blacklist[id])
  }

  class NetworkManager {
    var scores: map<PeerId, real>
    var blacklist: map<PeerId, nat>
    var trusted: set<PeerId>

    ghost function View(): Reputation
      reads this
    {
      Reputation(scores, blacklist, trusted)
    }

    constructor ()
      ensures View() == NO_REPUTATION
    {
      scores, blacklist, trusted := map[], map[], {};
    }

    method UpdateReputation(id: PeerId, delta: real, now: nat)
      modifies this
      ensures View() == AfterUpdate(old(View()), id, delta, now)
      ensures var sum := (if id in old(scores) then old(scores)[id] else 0.0) + delta;
              scores == old(scores)[id := if sum < -100.0 then -100.0 else if sum > 100.0 then 100.0 else sum]
      ensures blacklist == if scores[id] < -50.0 then old(blacklist)[id := now] else old(blacklist)
      ensures trusted == old(trusted)
    {
      var current := if id in scores then scores[id] else 0.0;
      var newScore := Clamp(current + delta);
      scores := scores[id := newScore];
      if newScore < BLACKLIST_BELOW {
        blacklist := blacklist[id := now];
      }
    }

    method AddTrusted(id: PeerId)
      modifies this
      ensures View() == AfterTrust(old(View()), id)
      ensures scores == old(scores)[id := 75.0] && trusted == old(trusted) + {id} && blacklist == old(blacklist)
    {
      trusted := trusted + {id};
      scores := scores[id := TRUSTED_SCORE];
    }

    method CleanupExpired(now: nat)
      modifies this
      ensures View() == AfterCleanup(old(View()), now)
      ensures forall k :: k in blacklist <==> k in old(blacklist) && now < old(blacklist)[k] + 86_400_000_000_000
      ensures forall k | k in blacklist :: blacklist[k] == old(blacklist)[k]
      ensures scores == old(scores) && trusted == old(trusted)
    {
      blacklist := map id | id in blacklist && now < blacklist[id] + EXPIRY :: blacklist[id];
    }

    /** A ban: after it the peer is blacklisted if and only if it was before, or its score was under
        fifty. */
    method BlacklistPeer(id: PeerId, now: nat)
      modifies this
      ensures View() == AfterUpdate(old(View()), id, BAN_DELTA, now)
      ensures id in blacklist <==> id in old(blacklist) || (if id in old(scores) then old(scores)[id] else 0.0) < 50.0
    {
      UpdateReputation(id, BAN_DELTA, now);
    }

    /** `drawn` is the identifier drawn at random for the connection; the address is not looked at. A
        connection is refused if and only if that identifier is blacklisted, or the transport fails. */
    method ConnectPeer(address: string, drawn: PeerId, connects: bool) returns (id: Option<PeerId>)
      ensures id == if drawn in blacklist || !connects then None else Some(drawn)
    {
      if drawn in blacklist {
        return None;
      }
      id := if connects then Some(drawn) else None;
    }
  }

  ghost predicate ScoresInRange(r: Reputation) {
    forall id | id in r.scores :: LOWEST <= r.scores[id] <= HIGHEST
  }

  // --- Runs ---

  datatype Op =
    | Update(id: PeerId, delta: real, now: nat)   // a message received, or a ban
    | Trust(id: PeerId)
    | Cleanup(now: nat)

  ghost function Step(r: Reputation, op: Op): Reputation {
    match op
    case Update(id, delta, now) => AfterUpdate(r, id, delta, now)
    case Trust(id) => AfterTrust(r, id)
    case Cleanup(now) => AfterCleanup(r, now)
  }

  ghost function Run(ops: seq<Op>, n: nat): Reputation
    requires n <= |ops|
  {
    if n == 0 then NO_REPUTATION else Step(Run(ops, n - 1), ops[n - 1])
  }

  // The score of one peer, from the operations that name it.
  function Score(ops: seq<Op>, id: PeerId, n: nat): real
    requires n <= |ops|
  {
    if n == 0 then 0.0
    else
      match ops[n - 1]
      case Update(other, delta, _) =>
        var before := Score(ops, id, n - 1);
        if other == id then Clamp(before + delta) else before
      case Trust(other) => if other == id then TRUSTED_SCORE else Score(ops, id, n - 1)
      case Cleanup(_) => Score(ops, id, n - 1)
  }

  // Operation k brings the peer's score below the limit.
  predicate Sinks(ops: seq<Op>, id: PeerId, k: nat)
    requires k < |ops|
  {
    ops[k].Update? && ops[k].id == id && Score(ops, id, k + 1) < BLACKLIST_BELOW
  }

  // Operation k is the last of the first n to do so, and no cleanup since came a day later or more.
  ghost predicate StillListed(ops: seq<Op>, id: PeerId, k: nat, n: nat)
    requires k < n <= |ops|
  {
    && Sinks(ops, id, k)
    && (forall j | k < j < n :: !Sinks(ops, id, j))
    && (forall j | k < j < n && ops[j].Cleanup? :: !Expired(ops[k].now, ops[j].now))
  }

  lemma {:induction false} ScoreAlongRun(ops: seq<Op>, id: PeerId, n: nat)
    requires n <= |ops|
    ensures ScoreOf(Run(ops, n).scores, id) == Score(ops, id, n)
    ensures ScoresInRange(Run(ops, n))
  {
    if n > 0 {
      ScoreAlongRun(ops, id, n - 1);
    }
  }

  // A listed peer is listed since the last operation that sank it.
  lemma {:induction false} ListedSince(ops: seq<Op>, id: PeerId, n: nat) returns (k: nat)
    requires n <= |ops| && id in Run(ops, n).blacklist
    ensures k < n && StillListed(ops, id, k, n) && Run(ops, n).blacklist[id] == ops[k].now
  {
    ScoreAlongRun(ops, id, n - 1);
    ScoreAlongRun(ops, id, n);
    if Sinks(ops, id, n - 1) {
      k := n - 1;
    } else {
      k := ListedSince(ops, id, n - 1);
    }
  }

  lemma {:induction false} SunkIsListed(ops: seq<Op>, id: PeerId, k: nat, n: nat)
    requires k < n <= |ops| && StillListed(ops, id, k, n)
    ensures id in Run(ops, n).blacklist && Run(ops, n).blacklist[id] == ops[k].now
  {
    ScoreAlongRun(ops, id, n - 1);
    ScoreAlongRun(ops, id, n);
    if k < n - 1 {
      SunkIsListed(ops, id, k, n - 1);
      assert !Sinks(ops, id, n - 1);
    }
  }

  /** Over every run of updates, trust and cleanups: a peer is blacklisted if and only if some update
      brought its score below the limit and no cleanup has come a day or more after the last such
      update. What its score has become since does not matter. */
  lemma {:induction false} BlacklistedIff(ops: seq<Op>, id: PeerId, n: nat)
    requires n <= |ops|
    ensures id in Run(ops, n).blacklist <==> exists k :: 0 <= k < n && StillListed(ops, id, k, n)
  {
    if id in Run(ops, n).blacklist {
      var k := ListedSince(ops, id, n);
    }
    if exists k :: 0 <= k < n && StillListed(ops, id, k, n) {
      var k: nat :| 0 <= k < n && StillListed(ops, id, k, n);
      SunkIsListed(ops, id, k, n);
    }
  }

  // A ban of a trusted peer leaves it at minus twenty-five and off the blacklist; a ban of an unknown
  // peer lists it, and trusting it afterwards does not take it off.
  lemma TrustAndBan(id: PeerId, now: nat)
    ensures var r := Run([Trust(id), Update(id, BAN_DELTA, now)], 2);
            r.scores[id] == -25.0 && id !in r.blacklist
    ensures var r := Run([Update(id, BAN_DELTA, now), Trust(id)], 2);
            r.scores[id] == TRUSTED_SCORE && id in r.blacklist
  {
    var trustedFirst, bannedFirst := [Trust(id), Update(id, BAN_DELTA, now)], [Update(id, BAN_DELTA, now), Trust(id)];
    assert Run(trustedFirst, 1) == AfterTrust(NO_REPUTATION, id);
    assert Run(bannedFirst, 1) == AfterUpdate(NO_REPUTATION, id, BAN_DELTA, now);
  }
}
