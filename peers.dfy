/**
 * The peer registry of mesh_pulse/core/discovery.py: `Peer`, `PeerStatus` and
 * `PeerManager`, a map from IP address to peer with an ONLINE -> STALE ->
 * removed liveness state machine. Time is an explicit `now` parameter.
 */
module Peers {
  import opened Wrappers

  /** The metrics mapping carried by a beacon; stored and relayed, never interpreted. */
  type Metrics = map<string, real>

  datatype PeerStatus = Online | Stale

  datatype Peer = Peer(
    hostname: string,
    ip: string,
    port: int,
    firstSeen: real,
    lastSeen: real,
    status: PeerStatus,
    metrics: Metrics)

  /** Seconds before a peer is marked stale (`PEER_STALE_TIMEOUT`). */
  const PEER_STALE_TIMEOUT: real := 6.0
  /** Seconds before a peer is removed (`PEER_DEAD_TIMEOUT`). */
  const PEER_DEAD_TIMEOUT: real := 10.0

  /** Python truthiness of the optional metrics argument: given and non-empty. */
  predicate Supplied(metrics: Option<Metrics>)
  {
    metrics.Some? && |metrics.value| > 0
  }

  /** Seconds since the peer's last heartbeat. */
  function Age(peer: Peer, now: real): real
  {
    now - peer.lastSeen
  }

  /** Every entry is filed under its own IP address. */
  ghost predicate Keyed(peers: map<string, Peer>)
  {
    forall ip :: ip in peers ==> peers[ip].ip == ip
  }

  /** The registry after `update_peer(hostname, ip, port, metrics)` at time `now`. */
  function Updated(peers: map<string, Peer>, hostname: string, ip: string, port: int,
                   metrics: Option<Metrics>, now: real): (r: map<string, Peer>)
    // Exactly the given IP is inserted or refreshed; every other entry is untouched.
    ensures r.Keys == peers.Keys + {ip}
    ensures forall other :: other in peers && other != ip ==> r[other] == peers[other]
    // Whichever case, the entry is now ONLINE and seen at `now`.
    ensures r[ip].status == Online && r[ip].lastSeen == now
    // An unknown IP gets a fresh peer first seen now.
    ensures ip !in peers ==>
      r[ip] == Peer(hostname, ip, port, now, now, Online, if Supplied(metrics) then metrics.value else map[])
    // A known IP keeps its identity and first-seen time; its metrics change only when given.
    ensures ip in peers ==>
      && r[ip].hostname == peers[ip].hostname && r[ip].ip == peers[ip].ip
      && r[ip].port == peers[ip].port && r[ip].firstSeen == peers[ip].firstSeen
      && r[ip].metrics == (if Supplied(metrics) then metrics.value else peers[ip].metrics)
    ensures Keyed(peers) ==> Keyed(r)
  {
    if ip in peers then
      var refreshed := peers[ip].(lastSeen := now, status := Online);
      peers[ip := if Supplied(metrics) then refreshed.(metrics := metrics.value) else refreshed]
    else
      peers[ip := Peer(hostname, ip, port, now, now, Online, if Supplied(metrics) then metrics.value else map[])]
  }

  /** One peer after the stale check of `sweep` (the dead check comes first). */
  function SweptPeer(peer: Peer, now: real, staleTimeout: real): Peer
  {
    if Age(peer, now) > staleTimeout && peer.status == Online then peer.(status := Stale) else peer
  }

  /** The registry after `sweep()` at time `now`. */
  function Swept(peers: map<string, Peer>, now: real, staleTimeout: real, deadTimeout: real): (r: map<string, Peer>)
    // Exactly the peers unseen for longer than the dead timeout (strictly) are removed.
    ensures forall ip :: ip in r <==> ip in peers && Age(peers[ip], now) <= deadTimeout
    // A surviving peer only changes status: to STALE once its age passes the stale timeout.
    ensures forall ip :: ip in r ==>
      r[ip] == peers[ip].(status := if Age(peers[ip], now) > staleTimeout then Stale else peers[ip].status)
    // Sweeping never brings a peer back ONLINE.
    ensures forall ip :: ip in r && r[ip].status == Online ==> peers[ip].status == Online
    ensures Keyed(peers) ==> Keyed(r)
  {
    map ip | ip in peers && Age(peers[ip], now) <= deadTimeout :: SweptPeer(peers[ip], now, staleTimeout)
  }

  /** Whether `sweep` removes this peer or marks it stale. */
  predicate Changes(peer: Peer, now: real, staleTimeout: real, deadTimeout: real)
  {
    Age(peer, now) > deadTimeout || (Age(peer, now) > staleTimeout && peer.status == Online)
  }

  /** Whether `sweep` sets its `changed` flag: some peer is removed or marked stale. */
  predicate SweepChanges(peers: map<string, Peer>, now: real, staleTimeout: real, deadTimeout: real)
  {
    exists ip :: ip in peers && Changes(peers[ip], now, staleTimeout, deadTimeout)
  }

  /** The `changed` flag, and so the change notification, is raised exactly when the registry changes. */
  lemma SweepChangesIffRegistryChanges(peers: map<string, Peer>, now: real, staleTimeout: real, deadTimeout: real)
    ensures SweepChanges(peers, now, staleTimeout, deadTimeout) <==> Swept(peers, now, staleTimeout, deadTimeout) != peers
  {
    var r := Swept(peers, now, staleTimeout, deadTimeout);
    if SweepChanges(peers, now, staleTimeout, deadTimeout) {
      var ip :| ip in peers && Changes(peers[ip], now, staleTimeout, deadTimeout);
      if Age(peers[ip], now) > deadTimeout {
        assert ip !in r;
      } else {
        assert r[ip].status != peers[ip].status;
      }
    } else {
      assert r.Keys == peers.Keys;
      forall ip | ip in r ensures r[ip] == peers[ip] {
        assert !Changes(peers[ip], now, staleTimeout, deadTimeout);
      }
    }
  }

  /** One `update_peer` call, as carried by a received beacon. */
  datatype Update = Update(hostname: string, ip: string, port: int, metrics: Option<Metrics>, now: real)

  /** The registry after a series of `update_peer` calls, in order. */
  function ApplyUpdates(peers: map<string, Peer>, updates: seq<Update>): map<string, Peer>
    decreases |updates|
  {
    if updates == [] then peers
    else
      var u := updates[0];
      ApplyUpdates(Updated(peers, u.hostname, u.ip, u.port, u.metrics, u.now), updates[1..])
  }

  /** After a series of updates the keys are the old keys plus every IP updated. */
  lemma {:induction false} ApplyUpdatesKeys(peers: map<string, Peer>, updates: seq<Update>)
    ensures ApplyUpdates(peers, updates).Keys == peers.Keys + set u | u in updates :: u.ip
    decreases |updates|
  {
    if updates != [] {
      var u, rest := updates[0], updates[1..];
      assert updates == [u] + rest;
      ApplyUpdatesKeys(Updated(peers, u.hostname, u.ip, u.port, u.metrics, u.now), rest);
      IpsOfCons(u, rest);
    }
  }

  /** The IPs of a series of updates: the first one's and the rest's. */
  lemma IpsOfCons(u: Update, rest: seq<Update>)
    ensures (set v | v in [u] + rest :: v.ip) == {u.ip} + set v | v in rest :: v.ip
  {
    var updates := [u] + rest;
    forall v | v in updates ensures v == u || v in rest {
      var i :| 0 <= i < |updates| && updates[i] == v;
      if i > 0 { assert rest[i - 1] == v; }
    }
  }

  /** `count` after updates from an empty registry is the number of distinct IPs seen. */
  lemma CountIsDistinctIps(updates: seq<Update>)
    ensures |ApplyUpdates(map[], updates)| == |set u | u in updates :: u.ip|
  {
    ApplyUpdatesKeys(map[], updates);
    assert ApplyUpdates(map[], updates).Keys == set u | u in updates :: u.ip;
  }

  /** `PeerManager`: the thread-safe registry; each locked method is one atomic step. */
  class PeerManager {
    var peers: map<string, Peer>
    const staleTimeout: real
    const deadTimeout: real
    /** Whether an `on_peer_change` callback was supplied. */
    const observed: bool
    /** How many times `on_peer_change` has fired. */
    var changeEvents: nat

    ghost predicate Valid()
      reads this
    {
      Keyed(peers)
    }

    constructor (staleTimeout: real := PEER_STALE_TIMEOUT, deadTimeout: real := PEER_DEAD_TIMEOUT, observed: bool := false)
      ensures Valid() && peers == map[] && changeEvents == 0
      ensures this.staleTimeout == staleTimeout && this.deadTimeout == deadTimeout && this.observed == observed
    {
      peers := map[];
      this.staleTimeout := staleTimeout;
      this.deadTimeout := deadTimeout;
      this.observed := observed;
      changeEvents := 0;
    }

    /** `update_peer`: insert or refresh, then notify once. */
    method UpdatePeer(hostname: string, ip: string, port: int, metrics: Option<Metrics>, now: real)
      requires Valid()
      modifies this
      ensures Valid()
      ensures peers == Updated(old(peers), hostname, ip, port, metrics, now)
      ensures changeEvents == old(changeEvents) + if observed then 1 else 0
    {
      if ip in peers {
        var peer := peers[ip];
        peer := peer.(lastSeen := now, status := Online);
        if Supplied(metrics) {
          peer := peer.(metrics := metrics.value);
        }
        peers := peers[ip := peer];
        assert peers == Updated(old(peers), hostname, ip, port, metrics, now);
      } else {
        var peer := Peer(hostname, ip, port, now, now, Online, map[]);
        if Supplied(metrics) {
          peer := peer.(metrics := metrics.value);
        }
        peers := peers[ip := peer];
        assert peers == Updated(old(peers), hostname, ip, port, metrics, now);
      }
      if observed {
        changeEvents := changeEvents + 1;
      }
    }

    /** `sweep`: mark stale peers, collect the dead ones, then remove them; notify once if anything changed. */
    method Sweep(now: real)
      requires Valid()
      modifies this
      ensures Valid()
      ensures peers == Swept(old(peers), now, staleTimeout, deadTimeout)
      ensures changeEvents ==
        old(changeEvents) + if observed && SweepChanges(old(peers), now, staleTimeout, deadTimeout) then 1 else 0
    {
      var changed := false;
      var dead: set<string> := {};
      var pending := peers.Keys;
      while pending != {}
        invariant pending <= old(peers).Keys && dead <= old(peers).Keys - pending
        invariant peers.Keys == old(peers).Keys && Keyed(peers) && changeEvents == old(changeEvents)
        invariant forall ip :: ip in pending ==> peers[ip] == old(peers)[ip]
        invariant forall ip :: ip in old(peers) && ip !in pending ==>
          (ip in dead <==> Age(old(peers)[ip], now) > deadTimeout)
        invariant forall ip :: ip in old(peers) && ip !in pending && ip !in dead ==>
          peers[ip] == SweptPeer(old(peers)[ip], now, staleTimeout)
        invariant changed <==>
          exists ip :: ip in old(peers) && ip !in pending && Changes(old(peers)[ip], now, staleTimeout, deadTimeout)
        decreases pending
      {
        var ip :| ip in pending;
        var peer := peers[ip];
        var age := now - peer.lastSeen;
        if age > deadTimeout {
          dead := dead + {ip};
          changed := true;
        } else if age > staleTimeout && peer.status == Online {
          peers := peers[ip := peer.(status := Stale)];
          changed := true;
        }
        pending := pending - {ip};
      }
      assert changed == SweepChanges(old(peers), now, staleTimeout, deadTimeout) by {
        if SweepChanges(old(peers), now, staleTimeout, deadTimeout) {
          var ip :| ip in old(peers) && Changes(old(peers)[ip], now, staleTimeout, deadTimeout);
          assert ip !in pending;
        }
      }
      RemoveAll(dead);
      assert peers == Swept(old(peers), now, staleTimeout, deadTimeout);
      if changed && observed {
        changeEvents := changeEvents + 1;
      }
    }

    /** The second loop of `sweep`: `self._peers.pop(ip)` for each collected IP. */
    method RemoveAll(dead: set<string>)
      requires Valid()
      modifies this
      ensures Valid() && peers == old(peers) - dead && changeEvents == old(changeEvents)
    {
      var doomed := dead;
      while doomed != {}
        invariant doomed <= dead && changeEvents == old(changeEvents)
        invariant peers == old(peers) - (dead - doomed)
        decreases doomed
      {
        var ip :| ip in doomed;
        peers := peers - {ip};
        doomed := doomed - {ip};
      }
    }

    /** `get_peers`: a snapshot list holding every current entry once. */
    method GetPeers() returns (snapshot: seq<Peer>)
      ensures |snapshot| == |peers|
      ensures forall p :: p in snapshot <==> p in peers.Values
    {
      snapshot := [];
      var pending := peers.Keys;
      while pending != {}
        invariant pending <= peers.Keys
        invariant |snapshot| + |pending| == |peers.Keys|
        invariant forall p :: p in snapshot <==> exists ip :: ip in peers.Keys - pending && peers[ip] == p
        decreases pending
      {
        var ip :| ip in pending;
        snapshot := snapshot + [peers[ip]];
        pending := pending - {ip};
      }
    }

    /** `get_peer`: None for an absent IP. */
    function GetPeer(ip: string): (r: Option<Peer>)
      reads this
      ensures r == None <==> ip !in peers
      ensures r.Some? ==> r.value == peers[ip]
      ensures r.Some? && Valid() ==> r.value.ip == ip
    {
      if ip in peers then Some(peers[ip]) else None
    }

    /** `count`: the number of registered peers, one per IP address. */
    function Count(): (n: nat)
      reads this
      ensures n == |peers|
    {
      |peers|
    }
  }
}
