/**
 * The beacon-handling and sweep rules of `PeerDiscovery` in
 * mesh_pulse/core/discovery.py: its own lightweight `peers` table
 * (IP -> last-seen time), self-beacon suppression, and the hand-off of each
 * accepted beacon to an attached `PeerManager`. Sockets, threads and JSON are
 * outside the model; a beacon arrives already decoded.
 */
module Discovery {
  import opened Wrappers
  import opened Peers

  /** Auto-remove unseen peers after this many seconds (`PEER_TIMEOUT`). */
  const PEER_TIMEOUT: real := 10.0
  /** Default transfer port (`TRANSFER_PORT`). */
  const TRANSFER_PORT: int := 5000

  /** A decoded beacon: each field may be missing, as `beacon.get(...)` allows. */
  datatype Beacon = Beacon(
    hostname: Option<string>,
    ip: Option<string>,
    port: Option<int>,
    metrics: Option<Metrics>)

  /** `beacon.get(key, default)`. */
  function Get<T>(field: Option<T>, default: T): T
  {
    if field.Some? then field.value else default
  }

  /** Whether the listener acts on a beacon: everything except our own. */
  predicate Accepts(beacon: Beacon, localIp: string)
  {
    beacon.ip != Some(localIp)
  }

  /** The IP a beacon is recorded under: its own `ip`, else the sender address. */
  function PeerIp(beacon: Beacon, senderIp: string): string
  {
    Get(beacon.ip, senderIp)
  }

  /** The table after `_sweep_peers` at time `now`. */
  function LiveEntries(table: map<string, real>, now: real, timeout: real): (r: map<string, real>)
    ensures forall ip :: ip in r <==> ip in table && now - table[ip] <= timeout
    ensures forall ip :: ip in r ==> r[ip] == table[ip]
  {
    map ip | ip in table && now - table[ip] <= timeout :: table[ip]
  }

  /** `PeerDiscovery`: the broadcaster/listener's shared table and optional registry. */
  class PeerDiscovery {
    /** `self.peers`: IP -> last-seen timestamp. */
    var peers: map<string, real>
    const localIp: string
    const transferPort: int
    const peerTimeout: real
    /** The attached `PeerManager`, if any. */
    const manager: PeerManager?

    constructor (localIp: string, transferPort: int := TRANSFER_PORT, peerTimeout: real := PEER_TIMEOUT, manager: PeerManager? := null)
      ensures peers == map[]
      ensures this.localIp == localIp && this.transferPort == transferPort
      ensures this.peerTimeout == peerTimeout && this.manager == manager
    {
      peers := map[];
      this.localIp := localIp;
      this.transferPort := transferPort;
      this.peerTimeout := peerTimeout;
      this.manager := manager;
    }

    /** One iteration of `_listen_loop` for a beacon that decoded, sent from `senderIp`. */
    method HandleBeacon(beacon: Beacon, senderIp: string, now: real) returns (accepted: bool)
      requires manager != null ==> manager.Valid()
      modifies this, manager
      ensures manager != null ==> manager.Valid()
      ensures accepted == Accepts(beacon, localIp)
      // Our own beacons leave every table as it was.
      ensures !accepted ==> peers == old(peers)
      ensures !accepted && manager != null ==>
        manager.peers == old(manager.peers) && manager.changeEvents == old(manager.changeEvents)
      // Any other beacon stamps its IP with `now` and updates the registry with the defaults filled in.
      ensures accepted ==> peers == old(peers)[PeerIp(beacon, senderIp) := now]
      ensures accepted && manager != null ==>
        manager.peers == Updated(old(manager.peers), Get(beacon.hostname, "unknown"), PeerIp(beacon, senderIp),
                                 Get(beacon.port, transferPort), beacon.metrics, now)
      // and `on_peer_change` fires once, when a callback is attached.
      ensures accepted && manager != null ==>
        manager.changeEvents == old(manager.changeEvents) + if manager.observed then 1 else 0
    {
      if beacon.ip == Some(localIp) {
        return false;
      }
      var peerIp := Get(beacon.ip, senderIp);
      peers := peers[peerIp := now];
      if manager != null {
        manager.UpdatePeer(Get(beacon.hostname, "unknown"), peerIp, Get(beacon.port, transferPort), beacon.metrics, now);
      }
      accepted := true;
    }

    /** `_sweep_peers`: drop entries older than `peer_timeout`, then sweep the registry. */
    method SweepPeers(now: real)
      requires manager != null ==> manager.Valid()
      modifies this, manager
      ensures manager != null ==> manager.Valid()
      ensures peers == LiveEntries(old(peers), now, peerTimeout)
      ensures manager != null ==>
        manager.peers == Swept(old(manager.peers), now, manager.staleTimeout, manager.deadTimeout)
      // The registry's `on_peer_change` fires once iff its sweep changed something.
      ensures manager != null ==>
        manager.changeEvents == old(manager.changeEvents)
          + if manager.observed && SweepChanges(old(manager.peers), now, manager.staleTimeout, manager.deadTimeout) then 1 else 0
    {
      var dead := set ip | ip in peers && now - peers[ip] > peerTimeout;
      ghost var before := peers;
      while dead != {}
        invariant dead <= before.Keys
        invariant peers.Keys == (before.Keys - set ip | ip in before && now - before[ip] > peerTimeout) + dead
        invariant forall ip :: ip in peers ==> peers[ip] == before[ip]
        invariant manager != null ==>
          manager.peers == old(manager.peers) && manager.changeEvents == old(manager.changeEvents) && manager.Valid()
        decreases dead
      {
        var ip :| ip in dead;
        peers := peers - {ip};
        dead := dead - {ip};
      }
      assert peers == LiveEntries(old(peers), now, peerTimeout);
      if manager != null {
        manager.Sweep(now);
      }
    }

    /** `get_active_peers`: a copy of the table, every IP with its last-seen time. */
    function GetActivePeers(): (r: map<string, real>)
      reads this
      ensures forall ip :: ip in r <==> ip in peers
      ensures forall ip :: ip in r ==> r[ip] == peers[ip]
    {
      peers
    }
  }
}
