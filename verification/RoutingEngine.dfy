/**
 Symbol routing (internal/routing/partition.go, engine.go): symbols hash to partitions,
 partitions to gateways on the ring unless pinned, and each gateway redirects a client to
 the owner. Gateways agree because the ring depends only on the set of active gateways, as
 long as no two of their points collide.
 */
module RoutingEngine {
  import opened Bytes
  import opened HashRing

  class PartitionManager {
    const partitionCount: nat
    const ring: ConsistentHashRing
    var overrides: map<nat, string>

    constructor (partitionCount: nat, ring: ConsistentHashRing)
      ensures this.partitionCount == partitionCount && this.ring == ring && overrides == map[]
    {
      this.partitionCount, this.ring, overrides := partitionCount, ring, map[];
    }

    /** The partition count is a positive uint32: Go panics on a zero modulus. */
    ghost predicate Valid()
      reads this, ring
    {
      0 < partitionCount < TWO_32 && Ascending(ring.keys)
    }

    function PartitionFor(symbol: string): (p: nat)
      requires 0 < partitionCount
      ensures p < partitionCount && exists q :: p + q * partitionCount == ring.hash(symbol)
    {
      assert ring.hash(symbol) % partitionCount + ring.hash(symbol) / partitionCount * partitionCount == ring.hash(symbol);
      ring.hash(symbol) % partitionCount
    }

    method GatewayForPartition(id: nat) returns (owner: string)
      requires Valid() && id < TWO_32
      ensures id in overrides ==> owner == overrides[id]
      ensures id !in overrides ==> Placed(ring, id, owner)
    {
      if id in overrides {
        return overrides[id];
      }
      owner := ring.LookupPartition(id);
    }

    method GatewayForSymbol(symbol: string) returns (owner: string)
      requires Valid()
      ensures Routes(this, symbol, owner)
    {
      owner := GatewayForPartition(PartitionFor(symbol));
    }

    method MovePartition(id: nat, gateway: string)
      modifies this
      ensures overrides == old(overrides)[id := gateway]
    {
      overrides := overrides[id := gateway];
    }

    method ClearPartitionOverride(id: nat)
      modifies this
      ensures overrides == old(overrides) - {id}
    {
      overrides := overrides - {id};
    }
  }

  /** The ring places partition `id` on `owner`: that of the next key clockwise, if there is a key. */
  ghost predicate Placed(ring: ConsistentHashRing, id: nat, owner: string)
    reads ring
  {
    if ring.keys == [] then owner == ""
    else exists p :: IsNext(ring.keys, ring.hashBytes(ToLE(id, 4)), p) && owner == OwnerOf(ring.nodes, p)
  }

  /** Without collisions, that is the owner by clockwise distance. */
  lemma {:induction false} PlacedServes(ring: ConsistentHashRing, id: nat, owner: string)
    requires ring.Valid() && Placed(ring, id, owner)
    ensures Serves(ring.hash, ring.vnodes, ring.nodePresent, ring.hashBytes(ToLE(id, 4)), owner)
  {
    EmptyIff(ring.keys, ring.nodes, ring.hash, ring.vnodes, ring.nodePresent);
    if ring.keys == [] {
    } else {
      var x := ring.hashBytes(ToLE(id, 4));
      var p :| IsNext(ring.keys, x, p) && owner == OwnerOf(ring.nodes, p);
      NextOwns(ring.keys, ring.nodes, ring.hash, ring.vnodes, ring.nodePresent, x, p);
    }
  }

  /** `symbol` is routed to `owner`. */
  ghost predicate Routes(pm: PartitionManager, symbol: string, owner: string)
    requires 0 < pm.partitionCount
    reads pm, pm.ring
  {
    var id := pm.PartitionFor(symbol);
    if id in pm.overrides then owner == pm.overrides[id] else Placed(pm.ring, id, owner)
  }

  /** A symbol is routed to one gateway. */
  lemma {:induction false} RoutesUnique(pm: PartitionManager, symbol: string, a: string, b: string)
    requires pm.Valid() && Routes(pm, symbol, a) && Routes(pm, symbol, b)
    ensures a == b
  {
    var ring := pm.ring;
    var id := pm.PartitionFor(symbol);
    if id !in pm.overrides && ring.keys != [] {
      var x := ring.hashBytes(ToLE(id, 4));
      var p :| IsNext(ring.keys, x, p) && a == OwnerOf(ring.nodes, p);
      var q :| IsNext(ring.keys, x, q) && b == OwnerOf(ring.nodes, q);
      NextUnique(ring.keys, x, p, q);
    }
  }

  // ---------- Topology ----------

  datatype GatewayState = Joining | Online | Leaving | Offline

  datatype Gateway = Gateway(id: string, address: string, state: GatewayState)

  predicate Active(g: Gateway)
  {
    g.state == Online || g.state == Leaving
  }

  ghost function ActiveIds(nodes: seq<Gateway>): set<string>
  {
    set g | g in nodes && Active(g) :: g.id
  }

  /** `address` is the last one listed for `id` among active gateways. */
  ghost predicate LastAddress(nodes: seq<Gateway>, id: string, address: string)
  {
    exists i :: 0 <= i < |nodes| && Active(nodes[i]) && nodes[i].id == id && nodes[i].address == address
                && forall j :: i < j < |nodes| && Active(nodes[j]) ==> nodes[j].id != id
  }

  function Uri(address: string): string
  {
    "ws://" + address + "/ws"
  }

  class Engine {
    const localID: string
    const partitionMgr: PartitionManager
    const ring: ConsistentHashRing
    var nodeAddrs: map<string, string>

    constructor (localID: string, pm: PartitionManager)
      requires pm.Valid() && pm.ring.nodePresent == {}
      ensures Valid() && this.localID == localID && partitionMgr == pm && nodeAddrs == map[]
    {
      this.localID, partitionMgr, ring, nodeAddrs := localID, pm, pm.ring, map[];
    }

    /** The gateways on the ring are exactly those with a known address. */
    ghost predicate Valid()
      reads this, partitionMgr, ring
    {
      partitionMgr.ring == ring && partitionMgr.Valid() && ring.nodePresent == nodeAddrs.Keys
    }

    /** Adds every active gateway of a listing. */
    method AddActive(nodes: seq<Gateway>) returns (active: set<string>)
      requires Valid()
      modifies this`nodeAddrs, ring
      ensures Valid() && active == ActiveIds(nodes) <= nodeAddrs.Keys
      ensures old(ring.Valid()) && ActiveIds(nodes) <= ring.universe ==> ring.Valid()
      ensures forall id :: id in active ==> LastAddress(nodes, id, nodeAddrs[id])
    {
      active := {};
      for i := 0 to |nodes|
        invariant Valid() && active == ActiveIds(nodes[..i]) <= nodeAddrs.Keys
        invariant old(ring.Valid()) && ActiveIds(nodes) <= ring.universe ==> ring.Valid()
        invariant forall id :: id in active ==> LastAddress(nodes[..i], id, nodeAddrs[id])
      {
        var n := nodes[i];
        ghost var before := active;
        ActiveIdsSnoc(nodes, i);
        if Active(n) {
          active := active + {n.id};
          nodeAddrs := nodeAddrs[n.id := n.address];
          ring.AddNode(n.id);
        }
        forall id | id in active
          ensures LastAddress(nodes[..i + 1], id, nodeAddrs[id])
        {
          LastAddressSnoc(nodes, i, id, nodeAddrs[id]);
        }
      }
      assert nodes[..|nodes|] == nodes;
    }

    /** Replaces the topology by a listing: the ring holds exactly its active gateways. */
    method SyncTopology(nodes: seq<Gateway>)
      requires Valid()
      modifies this`nodeAddrs, ring
      ensures Valid() && ring.nodePresent == ActiveIds(nodes)
      ensures old(ring.Valid()) && ActiveIds(nodes) <= ring.universe ==> ring.Valid()
      ensures forall id :: id in nodeAddrs ==> LastAddress(nodes, id, nodeAddrs[id])
      ensures forall id :: id in ring.nodePresent <==> exists g :: g in nodes && g.id == id && (g.state == Online || g.state == Leaving)
    {
      var active := AddActive(nodes);
      var todo := nodeAddrs.Keys;
      while todo != {}
        invariant Valid() && active <= nodeAddrs.Keys && todo + active >= nodeAddrs.Keys
        invariant old(ring.Valid()) && ActiveIds(nodes) <= ring.universe ==> ring.Valid()
        invariant forall id :: id in active ==> LastAddress(nodes, id, nodeAddrs[id])
        decreases todo
      {
        var id :| id in todo;
        todo := todo - {id};
        if id !in active {
          ring.RemoveNode(id);
          nodeAddrs := nodeAddrs - {id};
        }
      }
      assert nodeAddrs.Keys == active;
    }

    /** "" to serve locally, otherwise the owner's URI. */
    method RedirectTarget(symbol: string) returns (uri: string)
      requires Valid()
      ensures Redirects(this, symbol, uri)
    {
      var owner := partitionMgr.GatewayForSymbol(symbol);
      if owner == "" || owner == localID {
        return "";
      }
      var addr := if owner in nodeAddrs then nodeAddrs[owner] else "";
      if addr == "" {
        return "";
      }
      return Uri(addr);
    }
  }

  /** What a gateway answers for a symbol. */
  ghost predicate Redirects(e: Engine, symbol: string, uri: string)
    requires e.Valid()
    reads e, e.partitionMgr, e.ring
  {
    exists owner ::
      && Routes(e.partitionMgr, symbol, owner)
      && uri == if owner == "" || owner == e.localID || owner !in e.nodeAddrs || e.nodeAddrs[owner] == "" then ""
                else "ws://" + e.nodeAddrs[owner] + "/ws"
  }

  lemma {:induction false} ActiveIdsSnoc(nodes: seq<Gateway>, i: nat)
    requires i < |nodes|
    ensures ActiveIds(nodes[..i + 1]) == ActiveIds(nodes[..i]) + if Active(nodes[i]) then {nodes[i].id} else {}
    ensures ActiveIds(nodes[..i + 1]) <= ActiveIds(nodes)
  {
    assert nodes[..i + 1] == nodes[..i] + [nodes[i]];
    assert forall g :: g in nodes[..i + 1] ==> g in nodes;
  }

  lemma {:induction false} LastAddressSnoc(nodes: seq<Gateway>, i: nat, id: string, address: string)
    requires i < |nodes|
    requires if Active(nodes[i]) && nodes[i].id == id then address == nodes[i].address
             else LastAddress(nodes[..i], id, address)
    ensures LastAddress(nodes[..i + 1], id, address)
  {
    var all := nodes[..i + 1];
    if Active(nodes[i]) && nodes[i].id == id {
      assert all[i] == nodes[i];
    } else {
      var k :| 0 <= k < i && Active(nodes[..i][k]) && nodes[..i][k].id == id && nodes[..i][k].address == address
               && forall j :: k < j < i && Active(nodes[..i][j]) ==> nodes[..i][j].id != id;
      assert all[k] == nodes[..i][k];
      forall j | k < j < |all| && Active(all[j]) ensures all[j].id != id {
        if j < i { assert nodes[..i][j] == all[j]; }
      }
    }
  }

  // ---------- Agreement ----------

  /** Two gateways configured alike whose last listings had the same active gateways. */
  ghost predicate SameView(a: Engine, b: Engine)
    reads a, a.partitionMgr, a.ring, b, b.partitionMgr, b.ring
  {
    && a.ring.hash == b.ring.hash && a.ring.hashBytes == b.ring.hashBytes && a.ring.vnodes == b.ring.vnodes
    && a.partitionMgr.partitionCount == b.partitionMgr.partitionCount
    && a.partitionMgr.overrides == b.partitionMgr.overrides
    && a.nodeAddrs.Keys == b.nodeAddrs.Keys
  }

  /** Without collisions their rings are equal, whatever their histories. */
  lemma {:induction false} SameRing(a: Engine, b: Engine)
    requires a.Valid() && b.Valid() && SameView(a, b) && a.ring.Valid() && b.ring.Valid()
    ensures a.ring.Value() == b.ring.Value()
  {
    FewerCollide(a.ring.hash, a.ring.vnodes, a.ring.universe, a.ring.nodePresent);
    LaidDetermined(a.ring.keys, a.ring.nodes, b.ring.keys, b.ring.nodes, a.ring.hash, a.ring.vnodes, a.ring.nodePresent);
  }

  /** With equal rings they route every symbol to the same gateway. */
  lemma {:induction false} SameRoutes(a: Engine, b: Engine, symbol: string, owner: string)
    requires a.Valid() && b.Valid() && SameView(a, b) && a.ring.Value() == b.ring.Value()
    ensures Routes(a.partitionMgr, symbol, owner) <==> Routes(b.partitionMgr, symbol, owner)
  {
  }

  /**
   No redirect loops: when gateway `a` sends a client away, it is to the address it knows for
   some other gateway, and if that gateway is `b` with the same view, `b` serves locally.
   */
  lemma {:induction false} NoRedirectLoop(a: Engine, b: Engine, symbol: string, uri: string, answer: string) returns (owner: string)
    requires a.Valid() && b.Valid() && SameView(a, b) && a.ring.Valid() && b.ring.Valid()
    requires Redirects(a, symbol, uri) && uri != "" && Redirects(b, symbol, answer)
    ensures owner in a.nodeAddrs && owner != a.localID && uri == Uri(a.nodeAddrs[owner])
    ensures b.localID == owner ==> answer == ""
  {
    owner :| Routes(a.partitionMgr, symbol, owner) && owner != a.localID && owner in a.nodeAddrs && uri == Uri(a.nodeAddrs[owner]);
    SameRing(a, b);
    SameRoutes(a, b, symbol, owner);
    var owner' :| Routes(b.partitionMgr, symbol, owner')
                  && answer == if owner' == "" || owner' == b.localID || owner' !in b.nodeAddrs || b.nodeAddrs[owner'] == "" then ""
                               else Uri(b.nodeAddrs[owner']);
    RoutesUnique(b.partitionMgr, symbol, owner, owner');
  }

  /** With distinct addresses the URI itself identifies the gateway that then serves locally. */
  lemma {:induction false} RedirectedServesLocally(a: Engine, b: Engine, symbol: string, uri: string, answer: string)
    requires a.Valid() && b.Valid() && SameView(a, b) && a.ring.Valid() && b.ring.Valid()
    requires Redirects(a, symbol, uri) && uri != "" && Redirects(b, symbol, answer)
    requires b.localID in a.nodeAddrs && uri == Uri(a.nodeAddrs[b.localID])
    requires forall g, h :: g in a.nodeAddrs && h in a.nodeAddrs && a.nodeAddrs[g] == a.nodeAddrs[h] ==> g == h
    ensures answer == ""
  {
    var owner := NoRedirectLoop(a, b, symbol, uri, answer);
    UriInjective(a.nodeAddrs[owner], a.nodeAddrs[b.localID]);
  }

  lemma {:induction false} UriInjective(x: string, y: string)
    requires Uri(x) == Uri(y)
    ensures x == y
  {
    var u, v := Uri(x), Uri(y);
    assert x == u[5..|u| - 3];
    assert y == v[5..|v| - 3];
  }
}
