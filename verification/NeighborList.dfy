/** The neighbour list on the heap: nodes allocated, relinked and freed one at a time. */
module NeighborList {
  import opened NeighborTable

  class Nbr {
    var usn: string
    var location: string
    var smId: string
    var deviceType: string
    var updateTime: int
    var next: Nbr?

    constructor (n: Neighbor)
      ensures Value() == n && next == null
    {
      usn, location, smId, deviceType := n.usn, n.location, n.smId, n.deviceType;
      updateTime := n.updateTime;
      next := null;
    }

    ghost function Value(): Neighbor
      reads this
    {
      Neighbor(usn, location, smId, deviceType, updateTime)
    }
  }

  class NeighborRegister {
    var head: Nbr?
    var timeout: int
    var hasCallback: bool
    var notified: nat            // calls of neighbor_list_changed_callback
    const longMax: nat

    ghost var nodes: seq<Nbr>    // the list, in order
    ghost var live: set<Nbr>     // allocated and not freed
    ghost var entries: seq<Neighbor>   // what the nodes hold, in order

    ghost predicate Linked()
      reads this`head, this`nodes, nodes
    {
      && (forall i, j :: 0 <= i < j < |nodes| ==> nodes[i] != nodes[j])
      && head == NodeAt(0)
      && forall i {:trigger nodes[i].next} :: 0 <= i < |nodes| ==> nodes[i].next == NodeAt(i + 1)
    }

    ghost function NodeAt(i: nat): Nbr?
      reads this`nodes
    {
      if i < |nodes| then nodes[i] else null
    }

    ghost predicate Holds()
      reads this`nodes, this`entries, nodes
    {
      |entries| == |nodes| && forall i {:trigger entries[i]} :: 0 <= i < |nodes| ==> entries[i] == nodes[i].Value()
    }

    /** The list is finite and acyclic, and it is exactly the memory that is still allocated. */
    ghost predicate Chained()
      reads this`head, this`nodes, this`live, this`entries, nodes
    {
      && Linked() && Holds()
      && (forall n :: n in live ==> n in nodes) && (forall i :: 0 <= i < |nodes| ==> nodes[i] in live)
    }

    /** And no two nodes share a location. */
    ghost predicate Valid()
      reads this`head, this`nodes, this`live, this`entries, nodes
    {
      Chained() && Distinct(entries)
    }

    constructor (timeout: int, hasCallback: bool, longMax: nat)
      ensures Valid() && entries == [] && nodes == []
      ensures this.timeout == timeout && this.hasCallback == hasCallback && this.longMax == longMax && notified == 0
    {
      head, this.timeout, this.hasCallback, notified, this.longMax := null, timeout, hasCallback, 0, longMax;
      nodes, live, entries := [], {}, [];
    }

    /** free: each block once, and only a block that malloc gave out. */
    method Free(n: Nbr)
      requires n in live
      modifies this`live
      ensures live == old(live) - {n}
    {
      live := live - {n};
    }

    // ----- Adding -----

    lemma FindIs(l: seq<Neighbor>, location: string, i: nat)
      requires i <= |l| && (i < |l| ==> l[i].location == location)
      requires forall k :: 0 <= k < i ==> l[k].location != location
      ensures Find(l, location) == i
    {}

    /** A known location: each differing string is replaced, the time always. */
    method UpdateNode(nbr: Nbr, packet: Neighbor) returns (isChanged: bool)
      requires nbr.location == packet.location
      modifies nbr
      ensures nbr.Value() == packet && nbr.next == old(nbr.next)
      ensures isChanged <==> Bare(old(nbr.Value())) != Bare(packet)
    {
      isChanged := false;
      if nbr.usn != packet.usn {
        nbr.usn := packet.usn;
        isChanged := true;
      }
      if nbr.smId != packet.smId {
        nbr.smId := packet.smId;
        isChanged := true;
      }
      if nbr.deviceType != packet.deviceType {
        nbr.deviceType := packet.deviceType;
        isChanged := true;
      }
      nbr.updateTime := packet.updateTime;
    }

    method UpdateAt(nbr: Nbr, packet: Neighbor, ghost i: nat) returns (isChanged: bool)
      requires Chained() && i < |nodes| && nodes[i] == nbr && nbr.location == packet.location
      modifies nbr, this`entries
      ensures Chained() && entries == old(entries)[i := packet]
      ensures isChanged <==> Changed(old(entries), entries)
    {
      isChanged := UpdateNode(nbr, packet);
      entries := entries[i := packet];
      ChangedAt(old(entries), i, packet);
    }

    /** Hangs a new node behind the last one. */
    method Append(last: Nbr?, nbr: Nbr)
      requires Chained() && last == (if nodes == [] then null else nodes[|nodes| - 1])
      requires nbr !in nodes && nbr !in live && nbr.next == null
      modifies this`head, this`nodes, this`live, this`entries, live
      ensures Chained() && nodes == old(nodes) + [nbr] && live == old(live) + {nbr}
      ensures entries == old(entries) + [nbr.Value()]
    {
      if last == null {
        head := nbr;
      } else {
        last.next := nbr;
      }
      nodes := nodes + [nbr];
      live := live + {nbr};
      entries := entries + [nbr.Value()];
    }

    /** An unknown location: a node is allocated for it at the end of the list. */
    method AppendNew(last: Nbr?, packet: Neighbor)
      requires Chained() && last == (if nodes == [] then null else nodes[|nodes| - 1])
      modifies this`head, this`nodes, this`live, this`entries, live
      ensures Chained() && fresh(live - old(live))
      ensures entries == old(entries) + [packet]
    {
      var nbr := new Nbr(packet);
      Append(last, nbr);
    }

    /** The scan of neighbor_list_add: the node with this location, or none and the last node of the list. */
    method FindNode(location: string) returns (nbr: Nbr?, last: Nbr?, ghost i: nat)
      requires Chained()
      ensures i == Find(entries, location) && nbr == NodeAt(i)
      ensures nbr == null ==> last == if nodes == [] then null else nodes[|nodes| - 1]
    {
      last, nbr, i := head, head, 0;
      while nbr != null && nbr.location != location
        invariant i <= |nodes| && nbr == NodeAt(i)
        invariant last == NodeAt(if i == 0 then 0 else i - 1)
        invariant forall k :: 0 <= k < i ==> nodes[k].location != location
        decreases |nodes| - i
      {
        last, nbr := nbr, nbr.next;
        i := i + 1;
      }
      FindIs(entries, location, i);
    }

    method AddNode(packet: Neighbor) returns (isChanged: bool)
      requires Chained()
      modifies this`head, this`nodes, this`live, this`entries, live
      ensures Chained() && fresh(live - old(live))
      ensures entries == NeighborTable.Add(old(entries), packet)
      ensures isChanged <==> Changed(old(entries), entries)
    {
      var nbr, last, i := FindNode(packet.location);
      if nbr != null {
        isChanged := UpdateAt(nbr, packet, i);
      } else {
        AppendNew(last, packet);
        isChanged := true;
      }
    }

    /** neighbor_list_add */
    method Add(packet: Neighbor)
      requires Valid()
      modifies this`head, this`nodes, this`live, this`entries, this`notified, live
      ensures Valid() && fresh(live - old(live))
      ensures entries == NeighborTable.Add(old(entries), packet)
      ensures notified == old(notified) + if hasCallback && Changed(old(entries), entries) then 1 else 0
    {
      AddMembers(entries, packet);
      var isChanged := AddNode(packet);
      if hasCallback && isChanged {
        notified := notified + 1;
      }
    }

    // ----- Expiring -----

    /** Takes the node at k out of the chain; returns what follows it. */
    method Unlink(prev: Nbr?, nbr: Nbr, ghost k: nat) returns (next: Nbr?)
      requires Linked() && Holds() && k < |nodes| && nodes[k] == nbr
      requires prev == if k == 0 then null else nodes[k - 1]
      modifies this`head, this`nodes, this`entries, if prev == null then {} else {prev}
      ensures Linked() && Holds() && nodes == old(nodes)[..k] + old(nodes)[k + 1..] && next == NodeAt(k)
      ensures entries == old(entries)[..k] + old(entries)[k + 1..]
    {
      next := nbr.next;
      if prev == null {
        head := next;
      } else {
        prev.next := next;
      }
      nodes := nodes[..k] + nodes[k + 1..];
      entries := entries[..k] + entries[k + 1..];
    }

    /** Unlinks the node at k and frees it. */
    method Remove(prev: Nbr?, nbr: Nbr, ghost k: nat) returns (next: Nbr?)
      requires Chained() && k < |nodes| && nodes[k] == nbr
      requires prev == if k == 0 then null else nodes[k - 1]
      modifies this`head, this`nodes, this`live, this`entries, live
      ensures Chained() && live <= old(live) && next == NodeAt(k)
      ensures |nodes| == |old(nodes)| - 1 && nodes[..k] == old(nodes)[..k]
      ensures entries == old(entries)[..k] + old(entries)[k + 1..]
    {
      ghost var was := nodes;
      next := Unlink(prev, nbr, k);
      Free(nbr);
      forall i | 0 <= i < |nodes| ensures nodes[i] in live {
        assert nodes[i] == was[if i < k then i else i + 1];
      }
    }

    /** The two cursors of the scan: nbr at k and the node before it. */
    ghost predicate Cursors(prev: Nbr?, nbr: Nbr?, k: nat)
      reads this`nodes
    {
      k <= |nodes| && nbr == NodeAt(k) && prev == if k == 0 then null else nodes[k - 1]
    }

    /** One turn of the loop: the node is kept and both cursors move, or it is removed and only nbr moves. */
    method Examine(prev: Nbr?, nbr: Nbr, now: int, ghost k: nat) returns (prev': Nbr?, nbr': Nbr?, kept: bool)
      requires Chained() && Cursors(prev, nbr, k)
      modifies this`head, this`nodes, this`live, this`entries, live
      ensures Chained() && live <= old(live)
      ensures kept <==> Fresh(old(entries)[k], now, timeout, longMax)
      ensures kept ==> Cursors(prev', nbr', k + 1) && entries == old(entries)
      ensures !kept ==> Cursors(prev', nbr', k) && entries == old(entries)[..k] + old(entries)[k + 1..]
    {
      assert entries[k] == nbr.Value();
      var passTime := ToLong(now - nbr.updateTime, longMax);
      kept := passTime < timeout;
      if kept {
        prev', nbr' := nbr, nbr.next;
      } else {
        prev' := prev;
        nbr' := Remove(prev, nbr, k);
      }
    }

    method Turn(prev: Nbr?, nbr: Nbr, now: int, ghost was: seq<Neighbor>, ghost j: nat, ghost k: nat)
      returns (prev': Nbr?, nbr': Nbr?, kept: bool)
      requires Chained() && Cursors(prev, nbr, k)
      requires j <= |was| && Scanned(entries, was, j, k, FreshAt(now, timeout, longMax))
      modifies this`head, this`nodes, this`live, this`entries, live
      ensures Chained() && live <= old(live) && j < |was|
      ensures Cursors(prev', nbr', if kept then k + 1 else k)
      ensures Scanned(entries, was, j + 1, if kept then k + 1 else k, FreshAt(now, timeout, longMax))
    {
      ScanStep(entries, was, j, k, FreshAt(now, timeout, longMax));
      prev', nbr', kept := Examine(prev, nbr, now, k);
    }

    /** The loop of lssdp_neighbor_check_timeout. */
    method RemoveExpired(now: int) returns (isChanged: bool)
      requires Chained()
      modifies this`head, this`nodes, this`live, this`entries, live
      ensures Chained() && live <= old(live)
      ensures entries == Filter(old(entries), FreshAt(now, timeout, longMax))
      ensures isChanged <==> |entries| < |old(entries)|
    {
      ghost var was := entries;
      isChanged := false;
      var prev: Nbr?, nbr: Nbr? := null, head;
      ghost var j, k := 0, 0;
      ScanStart(was, FreshAt(now, timeout, longMax));
      while nbr != null
        invariant Chained() && live <= old(live) && Cursors(prev, nbr, k)
        invariant k <= j <= |was| && Scanned(entries, was, j, k, FreshAt(now, timeout, longMax))
        invariant isChanged <==> k < j
        decreases |was| - j
      {
        var kept;
        prev, nbr, kept := Turn(prev, nbr, now, was, j, k);
        isChanged := isChanged || !kept;
        j, k := j + 1, if kept then k + 1 else k;
      }
      ScanDone(entries, was, j, k, FreshAt(now, timeout, longMax));
    }

    /** lssdp_neighbor_check_timeout; now is what get_current_time returned, negative on failure. */
    method CheckTimeout(now: int) returns (r: int)
      requires Valid()
      modifies this`head, this`nodes, this`live, this`entries, this`notified, live
      ensures Valid() && live <= old(live)
      ensures entries == Check(old(entries), now, timeout, longMax)
      ensures notified == old(notified) + if hasCallback && Changed(old(entries), entries) then 1 else 0
      ensures r == if timeout > 0 && now < 0 then -1 else 0
    {
      if timeout <= 0 {
        return 0;
      }
      if now < 0 {
        return -1;
      }
      FilterAll(entries, |nodes|, FreshAt(now, timeout, longMax));
      FilterDistinct(entries, |entries|, FreshAt(now, timeout, longMax));
      var isChanged := RemoveExpired(now);
      if isChanged && hasCallback {
        notified := notified + 1;
      }
      return 0;
    }

    // ----- Clearing -----

    /** neighbor_list_free: the rest of the list first, then the node itself. */
    method FreeFrom(list: Nbr?, ghost k: nat)
      requires Linked() && k <= |nodes| && list == NodeAt(k)
      requires forall i :: k <= i < |nodes| ==> nodes[i] in live
      modifies this`live
      ensures live == old(live) - set n | n in nodes[k..]
      decreases |nodes| - k
    {
      if list != null {
        FreeFrom(list.next, k + 1);
        Free(list);
        assert nodes[k..] == [nodes[k]] + nodes[k + 1..];
      }
    }

    /** lssdp_neighbor_remove_all */
    method RemoveAll()
      requires Valid()
      modifies this`head, this`nodes, this`live, this`entries, this`notified
      ensures Valid() && nodes == [] && entries == [] && live == {}
      ensures notified == old(notified) + if hasCallback && Changed(old(entries), []) then 1 else 0
    {
      if head == null {
        return;
      }
      FreeFrom(head, 0);
      assert nodes[0..] == nodes;
      head := null;
      nodes, entries := [], [];
      if hasCallback {
        notified := notified + 1;
      }
    }
  }
}
