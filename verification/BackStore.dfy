/** The primary's list of replicas: pushing updates, holding them back, recovering and
    reconnecting. */
module BackStore {
  import opened Updates

  const RUNNING := 1
  const RECOVERING := 2
  const FAILED := 3

  /** A `Replicate`: its address and state, the updates held back while it recovers, and what
      has been written to its current connection, in order. */
  datatype Replica = Replica(addr: string, state: int, holdBack: seq<Update>, connected: bool, sent: seq<Update>)

  /** `push` for one replica. Writing to a missing connection would follow a null pointer. */
  function Push1(r: Replica, u: Update, wrote: bool): Replica
    requires r.state == RUNNING ==> r.connected
  {
    if r.state == RUNNING then
      if wrote then r.(sent := r.sent + [u]) else r.(state := FAILED)
    else if r.state == RECOVERING then r.(holdBack := r.holdBack + [u])
    else r
  }

  /** The replica at an address: the first one listed. */
  function IndexOf(rs: seq<Replica>, addr: string): (i: nat)
    ensures i <= |rs|
    ensures i < |rs| ==> rs[i].addr == addr
    ensures forall j :: 0 <= j < i ==> rs[j].addr != addr
  {
    if rs == [] then 0
    else if rs[0].addr == addr then 0
    else 1 + IndexOf(rs[1..], addr)
  }

  /** `reconnect` for the replica found: a new connection, which first gets what was held
      back; the results of those writes are not looked at. */
  function Reconnected(r: Replica): Replica {
    Replica(r.addr, RUNNING, [], true, r.holdBack)
  }

  class BackStore {
    var nodes: seq<Replica>

    ghost predicate Valid()
      reads this
    {
      forall i :: 0 <= i < |nodes| ==>
        (nodes[i].state == RUNNING ==> nodes[i].connected)
        && (nodes[i].state != RECOVERING ==> nodes[i].holdBack == [])
    }

    /** `establishConn`: a replica that cannot be reached starts as failed. */
    constructor (addrs: seq<string>, myID: nat, reachable: seq<bool>)
      requires |reachable| == |addrs|
      ensures Valid()
      ensures |nodes| == if myID < |addrs| then |addrs| - 1 else |addrs|
      ensures forall i :: 0 <= i < |nodes| ==>
                var j := if i < myID then i else i + 1;
                nodes[i] == Replica(addrs[j], if reachable[j] then RUNNING else FAILED, [], reachable[j], [])
    {
      var list: seq<Replica> := [];
      var i := 0;
      while i < |addrs|
        invariant 0 <= i <= |addrs|
        invariant |list| == if myID < i then i - 1 else i
        invariant forall k :: 0 <= k < |list| ==>
                    var j := if k < myID then k else k + 1;
                    list[k] == Replica(addrs[j], if reachable[j] then RUNNING else FAILED, [], reachable[j], [])
      {
        if i != myID {
          list := list + [Replica(addrs[i], if reachable[i] then RUNNING else FAILED, [], reachable[i], [])];
        }
        i := i + 1;
      }
      nodes := list;
    }

    /** `push`: one command to every replica that runs or recovers. */
    method Push(u: Update, wrote: seq<bool>)
      requires Valid() && |wrote| == |nodes|
      modifies this
      ensures Valid() && |nodes| == |old(nodes)|
      ensures forall i :: 0 <= i < |nodes| ==> nodes[i] == Push1(old(nodes)[i], u, wrote[i])
      ensures forall i :: 0 <= i < |nodes| && old(nodes)[i].state == RUNNING && wrote[i] ==>
                nodes[i].state == RUNNING && nodes[i].sent == old(nodes)[i].sent + [u]
      ensures forall i :: 0 <= i < |nodes| && old(nodes)[i].state == RUNNING && !wrote[i] ==>
                nodes[i].state == FAILED && nodes[i].sent == old(nodes)[i].sent
      ensures forall i :: 0 <= i < |nodes| && old(nodes)[i].state == RECOVERING ==>
                nodes[i] == old(nodes)[i].(holdBack := old(nodes)[i].holdBack + [u])
      ensures forall i :: 0 <= i < |nodes| && old(nodes)[i].state !in {RUNNING, RECOVERING} ==>
                nodes[i] == old(nodes)[i]
      ensures forall i :: 0 <= i < |nodes| && old(nodes)[i].state == RUNNING ==>
                nodes[i].addr == old(nodes)[i].addr && nodes[i].connected && nodes[i].holdBack == old(nodes)[i].holdBack
    {
      var i := 0;
      while i < |nodes|
        invariant 0 <= i <= |nodes| == |old(nodes)|
        invariant forall j :: 0 <= j < i ==> nodes[j] == Push1(old(nodes)[j], u, wrote[j])
        invariant forall j :: i <= j < |nodes| ==> nodes[j] == old(nodes)[j]
      {
        var r := nodes[i];
        if r.state == RUNNING {
          if wrote[i] {
            nodes := nodes[i := r.(sent := r.sent + [u])];
          } else {
            nodes := nodes[i := r.(state := FAILED)];
          }
        } else if r.state == RECOVERING {
          nodes := nodes[i := r.(holdBack := r.holdBack + [u])];
        }
        i := i + 1;
      }
    }

    /** `poll` differs from `push` only where the connection of a running replica is missing,
        which `Valid` rules out. */
    method Poll(u: Update, wrote: seq<bool>)
      requires Valid() && |wrote| == |nodes|
      modifies this
      ensures Valid() && |nodes| == |old(nodes)|
      ensures forall i :: 0 <= i < |nodes| ==> nodes[i] == Push1(old(nodes)[i], u, wrote[i])
      ensures forall i :: 0 <= i < |nodes| && old(nodes)[i].state == RUNNING && wrote[i] ==>
                nodes[i].state == RUNNING && nodes[i].sent == old(nodes)[i].sent + [u]
      ensures forall i :: 0 <= i < |nodes| && old(nodes)[i].state == RUNNING && !wrote[i] ==>
                nodes[i].state == FAILED && nodes[i].sent == old(nodes)[i].sent
      ensures forall i :: 0 <= i < |nodes| && old(nodes)[i].state == RECOVERING ==>
                nodes[i] == old(nodes)[i].(holdBack := old(nodes)[i].holdBack + [u])
      ensures forall i :: 0 <= i < |nodes| && old(nodes)[i].state !in {RUNNING, RECOVERING} ==>
                nodes[i] == old(nodes)[i]
      ensures forall i :: 0 <= i < |nodes| && old(nodes)[i].state == RUNNING ==>
                nodes[i].addr == old(nodes)[i].addr && nodes[i].connected && nodes[i].holdBack == old(nodes)[i].holdBack
    {
      var i := 0;
      while i < |nodes|
        invariant 0 <= i <= |nodes| == |old(nodes)|
        invariant forall j :: 0 <= j < i ==> nodes[j] == Push1(old(nodes)[j], u, wrote[j])
        invariant forall j :: i <= j < |nodes| ==> nodes[j] == old(nodes)[j]
      {
        var r := nodes[i];
        if r.state == RUNNING && r.connected {
          if wrote[i] {
            nodes := nodes[i := r.(sent := r.sent + [u])];
          } else {
            nodes := nodes[i := r.(state := FAILED)];
          }
        } else if r.state == RECOVERING {
          nodes := nodes[i := r.(holdBack := r.holdBack + [u])];
        }
        i := i + 1;
      }
    }

    /** `recover`: from now on updates for this replica are held back. What is already held
        back stays. */
    method Recover(address: string) returns (found: bool)
      requires Valid()
      modifies this
      ensures Valid()
      ensures var k := IndexOf(old(nodes), address);
              && found == (k < |old(nodes)|)
              && nodes == if found then old(nodes)[k := old(nodes)[k].(state := RECOVERING)] else old(nodes)
    {
      var i := Lookup(address);
      if i < |nodes| {
        nodes := nodes[i := nodes[i].(state := RECOVERING)];
        return true;
      }
      return false;
    }

    method Lookup(address: string) returns (i: nat)
      ensures i == IndexOf(nodes, address)
    {
      i := 0;
      while i < |nodes| && nodes[i].addr != address
        invariant i <= |nodes|
        invariant forall j :: 0 <= j < i ==> nodes[j].addr != address
      {
        i := i + 1;
      }
    }

    /** `reconnect`: the held-back commands go out first, in order, and the queue is empty. */
    method Reconnect(address: string) returns (found: bool)
      requires Valid()
      modifies this
      ensures Valid()
      ensures var k := IndexOf(old(nodes), address);
              && found == (k < |old(nodes)|)
              && nodes == if found then old(nodes)[k := Reconnected(old(nodes)[k])] else old(nodes)
      ensures forall j :: 0 <= j < |nodes| && (forall l :: 0 <= l < j ==> old(nodes)[l].addr != address) ==>
                if old(nodes)[j].addr == address
                then nodes[j] == Replica(address, RUNNING, [], true, old(nodes)[j].holdBack)
                else nodes[j] == old(nodes)[j]
    {
      var i := Lookup(address);
      if i == |nodes| {
        return false;
      }
      var r := nodes[i].(connected := true, sent := []);
      while r.holdBack != []
        invariant r.sent + r.holdBack == old(nodes)[i].holdBack
        invariant r == Replica(old(nodes)[i].addr, old(nodes)[i].state, r.holdBack, true, r.sent)
        decreases |r.holdBack|
      {
        assert r.holdBack == [r.holdBack[0]] + r.holdBack[1..];
        r := r.(sent := r.sent + [r.holdBack[0]], holdBack := r.holdBack[1..]);
      }
      assert r.sent + r.holdBack == r.sent;
      nodes := nodes[i := r.(state := RUNNING)];
      return true;
    }
  }
}
