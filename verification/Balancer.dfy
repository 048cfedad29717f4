/** The load balancer's deque of frontend servers. */
module Balancer {
  import opened Wrappers

  datatype Server = Server(address: string, running: bool)

  /** The position of the first running server, or the length. */
  function FirstRunning(servers: seq<Server>): (k: nat)
    ensures k <= |servers| && (k < |servers| ==> servers[k].running)
    ensures forall j :: 0 <= j < k ==> !servers[j].running
  {
    if servers == [] || servers[0].running then 0 else 1 + FirstRunning(servers[1..])
  }

  function Rotated(servers: seq<Server>, k: nat): (r: seq<Server>)
    requires k <= |servers|
    ensures |r| == |servers|
  {
    servers[k..] + servers[..k]
  }

  /** The deque after a request: the chosen server is last. */
  function Served(servers: seq<Server>): (r: seq<Server>)
    ensures |r| == |servers|
  {
    var k := FirstRunning(servers);
    if k == |servers| then servers else Rotated(servers, k + 1)
  }

  function Chosen(servers: seq<Server>): Option<string> {
    var k := FirstRunning(servers);
    if k == |servers| then None else Some(servers[k].address)
  }

  lemma {:induction false} NotRotated(servers: seq<Server>)
    ensures Rotated(servers, 0) == servers && Rotated(servers, |servers|) == servers
  {
  }

  /** Moving the front of the deque to its back. */
  lemma {:induction false} OneRotation(servers: seq<Server>, k: nat)
    requires k < |servers|
    ensures var r := Rotated(servers, k);
            r[0] == servers[k] && r[1..] + [r[0]] == Rotated(servers, k + 1)
  {
  }

  lemma {:induction false} FirstIs(servers: seq<Server>, k: nat)
    requires k <= |servers| && forall j :: 0 <= j < k ==> !servers[j].running
    requires k < |servers| ==> servers[k].running
    ensures FirstRunning(servers) == k
  {
  }

  class LoadBalancer {
    var servers: seq<Server>

    /** The scan of the accept loop: servers that are down go to the back, until one is running
        or all have been seen; the chosen one goes to the back too. */
    method Pick() returns (address: Option<string>)
      requires servers != []
      modifies this
      ensures address == Chosen(old(servers))
      ensures servers == Served(old(servers))
    {
      hide FirstRunning, Rotated;
      ghost var was := servers;
      var count := 0;
      NotRotated(was);
      while !servers[0].running
        invariant 0 <= count < |was| == |servers|
        invariant servers == Rotated(was, count)
        invariant forall j :: 0 <= j < count ==> !was[j].running
        decreases |was| - count
      {
        var tmp := servers[0];
        OneRotation(was, count);
        count := count + 1;
        servers := servers[1..] + [tmp];
        if count == |servers| {
          break;
        }
      }
      if count < |servers| {
        OneRotation(was, count);
      }
      FirstIs(was, count);
      if count == |servers| {
        NotRotated(was);
        return None;
      }
      address := Some(servers[0].address);
      var tmp := servers[0];
      servers := servers[1..] + [tmp];
    }

    /** What the thread that watches the servers found out about one of them. */
    method SetRunning(i: nat, running: bool)
      requires i < |servers|
      modifies this
      ensures servers == old(servers)[i := old(servers)[i].(running := running)]
    {
      servers := servers[i := servers[i].(running := running)];
    }
  }

  // ------------------------------------------------------------ over a run of requests

  /** The watching thread sets every flag before a request. */
  function Marked(servers: seq<Server>, up: set<string>): (r: seq<Server>)
    ensures |r| == |servers|
    ensures forall i :: 0 <= i < |r| ==> r[i] == Server(servers[i].address, servers[i].address in up)
  {
    seq(|servers|, i requires 0 <= i < |servers| => Server(servers[i].address, servers[i].address in up))
  }

  /** The deque after one request for each element of `ups`, the servers up at that time. */
  function Run(servers: seq<Server>, ups: seq<set<string>>): (r: seq<Server>)
    ensures |r| == |servers|
  {
    if ups == [] then servers
    else Served(Marked(Run(servers, ups[..|ups| - 1]), ups[|ups| - 1]))
  }

  function Addresses(servers: seq<Server>): (r: seq<string>)
    ensures |r| == |servers| && forall i :: 0 <= i < |r| ==> r[i] == servers[i].address
  {
    seq(|servers|, i requires 0 <= i < |servers| => servers[i].address)
  }

  /** What request number `k` of the run gets. */
  function Answer(servers: seq<Server>, ups: seq<set<string>>, k: nat): Option<string>
    requires k < |ups|
  {
    Chosen(Marked(Run(servers, ups[..k]), ups[k]))
  }

  /** By how many positions the deque has been turned. */
  function Turn(servers: seq<Server>, ups: seq<set<string>>): (t: nat)
    ensures servers != [] ==> t < |servers|
  {
    if ups == [] || servers == [] then 0
    else
      var front := ups[..|ups| - 1];
      var k := FirstRunning(Marked(Run(servers, front), ups[|ups| - 1]));
      if k == |servers| then Turn(servers, front) else (Turn(servers, front) + k + 1) % |servers|
  }

  lemma {:induction false} TurnLess(x: seq<string>, y: seq<string>, z: seq<string>)
    ensures var b := (y + z) + x; b[|y|..] + b[..|y|] == z + (x + y)
  {
    var b := (y + z) + x;
    assert b[|y|..] == z + x;
    assert b[..|y|] == y;
  }

  /** Turning by `t` and then by `k` less than what is left: `a` is `x`, `y`, `z`. */
  lemma {:induction false} TurnInside(a: seq<string>, t: nat, k: nat)
    requires t + k < |a|
    ensures var b := a[t..] + a[..t];
            b[k..] + b[..k] == a[t + k..] + a[..t + k]
  {
    var x, y, z := a[..t], a[t..t + k], a[t + k..];
    TurnLess(x, y, z);
    assert a[t..] == y + z;
    assert a[..t + k] == x + y;
  }

  lemma {:induction false} TurnMore(x: seq<string>, y: seq<string>, z: seq<string>)
    ensures var b := z + (x + y); b[|z| + |x|..] + b[..|z| + |x|] == (y + z) + x
  {
    var b := z + (x + y);
    assert b[|z| + |x|..] == y;
    assert b[..|z| + |x|] == z + x;
    assert y + (z + x) == (y + z) + x;
  }

  lemma {:induction false} TurnOver(a: seq<string>, t: nat, k: nat)
    requires t < |a| && k <= |a| <= t + k
    ensures var b, u := a[t..] + a[..t], t + k - |a|;
            b[k..] + b[..k] == a[u..] + a[..u]
  {
    var u := t + k - |a|;
    var x, y, z := a[..u], a[u..t], a[t..];
    TurnMore(x, y, z);
    assert a[..t] == x + y;
    assert a[u..] == y + z;
    assert |z| + |x| == k;
  }

  lemma {:induction false} TurnAgain(a: seq<string>, t: nat, k: nat)
    requires t < |a| && k <= |a|
    ensures var b := a[t..] + a[..t];
            var u := (t + k) % |a|;
            b[k..] + b[..k] == a[u..] + a[..u]
  {
    if t + k < |a| {
      TurnInside(a, t, k);
      SmallRemainder(t + k, |a|);
    } else {
      TurnOver(a, t, k);
      LargeRemainder(t + k, |a|);
    }
  }

  lemma {:induction false} SmallRemainder(x: nat, n: nat)
    requires x < n
    ensures x % n == x
  {
  }

  lemma {:induction false} LargeRemainder(x: nat, n: nat)
    requires n > 0 && n <= x < 2 * n
    ensures x % n == x - n
  {
    assert x == n * 1 + (x - n);
  }

  lemma {:induction false} RotatedAddresses(servers: seq<Server>, k: nat)
    requires k <= |servers|
    ensures Addresses(Rotated(servers, k)) == Addresses(servers)[k..] + Addresses(servers)[..k]
  {
  }

  lemma {:induction false} MarkedAddresses(servers: seq<Server>, up: set<string>)
    ensures Addresses(Marked(servers, up)) == Addresses(servers)
  {
  }

  /** The deque stays a rotation of the original. */
  lemma {:induction false} StaysRotation(servers: seq<Server>, ups: seq<set<string>>)
    requires servers != []
    ensures var t := Turn(servers, ups);
            Addresses(Run(servers, ups)) == Addresses(servers)[t..] + Addresses(servers)[..t]
  {
    hide FirstRunning, Marked, Addresses, Rotated;
    if ups == [] {
      assert Addresses(servers) == Addresses(servers)[0..] + Addresses(servers)[..0];
    } else {
      var front, up := ups[..|ups| - 1], ups[|ups| - 1];
      StaysRotation(servers, front);
      var now := Marked(Run(servers, front), up);
      MarkedAddresses(Run(servers, front), up);
      var k, t := FirstRunning(now), Turn(servers, front);
      if k < |servers| {
        RotatedAddresses(now, k + 1);
        TurnAgain(Addresses(servers), t, k + 1);
      }
    }
  }

  /** A request is turned away exactly if no server is up. */
  lemma {:induction false} NoneIff(servers: seq<Server>, ups: seq<set<string>>, k: nat)
    requires servers != [] && k < |ups|
    ensures Answer(servers, ups, k).None? <==> forall a :: a in Addresses(servers) ==> a !in ups[k]
  {
    var now := Run(servers, ups[..k]);
    var m := Marked(now, ups[k]);
    SameAddresses(servers, ups[..k]);
    if FirstRunning(m) < |m| {
      assert m[FirstRunning(m)].address in Addresses(now);
    } else {
      forall a | a in Addresses(servers)
        ensures a !in ups[k]
      {
        var i :| 0 <= i < |now| && now[i].address == a;
        assert !m[i].running;
      }
    }
  }

  lemma {:induction false} SameAddresses(servers: seq<Server>, ups: seq<set<string>>)
    requires servers != []
    ensures forall a :: a in Addresses(servers) <==> a in Addresses(Run(servers, ups))
  {
    StaysRotation(servers, ups);
    var t := Turn(servers, ups);
    assert Addresses(servers) == Addresses(servers)[..t] + Addresses(servers)[t..];
  }

  /** A server at position `p` that is up moves forward with every request that it does not
      get. */
  lemma {:induction false} MovesForward(servers: seq<Server>, p: nat)
    requires p < |servers| && servers[p].running
    ensures var k := FirstRunning(servers);
            k <= p && (k < p ==> Served(servers)[p - k - 1].address == servers[p].address)
  {
  }

  lemma {:induction false} PickedWithin(servers: seq<Server>, ups: seq<set<string>>, lo: nat, p: nat)
    requires lo + p < |ups| && p < |servers|
    requires forall k :: lo <= k <= lo + p ==> Run(servers, ups[..lo])[p].address in ups[k]
    ensures exists k :: lo <= k <= lo + p && Answer(servers, ups, k) == Some(Run(servers, ups[..lo])[p].address)
    decreases p
  {
    hide FirstRunning, Served;
    var now := Marked(Run(servers, ups[..lo]), ups[lo]);
    var s := Run(servers, ups[..lo])[p].address;
    MovesForward(now, p);
    var k := FirstRunning(now);
    if k == p {
      assert Answer(servers, ups, lo) == Some(s);
    } else {
      assert ups[..lo + 1][..lo] == ups[..lo];
      assert Run(servers, ups[..lo + 1]) == Served(now);
      var p' := p - k - 1;
      PickedWithin(servers, ups, lo + 1, p');
      var m :| lo + 1 <= m <= lo + 1 + p' && Answer(servers, ups, m) == Some(s);
      assert lo <= m <= lo + p;
    }
  }

  /** A server that stays up is picked within as many requests as there are servers. */
  lemma {:induction false} NobodyStarves(servers: seq<Server>, ups: seq<set<string>>, lo: nat, s: string)
    requires s in Addresses(servers) && lo + |servers| <= |ups|
    requires forall k :: lo <= k < lo + |servers| ==> s in ups[k]
    ensures exists k :: lo <= k < lo + |servers| && Answer(servers, ups, k) == Some(s)
  {
    SameAddresses(servers, ups[..lo]);
    var p :| 0 <= p < |servers| && Run(servers, ups[..lo])[p].address == s;
    PickedWithin(servers, ups, lo, p);
    var k :| lo <= k <= lo + p && Answer(servers, ups, k) == Some(s);
  }
}
