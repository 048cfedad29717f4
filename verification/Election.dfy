/** The master's record of one node's servers: heartbeat, promotion of a new primary, and
    servers that crash and restart at any moment. */
module Election {
  import opened Wrappers

  /** A data server: whether its process runs, and its primary flag. */
  datatype Server = Server(up: bool, primary: bool)

  /** A promotion in progress: the server connected to, and whether that connection lives. */
  datatype Candidate = Candidate(id: nat, alive: bool)

  /** `conn` is the server at the other end of the master's open connection. */
  datatype Group = Group(
    servers: seq<Server>, running: bool, primaryAddr: nat, conn: Option<nat>, promoting: Option<Candidate>)

  datatype Step = Crash(i: nat) | Restart(i: nat) | WriteFails | Connect | Multicast

  /** The first server that accepts a connection. */
  function FirstUp(servers: seq<Server>, i: nat): (k: nat)
    requires i <= |servers|
    ensures i <= k <= |servers| && (k < |servers| ==> servers[k].up)
    ensures forall j :: i <= j < k ==> !servers[j].up
    decreases |servers| - i
  {
    if i == |servers| || servers[i].up then i else FirstUp(servers, i + 1)
  }

  /** `PROMOTE` for server `id` reaches only the first server that can be connected to: the
      connection object that is done with it closes the one socket of the loop. */
  function Told(servers: seq<Server>, id: nat): seq<Server> {
    var k := FirstUp(servers, 0);
    if k < |servers| && k == id then servers[k := servers[k].(primary := true)] else servers
  }

  function Crashed(g: Group, i: nat): Group
    requires i < |g.servers|
  {
    g.(servers := g.servers[i := Server(false, false)],
       conn := if g.conn == Some(i) then None else g.conn,
       promoting := if g.promoting.Some? && g.promoting.value.id == i then Some(Candidate(i, false)) else g.promoting)
  }

  /** A crash takes the flag and the connections with it; a restarted server is no primary; a
      write fails only on a broken connection. */
  function Next(g: Group, s: Step): Group {
    match s
    case Crash(i) => if i < |g.servers| then Crashed(g, i) else g
    case Restart(i) =>
      if i < |g.servers| && !g.servers[i].up then g.(servers := g.servers[i := Server(true, false)]) else g
    case WriteFails =>
      if g.running && g.conn.None? then g.(running := false) else g
    case Connect =>
      var k := FirstUp(g.servers, 0);
      if !g.running && g.promoting.None? && k < |g.servers| then g.(promoting := Some(Candidate(k, true))) else g
    case Multicast =>
      if g.promoting.None? then g
      else
        var c := g.promoting.value;
        Group(Told(g.servers, c.id), true, c.id, if c.alive then Some(c.id) else None, None)
  }

  predicate LivePrimary(g: Group, i: nat) {
    i < |g.servers| && g.servers[i].up && g.servers[i].primary
  }

  /** A live primary is the server that the master records and is connected to. */
  ghost predicate Inv(g: Group) {
    && (forall i :: LivePrimary(g, i) ==> g.running && g.primaryAddr == i && g.conn == Some(i))
    && (g.conn.Some? ==> g.running && g.conn.value < |g.servers| && g.servers[g.conn.value].up)
    && (g.promoting.Some? ==>
          var c := g.promoting.value;
          !g.running && c.id < |g.servers| && (c.alive <==> g.servers[c.id].up))
  }

  /** A promotion's own candidate does not come back while the promotion is going on. */
  predicate Calm(g: Group, s: Step) {
    s.Restart? && g.promoting.Some? ==> s.i != g.promoting.value.id
  }

  lemma {:induction false} StepKeeps(g: Group, s: Step)
    requires Inv(g) && Calm(g, s)
    ensures Inv(Next(g, s))
  {
    var g' := Next(g, s);
    forall i | LivePrimary(g', i)
      ensures g'.running && g'.primaryAddr == i && g'.conn == Some(i)
    {
      assert !s.Multicast? ==> LivePrimary(g, i);
      if s.Multicast? && g.promoting.Some? && !LivePrimary(g, i) {
        assert i == g.promoting.value.id;
      }
    }
  }

  /** Nobody is primary, and the master has not connected to anyone. */
  predicate Fresh(g: Group) {
    && !g.running && g.conn.None? && g.promoting.None?
    && forall i :: 0 <= i < |g.servers| ==> !g.servers[i].primary
  }

  function Run(g: Group, steps: seq<Step>): Group {
    if steps == [] then g else Next(Run(g, steps[..|steps| - 1]), steps[|steps| - 1])
  }

  predicate AllCalm(g: Group, steps: seq<Step>) {
    forall k :: 0 <= k < |steps| ==> Calm(Run(g, steps[..k]), steps[k])
  }

  lemma {:induction false} RunKeeps(g: Group, steps: seq<Step>)
    requires Fresh(g) && AllCalm(g, steps)
    ensures Inv(Run(g, steps))
  {
    hide Inv, Calm, Next;
    if steps == [] {
      FreshKeeps(g);
    } else {
      var front := steps[..|steps| - 1];
      forall k | 0 <= k < |front|
        ensures Calm(Run(g, front[..k]), front[k])
      {
        assert front[..k] == steps[..k];
        assert Calm(Run(g, steps[..k]), steps[k]);
      }
      RunKeeps(g, front);
      assert Calm(Run(g, front), steps[|steps| - 1]);
      StepKeeps(Run(g, front), steps[|steps| - 1]);
    }
  }

  lemma {:induction false} FreshKeeps(g: Group)
    requires Fresh(g)
    ensures Inv(g) && Sole(g)
  {
  }

  /** A live primary is the server that the master records and is connected to, in every run
      in which no candidate restarts during its own promotion. */
  lemma {:induction false} PrimaryIsConnected(g: Group, steps: seq<Step>, i: nat)
    requires Fresh(g) && AllCalm(g, steps) && LivePrimary(Run(g, steps), i)
    ensures Run(g, steps).running && Run(g, steps).primaryAddr == i && Run(g, steps).conn == Some(i)
  {
    hide LivePrimary, Run;
    RunKeeps(g, steps);
  }

  // ------------------------------------------------------------ exactly when there is only one

  /** Only the first server of the list may come back during its own promotion. */
  predicate Careful(g: Group, s: Step) {
    s.Restart? && g.promoting.Some? && s.i == g.promoting.value.id ==> s.i == 0
  }

  /** What a live primary is to the master. The first server may be one without a connection:
      if it is promoted again, no one else is asked before it. */
  predicate KnownPrimary(g: Group, i: nat) {
    || (g.running && g.primaryAddr == i && g.conn == Some(i))
    || (i == 0 && (g.running ==> g.primaryAddr == 0) && (g.promoting.Some? ==> g.promoting.value.id == 0))
  }

  ghost predicate Sole(g: Group) {
    && (forall i :: LivePrimary(g, i) ==> KnownPrimary(g, i))
    && (g.conn.Some? ==> g.running && g.conn.value == g.primaryAddr < |g.servers| && g.servers[g.conn.value].up)
    && (g.promoting.Some? ==>
          var c := g.promoting.value;
          && !g.running && c.id < |g.servers|
          && (c.alive ==> g.servers[c.id].up) && (g.servers[c.id].up && !c.alive ==> c.id == 0))
  }

  lemma {:induction false} SoleKeeps(g: Group, s: Step)
    requires Sole(g) && Careful(g, s)
    ensures Sole(Next(g, s))
  {
    var g' := Next(g, s);
    forall i | LivePrimary(g', i)
      ensures KnownPrimary(g', i)
    {
      assert !s.Multicast? ==> LivePrimary(g, i);
      if LivePrimary(g, i) {
        assert KnownPrimary(g, i);
      }
      if s.Multicast? && g.promoting.Some? && !LivePrimary(g, i) {
        assert i == g.promoting.value.id;
      }
    }
  }

  predicate AllCareful(g: Group, steps: seq<Step>) {
    forall k :: 0 <= k < |steps| ==> Careful(Run(g, steps[..k]), steps[k])
  }

  lemma {:induction false} SoleRun(g: Group, steps: seq<Step>)
    requires Sole(g) && AllCareful(g, steps)
    ensures Sole(Run(g, steps))
  {
    hide Sole, Careful, Next;
    if steps != [] {
      var front := steps[..|steps| - 1];
      forall k | 0 <= k < |front|
        ensures Careful(Run(g, front[..k]), front[k])
      {
        assert front[..k] == steps[..k];
        assert Careful(Run(g, steps[..k]), steps[k]);
      }
      SoleRun(g, front);
      assert Careful(Run(g, front), steps[|steps| - 1]);
      SoleKeeps(Run(g, front), steps[|steps| - 1]);
    }
  }

  ghost predicate OnePrimary(g: Group) {
    forall i, j :: LivePrimary(g, i) && LivePrimary(g, j) ==> i == j
  }

  lemma {:induction false} SoleIsOne(g: Group)
    requires Sole(g)
    ensures OnePrimary(g)
  {
    hide LivePrimary;
  }

  /** At most one server of a node is a live primary at any moment of a run in which only the
      first server ever restarts during its own promotion. */
  lemma {:induction false} AtMostOnePrimary(g: Group, steps: seq<Step>)
    requires Fresh(g) && AllCareful(g, steps)
    ensures OnePrimary(Run(g, steps))
  {
    hide Sole, OnePrimary, Run, Fresh;
    FreshKeeps(g);
    SoleRun(g, steps);
    SoleIsOne(Run(g, steps));
  }

  lemma {:induction false} RunJoin(g: Group, a: seq<Step>, b: seq<Step>)
    ensures Run(g, a + b) == Run(Run(g, a), b)
  {
    if b == [] {
      assert a + b == a;
    } else {
      RunJoin(g, a, b[..|b| - 1]);
      assert (a + b)[..|a + b| - 1] == a + b[..|b| - 1];
    }
  }

  /** Crashes of the servers before the `j`-th. */
  function CrashAll(j: nat): (steps: seq<Step>)
    ensures |steps| == j && forall k :: 0 <= k < j ==> steps[k] == Crash(k)
  {
    seq(j, k requires 0 <= k < j => Crash(k))
  }

  lemma {:induction false} AllDown(g: Group, j: nat)
    requires g.promoting.Some? && j <= g.promoting.value.id < |g.servers|
    ensures var r := Run(g, CrashAll(j));
            && |r.servers| == |g.servers| && r.promoting == g.promoting && r.running == g.running
            && (forall i :: 0 <= i < j ==> !r.servers[i].up)
            && (forall i :: j <= i < |g.servers| ==> r.servers[i] == g.servers[i])
  {
    if j > 0 {
      AllDown(g, j - 1);
      assert CrashAll(j)[..j - 1] == CrashAll(j - 1);
    }
  }

  /** What follows once the servers before the candidate are down. */
  const TWICE: seq<Step> := [Multicast, Restart(0), WriteFails, Connect, Multicast]

  lemma {:induction false} TwiceRuns(g: Group)
    ensures Run(g, TWICE) == Next(Next(Next(Next(Next(g, Multicast), Restart(0)), WriteFails), Connect), Multicast)
    ensures Run(g, TWICE[..1]) == Next(g, Multicast)
  {
    hide Next;
    var t := TWICE;
    assert t[..4][..3] == t[..3] && t[..3][..2] == t[..2] && t[..2][..1] == t[..1] && t[..1][..0] == [];
    assert Run(g, t[..1]) == Next(g, Multicast);
    assert Run(g, t[..2]) == Next(Run(g, t[..1]), Restart(0));
    assert Run(g, t[..3]) == Next(Run(g, t[..2]), WriteFails);
    assert Run(g, t[..4]) == Next(Run(g, t[..3]), Connect);
    assert t[..5] == t;
  }

  /** A candidate that is up on a dead connection, with all servers before it down, is told,
      and then forgotten for the first server. */
  lemma {:induction false} TwoPrimaries(g: Group)
    requires g.promoting.Some? && 0 < g.promoting.value.id < |g.servers| && !g.promoting.value.alive
    requires g.servers[g.promoting.value.id].up
    requires forall i :: 0 <= i < g.promoting.value.id ==> !g.servers[i].up
    ensures LivePrimary(Run(g, TWICE), 0) && LivePrimary(Run(g, TWICE), g.promoting.value.id)
  {
    var j := g.promoting.value.id;
    TwiceRuns(g);
    hide Run;
    var back := Next(g, Multicast);
    assert FirstUp(g.servers, 0) == j;
    assert LivePrimary(back, j) && back.running && back.conn.None? && back.promoting.None? && !back.servers[0].up;
    var two := Next(Next(back, Restart(0)), WriteFails);
    assert LivePrimary(two, j) && !two.running && two.promoting.None? && two.servers[0].up;
    assert FirstUp(two.servers, 0) == 0;
  }

  lemma {:induction false} NoRestartOfOthers(g: Group, steps: seq<Step>)
    requires forall k :: 0 <= k < |steps| ==> steps[k].Restart? ==> steps[k].i == 0
    ensures AllCareful(g, steps)
  {
  }

  /** The condition is exact. At any moment of such a run at which a promotion's candidate is
      down, its restart leaves every careful continuation with at most one live primary if and
      only if it is the first server of the list. */
  lemma {:induction false} CandidateRestartIff(g: Group)
    requires Sole(g) && g.promoting.Some? && !g.servers[g.promoting.value.id].up
    ensures var back := Next(g, Restart(g.promoting.value.id));
            (forall steps :: AllCareful(back, steps) ==> OnePrimary(Run(back, steps))) <==> g.promoting.value.id == 0
  {
    var j := g.promoting.value.id;
    var back := Next(g, Restart(j));
    hide Sole, Run, AllCareful;
    if j == 0 {
      SoleKeeps(g, Restart(0));
      forall steps | AllCareful(back, steps)
        ensures OnePrimary(Run(back, steps))
      {
        SoleRun(back, steps);
        SoleIsOne(Run(back, steps));
      }
    } else {
      var steps := CrashAll(j) + TWICE;
      CandidateDead(g);
      BreaksAfter(back);
      NoRestartOfOthers(back, steps);
      assert !OnePrimary(Run(back, steps));
    }
  }

  lemma {:induction false} CandidateDead(g: Group)
    requires Sole(g) && g.promoting.Some? && !g.servers[g.promoting.value.id].up
    ensures !g.promoting.value.alive && g.promoting.value.id < |g.servers|
  {
  }

  lemma {:induction false} BreaksAfter(g: Group)
    requires g.promoting.Some? && 0 < g.promoting.value.id < |g.servers| && !g.promoting.value.alive
    requires g.servers[g.promoting.value.id].up
    ensures var r := Run(g, CrashAll(g.promoting.value.id) + TWICE);
            LivePrimary(r, 0) && LivePrimary(r, g.promoting.value.id)
  {
    hide LivePrimary;
    var j := g.promoting.value.id;
    AllDown(g, j);
    RunJoin(g, CrashAll(j), TWICE);
    TwoPrimaries(Run(g, CrashAll(j)));
  }

  /** Two servers, the first one down. */
  const START := Group([Server(false, false), Server(true, false)], false, 0, None, None)

  /** It happens from the start: the second server is picked, crashes and comes back before it
      is told, and the first one comes back later. */
  lemma {:induction false} TwoPrimariesFromStart()
    ensures Fresh(START)
    ensures var r := Run(START, [Connect, Crash(1), Restart(1)] + TWICE);
            LivePrimary(r, 0) && LivePrimary(r, 1)
  {
    var first := [Connect, Crash(1), Restart(1)];
    var g1 := Next(START, Connect);
    assert FirstUp(START.servers, 0) == 1;
    assert g1.promoting == Some(Candidate(1, true));
    var g3 := Next(Next(g1, Crash(1)), Restart(1));
    assert g3 == START.(promoting := Some(Candidate(1, false)));
    assert first[..2][..1] == [Connect] && first[..2][..1][..0] == [];
    assert Run(START, first[..2][..1]) == g1;
    assert Run(START, first[..2]) == Next(g1, Crash(1));
    assert Run(START, first) == g3;
    RunJoin(START, first, TWICE);
    hide Run, Next;
    TwoPrimaries(g3);
  }

  // ------------------------------------------------------------ the master's object

  class Node {
    var servers: seq<Server>
    var running: bool
    var primaryAddr: nat
    var conn: Option<nat>

    function Now(): Group
      reads this
    {
      Group(servers, running, primaryAddr, conn, None)
    }

    /** `multicastNodes`: one socket for all; it is closed with the first connection. */
    method MulticastNodes(id: nat)
      modifies `servers
      ensures servers == Told(old(servers), id)
    {
      var j, closed := 0, false;
      while j < |servers|
        invariant 0 <= j <= |old(servers)| == |servers|
        invariant closed ==> FirstUp(old(servers), 0) < j && servers == Told(old(servers), id)
        invariant !closed ==> servers == old(servers) && FirstUp(servers, 0) == FirstUp(servers, j)
      {
        if !closed && servers[j].up {
          if j == id {
            servers := servers[j := servers[j].(primary := true)];
          }
          closed := true;
        }
        j := j + 1;
      }
    }

    /** `promoteNewPrimary`, when nothing happens to the servers meanwhile. */
    method PromoteNewPrimary()
      requires !running && Inv(Now())
      modifies this
      ensures Now() == Next(Next(old(Now()), Connect), Multicast)
      ensures Inv(Now())
      ensures running <==> exists i :: 0 <= i < |servers| && servers[i].up
      ensures running ==> LivePrimary(Now(), primaryAddr) && conn == Some(primaryAddr)
    {
      StepKeeps(Now(), Connect);
      StepKeeps(Next(Now(), Connect), Multicast);
      var j := 0;
      while j < |servers|
        invariant 0 <= j <= |servers| && Now() == old(Now())
        invariant FirstUp(servers, 0) == FirstUp(servers, j)
      {
        if servers[j].up {
          MulticastNodes(j);
          primaryAddr := j;
          conn := Some(j);
          running := true;
          assert servers[j].up;
          break;
        }
        j := j + 1;
      }
    }

    /** `heartbeat`; a write on a broken connection may still go through. */
    method Heartbeat(writeFails: bool)
      requires Inv(Now())
      modifies this
      ensures Inv(Now())
      ensures old(running) && (old(conn).Some? || !writeFails) ==> Now() == old(Now())
      ensures !old(running) || (old(conn).None? && writeFails) ==>
                Now() == Next(Next(Next(old(Now()), WriteFails), Connect), Multicast)
    {
      if !running {
        PromoteNewPrimary();
      } else if conn.None? && writeFails {
        StepKeeps(Now(), WriteFails);
        running := false;
        PromoteNewPrimary();
      }
    }
  }
}
