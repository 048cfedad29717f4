/** What a running replica's state says about the writes to it: over every run of the cluster
    it runs exactly as long as every push is written. */
module Written {
  import opened Updates
  import opened LogFormat
  import opened Recovery
  import opened GetReply
  import opened Transfer
  import opened BackStore
  import opened CatchUp
  import opened Cluster
  import Pushes

  /** Which replicas a step's writes reach. */
  function Flags(s: Step): seq<bool> {
    match s
    case PutStep(_, _, _, wrote) => wrote
    case CPutStep(_, _, _, _, wrote) => wrote
    case DeleteStep(_, _, wrote) => wrote
    case _ => []
  }

  lemma {:induction false} PushWrites(c: Cluster, u: Update, wrote: seq<bool>, i: nat)
    requires Connected(c) && i < |c.nodes| && c.nodes[i].rep.state == RUNNING
    ensures var c' := Logged(c, u, true, wrote);
            && |c'.nodes| == |c.nodes| && c'.pushed == c.pushed + [u]
            && var r, r' := c.nodes[i].rep, c'.nodes[i].rep;
               if Wrote(wrote, i) then r'.state == RUNNING && r'.sent == r.sent + [u]
               else r'.state == FAILED && r'.sent == r.sent
  {
    hide EntryText, StateAt;
  }

  lemma {:induction false} NoPush(c: Cluster, u: Update, wrote: seq<bool>)
    requires Connected(c)
    ensures var c' := Logged(c, u, false, wrote); c'.nodes == c.nodes && c'.pushed == c.pushed
  {
    hide EntryText, StateAt;
  }

  /** A step on a running replica: a push that is written is the last one sent, a push that is
      not makes it failed, and nothing else touches it. */
  lemma {:induction false} StepWrites(c: Cluster, s: Step, i: nat)
    requires Connected(c) && i < |c.nodes| && c.nodes[i].rep.state == RUNNING
    requires !(s.ReadyStep? && s.node == i)
    ensures |Next(c, s).nodes| == |c.nodes| && c.pushed <= Next(c, s).pushed
    ensures Next(c, s).nodes[i].rep.state != RECOVERING ==>
              var r, r' := c.nodes[i].rep, Next(c, s).nodes[i].rep;
              if Next(c, s).pushed == c.pushed then r'.state == RUNNING && r'.sent == r.sent
              else if Wrote(Flags(s), i) then r'.state == RUNNING && r'.sent == r.sent + Next(c, s).pushed[|c.pushed|..]
              else r'.state == FAILED && r'.sent == r.sent
  {
    hide StateAt, Apply, Lists, Pieces, Arrived, CheckpointText, EntryText, Recovered, WithLog, WithCheckpoint,
         Reconnected, VersionOf, Logged, Pushes.Carry, Carried;
    match s
    case PutStep(r, k, v, wrote) => PushWrites(c, Put(r, k, v), wrote, i);
    case CPutStep(r, k, o, v, wrote) => PushWrites(c, Put(r, k, v), wrote, i);
    case DeleteStep(r, k, wrote) =>
      PushWrites(c, Delete(r, k), wrote, i);
      NoPush(c, Delete(r, k), wrote);
    case _ =>
  }

  /** A replica that does not run comes to run only by its READY. */
  lemma {:induction false} RunsAgainByReady(c: Cluster, s: Step, i: nat)
    requires Connected(c) && i < |c.nodes| && c.nodes[i].rep.state != RUNNING
    requires !(s.ReadyStep? && s.node == i)
    ensures |Next(c, s).nodes| == |c.nodes| && Next(c, s).nodes[i].rep.state != RUNNING
  {
    hide StateAt, Apply, Lists, Pieces, Arrived, CheckpointText, EntryText, Recovered, WithLog, WithCheckpoint,
         VersionOf, Pushes.Carry, Carried;
  }

  /** Between moment `m` and the end of the run, node `i` gets no READY and is at no time
      recovering. */
  ghost predicate Undisturbed(c: Cluster, steps: seq<Step>, m: nat, i: nat) {
    && (forall k :: m <= k < |steps| ==> !(steps[k].ReadyStep? && steps[k].node == i))
    && (forall k :: m <= k <= |steps| ==>
          i < |Run(c, steps[..k]).nodes| && Run(c, steps[..k]).nodes[i].rep.state != RECOVERING)
  }

  /** Every push since moment `m` was written to node `i`. */
  ghost predicate AllWritten(c: Cluster, steps: seq<Step>, m: nat, i: nat) {
    forall k :: m <= k < |steps| && Run(c, steps[..k + 1]).pushed != Run(c, steps[..k]).pushed ==>
      Wrote(Flags(steps[k]), i)
  }

  lemma {:induction false} FrontUndisturbed(c: Cluster, steps: seq<Step>, m: nat, i: nat)
    requires m < |steps| && Undisturbed(c, steps, m, i)
    ensures Undisturbed(c, steps[..|steps| - 1], m, i)
    ensures !(steps[|steps| - 1].ReadyStep? && steps[|steps| - 1].node == i)
    ensures i < |Run(c, steps).nodes| && Run(c, steps).nodes[i].rep.state != RECOVERING
  {
    hide Run;
    var front := steps[..|steps| - 1];
    forall k | m <= k <= |front|
      ensures front[..k] == steps[..k]
      ensures i < |Run(c, front[..k]).nodes| && Run(c, front[..k]).nodes[i].rep.state != RECOVERING
    {
      assert front[..k] == steps[..k];
    }
    assert steps[..|steps|] == steps;
  }

  lemma {:induction false} WrittenNext(c: Cluster, steps: seq<Step>, m: nat, i: nat)
    requires m < |steps|
    ensures AllWritten(c, steps, m, i) <==>
            AllWritten(c, steps[..|steps| - 1], m, i)
            && (Run(c, steps).pushed != Run(c, steps[..|steps| - 1]).pushed ==> Wrote(Flags(steps[|steps| - 1]), i))
  {
    hide Run, Wrote, Flags;
    var front := steps[..|steps| - 1];
    assert steps[..|steps|] == steps;
    if AllWritten(c, front, m, i)
       && (Run(c, steps).pushed != Run(c, front).pushed ==> Wrote(Flags(steps[|front|]), i)) {
      forall k | m <= k < |steps| && Run(c, steps[..k + 1]).pushed != Run(c, steps[..k]).pushed
        ensures Wrote(Flags(steps[k]), i)
      {
        if k < |front| {
          assert front[..k] == steps[..k] && front[..k + 1] == steps[..k + 1];
        } else {
          assert steps[..k] == front && steps[..k + 1] == steps;
        }
      }
    }
    if AllWritten(c, steps, m, i) {
      forall k | m <= k < |front| && Run(c, front[..k + 1]).pushed != Run(c, front[..k]).pushed
        ensures Wrote(Flags(front[k]), i)
      {
        assert front[..k] == steps[..k] && front[..k + 1] == steps[..k + 1];
      }
      assert steps[..|front|] == front && steps[..|front| + 1] == steps;
    }
  }

  /** What is to be shown for a run from moment `m` on, when node `i` runs. */
  ghost predicate RunsAsWritten(c: Cluster, steps: seq<Step>, m: nat, i: nat)
    requires m <= |steps|
  {
    var b, r := Run(c, steps[..m]), Run(c, steps);
    && i < |b.nodes| && i < |r.nodes| && b.pushed <= r.pushed
    && (r.nodes[i].rep.state == RUNNING <==> AllWritten(c, steps, m, i))
    && r.nodes[i].rep.state in {RUNNING, FAILED}
    && (r.nodes[i].rep.state == RUNNING ==>
          r.nodes[i].rep.sent == b.nodes[i].rep.sent + r.pushed[|b.pushed|..])
  }

  lemma {:induction false} OneMoreStep(c: Cluster, steps: seq<Step>, m: nat, i: nat)
    requires m < |steps| && RunsAsWritten(c, steps[..|steps| - 1], m, i)
    requires var before := Run(c, steps[..|steps| - 1]);
             Connected(before) && Run(c, steps) == Next(before, steps[|steps| - 1])
    requires !(steps[|steps| - 1].ReadyStep? && steps[|steps| - 1].node == i)
    requires i < |Run(c, steps).nodes| && Run(c, steps).nodes[i].rep.state != RECOVERING
    ensures RunsAsWritten(c, steps, m, i)
  {
    hide Next, Connected, AllWritten, Run, Wrote, Flags;
    var front, last := steps[..|steps| - 1], steps[|steps| - 1];
    var before := Run(c, front);
    assert front[..m] == steps[..m];
    WrittenNext(c, steps, m, i);
    PushedOnly(before, last);
    if before.nodes[i].rep.state == RUNNING {
      StepWrites(before, last, i);
      MorePushed(Run(c, steps[..m]).pushed, before.pushed, Run(c, steps).pushed);
      var sent, r := before.nodes[i].rep.sent, Run(c, steps);
      Longer(Run(c, steps[..m]).nodes[i].rep.sent, Run(c, steps[..m]).pushed, before.pushed, r.pushed);
      SamePushed(before.pushed, r.pushed);
    } else {
      RunsAgainByReady(before, last, i);
      FailedStays(before, last, i);
    }
  }

  lemma {:induction false} Longer(sent: seq<Update>, a: seq<Update>, b: seq<Update>, d: seq<Update>)
    requires a <= b <= d
    ensures sent + b[|a|..] + d[|b|..] == sent + d[|a|..]
  {
    MorePushed(a, b, d);
  }

  lemma {:induction false} SamePushed(b: seq<Update>, d: seq<Update>)
    ensures b == d ==> forall s: seq<Update> :: s + d[|b|..] == s
  {
  }

  /** A running replica keeps running, in every run, exactly as long as every push is written
      to it; then what was sent to it is every update pushed, and otherwise it is failed. */
  lemma {:induction false} RunsIffWritten(c: Cluster, steps: seq<Step>, m: nat, i: nat)
    requires Fresh(c) && AllSound(c, steps) && m <= |steps| && Undisturbed(c, steps, m, i)
    requires Run(c, steps[..m]).nodes[i].rep.state == RUNNING
    ensures var b, r := Run(c, steps[..m]), Run(c, steps);
            && i < |r.nodes| && b.pushed <= r.pushed
            && (r.nodes[i].rep.state == RUNNING <==> AllWritten(c, steps, m, i))
            && r.nodes[i].rep.state in {RUNNING, FAILED}
            && (r.nodes[i].rep.state == RUNNING ==>
                  r.nodes[i].rep.sent == b.nodes[i].rep.sent + r.pushed[|b.pushed|..])
  {
    hide AllSound, Fresh, AllWritten, Run;
    RunsFrom(c, steps, m, i);
  }

  lemma {:induction false} RunsFrom(c: Cluster, steps: seq<Step>, m: nat, i: nat)
    requires Fresh(c) && AllSound(c, steps) && m <= |steps| && Undisturbed(c, steps, m, i)
    requires i < |Run(c, steps[..m]).nodes| && Run(c, steps[..m]).nodes[i].rep.state == RUNNING
    ensures RunsAsWritten(c, steps, m, i)
    decreases |steps|
  {
    hide Next, AllSound, Fresh, Connected, AllWritten, RunsAsWritten, Undisturbed, Run;
    assert steps[..|steps|] == steps;
    if m == |steps| {
      RunsNow(c, steps, i);
    } else {
      var front := steps[..|steps| - 1];
      assert front[..m] == steps[..m];
      FrontSound(c, steps);
      FrontUndisturbed(c, steps, m, i);
      RunsFrom(c, front, m, i);
      FreshInv(c);
      RunKeeps(c, front);
      RunOne(c, steps, |front|);
      OneMoreStep(c, steps, m, i);
    }
  }

  lemma {:induction false} RunsNow(c: Cluster, steps: seq<Step>, i: nat)
    requires i < |Run(c, steps).nodes| && Run(c, steps).nodes[i].rep.state == RUNNING
    ensures RunsAsWritten(c, steps, |steps|, i)
  {
    hide Run, AllWritten;
    NothingPushed(c, steps, i);
    assert steps[..|steps|] == steps;
    SamePushed(Run(c, steps).pushed, Run(c, steps).pushed);
  }

  lemma {:induction false} NothingPushed(c: Cluster, steps: seq<Step>, i: nat)
    ensures AllWritten(c, steps, |steps|, i)
  {
  }

  lemma {:induction false} MorePushed(a: seq<Update>, b: seq<Update>, d: seq<Update>)
    requires a <= b <= d
    ensures d[|a|..] == b[|a|..] + d[|b|..]
  {
  }

  lemma {:induction false} PushedOnly(c: Cluster, s: Step)
    requires Connected(c)
    ensures c.pushed <= Next(c, s).pushed
  {
    hide StateAt, Apply, Lists, Pieces, Arrived, CheckpointText, EntryText, Recovered, WithLog, WithCheckpoint,
         VersionOf, Pushes.Carry, Carried;
  }

  lemma {:induction false} FailedStays(c: Cluster, s: Step, i: nat)
    requires Connected(c) && i < |c.nodes| && c.nodes[i].rep.state == FAILED
    requires !(s.ReadyStep? && s.node == i)
    ensures |Next(c, s).nodes| == |c.nodes| && Next(c, s).nodes[i].rep.state in {FAILED, RECOVERING}
  {
    hide StateAt, Apply, Lists, Pieces, Arrived, CheckpointText, EntryText, Recovered, WithLog, WithCheckpoint,
         VersionOf, Pushes.Carry, Carried;
  }

  /** A running replica has run since its last READY, or since the start, and every push since
      then was written to it. */
  lemma {:induction false} RunningSince(c: Cluster, steps: seq<Step>, i: nat) returns (m: nat)
    requires Fresh(c) && AllSound(c, steps)
    requires i < |Run(c, steps).nodes| && Run(c, steps).nodes[i].rep.state == RUNNING
    ensures m <= |steps| && i < |Run(c, steps[..m]).nodes| && Run(c, steps[..m]).nodes[i].rep.state == RUNNING
    ensures m == 0 || (steps[m - 1].ReadyStep? && steps[m - 1].node == i)
    ensures Undisturbed(c, steps, m, i) && AllWritten(c, steps, m, i)
    decreases |steps|
  {
    hide Next, AllSound, Fresh, Connected, AllWritten, Wrote, Flags, Run, Undisturbed;
    assert steps[..|steps|] == steps;
    if steps == [] || (steps[|steps| - 1].ReadyStep? && steps[|steps| - 1].node == i) {
      m := |steps|;
      NothingPushed(c, steps, i);
      JustNow(c, steps, i);
    } else {
      var front, last := steps[..|steps| - 1], steps[|steps| - 1];
      FrontSound(c, steps);
      FreshInv(c);
      RunKeeps(c, front);
      RunOne(c, steps, |front|);
      var before := Run(c, front);
      SameNodes(before, last);
      if before.nodes[i].rep.state != RUNNING {
        RunsAgainByReady(before, last, i);
      }
      m := RunningSince(c, front, i);
      assert front[..m] == steps[..m];
      assert m > 0 ==> front[m - 1] == steps[m - 1];
      StepWrites(before, last, i);
      WrittenNext(c, steps, m, i);
      LongerUndisturbed(c, steps, m, i);
    }
  }

  lemma {:induction false} JustNow(c: Cluster, steps: seq<Step>, i: nat)
    requires i < |Run(c, steps).nodes| && Run(c, steps).nodes[i].rep.state == RUNNING
    ensures Undisturbed(c, steps, |steps|, i)
  {
    hide Run;
    assert steps[..|steps|] == steps;
  }

  lemma {:induction false} SameNodes(c: Cluster, s: Step)
    requires Connected(c)
    ensures |Next(c, s).nodes| == |c.nodes|
  {
    NodesStay(c, s);
  }

  lemma {:induction false} LongerUndisturbed(c: Cluster, steps: seq<Step>, m: nat, i: nat)
    requires m < |steps| && Undisturbed(c, steps[..|steps| - 1], m, i)
    requires !(steps[|steps| - 1].ReadyStep? && steps[|steps| - 1].node == i)
    requires i < |Run(c, steps).nodes| && Run(c, steps).nodes[i].rep.state != RECOVERING
    ensures Undisturbed(c, steps, m, i)
  {
    hide Run;
    var front := steps[..|steps| - 1];
    forall k | m <= k <= |steps|
      ensures i < |Run(c, steps[..k]).nodes| && Run(c, steps[..k]).nodes[i].rep.state != RECOVERING
    {
      if k < |steps| {
        assert steps[..k] == front[..k];
      } else {
        assert steps[..k] == steps;
      }
    }
    forall k | m <= k < |steps|
      ensures !(steps[k].ReadyStep? && steps[k].node == i)
    {
      assert k < |front| ==> front[k] == steps[k];
    }
  }
}
