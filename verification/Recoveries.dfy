/** Recoveries that the protocol does not carry: two at once, a log that does not replay to
    what it means, and a log that does not come back from its text. */
module Recoveries {
  import opened Wrappers
  import opened Text
  import opened Wire
  import opened Updates
  import opened LogFormat
  import opened Recovery
  import opened GetReply
  import opened Transfer
  import opened BackStore
  import opened CatchUp
  import opened Cluster
  import opened ShortLogs

  /** A replica that serves and will hold the primary's table once it has carried out what was
      sent. */
  predicate Agrees(c: Cluster, i: nat) {
    && i < |c.nodes| && c.nodes[i].process.Serving?
    && Apply(c.nodes[i].process.table, c.nodes[i].rep.sent) == c.Table()
  }

  // ------------------------------------------------------------ two recoveries at once

  /** How the log arrives at the one replica and later at the other, and in which order the
      checkpoint in between prints the cells. */
  datatype Ways = Ways(first: seq<string>, cells: seq<Key>, second: seq<string>)

  /** Both transfers end well. */
  predicate Goes(c: Cluster, w: Ways) {
    && Pieces(Answer(c.disk.log, LOG_END), w.first) && Arrived(w.first, LOG_END).Got?
    && Lists(w.cells, c.Table())
    && Pieces(Answer("", LOG_END), w.second) && Arrived(w.second, LOG_END).Got?
  }

  /** Replica `i` has restored the table of the first `a` updates and its queue goes back to
      update `n0`, while replica `j` has restored something too. */
  ghost predicate TwoRecovering(c: Cluster, i: nat, j: nat, a: nat, n0: nat, w: Ways) {
    && Connected(c) && FilesInv(c) && i < |c.nodes| && j < |c.nodes| && i != j
    && a <= |c.history| && n0 <= |c.history|
    && c.nodes[i].process == Restored(StateAt(c.history, a)) && c.nodes[i].rep.holdBack == c.history[n0..]
    && c.nodes[j].process.Restored?
    && Goes(c, w)
  }

  lemma {:induction false} NoMarkInNothing()
    ensures !Contains("", LOG_END) && ParseLog("") == []
  {
  }

  lemma {:induction false} NothingArrives(t: Cells, segments: seq<string>)
    requires Pieces(Answer("", LOG_END), segments) && Arrived(segments, LOG_END).Got?
    ensures WithLog(t, Arrived(segments, LOG_END)) == CaughtUp(t)
  {
    hide Contains, Arrived, ParseLog, Pieces;
    NoMarkInNothing();
    BothMarks();
    GotIsWhole("", LOG_END, segments);
  }

  lemma {:induction false} LogArrives(c: Cluster, j: nat, segments: seq<string>)
    requires Connected(c) && j < |c.nodes| && c.nodes[j].process.Restored?
    requires Pieces(Answer(c.disk.log, LOG_END), segments) && Arrived(segments, LOG_END).Got?
    ensures var p := WithLog(c.nodes[j].process.table, Arrived(segments, LOG_END));
            p.CaughtUp? && Next(c, SendLog(j, segments)) == SetNode(c, j, c.nodes[j].(process := p))
    ensures Connected(Next(c, SendLog(j, segments)))
  {
    hide StateAt, Replay, ParseLog, Pieces, Arrived;
  }

  lemma {:induction false} BecomesReady(c: Cluster, j: nat)
    requires Connected(c) && j < |c.nodes| && c.nodes[j].process.CaughtUp?
    ensures var n := c.nodes[j];
            var ready := n.(rep := Reconnected(n.rep), process := Serving(n.process.table), done := 0);
            Next(c, ReadyStep(j)) == SetNode(c, j, ready).(paused := false)
    ensures Connected(Next(c, ReadyStep(j)))
  {
    hide StateAt;
  }

  lemma {:induction false} Checkpoints(c: Cluster, ks: seq<Key>)
    requires Connected(c) && !c.paused && Lists(ks, c.Table())
    ensures var text := CheckpointText(|c.history|, ks, c.Table());
            Next(c, CheckpointStep(ks)) == c.(version := |c.history|, disk := Disk(Some(text), ""))
    ensures Connected(Next(c, CheckpointStep(ks)))
  {
    hide StateAt, CheckpointText, Lists;
  }

  /** The first READY resumes checkpointing, and the checkpoint thread ticks. */
  function FirstReady(c: Cluster, j: nat, w: Ways): Cluster
    requires Connected(c) && j < |c.nodes| && c.nodes[j].process.Restored? && Goes(c, w)
  {
    LogArrives(c, j, w.first);
    BecomesReady(Next(c, SendLog(j, w.first)), j);
    Next(Next(Next(c, SendLog(j, w.first)), ReadyStep(j)), CheckpointStep(w.cells))
  }

  lemma {:induction false} FirstReadyIs(c: Cluster, j: nat, w: Ways)
    requires Connected(c) && j < |c.nodes| && c.nodes[j].process.Restored? && Goes(c, w)
    ensures var r := FirstReady(c, j, w);
            && Connected(r) && |r.nodes| == |c.nodes|
            && r.history == c.history && r.disk.log == "" && r.version == |c.history|
            && forall i :: 0 <= i < |c.nodes| && i != j ==> r.nodes[i] == c.nodes[i]
  {
    hide Next, StateAt, CheckpointText, Lists, Pieces, Arrived, WithLog;
    LogArrives(c, j, w.first);
    BecomesReady(Next(c, SendLog(j, w.first)), j);
    Checkpoints(Next(Next(c, SendLog(j, w.first)), ReadyStep(j)), w.cells);
  }

  /** Then the second replica asks for the log, which is empty, and is ready. */
  function AfterTwo(c: Cluster, i: nat, j: nat, w: Ways): Cluster
    requires Connected(c) && i < |c.nodes| && j < |c.nodes| && i != j
    requires c.nodes[i].process.Restored? && c.nodes[j].process.Restored? && Goes(c, w)
  {
    FirstReadyIs(c, j, w);
    LogArrives(FirstReady(c, j, w), i, w.second);
    Next(Next(FirstReady(c, j, w), SendLog(i, w.second)), ReadyStep(i))
  }

  lemma {:induction false} AfterTwoIs(c: Cluster, i: nat, j: nat, w: Ways)
    requires Connected(c) && i < |c.nodes| && j < |c.nodes| && i != j
    requires c.nodes[i].process.Restored? && c.nodes[j].process.Restored? && Goes(c, w)
    ensures var r := AfterTwo(c, i, j, w);
            && |r.nodes| == |c.nodes| && r.history == c.history
            && r.nodes[i].process == Serving(c.nodes[i].process.table)
            && r.nodes[i].rep.sent == c.nodes[i].rep.holdBack
  {
    hide Next, StateAt, Pieces, Arrived, WithLog, FirstReady, Lists;
    FirstReadyIs(c, j, w);
    var c1 := FirstReady(c, j, w);
    LogArrives(c1, i, w.second);
    NothingArrives(c.nodes[i].process.table, w.second);
    BecomesReady(Next(c1, SendLog(i, w.second)), i);
  }

  lemma {:induction false} EndsAsCatchUp(c: Cluster, i: nat, j: nat, a: nat, n0: nat, w: Ways)
    requires TwoRecovering(c, i, j, a, n0, w)
    ensures var h, n := c.history, |c.history|;
            Agrees(AfterTwo(c, i, j, w), i) <==> AfterCatchUp(StateAt(h, a), h, n, n, n0) == StateAt(h, n)
  {
    var h, n := c.history, |c.history|;
    assert h[n..n] == [];
    AfterTwoIs(c, i, j, w);
    hide Apply, StateAt, AfterTwo, Goes, FilesInv;
  }

  /** The second of two replicas that recover at once agrees with the primary, whatever the
      history and however the texts arrive, if and only if its files or its queue reach back
      over everything: the emptied log brings nothing. */
  lemma {:induction false} TwoRecoveriesIff(a: nat, n0: nat, n: nat)
    requires a <= n && n0 <= n
    ensures (forall c, i, j, w :: TwoRecovering(c, i, j, a, n0, w) && |c.history| == n ==>
               Agrees(AfterTwo(c, i, j, w), i))
            <==> n0 <= a || a == n
  {
    hide AfterCatchUp, StateAt, Agrees, AfterTwo, Goes, FilesInv;
    EmptiedLogCatchUpIff(a, n, n0, n);
    if n0 <= a || a == n {
      forall c, i, j, w | TwoRecovering(c, i, j, a, n0, w) && |c.history| == n
        ensures Agrees(AfterTwo(c, i, j, w), i)
      {
        EndsAsCatchUp(c, i, j, a, n0, w);
      }
    } else {
      var h: seq<Update> :| |h| == n && AfterCatchUp(StateAt(h, a), h, n, n, n0) != StateAt(h, n);
      var ks := Listing(StateAt(h, n));
      var c, w := Two(h, a, n0, ks), Ways([END], ks, [END]);
      TwoIsRecovering(h, a, n0, ks);
      EndsAsCatchUp(c, 0, 1, a, n0, w);
      assert !Agrees(AfterTwo(c, 0, 1, w), 0);
    }
  }

  /** The cells of a table in some order. */
  lemma {:induction false} Listing(t: Cells) returns (ks: seq<Key>)
    ensures Lists(ks, t)
  {
    ks := [];
    var left := t.Keys;
    while left != {}
      invariant left <= t.Keys
      invariant forall k :: k in ks || k in left <==> k in t
      decreases left
    {
      var k :| k in left;
      ks, left := ks + [k], left - {k};
    }
  }

  /** An empty log in one read. */
  const END := "LOG END\r\n"

  /** A primary with that history, which a checkpoint has just emptied its log of, and two
      replicas in recovery. */
  function Two(h: seq<Update>, a: nat, n0: nat, ks: seq<Key>): Cluster
    requires a <= |h| && n0 <= |h| && Lists(ks, StateAt(h, |h|))
  {
    Cluster(h, h, |h|, Disk(Some(CheckpointText(|h|, ks, StateAt(h, |h|))), ""), true,
            [Node(Replica("a", RECOVERING, h[n0..], false, []), Restored(StateAt(h, a)), 0, n0),
             Node(Replica("b", RECOVERING, [], false, []), Restored(map[]), 0, |h|)])
  }

  lemma {:induction false} TwoIsRecovering(h: seq<Update>, a: nat, n0: nat, ks: seq<Key>)
    requires a <= |h| && n0 <= |h| && Lists(ks, StateAt(h, |h|))
    ensures TwoRecovering(Two(h, a, n0, ks), 0, 1, a, n0, Ways([END], ks, [END]))
  {
    hide StateAt, Contains, Arrived, Pieces, Lists, CheckpointText;
    var c := Two(h, a, n0, ks);
    CheckpointedFiles(c, ks);
    NoMarkInNothing();
    OneRead("", LOG_END);
    assert Answer("", LOG_END) == END;
  }

  /** A short answer in one read arrives, and arrives whole if it does not hold the mark. */
  lemma {:induction false} OneRead(text: string, mark: string)
    requires mark == LOG_END && |Answer(text, mark)| < RLEN
    ensures Pieces(Answer(text, mark), [Answer(text, mark)])
    ensures Arrived([Answer(text, mark)], mark).Got?
    ensures !Contains(text, mark) ==> Arrived([Answer(text, mark)], mark) == Got(text)
  {
    var s := Answer(text, mark);
    OnePiece(s);
    BothMarks();
    EndsInCrlf(text, mark);
    EndsInMark(text, mark);
    OneGathered(s);
    hide Contains, Gather, Pieces, Flatten, StopMark;
    assert Arrived([s], mark).Got?;
    if !Contains(text, mark) {
      GotIsWhole(text, mark, [s]);
    }
  }

  lemma {:induction false} EndsInMark(text: string, mark: string)
    ensures Contains(Answer(text, mark), mark + CRLF)
  {
    var s := Answer(text, mark);
    assert s[|text|..|text| + |mark + CRLF|] == mark + CRLF;
    assert At(s, mark + CRLF, |text|);
  }

  lemma {:induction false} EndsInCrlf(text: string, mark: string)
    ensures Contains(Answer(text, mark), CRLF)
  {
    var s := Answer(text, mark);
    assert s[|s| - 2..|s| - 2 + |CRLF|] == CRLF;
    assert At(s, CRLF, |s| - 2);
  }

  lemma {:induction false} OneGathered(s: string)
    requires Contains(s, CRLF)
    ensures Gather([s], "") == [s]
  {
    hide Contains;
    assert "" + s == s;
    assert Gather([s], "") == [s] + Gather([s][1..], "");
    assert Gather([s][1..], "") == [];
  }

  // ------------------------------------------------------------ runs from a fresh primary

  function Unreached(addr: string): Node {
    Node(Replica(addr, FAILED, [], false, []), Down, 0, 0)
  }

  /** A primary with that history and no checkpoint, and two replicas that could not be
      reached at the start. */
  function Primary(h: seq<Update>): Cluster {
    Cluster(h, h, 0, Disk(None, LogText(Entries(h, 0))), false, [Unreached("a"), Unreached("b")])
  }

  const START := Cluster([], [], 0, Disk(None, ""), false, [Unreached("a"), Unreached("b")])

  const NO_FILES := Disk(None, "")

  lemma {:induction false} PrimaryLogs(h: seq<Update>, u: Update)
    ensures Logged(Primary(h), u, true, []) == Primary(h + [u])
  {
    hide LogText, EntryText, Entries;
    EntriesNext(h, 0, u);
  }

  lemma {:induction false} StartIsPrimary()
    ensures START == Primary([]) && Run(START, []) == START && Fresh(START)
  {
    assert Entries([], 0) == [];
  }

  lemma {:induction false} RunNext(c: Cluster, steps: seq<Step>, s: Step)
    ensures Run(c, steps + [s]) == if Connected(Run(c, steps)) then Next(Run(c, steps), s) else Run(c, steps)
  {
    assert (steps + [s])[..|steps|] == steps;
  }

  /** The first replica's record from its RECOVERY on. */
  function Recovering0(from: nat, p: Process): Node {
    Node(Replica("a", RECOVERING, [], false, []), p, 0, from)
  }

  function Recovering1(from: nat, p: Process): Node {
    Node(Replica("b", RECOVERING, [], false, []), p, 0, from)
  }

  /** The primary while its replicas recover. */
  function With(h: seq<Update>, paused: bool, a: Node, b: Node): Cluster {
    Primary(h).(paused := paused, nodes := [a, b])
  }

  lemma {:induction false} NothingRecovered()
    ensures Recovered(NO_FILES) == map[]
  {
    NoMarkInNothing();
    hide ParseLog;
  }

  lemma {:induction false} FirstRecovers(h: seq<Update>)
    ensures Next(Primary(h), RecoverStep(0, "a", 0, NO_FILES)) ==
            With(h, true, Recovering0(|h|, Restored(map[])), Unreached("b"))
  {
    hide StateAt, Apply, Replay, LogText, Recovered;
    NothingRecovered();
    assert IndexOf(Replicas(Primary(h)), "a") == 0;
  }

  lemma {:induction false} SecondRecovers(h: seq<Update>)
    ensures Next(With(h, true, Recovering0(|h|, Restored(map[])), Unreached("b")), RecoverStep(1, "b", 0, NO_FILES)) ==
            With(h, true, Recovering0(|h|, Restored(map[])), Recovering1(|h|, Restored(map[])))
  {
    hide StateAt, Apply, Replay, LogText, Recovered;
    NothingRecovered();
    var c := With(h, true, Recovering0(|h|, Restored(map[])), Unreached("b"));
    assert Replicas(c)[1..][0].addr == "b";
    assert IndexOf(Replicas(c)[1..], "b") == 0;
    assert IndexOf(Replicas(c), "b") == 1;
  }

  /** A recovery of the first replica that starts from nothing. */
  function FromNothing(segments: seq<string>): seq<Step> {
    [RecoverStep(0, "a", 0, NO_FILES), SendLog(0, segments), ReadyStep(0)]
  }

  /** The first replica, running with a table. */
  function Ready0(from: nat, t: Cells): Node {
    Node(Replica("a", RUNNING, [], true, []), Serving(t), 0, from)
  }

  lemma {:induction false} RecoversFromNothing(h: seq<Update>, front: seq<Step>, segments: seq<string>)
    requires Run(START, front) == Primary(h)
    requires Pieces(Answer(Primary(h).disk.log, LOG_END), segments) && Arrived(segments, LOG_END).Got?
    ensures Run(START, front + FromNothing(segments)) ==
            With(h, false, Ready0(|h|, Replay(map[], ParseLog(Arrived(segments, LOG_END).text))), Unreached("b"))
  {
    hide StateAt, Apply, Replay, LogText, ParseLog, Arrived, Run, Pieces, Recover;
    var r, n := FromNothing(segments), Recovering0(|h|, Restored(map[]));
    FirstRecovers(h);
    RunNext(START, front, r[0]);
    assert Connected(Primary(h));
    assert Connected(With(h, true, n, Unreached("b")));
    RunNext(START, front + [r[0]], r[1]);
    RunNext(START, front + [r[0]] + [r[1]], r[2]);
    assert front + [r[0]] + [r[1]] + [r[2]] == front + r;
  }

  const PUT := Put("r", "c", "v\r\n")

  /** One PUT in one read. */
  const ONE_PUT := "PUT <r> <c>\n1\nv\r\n\n.\n"

  lemma {:induction false} OnePutText()
    ensures Primary([PUT]).disk.log == ONE_PUT
    ensures !Contains(ONE_PUT, LOG_END) && |Answer(ONE_PUT, LOG_END)| < RLEN
  {
    OnePutEntry();
    OnePutLog();
    hide Contains, LogText, EntryText;
    NoMark(ONE_PUT, LOG_END, 0);
  }

  lemma {:induction false} OnePutEntry()
    ensures EntryText(Entry(PUT, 1, true)) == ONE_PUT
  {
    assert Digits(1) == "1";
  }

  lemma {:induction false} OnePutLog()
    ensures LogText(Entries([PUT], 0)) == EntryText(Entry(PUT, 1, true))
  {
    hide EntryText;
    var es := Entries([PUT], 0);
    assert es == [Entry(PUT, 1, true)] && es[..0] == [];
    assert LogText(es[..0]) == "";
    assert "" + EntryText(es[0]) == EntryText(es[0]);
  }

  /** A text without one of the mark's characters does not hold the mark. */
  lemma {:induction false} NoMark(text: string, mark: string, i: nat)
    requires i < |mark| && mark[i] !in text
    ensures !Contains(text, mark)
  {
    var k := Find(text, mark);
    if k != NPOS {
      AtChar(text, mark, k, i);
    }
  }

  /** One PUT; both replicas recover from nothing; the second is done first, and a checkpoint
      empties the log before the first one asks for it. */
  const TWO_AT_ONCE: seq<Step> := [
    PutStep("r", "c", "v\r\n", []),
    RecoverStep(0, "a", 0, NO_FILES), RecoverStep(1, "b", 0, NO_FILES),
    SendLog(1, [Answer(ONE_PUT, LOG_END)]), ReadyStep(1), CheckpointStep([("r", "c")]),
    SendLog(0, [END]), ReadyStep(0)]

  lemma {:induction false} TableOfOne()
    ensures StateAt([PUT], 1) == map[("r", "c") := "v\r\n"]
    ensures StateAt([PUT, Delete("r", "c")], 2) == map[]
    ensures Replay(map[], [PUT, Delete("r", "c")]) == map[("r", "c") := "v\r\n"]
  {
    var one, two := [PUT], [PUT, Delete("r", "c")];
    assert one[..1] == one && two[..2] == two && two[..1] == one && one[..0] == [];
    assert Apply(map[], one[..0]) == map[] == Replay(map[], one[..0]);
    assert Apply(map[], one) == Apply1(map[], PUT) && Replay(map[], one) == Replay1(map[], PUT);
    assert Apply(map[], two) == Apply1(Apply(map[], one), two[1]);
    assert Replay(map[], two) == Replay1(Replay(map[], one), two[1]);
  }

  lemma {:induction false} AfterPut(u: Update)
    requires u.Put?
    ensures Run(START, [PutStep(u.row, u.col, u.value, [])]) == Primary([u])
  {
    StartIsPrimary();
    hide Logged, LogText, Entries;
    var s := PutStep(u.row, u.col, u.value, []);
    RunNext(START, [], s);
    assert [] + [s] == [s];
    PrimaryLogs([], u);
    assert [] + [u] == [u];
  }

  lemma {:induction false} TwoAtOnceStarts()
    ensures Run(START, TWO_AT_ONCE[..3]) ==
            With([PUT], true, Recovering0(1, Restored(map[])), Recovering1(1, Restored(map[])))
  {
    hide StateAt, Apply, Replay, LogText, Run, Next;
    var s := TWO_AT_ONCE;
    AfterPut(PUT);
    assert s[..1] == [PutStep("r", "c", "v\r\n", [])] && s[..1] + [s[1]] == s[..2] && s[..2] + [s[2]] == s[..3];
    RunNext(START, s[..1], s[1]);
    RunNext(START, s[..2], s[2]);
    FirstRecovers([PUT]);
    SecondRecovers([PUT]);
  }

  /** The five steps that `AfterTwo` is made of. */
  lemma {:induction false} RunAfterTwo(c: Cluster, front: seq<Step>, i: nat, j: nat, w: Ways)
    requires var b := Run(c, front);
             && Connected(b) && i < |b.nodes| && j < |b.nodes| && i != j
             && b.nodes[i].process.Restored? && b.nodes[j].process.Restored? && Goes(b, w)
    ensures Run(c, front + [SendLog(j, w.first)] + [ReadyStep(j)] + [CheckpointStep(w.cells)]
                   + [SendLog(i, w.second)] + [ReadyStep(i)])
            == AfterTwo(Run(c, front), i, j, w)
  {
    hide Next, StateAt, Arrived, Pieces, CheckpointText, Lists, WithLog, Run;
    var b, f := Run(c, front), front + [SendLog(j, w.first)] + [ReadyStep(j)];
    LogArrives(b, j, w.first);
    BecomesReady(Next(b, SendLog(j, w.first)), j);
    FirstReadyIs(b, j, w);
    LogArrives(FirstReady(b, j, w), i, w.second);
    RunNext(c, front, SendLog(j, w.first));
    RunNext(c, front + [SendLog(j, w.first)], ReadyStep(j));
    RunNext(c, f, CheckpointStep(w.cells));
    RunNext(c, f + [CheckpointStep(w.cells)], SendLog(i, w.second));
    RunNext(c, f + [CheckpointStep(w.cells)] + [SendLog(i, w.second)], ReadyStep(i));
  }

  /** Two recoveries at once can leave a running replica without the primary's only cell, and
      with nothing more to carry out. */
  lemma {:induction false} TwoAtOnceDisagree()
    ensures Fresh(START)
    ensures var r := Run(START, TWO_AT_ONCE);
            && |r.nodes| == 2 && r.nodes[0].process == Serving(map[]) && r.nodes[0].rep.sent == []
            && r.Table() == map[("r", "c") := "v\r\n"]
  {
    TwoAtOnceStarts();
    TableOfOne();
    StartIsPrimary();
    WaysOfOne();
    hide AfterTwo, StateAt, Arrived, Pieces, Contains, Run, LogText, Goes, Fresh;
    var front, w := TWO_AT_ONCE[..3], WAYS;
    RunAfterTwo(START, front, 0, 1, w);
    AfterTwoIs(Run(START, front), 0, 1, w);
    assert TWO_AT_ONCE == front + [SendLog(1, w.first)] + [ReadyStep(1)] + [CheckpointStep(w.cells)]
                          + [SendLog(0, w.second)] + [ReadyStep(0)];
  }

  const WAYS := Ways([Answer(ONE_PUT, LOG_END)], [("r", "c")], [END])

  lemma {:induction false} WaysOfOne()
    ensures Goes(With([PUT], true, Recovering0(1, Restored(map[])), Recovering1(1, Restored(map[]))), WAYS)
  {
    hide StateAt, Arrived, Pieces, Contains, LogText, ParseLog;
    TableOfOne();
    OnePutText();
    NoMarkInNothing();
    OneRead(ONE_PUT, LOG_END);
    OneRead("", LOG_END);
    assert Answer("", LOG_END) == END;
  }

  // ------------------------------------------------------------ logs that do not replay

  /** A PUT and its DELETE; then a replica recovers from nothing. */
  const AFTER_DELETE: seq<Step> :=
    [PutStep("r", "c", "v\r\n", []), DeleteStep("r", "c", [])] + FromNothing([Answer(PUT_DELETE, LOG_END)])

  const PUT_DELETE := ONE_PUT + "DELETE <r> <c>\n2\n.\n"

  lemma {:induction false} PutDeleteText()
    ensures Primary([PUT, Delete("r", "c")]).disk.log == PUT_DELETE
  {
    OnePutText();
    DeleteEntry();
    hide Contains, LogText, EntryText, Entries, StateAt, ONE_PUT, LOG_END;
    EntriesNext([PUT], 0, Delete("r", "c"));
    assert [PUT] + [Delete("r", "c")] == [PUT, Delete("r", "c")];
  }

  lemma {:induction false} PutDeleteFree()
    ensures !Contains(PUT_DELETE, LOG_END) && |Answer(PUT_DELETE, LOG_END)| < RLEN
  {
    hide Contains;
    NoMark(PUT_DELETE, LOG_END, 1);
  }

  lemma {:induction false} DeleteEntry()
    ensures EntryText(Entry(Delete("r", "c"), 2, true)) == "DELETE <r> <c>\n2\n.\n"
  {
    assert Digits(2) == "2";
  }

  lemma {:induction false} AfterPutDelete()
    ensures Run(START, [PutStep("r", "c", "v\r\n", []), DeleteStep("r", "c", [])]) == Primary([PUT, Delete("r", "c")])
  {
    AfterPut(PUT);
    TableOfOne();
    hide StateAt, Logged, Run;
    var s := PutStep("r", "c", "v\r\n", []);
    RunNext(START, [s], DeleteStep("r", "c", []));
    assert [s] + [DeleteStep("r", "c", [])] == [s, DeleteStep("r", "c", [])];
    PrimaryLogs([PUT], Delete("r", "c"));
    assert [PUT] + [Delete("r", "c")] == [PUT, Delete("r", "c")];
  }

  lemma {:induction false} PutDeleteReads()
    ensures ParseLog(Primary([PUT, Delete("r", "c")]).disk.log) == [PUT, Delete("r", "c")]
  {
    var h := [PUT, Delete("r", "c")];
    assert h[0..] == h;
    assert Storable(PUT) && Storable(Delete("r", "c"));
    hide ParseLog, LogText, Storable;
    LogReads(h, 0);
  }

  /** A log that does not replay to what it means: the recovered replica has a cell that the
      primary deleted. */
  lemma {:induction false} DeletedCellComesBack()
    ensures Fresh(START)
    ensures var r := Run(START, AFTER_DELETE);
            && |r.nodes| == 2 && r.nodes[0].process == Serving(map[("r", "c") := "v\r\n"]) && r.nodes[0].rep.sent == []
            && r.Table() == map[]
  {
    StartIsPrimary();
    AfterPutDelete();
    PutDeleteText();
    PutDeleteFree();
    PutDeleteReads();
    TableOfOne();
    hide StateAt, Replay, Run, ParseLog, LogText, Contains, Arrived, Pieces, Fresh;
    OneRead(PUT_DELETE, LOG_END);
    RecoversFromNothing([PUT, Delete("r", "c")], AFTER_DELETE[..2], [Answer(PUT_DELETE, LOG_END)]);
    assert AFTER_DELETE[..2] == [PutStep("r", "c", "v\r\n", []), DeleteStep("r", "c", [])];
    assert AFTER_DELETE == AFTER_DELETE[..2] + FromNothing([Answer(PUT_DELETE, LOG_END)]);
  }

  // ------------------------------------------------------------ logs that do not come back

  /** A PUT, and then a replica recovers from nothing. */
  function PutThenRecover(u: Update, segments: seq<string>): seq<Step>
    requires u.Put?
  {
    [PutStep(u.row, u.col, u.value, [])] + FromNothing(segments)
  }

  /** The primary's log after its first update. */
  function FirstRecord(u: Update): string {
    EntryText(Entry(u, 1, true))
  }

  lemma {:induction false} FirstLog(u: Update)
    ensures Primary([u]).disk.log == FirstRecord(u)
  {
    hide EntryText;
    var es := Entries([u], 0);
    assert es == [Entry(u, 1, true)] && es[..0] == [];
    assert LogText(es[..0]) == "";
    assert "" + EntryText(es[0]) == EntryText(es[0]);
  }

  lemma {:induction false} TableOfPut(u: Update)
    requires u.Put?
    ensures StateAt([u], 1) == map[(u.row, u.col) := u.value]
    ensures Replay(map[], [u]) == map[(u.row, u.col) := u.value]
  {
    assert [u][..1] == [u] && [u][..0] == [];
    assert Apply(map[], [u][..0]) == map[] == Replay(map[], [u][..0]);
    assert Apply(map[], [u]) == Apply1(map[], u) && Replay(map[], [u]) == Replay1(map[], u);
  }

  /** What the run ends with. */
  lemma {:induction false} PutThenRecovered(u: Update, segments: seq<string>)
    requires u.Put?
    requires Pieces(Answer(FirstRecord(u), LOG_END), segments) && Arrived(segments, LOG_END).Got?
    ensures var r := Run(START, PutThenRecover(u, segments));
            && |r.nodes| == 2 && r.Table() == map[(u.row, u.col) := u.value] && r.nodes[0].rep.sent == []
            && r.nodes[0].process == Serving(Replay(map[], ParseLog(Arrived(segments, LOG_END).text)))
  {
    AfterPut(u);
    FirstLog(u);
    TableOfPut(u);
    hide StateAt, Replay, Run, ParseLog, LogText, Arrived, Pieces, EntryText;
    RecoversFromNothing([u], [PutStep(u.row, u.col, u.value, [])], segments);
  }

  lemma {:induction false} WholeRecordReads(u: Update)
    requires u.Put? && KeyText(u.row) && KeyText(u.col) && EndsLine(u.value) && NoDotLine(u.value)
    ensures ParseLog(FirstRecord(u)) == [u]
  {
    hide ParseLog, EntryText, NoDotLine;
    LogRoundTripIff(Entry(u, 1, true));
  }

  lemma {:induction false} ReplayTooShort(us: seq<Update>, k: Key, v: string)
    requires Shorter(us, |v|)
    ensures Replay(map[], us) != map[k := v]
  {
    hide Replay;
    ReplayShort(map[], us, |v|);
    var t := map[k := v];
    assert k in t && t[k] == v;
  }

  /** What arrives of a record that holds the mark, or breaks the format, restores no value
      of its length. */
  lemma {:induction false} DamageShows(u: Update, segments: seq<string>)
    requires u.Put? && KeyText(u.row) && KeyText(u.col) && EndsLine(u.value)
    requires Pieces(Answer(FirstRecord(u), LOG_END), segments) && Arrived(segments, LOG_END).Got?
    requires !NoDotLine(u.value) || Contains(FirstRecord(u), LOG_END)
    ensures Shorter(ParseLog(Arrived(segments, LOG_END).text), |u.value|)
  {
    hide Arrived, Pieces, ParseLog, EntryText, NoDotLine, StopMark, KeyText;
    var text := FirstRecord(u);
    var s := Answer(text, LOG_END);
    BothMarks();
    if Contains(text, LOG_END) {
      ArrivedIff(text, LOG_END, segments);
      assert text <= s;
      FindInPrefix(text, s, LOG_END);
      var k := Find(text, LOG_END);
      assert s[..k] == text[..k];
      CutShort(u, 1, k);
    } else {
      GotIsWhole(text, LOG_END, segments);
      DotLineShort(u, 1);
    }
  }

  /** After one PUT, a recovery from nothing brings the replica to the primary's table, for
      every way in which the log arrives, if and only if no line of the value is a lone dot
      and the record nowhere holds the words that end the transfer. */
  lemma {:induction false} PutThenRecoverIff(u: Update, segments: seq<string>)
    requires u.Put? && KeyText(u.row) && KeyText(u.col) && EndsLine(u.value)
    requires Pieces(Answer(FirstRecord(u), LOG_END), segments) && Arrived(segments, LOG_END).Got?
    ensures var r := Run(START, PutThenRecover(u, segments));
            && |r.nodes| == 2 && r.nodes[0].process.Serving?
            && (r.nodes[0].process.table == r.Table() <==>
                NoDotLine(u.value) && !Contains(FirstRecord(u), LOG_END))
  {
    hide Arrived, Pieces, ParseLog, Replay, Contains, NoDotLine, Run, StateAt, FirstRecord, PutThenRecover, KeyText;
    PutThenRecovered(u, segments);
    if NoDotLine(u.value) && !Contains(FirstRecord(u), LOG_END) {
      BothMarks();
      GotIsWhole(FirstRecord(u), LOG_END, segments);
      WholeRecordReads(u);
      TableOfPut(u);
    } else {
      DamageShows(u, segments);
      ReplayTooShort(ParseLog(Arrived(segments, LOG_END).text), (u.row, u.col), u.value);
    }
  }

  /** A value with a lone-dot line that the wire lets through. */
  const DOT_LINE := Put("r", "c", "a\n.\nb\r\n")

  /** A value with the words that end the transfer. */
  const END_MARK := Put("r", "c", "LOG END\r\n")

  /** Both come through the wire, and neither through a recovery that receives the log in one
      read. */
  lemma {:induction false} DamagingValues(u: Update)
    requires u in {DOT_LINE, END_MARK}
    ensures Clean(u.value[..|u.value| - 2]) && Fresh(START)
    ensures var r := Run(START, PutThenRecover(u, [Answer(FirstRecord(u), LOG_END)]));
            |r.nodes| == 2 && r.nodes[0].process.Serving? && r.nodes[0].process.table != r.Table()
  {
    DamagedRecords();
    DamagingClean();
    StartIsPrimary();
    hide Clean, Fresh, Arrived, Pieces, Contains, NoDotLine, Run, StateAt, FirstRecord, PutThenRecover;
    OneRead(FirstRecord(u), LOG_END);
    PutThenRecoverIff(u, [Answer(FirstRecord(u), LOG_END)]);
  }

  lemma {:induction false} DamagedRecords()
    ensures !NoDotLine(DOT_LINE.value) && Contains(FirstRecord(END_MARK), LOG_END)
    ensures |FirstRecord(DOT_LINE)| < 100 && |FirstRecord(END_MARK)| < 100
  {
    assert DotLineAt(DOT_LINE.value, 2);
    hide Contains;
    EndMarkRecord();
    EndMarkInside();
  }

  const END_RECORD := "PUT <r> <c>\n1\nLOG END\r\n\n.\n"

  lemma {:induction false} EndMarkRecord()
    ensures FirstRecord(END_MARK) == END_RECORD && |FirstRecord(DOT_LINE)| < 100
  {
    assert Digits(1) == "1";
  }

  lemma {:induction false} EndMarkInside()
    ensures Contains(END_RECORD, LOG_END)
  {
    hide FindFrom;
    assert END_RECORD[14..14 + |LOG_END|] == LOG_END;
    assert At(END_RECORD, LOG_END, 14);
  }

  lemma {:induction false} DamagingClean()
    ensures Clean("a\n.\nb") && Clean("LOG END")
    ensures DOT_LINE.value[..|DOT_LINE.value| - 2] == "a\n.\nb"
    ensures END_MARK.value[..|END_MARK.value| - 2] == "LOG END"
  {
    hide FindFrom;
    var a, b := "\r\n" + ("a\n.\nb" + "\r\n"), "\r\n" + ("LOG END" + "\r\n");
    TermAt(a, Find(a, TERM));
    TermAt(b, Find(b, TERM));
  }
}
