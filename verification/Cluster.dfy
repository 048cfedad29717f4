/** A primary and its replicas: every step that updates, loses, recovers or checkpoints, with
    the texts of log and checkpoint as they are written, sent and replayed, and why each running
    replica ends up with the primary's table. */
module Cluster {
  import opened Wrappers
  import opened Updates
  import opened LogFormat
  import opened Recovery
  import opened GetReply
  import opened Transfer
  import opened BackStore
  import opened CatchUp
  import Pushes

  /** A replica process: down, waiting for the primary's checkpoint, holding the table it
      restored, holding the table after the primary's log, or serving. */
  datatype Process =
    | Down
    | Asking
    | Restored(table: Cells)
    | CaughtUp(table: Cells)
    | Serving(table: Cells)

  /** The primary's record of a replica, the replica's process, how many of the commands sent
      on the current connection it has carried out, and the number of updates that had been
      pushed when the replica was last marked as recovering. */
  datatype Node = Node(rep: Replica, process: Process, done: nat, from: nat)

  /** `history` is every update the primary logged, `pushed` those it sent on, `disk` its two
      files; the last checkpoint was written after `version` updates. */
  datatype Cluster = Cluster(
    history: seq<Update>,
    pushed: seq<Update>,
    version: nat,
    disk: Disk,
    paused: bool,
    nodes: seq<Node>)
  {
    function Table(): Cells {
      StateAt(history, |history|)
    }
  }

  /** A checkpoint prints the cells in the order `cells`; a pushed command, and the answer of a
      transfer, arrive in the reads `segments`; a recovering replica has the files `files`. */
  datatype Step =
    | PutStep(row: string, col: string, value: string, wrote: seq<bool>)
    | CPutStep(row: string, col: string, oldData: string, value: string, wrote: seq<bool>)
    | DeleteStep(row: string, col: string, wrote: seq<bool>)
    | CheckpointStep(cells: seq<Key>)
    | DeliverStep(node: nat, number: nat, segments: seq<string>)
    | CrashStep(node: nat)
    | RecoverStep(node: nat, address: string, start: int, files: Disk)
    | SendCheckpoint(node: nat, segments: seq<string>)
    | SendLog(node: nat, segments: seq<string>)
    | ReadyStep(node: nat)

  function Wrote(wrote: seq<bool>, i: nat): bool {
    i < |wrote| && wrote[i]
  }

  /** `push` and `poll` on the primary's records. */
  function PushAll(nodes: seq<Node>, u: Update, wrote: seq<bool>): (r: seq<Node>)
    requires forall i :: 0 <= i < |nodes| && nodes[i].rep.state == RUNNING ==> nodes[i].rep.connected
    ensures |r| == |nodes|
  {
    seq(|nodes|, i requires 0 <= i < |nodes| => nodes[i].(rep := Push1(nodes[i].rep, u, Wrote(wrote, i))))
  }

  function Logged(c: Cluster, u: Update, push: bool, wrote: seq<bool>): Cluster
    requires Connected(c)
  {
    c.(history := c.history + [u],
       disk := c.disk.(log := c.disk.log + EntryText(Entry(u, |c.history| + 1, true))),
       pushed := if push then c.pushed + [u] else c.pushed,
       nodes := if push then PushAll(c.nodes, u, wrote) else c.nodes)
  }

  function SetNode(c: Cluster, i: nat, n: Node): Cluster
    requires i < |c.nodes|
  {
    c.(nodes := c.nodes[i := n])
  }

  function Replicas(c: Cluster): (rs: seq<Replica>)
    ensures |rs| == |c.nodes|
  {
    seq(|c.nodes|, i requires 0 <= i < |c.nodes| => c.nodes[i].rep)
  }

  /** `recover` on the primary's record. */
  function Marked(c: Cluster, n: Node): Node {
    n.(rep := n.rep.(state := RECOVERING), from := if n.rep.state == RECOVERING then n.from else |c.pushed|)
  }

  /** `findVersionNum`. */
  function VersionOf(file: Option<string>): int {
    match file
    case None => 0
    case Some(text) => FindVersion(text)
  }

  /** `parse_RECOVERY` for a parsed address and number, together with the choice the
      recovering process makes on the answer. */
  function Recover(c: Cluster, i: nat, address: string, start: int, files: Disk): Cluster
    requires i < |c.nodes|
  {
    var j := IndexOf(Replicas(c), address);
    var marked := if j < |c.nodes| then SetNode(c, j, Marked(c, c.nodes[j])) else c;
    var answer := if VersionOf(c.disk.checkpoint) <= start then Restored(Recovered(files)) else Asking;
    SetNode(marked, i, marked.nodes[i].(process := answer)).(paused := true)
  }

  predicate Lists(ks: seq<Key>, t: Cells) {
    (forall k :: k in ks ==> k in t) && (forall k :: k in t ==> k in ks)
  }

  /** What `writeToDisk` prints. */
  function CheckpointText(version: nat, ks: seq<Key>, t: Cells): string
    requires Lists(ks, t)
  {
    VersionLine(version) + CellsText(ks, t)
  }

  /** A file as `read_file` reads it for a transfer. */
  function Content(file: Option<string>): string {
    match file
    case None => ""
    case Some(text) => text
  }

  /** What `parse_LOG` and `parse_CHECKPOINT` answer. */
  function Answer(text: string, mark: string): string {
    text + (mark + CRLF)
  }

  /** `receiveCheckpoint` and the replay of what arrived. A replica whose transfer does not end
      does not come up. */
  function WithCheckpoint(a: Arrival): Process {
    match a
    case Got(text) => Restored(Recovery.Restored(Some(text)))
    case _ => Down
  }

  /** `receiveLog` and the replay of what arrived. */
  function WithLog(t: Cells, a: Arrival): Process {
    match a
    case Got(text) => CaughtUp(Replay(t, ParseLog(text)))
    case _ => Down
  }

  predicate Connected(c: Cluster) {
    forall i :: 0 <= i < |c.nodes| && c.nodes[i].rep.state == RUNNING ==> c.nodes[i].rep.connected
  }

  /** The next command on the connection of a node, with its number. */
  function NextPush(n: Node, number: nat): Pushes.Pushed
    requires n.done < |n.rep.sent|
  {
    Pushes.Pushed(n.rep.sent[n.done], number)
  }

  /** The replica reads the text of that command and carries out what it takes it for. */
  function Deliver(n: Node, segments: seq<string>): Node
    requires n.process.Serving? && n.done < |n.rep.sent|
  {
    var carried := Pushes.Carry("", segments).carried;
    n.(process := Serving(Apply(n.process.table, Carried(carried))), done := n.done + 1)
  }

  function Carried(cs: seq<Pushes.Pushed>): seq<Update> {
    seq(|cs|, i requires 0 <= i < |cs| => cs[i].update)
  }

  function Next(c: Cluster, s: Step): Cluster
    requires Connected(c)
  {
    match s
    case PutStep(r, k, v, wrote) => Logged(c, Put(r, k, v), true, wrote)
    case CPutStep(r, k, o, v, wrote) =>
      var t := c.Table();
      if (if (r, k) in t then t[(r, k)] == o else o == "NULL\r\n") then Logged(c, Put(r, k, v), true, wrote) else c
    case DeleteStep(r, k, wrote) => Logged(c, Delete(r, k), (r, k) in c.Table(), wrote)
    case CheckpointStep(ks) =>
      if !c.paused && Lists(ks, c.Table()) then
        c.(version := |c.history|, disk := Disk(Some(CheckpointText(|c.history|, ks, c.Table())), ""))
      else c
    case DeliverStep(i, number, segments) =>
      if i < |c.nodes| && c.nodes[i].process.Serving? && c.nodes[i].done < |c.nodes[i].rep.sent|
         && Pieces(Pushes.CommandText(NextPush(c.nodes[i], number)), segments) then
        SetNode(c, i, Deliver(c.nodes[i], segments))
      else c
    case CrashStep(i) => if i < |c.nodes| then SetNode(c, i, c.nodes[i].(process := Down)) else c
    case RecoverStep(i, address, start, files) =>
      if i < |c.nodes| && c.nodes[i].process.Down? then Recover(c, i, address, start, files) else c
    case SendCheckpoint(i, segments) =>
      if i < |c.nodes| && c.nodes[i].process.Asking?
         && Pieces(Answer(Content(c.disk.checkpoint), CHECKPOINT_END), segments) then
        SetNode(c, i, c.nodes[i].(process := WithCheckpoint(Arrived(segments, CHECKPOINT_END))))
      else c
    case SendLog(i, segments) =>
      if i < |c.nodes| && c.nodes[i].process.Restored? && Pieces(Answer(c.disk.log, LOG_END), segments) then
        SetNode(c, i, c.nodes[i].(process := WithLog(c.nodes[i].process.table, Arrived(segments, LOG_END))))
      else c
    case ReadyStep(i) =>
      if i < |c.nodes| && c.nodes[i].process.CaughtUp? then
        SetNode(c, i, c.nodes[i].(rep := Reconnected(c.nodes[i].rep), process := Serving(c.nodes[i].process.table),
                                  done := 0)).(paused := false)
      else c
  }

  // ------------------------------------------------------------ the invariant

  predicate Recovering(n: Node) {
    n.process.Asking? || n.process.Restored? || n.process.CaughtUp?
  }

  /** What was sent to a running replica, or is held back for a recovering one, is every
      update pushed since the replica was marked, in order. */
  predicate QueueInv(c: Cluster, n: Node) {
    && n.rep.state in {RUNNING, RECOVERING, FAILED}
    && n.done <= |n.rep.sent|
    && (n.rep.state == RUNNING ==> n.rep.connected && n.from <= |c.pushed| && n.rep.sent == c.pushed[n.from..])
    && (n.rep.state == RECOVERING ==> n.from <= |c.pushed| && n.rep.holdBack == c.pushed[n.from..])
    && (n.rep.state != RECOVERING ==> n.rep.holdBack == [])
  }

  /** The records of the updates of `h` from number `v` on, as a primary logs them. */
  function Entries(h: seq<Update>, v: nat): (es: seq<Entry>)
    requires v <= |h|
    ensures |es| == |h| - v
  {
    seq(|h| - v, i requires 0 <= i < |h| - v => Entry(h[v + i], v + i + 1, true))
  }

  ghost predicate IsCheckpoint(file: Option<string>, version: nat, t: Cells) {
    match file
    case None => version == 0
    case Some(text) => exists ks :: Lists(ks, t) && text == CheckpointText(version, ks, t)
  }

  /** The primary's files say what it has logged. */
  ghost predicate FilesInv(c: Cluster) {
    && c.version <= |c.history|
    && IsCheckpoint(c.disk.checkpoint, c.version, StateAt(c.history, c.version))
    && c.disk.log == LogText(Entries(c.history, c.version))
  }

  /** A table restored from a checkpoint no older than version `v` and updates that the
      history has after that. */
  ghost predicate Restorable(h: seq<Update>, v: nat, t: Cells) {
    exists lv: nat, vs :: v <= lv <= |h| && Shaped(h, v, vs) && t == Replay(StateAt(h, lv), vs)
  }

  /** Whatever a process still has to carry out turns its table into the primary's. */
  ghost predicate ProcessInv(c: Cluster, n: Node) {
    match n.process
    case Serving(t) => n.rep.state == RUNNING && n.done <= |n.rep.sent| ==> Apply(t, n.rep.sent[n.done..]) == c.Table()
    case Restored(t) => Restorable(c.history, c.version, t)
    case CaughtUp(t) => Apply(t, n.rep.holdBack) == c.Table()
    case _ => true
  }

  ghost predicate NodeInv(c: Cluster, n: Node) {
    && QueueInv(c, n)
    && ProcessInv(c, n)
    && (Recovering(n) ==> n.rep.state == RECOVERING && c.paused)
  }

  ghost predicate Inv(c: Cluster) {
    && FilesInv(c)
    && StateAt(c.pushed, |c.pushed|) == c.Table()
    && (forall i :: 0 <= i < |c.nodes| ==> NodeInv(c, c.nodes[i]))
    && (forall i, j :: 0 <= i < |c.nodes| && 0 <= j < |c.nodes| && Recovering(c.nodes[i]) && Recovering(c.nodes[j])
          ==> i == j)
  }

  /** A replica's own files: a checkpoint of the table after `v` updates or more, and a log of
      records of updates since `v`, its own or the primary's, the last one possibly torn. */
  ghost predicate OwnFiles(h: seq<Update>, v: nat, d: Disk) {
    exists lv: nat, es: seq<Entry>, torn: string ::
      && v <= lv <= |h| && Recovery.Restored(d.checkpoint) == StateAt(h, lv)
      && d.log == LogText(es) + torn && NoDotLine(torn) && OwnRecords(h, v, es)
  }

  predicate OwnRecords(h: seq<Update>, v: nat, es: seq<Entry>) {
    v <= |h| && forall j :: 0 <= j < |es| ==> Storable(es[j].update) && es[j].update in h[v..]
  }

  /** The primary's checkpoint comes back from its text: no cell breaks the format, and nothing
      in it looks like the end of the transfer. */
  predicate CheckpointGoes(c: Cluster)
    requires c.version <= |c.history|
  {
    && (forall k :: k in StateAt(c.history, c.version) ==> CellText(k, StateAt(c.history, c.version)[k]))
    && !Contains(Content(c.disk.checkpoint), CHECKPOINT_END)
  }

  /** The primary's log comes back from its text, and replays to what it means. */
  predicate LogGoes(c: Cluster)
    requires c.version <= |c.history|
  {
    && (forall u :: u in c.history[c.version..] ==> Storable(u))
    && Harmless(c.history[c.version..])
    && !Contains(c.disk.log, LOG_END)
  }

  /** What the recovery protocol counts on. The request names the recovering replica, and no
      other replica is recovering. If the replica is told to start from its own files, its
      checkpoint is no older than the primary's, whatever number it sends. The texts of the
      primary's files can be sent and read back, in whatever reads. And each pushed command is
      read by itself, in reads that carry it, with keys and value as the wire lets them
      through. */
  ghost predicate Sound(c: Cluster, s: Step) {
    match s
    case RecoverStep(i, address, start, files) =>
      i < |c.nodes| && c.nodes[i].process.Down? ==>
        && IndexOf(Replicas(c), address) == i
        && (VersionOf(c.disk.checkpoint) <= start ==> OwnFiles(c.history, c.version, files))
        && forall j :: 0 <= j < |c.nodes| ==> !Recovering(c.nodes[j])
    case DeliverStep(i, number, segments) =>
      i < |c.nodes| && c.nodes[i].process.Serving? && c.nodes[i].done < |c.nodes[i].rep.sent| ==>
        var p := NextPush(c.nodes[i], number);
        Pushes.Pushable(p) && Pushes.Alone(p, segments)
    case SendCheckpoint(i, _) =>
      i < |c.nodes| && c.nodes[i].process.Asking? && c.version <= |c.history| ==> CheckpointGoes(c)
    case SendLog(i, _) =>
      i < |c.nodes| && c.nodes[i].process.Restored? && c.version <= |c.history| ==> LogGoes(c)
    case _ => true
  }

  // ------------------------------------------------------------ the primary's files

  lemma {:induction false} EntriesNext(h: seq<Update>, v: nat, u: Update)
    requires v <= |h|
    ensures LogText(Entries(h + [u], v)) == LogText(Entries(h, v)) + EntryText(Entry(u, |h| + 1, true))
  {
    hide LogText, EntryText;
    assert Entries(h + [u], v) == Entries(h, v) + [Entry(u, |h| + 1, true)];
    LogOneMore(Entries(h, v), Entry(u, |h| + 1, true));
  }

  lemma {:induction false} LoggedFiles(c: Cluster, c': Cluster, u: Update)
    requires FilesInv(c) && c'.history == c.history + [u] && c'.version == c.version
    requires c'.disk == c.disk.(log := c.disk.log + EntryText(Entry(u, |c.history| + 1, true)))
    ensures FilesInv(c')
  {
    hide LogText, EntryText, IsCheckpoint, Entries, StateAt;
    EntriesNext(c.history, c.version, u);
    EarlierState(c.history, c.version, u);
  }

  lemma {:induction false} EarlierState(h: seq<Update>, v: nat, u: Update)
    requires v <= |h|
    ensures StateAt(h + [u], v) == StateAt(h, v)
  {
    hide Apply;
    assert (h + [u])[..v] == h[..v];
  }

  lemma {:induction false} CheckpointedFiles(c: Cluster, ks: seq<Key>)
    requires Lists(ks, c.Table())
    ensures FilesInv(c.(version := |c.history|, disk := Disk(Some(CheckpointText(|c.history|, ks, c.Table())), "")))
  {
    hide StateAt, Lists, CheckpointText;
    assert Entries(c.history, |c.history|) == [];
  }

  /** The log of a primary reads back as what was logged. */
  lemma {:induction false} LogReads(h: seq<Update>, v: nat)
    requires v <= |h| && forall u :: u in h[v..] ==> Storable(u)
    ensures ParseLog(LogText(Entries(h, v))) == h[v..]
  {
    hide ParseLog, LogText, Storable;
    var es := Entries(h, v);
    forall i | 0 <= i < |es|
      ensures Storable(es[i].update) && Read(es[i]) == h[v..][i]
    {
      assert es[i].update == h[v..][i];
    }
    WholeLogRoundTrip(es);
    assert Reads(es) == h[v..];
  }

  lemma {:induction false} CheckpointVersion(file: Option<string>, version: nat, t: Cells)
    requires IsCheckpoint(file, version, t)
    ensures VersionOf(file) == version
  {
    hide FindVersion, VersionLine, CellsText;
    if file.Some? {
      var ks :| Lists(ks, t) && file.value == CheckpointText(version, ks, t);
      VersionRoundTrip(version, CellsText(ks, t));
    }
  }

  /** A checkpoint reads back as the table; a missing one is sent as an empty one. */
  lemma {:induction false} CheckpointReads(file: Option<string>, version: nat, t: Cells)
    requires IsCheckpoint(file, version, t) && (version == 0 ==> t == map[])
    requires forall k :: k in t ==> CellText(k, t[k])
    ensures Recovery.Restored(Some(Content(file))) == t
  {
    match file
    case None =>
      NothingRestored();
    case Some(text) =>
      hide CellText, CellsText, VersionLine, FindVersion, ParseCheckpoint, Replay;
      var ks :| Lists(ks, t) && text == CheckpointText(version, ks, t);
      CheckpointRoundTrip(version, ks, t);
  }

  lemma {:induction false} NothingRestored()
    ensures Recovery.Restored(Some("")) == map[]
  {
  }

  /** What a replica restores from its own files. */
  lemma {:induction false} OwnFilesRestore(h: seq<Update>, v: nat, d: Disk)
    requires OwnFiles(h, v, d)
    ensures Restorable(h, v, Recovered(d))
  {
    hide StateAt, ParseLog, LogText, Replay, Storable, NoDotLine, Recovery.Restored;
    var lv: nat, es: seq<Entry>, torn: string :|
      && v <= lv <= |h| && Recovery.Restored(d.checkpoint) == StateAt(h, lv)
      && d.log == LogText(es) + torn && NoDotLine(torn) && OwnRecords(h, v, es);
    LogRoundTrip(es, torn);
    forall j | 0 <= j < |es|
      ensures Touched(h, v, Reads(es)[j])
    {
      var i: nat :| i < |h[v..]| && h[v..][i] == es[j].update;
      assert SameKind(h[v + i], Reads(es)[j]);
    }
    assert Shaped(h, v, Reads(es));
  }

  // ------------------------------------------------------------ one more update

  lemma {:induction false} ApplyNext(t: Cells, us: seq<Update>, u: Update)
    ensures Apply(t, us + [u]) == Apply1(Apply(t, us), u)
  {
    assert (us + [u])[..|us|] == us;
  }

  lemma {:induction false} StateNext(h: seq<Update>, u: Update)
    ensures StateAt(h + [u], |h + [u]|) == Apply1(StateAt(h, |h|), u)
  {
    assert (h + [u])[..|h + [u]|] == h + [u] && h[..|h|] == h;
    ApplyNext(map[], h, u);
  }

  /** What can be restored does not depend on later updates. */
  lemma {:induction false} RestorableNext(h: seq<Update>, v: nat, t: Cells, u: Update)
    requires Restorable(h, v, t)
    ensures Restorable(h + [u], v, t)
  {
    hide StateAt, Replay, Shaped;
    var lv: nat, vs :| v <= lv <= |h| && Shaped(h, v, vs) && t == Replay(StateAt(h, lv), vs);
    EarlierState(h, lv, u);
    ShapedNext(h, v, vs, u);
  }

  lemma {:induction false} ShapedNext(h: seq<Update>, v: nat, vs: seq<Update>, u: Update)
    requires Shaped(h, v, vs)
    ensures Shaped(h + [u], v, vs)
  {
    forall j | 0 <= j < |vs|
      ensures Touched(h + [u], v, vs[j])
    {
      assert Touched(h, v, vs[j]);
      var m: nat :| v <= m < |h| && SameKind(h[m], vs[j]);
      assert SameKind((h + [u])[m], vs[j]);
    }
  }

  lemma {:induction false} TailNext(s: seq<Update>, i: nat, u: Update)
    requires i <= |s|
    ensures (s + [u])[i..] == s[i..] + [u]
  {
  }

  /** A pushed update, for the queue of one replica. */
  lemma {:induction false} PushQueue(c: Cluster, c': Cluster, n: Node, u: Update, wrote: bool)
    requires QueueInv(c, n) && c'.pushed == c.pushed + [u]
    ensures QueueInv(c', n.(rep := Push1(n.rep, u, wrote)))
  {
    if n.from <= |c.pushed| {
      TailNext(c.pushed, n.from, u);
    }
  }

  /** A pushed update, for the process of one replica. */
  lemma {:induction false} PushProcess(c: Cluster, c': Cluster, n: Node, u: Update, wrote: bool)
    requires QueueInv(c, n) && ProcessInv(c, n) && (Recovering(n) ==> n.rep.state == RECOVERING)
    requires c'.history == c.history + [u] && c'.version == c.version
    ensures ProcessInv(c', n.(rep := Push1(n.rep, u, wrote)))
  {
    hide Apply, Apply1, StateAt, Restorable;
    StateNext(c.history, u);
    match n.process
    case Serving(t) =>
      TailNext(n.rep.sent, n.done, u);
      ApplyNext(t, n.rep.sent[n.done..], u);
    case Restored(t) => RestorableNext(c.history, c.version, t, u);
    case CaughtUp(t) => ApplyNext(t, n.rep.holdBack, u);
    case _ =>
  }

  lemma {:induction false} PushKeeps(c: Cluster, c': Cluster, n: Node, u: Update, wrote: bool)
    requires NodeInv(c, n) && c.version == c'.version && c.paused == c'.paused
    requires c'.history == c.history + [u] && c'.pushed == c.pushed + [u]
    ensures QueueInv(c, n) && NodeInv(c', n.(rep := Push1(n.rep, u, wrote)))
  {
    PushQueue(c, c', n, u, wrote);
    PushProcess(c, c', n, u, wrote);
    hide QueueInv, ProcessInv;
  }

  /** An update that changes nothing and is not pushed. */
  lemma {:induction false} SilentKeeps(c: Cluster, c': Cluster, n: Node, u: Update)
    requires NodeInv(c, n) && c.version == c'.version && c.paused == c'.paused
    requires c'.history == c.history + [u] && c'.pushed == c.pushed && c'.Table() == c.Table()
    ensures NodeInv(c', n)
  {
    hide Apply, StateAt, Restorable;
    if n.process.Restored? {
      RestorableNext(c.history, c.version, n.process.table, u);
    }
  }

  lemma {:induction false} InvConnected(c: Cluster)
    requires Inv(c)
    ensures Connected(c)
  {
    hide ProcessInv, StateAt;
    forall i | 0 <= i < |c.nodes| && c.nodes[i].rep.state == RUNNING
      ensures c.nodes[i].rep.connected
    {
      assert NodeInv(c, c.nodes[i]);
    }
  }

  lemma {:induction false} PushedKeeps(c: Cluster, u: Update, wrote: seq<bool>)
    requires Inv(c) && Connected(c)
    ensures Inv(Logged(c, u, true, wrote))
  {
    hide NodeInv, FilesInv, EntryText, StateAt, Push1, Apply1;
    var c' := Logged(c, u, true, wrote);
    StateNext(c.history, u);
    StateNext(c.pushed, u);
    LoggedFiles(c, c', u);
    forall i | 0 <= i < |c.nodes|
      ensures NodeInv(c', c'.nodes[i])
    {
      assert NodeInv(c, c.nodes[i]);
      PushKeeps(c, c', c.nodes[i], u, Wrote(wrote, i));
    }
  }

  lemma {:induction false} UnpushedKeeps(c: Cluster, u: Update, wrote: seq<bool>)
    requires Inv(c) && Connected(c) && Apply1(c.Table(), u) == c.Table()
    ensures Inv(Logged(c, u, false, wrote))
  {
    hide NodeInv, FilesInv, EntryText, StateAt, Apply1;
    var c' := Logged(c, u, false, wrote);
    StateNext(c.history, u);
    LoggedFiles(c, c', u);
    forall i | 0 <= i < |c.nodes|
      ensures NodeInv(c', c'.nodes[i])
    {
      assert NodeInv(c, c.nodes[i]);
      SilentKeeps(c, c', c.nodes[i], u);
    }
  }

  lemma {:induction false} LoggedKeeps(c: Cluster, u: Update, push: bool, wrote: seq<bool>)
    requires Inv(c) && Connected(c) && (push || Apply1(c.Table(), u) == c.Table())
    ensures Inv(Logged(c, u, push, wrote))
  {
    hide Inv, Apply1;
    if push {
      PushedKeeps(c, u, wrote);
    } else {
      UnpushedKeeps(c, u, wrote);
    }
  }

  // ------------------------------------------------------------ a change to one node

  /** The parts of the cluster that a node's invariant looks at, except the pause. */
  predicate SameFiles(c: Cluster, c': Cluster) {
    c'.history == c.history && c'.pushed == c.pushed && c'.version == c.version && c'.disk == c.disk
  }

  lemma {:induction false} OtherKeeps(c: Cluster, c': Cluster, n: Node)
    requires NodeInv(c, n) && SameFiles(c, c') && (Recovering(n) ==> c'.paused)
    ensures NodeInv(c', n)
  {
    hide StateAt, Apply, Restorable;
  }

  predicate AloneAt(c: Cluster, i: nat) {
    forall j :: 0 <= j < |c.nodes| && j != i ==> !Recovering(c.nodes[j])
  }

  /** Changing node `i` keeps the invariant if its own is kept, and the others do not mind the
      pause. */
  lemma {:induction false} SetKeeps(c: Cluster, i: nat, n: Node, paused: bool)
    requires Inv(c) && i < |c.nodes| && NodeInv(SetNode(c, i, n).(paused := paused), n)
    requires (c.paused ==> paused) || AloneAt(c, i)
    requires Recovering(n) ==> AloneAt(c, i)
    ensures Inv(SetNode(c, i, n).(paused := paused))
  {
    hide NodeInv, Recovering, StateAt;
    var c' := SetNode(c, i, n).(paused := paused);
    forall j | 0 <= j < |c'.nodes|
      ensures NodeInv(c', c'.nodes[j])
    {
      if j != i {
        assert NodeInv(c, c.nodes[j]);
        if Recovering(c.nodes[j]) {
          PausedWhile(c, c.nodes[j]);
        }
        OtherKeeps(c, c', c.nodes[j]);
      }
    }
  }

  lemma {:induction false} PausedWhile(c: Cluster, n: Node)
    requires NodeInv(c, n) && Recovering(n)
    ensures c.paused && n.rep.state == RECOVERING
  {
  }

  lemma {:induction false} OnlyOne(c: Cluster, i: nat)
    requires Inv(c) && i < |c.nodes| && Recovering(c.nodes[i])
    ensures AloneAt(c, i)
  {
    hide NodeInv, Recovering;
  }

  /** A command that is read by itself is carried out as it was sent. */
  lemma {:induction false} DeliveredAsSent(n: Node, number: nat, segments: seq<string>)
    requires n.process.Serving? && n.done < |n.rep.sent|
    requires var p := NextPush(n, number);
             Pushes.Pushable(p) && Pushes.Alone(p, segments) && Pieces(Pushes.CommandText(p), segments)
    ensures Deliver(n, segments) ==
            n.(process := Serving(Apply1(n.process.table, n.rep.sent[n.done])), done := n.done + 1)
  {
    hide Pushes.Carry, Pushes.Alone, Pushes.CommandText, Pushes.Pushable, Pieces, Apply1;
    var p, t := NextPush(n, number), n.process.table;
    Pushes.AloneIff(p, segments);
    var us := [p.update];
    assert Carried([p]) == us && us[..0] == [];
    assert Apply(t, us) == Apply1(Apply(t, us[..0]), p.update);
  }

  lemma {:induction false} DeliverNode(c: Cluster, n: Node, n': Node)
    requires NodeInv(c, n) && n.process.Serving? && n.done < |n.rep.sent|
    requires n' == n.(process := Serving(Apply1(n.process.table, n.rep.sent[n.done])), done := n.done + 1)
    ensures NodeInv(c, n')
  {
    var rest := n.rep.sent[n.done..];
    assert rest == [rest[0]] + rest[1..];
    ApplySplit(n.process.table, [rest[0]], rest[1..]);
    assert [rest[0]][..0] == [];
    assert rest[1..] == n.rep.sent[n.done + 1..];
    hide Apply1, StateAt;
  }

  lemma {:induction false} DeliverKeeps(c: Cluster, s: Step)
    requires Inv(c) && s.DeliverStep? && s.node < |c.nodes| && Sound(c, s)
    requires c.nodes[s.node].process.Serving? && c.nodes[s.node].done < |c.nodes[s.node].rep.sent|
    requires Pieces(Pushes.CommandText(NextPush(c.nodes[s.node], s.number)), s.segments)
    ensures Inv(SetNode(c, s.node, Deliver(c.nodes[s.node], s.segments)))
  {
    hide NodeInv, Apply1, StateAt, Deliver, NextPush, Pieces, FilesInv;
    var i := s.node;
    var n := c.nodes[i];
    var n' := Deliver(n, s.segments);
    assert NodeInv(c, n);
    DeliveredAsSent(n, s.number, s.segments);
    DeliverNode(c, n, n');
    OtherKeeps(c, SetNode(c, i, n').(paused := c.paused), n');
    SetKeeps(c, i, n', c.paused);
  }

  lemma {:induction false} CrashKeeps(c: Cluster, i: nat)
    requires Inv(c) && i < |c.nodes|
    ensures Inv(SetNode(c, i, c.nodes[i].(process := Down)))
  {
    hide StateAt;
    var n := c.nodes[i].(process := Down);
    assert NodeInv(c, c.nodes[i]);
    assert NodeInv(SetNode(c, i, n).(paused := c.paused), n);
    hide NodeInv;
    SetKeeps(c, i, n, c.paused);
  }

  lemma {:induction false} MarkedNode(c: Cluster, n: Node, p: Process)
    requires QueueInv(c, n) && (p.Asking? || (p.Restored? && Restorable(c.history, c.version, p.table)))
    ensures NodeInv(c.(paused := true), Marked(c, n).(process := p))
  {
    hide Restorable;
  }

  lemma {:induction false} RecoverKeeps(c: Cluster, s: Step)
    requires Inv(c) && s.RecoverStep? && s.node < |c.nodes| && c.nodes[s.node].process.Down? && Sound(c, s)
    ensures Inv(Recover(c, s.node, s.address, s.start, s.files))
  {
    hide Restorable, OwnFiles, FilesInv, StateAt, VersionOf, Recovered;
    var i := s.node;
    assert NodeInv(c, c.nodes[i]);
    var told := VersionOf(c.disk.checkpoint) <= s.start;
    if told {
      OwnFilesRestore(c.history, c.version, s.files);
    }
    var p := if told then Restored(Recovered(s.files)) else Asking;
    var n := Marked(c, c.nodes[i]).(process := p);
    MarkedNode(c, c.nodes[i], p);
    var c' := SetNode(c, i, n).(paused := true);
    OtherKeeps(c.(paused := true), c', n);
    SetKeeps(c, i, n, true);
    assert Recover(c, i, s.address, s.start, s.files) == c';
  }

  /** A change of the process of a recovering replica. */
  lemma {:induction false} ProcessKeeps(c: Cluster, i: nat, p: Process)
    requires Inv(c) && i < |c.nodes| && Recovering(c.nodes[i])
    requires ProcessInv(c, c.nodes[i].(process := p))
    ensures Inv(SetNode(c, i, c.nodes[i].(process := p)))
  {
    var n := c.nodes[i].(process := p);
    assert NodeInv(c, c.nodes[i]);
    assert NodeInv(c, n) by {
      hide ProcessInv;
    }
    hide NodeInv, ProcessInv, StateAt;
    OnlyOne(c, i);
    OtherKeeps(c, SetNode(c, i, n).(paused := c.paused), n) by {
      if Recovering(n) {
        PausedWhile(c, n);
      }
    }
    SetKeeps(c, i, n, c.paused);
  }

  lemma {:induction false} CheckpointRestores(h: seq<Update>, v: nat)
    requires v <= |h|
    ensures Restorable(h, v, StateAt(h, v))
  {
    hide StateAt;
    assert Replay(StateAt(h, v), []) == StateAt(h, v);
    assert Shaped(h, v, []);
  }

  lemma {:induction false} SendCheckpointKeeps(c: Cluster, i: nat, segments: seq<string>)
    requires Inv(c) && i < |c.nodes| && c.nodes[i].process.Asking? && c.version <= |c.history| && CheckpointGoes(c)
    requires Pieces(Answer(Content(c.disk.checkpoint), CHECKPOINT_END), segments)
    ensures Inv(SetNode(c, i, c.nodes[i].(process := WithCheckpoint(Arrived(segments, CHECKPOINT_END)))))
  {
    hide Inv, StateAt, Restorable, Contains, Arrived, Pieces, CellText, Recovery.Restored, IsCheckpoint;
    var a := Arrived(segments, CHECKPOINT_END);
    if a.Got? {
      InvFiles(c);
      BothMarks();
      GotIsWhole(Content(c.disk.checkpoint), CHECKPOINT_END, segments);
      EmptyState(c.history);
      CheckpointReads(c.disk.checkpoint, c.version, StateAt(c.history, c.version));
      CheckpointRestores(c.history, c.version);
    }
    ProcessKeeps(c, i, WithCheckpoint(a));
  }

  lemma {:induction false} EmptyState(h: seq<Update>)
    ensures StateAt(h, 0) == map[]
  {
  }

  lemma {:induction false} InvFiles(c: Cluster)
    requires Inv(c)
    ensures FilesInv(c)
  {
  }

  lemma {:induction false} InvVersion(c: Cluster)
    requires Inv(c)
    ensures c.version <= |c.history|
  {
  }

  /** The held-back updates are already in the primary's table. */
  lemma {:induction false} HeldBackIsReflected(c: Cluster, n: Node)
    requires StateAt(c.pushed, |c.pushed|) == c.Table() && QueueInv(c, n) && n.rep.state == RECOVERING
    ensures Apply(c.Table(), n.rep.holdBack) == c.Table()
  {
    assert c.pushed[..|c.pushed|] == c.pushed;
    Absorb(map[], c.pushed, n.from);
  }

  lemma {:induction false} SendLogKeeps(c: Cluster, i: nat, segments: seq<string>)
    requires Inv(c) && i < |c.nodes| && c.nodes[i].process.Restored? && c.version <= |c.history| && LogGoes(c)
    requires Pieces(Answer(c.disk.log, LOG_END), segments)
    ensures Inv(SetNode(c, i, c.nodes[i].(process := WithLog(c.nodes[i].process.table, Arrived(segments, LOG_END)))))
  {
    var a, n := Arrived(segments, LOG_END), c.nodes[i];
    if a.Got? {
      InvFiles(c);
      BothMarks();
      hide Inv, StateAt, Harmless, Replay, Apply, Contains, Arrived, Pieces, Storable, ParseLog, LogText, StopMark,
           IsCheckpoint;
      GotIsWhole(c.disk.log, LOG_END, segments);
      LogReads(c.history, c.version);
      CaughtUpTable(c, i);
      HeldBack(c, i);
    }
    hide Inv, StateAt, Apply, Arrived, Pieces, LogGoes, Replay, ParseLog;
    ProcessKeeps(c, i, WithLog(n.process.table, a));
  }

  /** The replay of the log brings a restored replica to the primary's table. */
  lemma {:induction false} CaughtUpTable(c: Cluster, i: nat)
    requires Inv(c) && i < |c.nodes| && c.nodes[i].process.Restored? && c.version <= |c.history|
    requires Harmless(c.history[c.version..])
    ensures Replay(c.nodes[i].process.table, c.history[c.version..]) == c.Table()
  {
    hide StateAt, Harmless, Replay, Apply, FilesInv, Shaped;
    assert NodeInv(c, c.nodes[i]);
    var lv: nat, vs :| c.version <= lv <= |c.history| && Shaped(c.history, c.version, vs)
                       && c.nodes[i].process.table == Replay(StateAt(c.history, lv), vs);
    LogCatchesUp(c.history, c.version, lv, vs);
  }

  lemma {:induction false} HeldBack(c: Cluster, i: nat)
    requires Inv(c) && i < |c.nodes| && c.nodes[i].process.Restored?
    ensures Apply(c.Table(), c.nodes[i].rep.holdBack) == c.Table()
  {
    hide StateAt, Apply, FilesInv, Restorable;
    assert NodeInv(c, c.nodes[i]);
    HeldBackIsReflected(c, c.nodes[i]);
  }

  /** A recovering replica goes on exactly if its transfer ends, with what arrived. */
  lemma {:induction false} TransferEnds(c: Cluster, i: nat, segments: seq<string>)
    requires Connected(c) && i < |c.nodes|
    ensures c.nodes[i].process.Asking? && Pieces(Answer(Content(c.disk.checkpoint), CHECKPOINT_END), segments) ==>
              var a, p := Arrived(segments, CHECKPOINT_END), Next(c, SendCheckpoint(i, segments)).nodes[i].process;
              if a.Got? then p == Restored(Replay(map[], ParseCheckpoint(a.text))) else p == Down
    ensures c.nodes[i].process.Restored? && Pieces(Answer(c.disk.log, LOG_END), segments) ==>
              var a, p := Arrived(segments, LOG_END), Next(c, SendLog(i, segments)).nodes[i].process;
              if a.Got? then p == CaughtUp(Replay(c.nodes[i].process.table, ParseLog(a.text))) else p == Down
  {
    hide Pieces, Arrived, ParseLog, ParseCheckpoint, Replay, StateAt;
  }

  lemma {:induction false} ReadyNode(c: Cluster, n: Node)
    requires NodeInv(c, n) && n.process.CaughtUp?
    ensures NodeInv(c.(paused := false), n.(rep := Reconnected(n.rep), process := Serving(n.process.table), done := 0))
  {
    hide StateAt, Apply;
    assert n.rep.holdBack[0..] == n.rep.holdBack;
  }

  lemma {:induction false} ReadyKeeps(c: Cluster, i: nat)
    requires Inv(c) && i < |c.nodes| && c.nodes[i].process.CaughtUp?
    ensures var n := c.nodes[i];
            var n' := n.(rep := Reconnected(n.rep), process := Serving(n.process.table), done := 0);
            Inv(SetNode(c, i, n').(paused := false))
  {
    hide NodeInv, StateAt, Reconnected;
    var n := c.nodes[i];
    var n' := n.(rep := Reconnected(n.rep), process := Serving(n.process.table), done := 0);
    assert NodeInv(c, n);
    ReadyNode(c, n);
    OnlyOne(c, i);
    OtherKeeps(c.(paused := false), SetNode(c, i, n').(paused := false), n');
    SetKeeps(c, i, n', false);
  }

  lemma {:induction false} CheckpointKeeps(c: Cluster, ks: seq<Key>)
    requires Inv(c) && !c.paused && Lists(ks, c.Table())
    ensures Inv(c.(version := |c.history|, disk := Disk(Some(CheckpointText(|c.history|, ks, c.Table())), "")))
  {
    hide StateAt, Apply, FilesInv, Lists, CheckpointText;
    var c' := c.(version := |c.history|, disk := Disk(Some(CheckpointText(|c.history|, ks, c.Table())), ""));
    CheckpointedFiles(c, ks);
    forall i | 0 <= i < |c.nodes|
      ensures NodeInv(c', c.nodes[i])
    {
      assert NodeInv(c, c.nodes[i]);
    }
  }

  /** Every step of the cluster keeps the invariant. */
  lemma {:induction false} StepKeeps(c: Cluster, s: Step)
    requires Inv(c) && Sound(c, s)
    ensures Connected(c) && Inv(Next(c, s))
  {
    hide Inv, Connected, Recover, Logged, Deliver, StateAt, Reconnected, Replay, Lists, CheckpointText, CheckpointGoes,
         LogGoes, Pieces, WithCheckpoint, WithLog, VersionOf, OwnFiles;
    InvConnected(c);
    InvVersion(c);
    match s
    case PutStep(r, k, v, wrote) => LoggedKeeps(c, Put(r, k, v), true, wrote);
    case CPutStep(r, k, o, v, wrote) => LoggedKeeps(c, Put(r, k, v), true, wrote);
    case DeleteStep(r, k, wrote) =>
      assert (r, k) !in c.Table() ==> Apply1(c.Table(), Delete(r, k)) == c.Table();
      LoggedKeeps(c, Delete(r, k), (r, k) in c.Table(), wrote);
    case CheckpointStep(ks) => if !c.paused && Lists(ks, c.Table()) { CheckpointKeeps(c, ks); }
    case DeliverStep(i, number, segments) =>
      if i < |c.nodes| && c.nodes[i].process.Serving? && c.nodes[i].done < |c.nodes[i].rep.sent|
         && Pieces(Pushes.CommandText(NextPush(c.nodes[i], number)), segments) {
        DeliverKeeps(c, s);
      }
    case CrashStep(i) => if i < |c.nodes| { CrashKeeps(c, i); }
    case RecoverStep(i, _, _, _) =>
      if i < |c.nodes| && c.nodes[i].process.Down? { RecoverKeeps(c, s); }
    case SendCheckpoint(i, segments) =>
      if i < |c.nodes| && c.nodes[i].process.Asking?
         && Pieces(Answer(Content(c.disk.checkpoint), CHECKPOINT_END), segments) {
        SendCheckpointKeeps(c, i, segments);
      }
    case SendLog(i, segments) =>
      if i < |c.nodes| && c.nodes[i].process.Restored? && Pieces(Answer(c.disk.log, LOG_END), segments) {
        SendLogKeeps(c, i, segments);
      }
    case ReadyStep(i) =>
      if i < |c.nodes| && c.nodes[i].process.CaughtUp? { ReadyKeeps(c, i); }
  }

  // ------------------------------------------------------------ whole runs

  /** A primary that starts empty, with replicas that are reached or not. */
  predicate Fresh(c: Cluster) {
    && c.history == [] && c.pushed == [] && c.version == 0 && c.disk == Disk(None, "") && !c.paused
    && forall i :: 0 <= i < |c.nodes| ==> FreshNode(c.nodes[i])
  }

  predicate FreshNode(n: Node) {
    || n == Node(Replica(n.rep.addr, RUNNING, [], true, []), Serving(map[]), 0, 0)
    || n == Node(Replica(n.rep.addr, FAILED, [], false, []), Down, 0, 0)
  }

  /** The cluster after a run; a push to a running replica without connection would end the
      primary. */
  function Run(c: Cluster, steps: seq<Step>): Cluster {
    if steps == [] then c
    else
      var before := Run(c, steps[..|steps| - 1]);
      if Connected(before) then Next(before, steps[|steps| - 1]) else before
  }

  ghost predicate AllSound(c: Cluster, steps: seq<Step>) {
    forall k :: 0 <= k < |steps| ==> Sound(Run(c, steps[..k]), steps[k])
  }

  lemma {:induction false} FreshInv(c: Cluster)
    requires Fresh(c)
    ensures Inv(c)
  {
    forall i | 0 <= i < |c.nodes|
      ensures NodeInv(c, c.nodes[i]) && !Recovering(c.nodes[i])
    {
      assert FreshNode(c.nodes[i]);
      assert c.nodes[i].rep.sent[c.nodes[i].done..] == [];
    }
  }

  lemma {:induction false} FrontSound(c: Cluster, steps: seq<Step>)
    requires AllSound(c, steps) && steps != []
    ensures AllSound(c, steps[..|steps| - 1])
    ensures Sound(Run(c, steps[..|steps| - 1]), steps[|steps| - 1])
  {
    hide Sound, Run;
    var front := steps[..|steps| - 1];
    forall k | 0 <= k < |front|
      ensures Sound(Run(c, front[..k]), front[k])
    {
      assert front[..k] == steps[..k];
      assert Sound(Run(c, steps[..k]), steps[k]);
    }
    assert Sound(Run(c, steps[..|steps| - 1]), steps[|steps| - 1]);
  }

  /** The invariant holds after every run; in particular a running replica always has its
      connection. */
  lemma {:induction false} RunKeeps(c: Cluster, steps: seq<Step>)
    requires Inv(c) && AllSound(c, steps)
    ensures Inv(Run(c, steps)) && Connected(Run(c, steps))
  {
    hide Inv, Sound, AllSound, Next, Connected;
    if steps == [] {
      InvConnected(c);
    } else {
      FrontSound(c, steps);
      RunKeeps(c, steps[..|steps| - 1]);
      StepKeeps(Run(c, steps[..|steps| - 1]), steps[|steps| - 1]);
      InvConnected(Run(c, steps));
    }
  }

  lemma {:induction false} NodeHolds(c: Cluster, steps: seq<Step>, i: nat)
    requires Fresh(c) && AllSound(c, steps) && i < |Run(c, steps).nodes|
    ensures NodeInv(Run(c, steps), Run(c, steps).nodes[i])
  {
    hide NodeInv, AllSound, Fresh, Run;
    FreshInv(c);
    RunKeeps(c, steps);
  }

  /** Replication is exact in every run: a running replica that carries out the commands still
      on its connection holds the primary's table at the end of them; and once it has carried
      out all of them it does. */
  lemma {:induction false} RunningReplicasAgree(c: Cluster, steps: seq<Step>, i: nat)
    requires Fresh(c) && AllSound(c, steps)
    ensures var r := Run(c, steps);
            i < |r.nodes| && r.nodes[i].rep.state == RUNNING && r.nodes[i].process.Serving? ==>
              var n := r.nodes[i];
              && n.done <= |n.rep.sent|
              && Apply(n.process.table, n.rep.sent[n.done..]) == r.Table()
              && (n.done == |n.rep.sent| ==> n.process.table == r.Table())
  {
    hide AllSound, Fresh, Run, StateAt;
    if i < |Run(c, steps).nodes| {
      NodeHolds(c, steps, i);
    }
  }

  /** The queue and the connection in every run: a recovering replica's queue, and what was
      written to a running replica's connection, is every update pushed since it was marked,
      in order; any other queue is empty. */
  lemma {:induction false} QueuesHaveNoGaps(c: Cluster, steps: seq<Step>, i: nat)
    requires Fresh(c) && AllSound(c, steps)
    ensures var r := Run(c, steps);
            i < |r.nodes| ==>
              var n := r.nodes[i];
              && (n.rep.state == RECOVERING ==> n.from <= |r.pushed| && n.rep.holdBack == r.pushed[n.from..])
              && (n.rep.state == RUNNING ==> n.from <= |r.pushed| && n.rep.sent == r.pushed[n.from..])
              && (n.rep.state != RECOVERING ==> n.rep.holdBack == [])
  {
    hide AllSound, Fresh, Run, StateAt;
    if i < |Run(c, steps).nodes| {
      NodeHolds(c, steps, i);
    }
  }

  // ------------------------------------------------------------ since when the queue is kept

  lemma {:induction false} NodesStay(c: Cluster, s: Step)
    requires Connected(c)
    ensures |Next(c, s).nodes| == |c.nodes| && |c.pushed| <= |Next(c, s).pushed|
  {
    hide StateAt, Apply, Lists, Pieces, Arrived, CheckpointText, EntryText, Recovered, WithLog, WithCheckpoint;
  }

  lemma {:induction false} LoggedStays(c: Cluster, u: Update, push: bool, wrote: seq<bool>, i: nat)
    requires Connected(c) && i < |c.nodes| && c.nodes[i].rep.state == RECOVERING
    ensures var r := Logged(c, u, push, wrote);
            |r.nodes| == |c.nodes| && r.nodes[i].rep.state == RECOVERING && r.nodes[i].from == c.nodes[i].from
  {
    hide EntryText, StateAt;
  }

  /** While a replica recovers, its queue only grows at its end. */
  lemma {:induction false} FromStays(c: Cluster, s: Step, i: nat)
    requires Connected(c) && i < |c.nodes| && c.nodes[i].rep.state == RECOVERING
    requires !(s.ReadyStep? && s.node == i)
    ensures |Next(c, s).nodes| == |c.nodes|
    ensures Next(c, s).nodes[i].rep.state == RECOVERING && Next(c, s).nodes[i].from == c.nodes[i].from
  {
    hide StateAt, Apply, Lists, Pieces, Arrived, CheckpointText, EntryText, Recovered, WithLog, WithCheckpoint,
         Reconnected, VersionOf, Logged;
    match s
    case PutStep(r, k, v, wrote) => LoggedStays(c, Put(r, k, v), true, wrote, i);
    case CPutStep(r, k, o, v, wrote) => LoggedStays(c, Put(r, k, v), true, wrote, i);
    case DeleteStep(r, k, wrote) => LoggedStays(c, Delete(r, k), (r, k) in c.Table(), wrote, i);
    case _ =>
  }

  lemma {:induction false} FromStaysRun(c: Cluster, steps: seq<Step>, m: nat, i: nat)
    requires Inv(c) && AllSound(c, steps) && m <= |steps|
    requires var b := Run(c, steps[..m]); i < |b.nodes| && b.nodes[i].rep.state == RECOVERING
    requires forall k :: m <= k < |steps| ==> !(steps[k].ReadyStep? && steps[k].node == i)
    ensures var b, r := Run(c, steps[..m]), Run(c, steps);
            |r.nodes| == |b.nodes| && r.nodes[i].rep.state == RECOVERING && r.nodes[i].from == b.nodes[i].from
    decreases |steps|
  {
    hide Inv, Next, AllSound;
    if m == |steps| {
      assert steps[..m] == steps;
    } else {
      var front := steps[..|steps| - 1];
      assert front[..m] == steps[..m];
      FrontSound(c, steps);
      FromStaysRun(c, front, m, i);
      RunKeeps(c, front);
      FromStays(Run(c, front), steps[|steps| - 1], i);
    }
  }

  /** Nothing is dropped from a queue: from the RECOVERY that names a replica until its READY,
      its queue holds at least every update pushed since, in order and as its last ones. */
  lemma {:induction false} QueueReachesBack(c: Cluster, steps: seq<Step>, m: nat, i: nat)
    requires Fresh(c) && AllSound(c, steps) && m < |steps|
    requires steps[m].RecoverStep? && steps[m].node == i
    requires var b := Run(c, steps[..m]); i < |b.nodes| && b.nodes[i].process.Down?
    requires forall k :: m < k < |steps| ==> !(steps[k].ReadyStep? && steps[k].node == i)
    ensures var b, r := Run(c, steps[..m]), Run(c, steps);
            && i < |r.nodes| && r.nodes[i].rep.state == RECOVERING
            && |b.pushed| <= |r.pushed|
            && var q := r.nodes[i].rep.holdBack;
               |r.pushed| - |b.pushed| <= |q| && q[|q| - (|r.pushed| - |b.pushed|)..] == r.pushed[|b.pushed|..]
  {
    hide Inv, AllSound, Fresh, NodeInv, Run, Next, Sound, Connected;
    FreshInv(c);
    var b := Run(c, steps[..m]);
    PrefixSound(c, steps, m);
    RunKeeps(c, steps[..m]);
    SoundAt(c, steps, m);
    RunOne(c, steps, m);
    MarkedByRecovery(b, steps[m]);
    FromStaysRun(c, steps, m + 1, i);
    PushedGrows(c, steps, m);
    NodeHolds(c, steps, i);
    NodeHolds(c, steps[..m], i);
    LastOfQueue(Run(c, steps), Run(c, steps).nodes[i], |b.pushed|);
  }

  lemma {:induction false} RunOne(c: Cluster, steps: seq<Step>, m: nat)
    requires m < |steps| && Connected(Run(c, steps[..m]))
    ensures Run(c, steps[..m + 1]) == Next(Run(c, steps[..m]), steps[m])
  {
    hide Next, Connected;
    assert steps[..m + 1][..m] == steps[..m];
  }

  lemma {:induction false} SoundAt(c: Cluster, steps: seq<Step>, m: nat)
    requires AllSound(c, steps) && m < |steps|
    ensures Sound(Run(c, steps[..m]), steps[m])
  {
    hide Sound;
  }

  lemma {:induction false} PrefixSound(c: Cluster, steps: seq<Step>, m: nat)
    requires AllSound(c, steps) && m <= |steps|
    ensures AllSound(c, steps[..m])
  {
    hide Sound, Run;
    var front := steps[..m];
    forall k | 0 <= k < m
      ensures Sound(Run(c, front[..k]), front[k])
    {
      assert front[..k] == steps[..k];
      assert Sound(Run(c, steps[..k]), steps[k]);
    }
  }

  lemma {:induction false} MarkedByRecovery(b: Cluster, s: Step)
    requires Inv(b) && Connected(b) && s.RecoverStep? && s.node < |b.nodes| && b.nodes[s.node].process.Down?
    requires Sound(b, s)
    ensures var n := Next(b, s).nodes[s.node];
            |Next(b, s).nodes| == |b.nodes| && n.rep.state == RECOVERING && n.from <= |b.pushed|
  {
    hide StateAt, ProcessInv, FilesInv, Recovered, VersionOf, OwnFiles;
    assert NodeInv(b, b.nodes[s.node]);
  }

  lemma {:induction false} PushedGrows(c: Cluster, steps: seq<Step>, m: nat)
    requires m <= |steps|
    ensures |Run(c, steps[..m]).pushed| <= |Run(c, steps).pushed|
    decreases |steps|
  {
    hide Next;
    if m == |steps| {
      assert steps[..m] == steps;
    } else {
      var front := steps[..|steps| - 1];
      assert front[..m] == steps[..m];
      PushedGrows(c, front, m);
      if Connected(Run(c, front)) {
        NodesStay(Run(c, front), steps[|steps| - 1]);
      }
    }
  }

  lemma {:induction false} LastOfQueue(r: Cluster, n: Node, p: nat)
    requires NodeInv(r, n) && n.rep.state == RECOVERING && n.from <= p <= |r.pushed|
    ensures var q := n.rep.holdBack;
            |r.pushed| - p <= |q| && q[|q| - (|r.pushed| - p)..] == r.pushed[p..]
  {
    hide ProcessInv;
  }
}
