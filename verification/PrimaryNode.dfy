/** The server object and the cluster's primary are the same thing: what one command does to
    the object's table, files and number is what the cluster's step says. */
module PrimaryNode {
  import opened Wrappers
  import opened Updates
  import opened LogFormat
  import opened Recovery
  import opened CatchUp
  import opened Node
  import C = Cluster

  /** The object is the primary of the cluster `c`. */
  ghost predicate Is(s: DataServer, c: C.Cluster)
    reads s
  {
    && s.primary && s.Valid() && !s.pending
    && Flat(s.table) == c.Table() && s.seqID == |c.history|
    && s.checkpoint == c.disk.checkpoint && s.log == c.disk.log
    && s.canCheckpoint == !c.paused
  }

  lemma {:induction false} TableNext(h: seq<Update>, u: Update)
    ensures StateAt(h + [u], |h| + 1) == Apply1(StateAt(h, |h|), u)
  {
    assert (h + [u])[..|h| + 1] == h + [u] && h[..|h|] == h;
    C.ApplyNext(map[], h, u);
  }

  /** A PUT on the object, unless it crashes on a missing cell, is a PUT of the cluster. */
  method Put(s: DataServer, row: string, col: string, value: string, ghost c: C.Cluster, ghost wrote: seq<bool>)
      returns (r: Reply)
    requires Is(s, c) && C.Connected(c)
    modifies s
    ensures r.Ok? ==> Is(s, C.Next(c, C.PutStep(row, col, value, wrote)))
    ensures r.Ok? || (r.Crash? && old(MissingCell(s.table, row, col)))
  {
    hide Flat, EntryText, StateAt, DataServer.Valid, Apply;
    r := s.ParsePut(row, col, value, 0);
    TableNext(c.history, Update.Put(row, col, value));
  }

  /** A CPUT on the object is a CPUT of the cluster, whether it is accepted or not; it is
      exactly if the cell holds the old value, or is missing and the old value is "NULL". */
  method CPut(s: DataServer, row: string, col: string, oldData: string, value: string,
              ghost c: C.Cluster, ghost wrote: seq<bool>)
      returns (r: Reply)
    requires Is(s, c) && C.Connected(c)
    modifies s
    ensures Is(s, C.Next(c, C.CPutStep(row, col, oldData, value, wrote)))
    ensures r.Ok? <==> if (row, col) in c.Table() then c.Table()[(row, col)] == oldData else oldData == "NULL\r\n"
    ensures r.Ok? ==> c.history < C.Next(c, C.CPutStep(row, col, oldData, value, wrote)).history
    ensures !r.Ok? ==> C.Next(c, C.CPutStep(row, col, oldData, value, wrote)) == c
  {
    hide Flat, EntryText, StateAt, DataServer.Valid, Apply;
    r := s.ParseCPut(row, col, oldData, value);
    TableNext(c.history, Update.Put(row, col, value));
  }

  /** What a DELETE does to the cluster's primary. */
  lemma {:induction false} DeleteNext(c: C.Cluster, row: string, col: string, wrote: seq<bool>)
    requires C.Connected(c)
    ensures var u, c' := Delete(row, col), C.Next(c, C.DeleteStep(row, col, wrote));
            && c'.history == c.history + [u] && c'.paused == c.paused
            && c'.disk == c.disk.(log := c.disk.log + EntryText(Entry(u, |c.history| + 1, true)))
            && c'.pushed == (if (row, col) in c.Table() then c.pushed + [u] else c.pushed)
            && c'.Table() == c.Table() - {(row, col)}
  {
    hide EntryText, StateAt, Apply;
    TableNext(c.history, Delete(row, col));
  }

  /** A DELETE on the object is a DELETE of the cluster. */
  method Remove(s: DataServer, row: string, col: string, ghost c: C.Cluster, ghost wrote: seq<bool>)
      returns (r: Reply)
    requires Is(s, c) && C.Connected(c)
    modifies s
    ensures Is(s, C.Next(c, C.DeleteStep(row, col, wrote)))
    ensures r.Ok? <==> (row, col) in c.Table()
    ensures r.Ok? <==> c.pushed < C.Next(c, C.DeleteStep(row, col, wrote)).pushed
  {
    FlatAt(s.table, (row, col));
    DeleteNext(c, row, col, wrote);
    hide Flat, EntryText, StateAt, DataServer.Valid, Apply, C.Next, C.Connected;
    r := s.ParseDelete(row, col, 0);
  }

  /** A tick of the checkpoint thread is a checkpoint of the cluster, in some order of the
      cells. */
  method Tick(s: DataServer, ghost c: C.Cluster) returns (ghost ks: seq<Key>)
    requires Is(s, c) && C.Connected(c)
    modifies s
    ensures Is(s, C.Next(c, C.CheckpointStep(ks)))
    ensures !c.paused ==> C.Lists(ks, c.Table()) && C.Next(c, C.CheckpointStep(ks)).version == |c.history|
  {
    hide Flat, EntryText, StateAt, DataServer.Valid, CellsText, VersionLine;
    s.CheckpointTick(true);
    ks := [];
    if !c.paused {
      ks :| (forall k :: k in ks <==> k in c.Table())
            && s.checkpoint.value == VersionLine(s.seqID) + CellsText(ks, c.Table());
    }
  }
}
