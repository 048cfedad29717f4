/** What a recovering replica sends and what it is told: the number is cut out of its log, and
    the primary compares it with the version of its checkpoint. */
module Requests {
  import opened Text
  import opened Updates
  import opened LogFormat
  import opened Recovery
  import opened BackStore
  import opened CatchUp
  import opened Cluster

  /** A replica that is told to ask for the checkpoint, by a request with that number. */
  predicate Asks(c: Cluster, i: nat, address: string, start: int, files: Disk)
    requires Connected(c) && i < |c.nodes|
  {
    var c' := Next(c, RecoverStep(i, address, start, files));
    i < |c'.nodes| && c'.nodes[i].process.Asking?
  }

  /** A log without a whole header line has the number 0. */
  lemma {:induction false} NoRecordNoNumber(log: string)
    ensures Find(log, ">\n") == NPOS ==> LastLogSeq(log) == 0
  {
    hide FindFrom, RFindFrom;
    var k := RFind(log, ">\n");
  }

  lemma {:induction false} EmptyLog()
    ensures LastLogSeq(LogText([])) == 0 && LogText([]) == ""
  {
    NoRecordNoNumber("");
  }

  /** The checkpoint is asked for exactly if its version is above the number; otherwise the
      replica restores its own files. */
  lemma {:induction false} AsksIff(c: Cluster, i: nat, address: string, start: int, files: Disk)
    requires Inv(c) && Connected(c) && i < |c.nodes| && c.nodes[i].process.Down?
    ensures Asks(c, i, address, start, files) <==> c.version > start
    ensures !Asks(c, i, address, start, files) ==>
              Next(c, RecoverStep(i, address, start, files)).nodes[i].process == Restored(Recovered(files))
  {
    hide StateAt, VersionOf, Recovered, IsCheckpoint, LogText, Entries, NodeInv;
    CheckpointVersion(c.disk.checkpoint, c.version, StateAt(c.history, c.version));
  }

  /** A replica with an empty log, or none, is sent the checkpoint exactly if there is one that
      holds an update. */
  lemma {:induction false} EmptyLogAsksIff(c: Cluster, i: nat, address: string, files: Disk)
    requires Inv(c) && Connected(c) && i < |c.nodes| && c.nodes[i].process.Down? && files.log == ""
    ensures Asks(c, i, address, LastLogSeq(files.log), files) <==> c.version > 0
  {
    hide Asks, Inv, Connected, LastLogSeq;
    EmptyLog();
    AsksIff(c, i, address, LastLogSeq(files.log), files);
  }

  /** With a log, exactly if the checkpoint is newer than the last update of the log. */
  lemma {:induction false} LogAsksIff(c: Cluster, i: nat, address: string, files: Disk, es: seq<Entry>)
    requires Inv(c) && Connected(c) && i < |c.nodes| && c.nodes[i].process.Down?
    requires es != [] && files.log == LogText(es) && forall k :: 0 <= k < |es| ==> Storable(es[k].update)
    requires DotNeverBeforeBracket(ValueText(es[|es| - 1]))
    ensures Asks(c, i, address, LastLogSeq(files.log), files) <==> c.version > es[|es| - 1].seqno
  {
    hide Asks, Inv, Connected, LastLogSeq, LogText, Storable, DotNeverBeforeBracket;
    LastLogSeqIsLast(es);
    AsksIff(c, i, address, LastLogSeq(files.log), files);
  }

  /** But the request is read the wrong way round: the log does not matter, and the checkpoint
      is asked for exactly if its version is above what the replica's address starts with. */
  lemma {:induction false} SwappedAsksIff(c: Cluster, i: nat, addr: string, files: Disk)
    requires Inv(c) && Connected(c) && i < |c.nodes| && c.nodes[i].process.Down?
    requires Free(addr, ' ') && LastLogSeq(files.log) >= 0
    ensures var read := ParseRecovery(RecoveryRequest(LastLogSeq(files.log), addr));
            Asks(c, i, read.0, read.1, files) <==> c.version > Stol(addr + "\r\n")
  {
    hide Asks, Inv, Connected, LastLogSeq, ParseRecovery, RecoveryRequest, Stol;
    RecoveryIsReadSwapped(LastLogSeq(files.log), addr);
    var read := ParseRecovery(RecoveryRequest(LastLogSeq(files.log), addr));
    AsksIff(c, i, read.0, read.1, files);
  }
}
