/** What the replay of a node's two files brings back, and exactly when that is the table
    the node had. */
module Recovery {
  import opened Wrappers
  import opened Updates
  import opened LogFormat

  /** The files a crash leaves behind. A missing log and an empty one replay alike. */
  datatype Disk = Disk(checkpoint: Option<string>, log: string)

  function Restored(checkpoint: Option<string>): Cells {
    match checkpoint
    case None => map[]
    case Some(text) => Replay(map[], ParseCheckpoint(text))
  }

  /** `recoverCheckpoint` followed by `recoverLog`. */
  function Recovered(d: Disk): Cells {
    Replay(Restored(d.checkpoint), ParseLog(d.log))
  }

  function Updated(es: seq<Entry>): (us: seq<Update>)
    ensures |us| == |es|
  {
    seq(|es|, i requires 0 <= i < |es| => es[i].update)
  }

  /** Every cell whose last logged update is a PUT was put by a primary. */
  ghost predicate PrimaryPutsSurvive(es: seq<Entry>) {
    forall k: Key :: var i := LastOp(Updated(es), k);
      i >= 0 && es[i].update.Put? ==> es[i].byPrimary
  }

  /** Reading a log back changes neither the cells its updates name nor their kinds. */
  predicate SameShape(us: seq<Update>, vs: seq<Update>) {
    |us| == |vs| &&
    forall i :: 0 <= i < |us| ==> us[i].Key() == vs[i].Key() && (us[i].Put? <==> vs[i].Put?)
  }

  lemma {:induction false} SameLastOp(us: seq<Update>, vs: seq<Update>, k: Key)
    requires SameShape(us, vs)
    ensures LastOp(us, k) == LastOp(vs, k)
  {
    if us != [] {
      SameLastOp(us[..|us| - 1], vs[..|vs| - 1], k);
    }
  }

  lemma {:induction false} SameHarmless(us: seq<Update>, vs: seq<Update>)
    requires SameShape(us, vs) && Harmless(us)
    ensures Harmless(vs)
  {
    forall i | 0 <= i < |vs| && vs[i].Delete? && vs[i].row != vs[i].col
      ensures Masked(vs, i)
    {
      assert us[i].Key() == vs[i].Key();
      assert Masked(us, i);
      SameLastOp(us, vs, us[i].Key());
      SameLastOp(us, vs, (us[i].row, us[i].row));
    }
  }

  /** A diagonal cell last put at `i` is afterwards absent or has that value. */
  lemma {:induction false} DiagonalAfterPut(t: Cells, us: seq<Update>, r: string)
    requires var i := LastOp(us, (r, r)); i >= 0 && us[i].Put?
    ensures (r, r) in Replay(t, us) ==> Replay(t, us)[(r, r)] == us[LastOp(us, (r, r))].value
  {
    if us[|us| - 1].Key() != (r, r) {
      DiagonalAfterPut(t, us[..|us| - 1], r);
    }
  }

  /** A PUT that lost its line feed and was not overwritten shows in the recovered table. */
  lemma {:induction false} LostLineFeedShows(base: Cells, es: seq<Entry>, k: Key)
    requires forall i :: 0 <= i < |es| ==> Storable(es[i].update)
    requires var i := LastOp(Updated(es), k); i >= 0 && es[i].update.Put? && !es[i].byPrimary
    ensures Replay(base, Reads(es)) != Apply(base, Updated(es))
  {
    var us, vs := Updated(es), Reads(es);
    SameLastOp(us, vs, k);
    LastWriterWins(base, us, k);
    var i := LastOp(us, k);
    assert |vs[i].value| < |us[i].value|;
    if k.0 == k.1 {
      DiagonalAfterPut(base, vs, k.0);
    } else {
      OffDiagonalCell(base, vs, k);
      LastWriterWins(base, vs, k);
    }
  }

  lemma {:induction false} ReadsKeepTable(base: Cells, es: seq<Entry>)
    requires PrimaryPutsSurvive(es)
    ensures Apply(base, Reads(es)) == Apply(base, Updated(es))
  {
    var us, vs := Updated(es), Reads(es);
    forall k: Key
      ensures SameCell(Apply(base, vs), Apply(base, us), k)
    {
      SameLastOp(us, vs, k);
      LastWriterWins(base, us, k);
      LastWriterWins(base, vs, k);
    }
    Extensional(Apply(base, vs), Apply(base, us));
  }

  /** A DELETE that is not masked shows in the table recovered from some checkpoint. */
  lemma {:induction false} HarmShows(es: seq<Entry>) returns (base: Cells)
    requires !Harmless(Updated(es))
    ensures Replay(base, Reads(es)) != Apply(base, Updated(es))
  {
    var us, vs := Updated(es), Reads(es);
    assert SameShape(us, vs);
    if Harmless(vs) {
      SameHarmless(vs, us);
    }
    var j :| 0 <= j < |vs| && vs[j].Delete? && vs[j].row != vs[j].col && !Masked(vs, j);
    var t, k := Unmasked(vs, j);
    SameLastOp(us, vs, k);
    LastWriterWins(t, us, k);
    LastWriterWins(t, vs, k);
    base := t;
  }

  /** A log of storable updates is replayed to what it meant, from every checkpoint, if and
      only if its DELETEs are harmless and no replica-written PUT is the last on its cell. */
  lemma {:induction false} LogRecoveryIff(es: seq<Entry>)
    requires forall i :: 0 <= i < |es| ==> Storable(es[i].update)
    ensures (forall base :: Replay(base, ParseLog(LogText(es))) == Apply(base, Updated(es)))
            <==> Harmless(Updated(es)) && PrimaryPutsSurvive(es)
  {
    hide ParseLog, LogText, Storable, Harmless, Replay, Apply;
    WholeLogRoundTrip(es);
    if !Harmless(Updated(es)) {
      var base := HarmShows(es);
    } else if !PrimaryPutsSurvive(es) {
      var k: Key :| var i := LastOp(Updated(es), k); i >= 0 && es[i].update.Put? && !es[i].byPrimary;
      LostLineFeedShows(map[], es, k);
    } else {
      forall base
        ensures Replay(base, Reads(es)) == Apply(base, Updated(es))
      {
        RecoverLog(base, es);
      }
    }
  }

  lemma {:induction false} WholeLogRoundTrip(es: seq<Entry>)
    requires forall i :: 0 <= i < |es| ==> Storable(es[i].update)
    ensures ParseLog(LogText(es)) == Reads(es)
  {
    hide ParseLog, LogText, Storable;
    LogRoundTrip(es, "");
    assert LogText(es) + "" == LogText(es);
  }

  lemma {:induction false} RecoverLog(base: Cells, es: seq<Entry>)
    requires Harmless(Updated(es)) && PrimaryPutsSurvive(es)
    ensures Replay(base, Reads(es)) == Apply(base, Updated(es))
  {
    SameHarmless(Updated(es), Reads(es));
    HarmlessReplays(base, Reads(es));
    ReadsKeepTable(base, es);
  }

  // ------------------------------------------------------------ crash points

  /** The files at some instant, with the table the checkpoint stands for and the updates
      whose records are complete in the log. */
  datatype CrashPoint = CrashPoint(disk: Disk, base: Cells, entries: seq<Entry>)

  /** The files say what the crash point claims. */
  ghost predicate Decodes(p: CrashPoint) {
    Restored(p.disk.checkpoint) == p.base && ParseLog(p.disk.log) == Reads(p.entries)
  }

  /** The table the files stand for. */
  function Durable(p: CrashPoint): Cells {
    Apply(p.base, Updated(p.entries))
  }

  /** A crash loses nothing that the files stand for, under the exact condition on the log
      that the replay needs. */
  lemma {:induction false} CrashPointRecovers(p: CrashPoint)
    requires Decodes(p) && Harmless(Updated(p.entries)) && PrimaryPutsSurvive(p.entries)
    ensures Recovered(p.disk) == Durable(p)
  {
    RecoverLog(p.base, p.entries);
  }
}
