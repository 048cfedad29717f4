/** One data server: its table of rows, its log and checkpoint files, the commands that
    change them, and the replay that reads the files back. */
module Node {
  import opened Wrappers
  import opened Text
  import opened Updates
  import opened LogFormat
  import opened Recovery

  /** A row without columns stays in the table after its last column is deleted. */
  type Rows = map<string, map<string, string>>

  function Flat(t: Rows): Cells {
    map r: string, c: string | r in t && c in t[r] :: (r, c) := t[r][c]
  }

  /** `table[row][col] = value`, which creates the row when needed. */
  function SetCell(t: Rows, row: string, col: string, value: string): Rows {
    t[row := (if row in t then t[row] else map[])[col := value]]
  }

  function EraseCell(t: Rows, row: string, col: string): Rows
    requires row in t
  {
    t[row := t[row] - {col}]
  }

  lemma {:induction false} FlatAt(t: Rows, k: Key)
    ensures k in Flat(t) <==> k.0 in t && k.1 in t[k.0]
    ensures k in Flat(t) ==> Flat(t)[k] == t[k.0][k.1]
  {
    assert k == (k.0, k.1);
  }

  lemma {:induction false} FlatSet(t: Rows, row: string, col: string, value: string)
    ensures Flat(SetCell(t, row, col, value)) == Flat(t)[(row, col) := value]
  {
    var t', want := SetCell(t, row, col, value), Flat(t)[(row, col) := value];
    forall k: Key
      ensures SameCell(Flat(t'), want, k)
    {
      FlatAt(t, k);
      FlatAt(t', k);
    }
    Extensional(Flat(t'), want);
  }

  lemma {:induction false} FlatErase(t: Rows, row: string, col: string)
    requires row in t
    ensures Flat(EraseCell(t, row, col)) == Flat(t) - {(row, col)}
  {
    var t', want := EraseCell(t, row, col), Flat(t) - {(row, col)};
    forall k: Key
      ensures SameCell(Flat(t'), want, k)
    {
      FlatAt(t, k);
      FlatAt(t', k);
    }
    Extensional(Flat(t'), want);
  }

  /** `parse_PUT` looks for a row named like the column; when there is one, it takes the cell
      to exist and follows a null pointer if it does not. */
  predicate MissingCell(t: Rows, row: string, col: string) {
    row in t && col in t && col !in t[row]
  }

  datatype Reply = Ok | ErrNullRow | ErrNullColumn | Err | Data(value: string) | Crash

  lemma {:induction false} ReplayCons(t: Cells, us: seq<Update>)
    requires us != []
    ensures Replay(t, us) == Replay(Replay1(t, us[0]), us[1..])
  {
    assert us == [us[0]] + us[1..];
    ReplaySplit(t, [us[0]], us[1..]);
    assert [us[0]][..0] == [];
  }

  // ------------------------------------------------------------ the files

  /** The files hold whole records of `entries` over a checkpoint that stands for `base`. */
  ghost predicate FilesHold(p: CrashPoint) {
    && (forall i :: 0 <= i < |p.entries| ==> Storable(p.entries[i].update))
    && p.disk.log == LogText(p.entries)
    && Decodes(p)
  }

  /** The table in memory is what the files stand for, except that the last record may not
      have taken effect yet. */
  ghost predicate TableHolds(p: CrashPoint, t: Cells, pending: bool) {
    && (pending ==> p.entries != [])
    && Durable(p) == (if pending then Apply1(t, p.entries[|p.entries| - 1].update) else t)
    && (forall k :: k in t ==> CellText(k, t[k]))
  }

  ghost predicate AllDecode(trace: seq<CrashPoint>) {
    forall i :: 0 <= i < |trace| ==> Decodes(trace[i])
  }

  /** The states of the files in `trace` extend those in `earlier`, and each new one stands
      for one of the tables `a` and `b`. */
  ghost predicate Between(earlier: seq<CrashPoint>, trace: seq<CrashPoint>, a: Cells, b: Cells) {
    && earlier <= trace
    && (forall i :: |earlier| <= i < |trace| ==> Durable(trace[i]) in {a, b})
  }

  /** The versions and sequence numbers of a primary that was never a replica. */
  ghost predicate Numbered(checkpoint: Option<string>, entries: seq<Entry>, seqID: nat) {
    var version := if checkpoint.None? then 0 else FindVersion(checkpoint.value);
    && version >= 0
    && seqID == version + |entries|
    && (forall i :: 0 <= i < |entries| ==> entries[i].seqno == version + 1 + i && entries[i].byPrimary)
  }

  function Appended(p: CrashPoint, s: string): CrashPoint {
    p.(disk := p.disk.(log := p.disk.log + s))
  }

  function Recorded(p: CrashPoint, s: string, e: Entry): CrashPoint {
    Appended(p, s).(entries := p.entries + [e])
  }

  lemma {:induction false} EntryGlue(log: string, e: Entry)
    ensures e.update.Put? ==> log + Start(e) + e.update.value + EndMark(e) == log + EntryText(e)
    ensures e.update.Delete? ==> log + Start(e) + EndMark(e) == log + EntryText(e)
  {
    hide Start;
    if e.update.Put? {
      assert EntryText(e) == Start(e) + e.update.value + EndMark(e);
    } else {
      assert EntryText(e) == Start(e) + EndMark(e);
    }
  }

  /** Part of a record at the end of the log changes nothing. */
  lemma {:induction false} TornRecord(p: CrashPoint, torn: string)
    requires FilesHold(p) && NoDotLine(torn)
    ensures Decodes(Appended(p, torn)) && Durable(Appended(p, torn)) == Durable(p)
  {
    hide ParseLog, LogText, Storable, NoDotLine, Apply, Restored;
    LogRoundTrip(p.entries, torn);
  }

  /** A whole record at the end of the log adds its update. */
  lemma {:induction false} WholeRecord(p: CrashPoint, e: Entry)
    requires FilesHold(p) && Storable(e.update)
    ensures var q := Recorded(p, EntryText(e), e);
            FilesHold(q) && Durable(q) == Apply1(Durable(p), e.update)
  {
    hide ParseLog, LogText, EntryText, Storable, Restored, Apply1;
    var es := p.entries;
    LogTextSplit(es + [e]);
    assert (es + [e])[..|es|] == es;
    assert Updated(es + [e])[..|es|] == Updated(es);
    WholeLogRoundTrip(es + [e]);
  }

  lemma {:induction false} AppendTwice(p: CrashPoint, a: string, b: string)
    ensures Appended(Appended(p, a), b) == Appended(p, a + b)
  {
    assert p.disk.log + a + b == p.disk.log + (a + b);
  }

  /** The files after each of the appends that write one record. */
  lemma {:induction false} AppendRecord(p: CrashPoint, e: Entry)
    requires FilesHold(p) && Storable(e.update)
    ensures var q := Appended(p, Start(e)); Decodes(q) && Durable(q) == Durable(p)
    ensures e.update.Put? ==>
              var q := Appended(Appended(p, Start(e)), e.update.value);
              Decodes(q) && Durable(q) == Durable(p) && Recorded(q, EndMark(e), e) == Recorded(p, EntryText(e), e)
    ensures e.update.Delete? ==> Recorded(Appended(p, Start(e)), EndMark(e), e) == Recorded(p, EntryText(e), e)
  {
    EntryShape(e);
    EntryGlue(p.disk.log, e);
    hide FilesHold, EntryText, Storable, NoDotLine, Start, EndMark, Decodes, Durable;
    TornRecord(p, Start(e));
    if e.update.Put? {
      AppendTwice(p, Start(e), e.update.value);
      TornRecord(p, Start(e) + e.update.value);
    }
  }

  /** The states of the files while one record is written. */
  function Writing(p: CrashPoint, e: Entry): seq<CrashPoint> {
    var p1 := Appended(p, Start(e));
    if e.update.Put? then
      var p2 := Appended(p1, e.update.value);
      [p1, p2, Recorded(p2, EndMark(e), e)]
    else [p1, Recorded(p1, EndMark(e), e)]
  }

  lemma {:induction false} Logged(p: CrashPoint, t: Cells, trace: seq<CrashPoint>, e: Entry)
    requires FilesHold(p) && TableHolds(p, t, false) && AllDecode(trace) && Storable(e.update)
    ensures var ps := Writing(p, e);
            var q := ps[|ps| - 1];
            && FilesHold(q) && TableHolds(q, t, true)
            && AllDecode(trace + ps) && Between(trace, trace + ps, t, Apply1(t, e.update))
  {
    hide FilesHold, Decodes, Durable, Start, EndMark, CellText, Storable, Apply1, EntryText, Appended;
    AppendRecord(p, e);
    WholeRecord(p, e);
    var ps := Writing(p, e);
    FilesDecode(ps[|ps| - 1]);
    forall i | 0 <= i < |ps|
      ensures Decodes(ps[i]) && Durable(ps[i]) in {t, Apply1(t, e.update)}
    {
    }
  }

  lemma {:induction false} FilesDecode(p: CrashPoint)
    requires FilesHold(p)
    ensures Decodes(p)
  {
  }

  lemma {:induction false} ThreeMore<T>(s: seq<T>, a: T, b: T, c: T)
    ensures s + [a] + [b] + [c] == s + [a, b, c]
  {
  }

  lemma {:induction false} NumberedNext(checkpoint: Option<string>, es: seq<Entry>, seqID: nat, e: Entry)
    requires Numbered(checkpoint, es, seqID) && e.seqno == seqID + 1 && e.byPrimary
    ensures Numbered(checkpoint, es + [e], seqID + 1)
  {
    hide FindVersion;
  }

  /** The files between the rename and the emptying of the log. */
  function Renamed(p: CrashPoint, t: Cells, text: string): CrashPoint {
    CrashPoint(Disk(Some(text), p.disk.log), t, p.entries)
  }

  /** After the rename the log is replayed over a table that already has its updates. */
  lemma {:induction false} Checkpointed(p: CrashPoint, t: Cells, text: string)
    requires FilesHold(p) && TableHolds(p, t, false) && Restored(Some(text)) == t
    ensures var q := Renamed(p, t, text); Decodes(q) && Durable(q) == t
    ensures var q := CrashPoint(Disk(Some(text), ""), t, []); FilesHold(q) && TableHolds(q, t, false)
  {
    var us := Updated(p.entries);
    Absorb(p.base, us, 0);
    assert us[0..] == us;
    assert LogText([]) == "";
    WholeLogRoundTrip([]);
  }

  /** The effect of the last record on the table completes it. */
  lemma {:induction false} Completed(p: CrashPoint, t: Cells, t': Cells)
    requires TableHolds(p, t, true)
    requires var u := p.entries[|p.entries| - 1].update;
             t' == Apply1(t, u) && (u.Put? ==> CellText(u.Key(), u.value))
    ensures TableHolds(p, t', false)
  {
    hide Durable, CellText;
  }

  lemma {:induction false} NumberedEmpty(text: string, seqID: nat)
    requires FindVersion(text) == seqID
    ensures Numbered(Some(text), [], seqID)
  {
  }

  lemma {:induction false} CellsAreTexts(p: CrashPoint, t: Cells)
    requires TableHolds(p, t, false)
    ensures forall k :: k in t ==> CellText(k, t[k])
  {
  }

  lemma {:induction false} TwoMore<T>(s: seq<T>, a: T, b: T)
    ensures s + [a] + [b] == s + [a, b]
  {
  }

  lemma {:induction false} BetweenTwo(trace: seq<CrashPoint>, a: CrashPoint, b: CrashPoint, t: Cells)
    requires AllDecode(trace) && Decodes(a) && FilesHold(b) && Durable(a) == t && TableHolds(b, t, false)
    ensures AllDecode(trace + [a, b]) && Between(trace, trace + [a, b], t, t)
  {
    hide Durable, ParseLog, Restored, LogText, CellText, Storable;
  }

  lemma {:induction false} CellsTextNext(ks: seq<Key>, t: Cells, k: Key)
    requires k in t && forall x :: x in ks ==> x in t
    ensures CellsText(ks + [k], t) == CellsText(ks, t) + CellLines(k, t[k])
  {
    assert (ks + [k])[..|ks|] == ks;
  }

  lemma {:induction false} CellsTextNone(t: Cells)
    ensures CellsText([], t) == ""
  {
  }

  lemma {:induction false} Concat3(a: string, b: string, c: string)
    ensures a + b + c == a + (b + c)
  {
  }

  lemma {:induction false} BetweenNone(trace: seq<CrashPoint>, t: Cells)
    ensures Between(trace, trace, t, t)
  {
  }

  lemma {:induction false} RestoredText(text: string)
    ensures Restored(Some(text)) == Replay(map[], ParseCheckpoint(text))
  {
  }

  lemma {:induction false} NewFiles()
    ensures var p := CrashPoint(Disk(None, ""), map[], []);
            FilesHold(p) && TableHolds(p, map[], false) && AllDecode([]) && Numbered(None, [], 0)
  {
  }

  /** A crash after any write of a command: what is replayed from the files is the table
      before the command or the one after it. */
  lemma {:induction false} CrashAnywhere(earlier: seq<CrashPoint>, trace: seq<CrashPoint>, a: Cells, b: Cells, i: nat)
    requires AllDecode(trace) && Between(earlier, trace, a, b) && |earlier| <= i < |trace|
    requires Harmless(Updated(trace[i].entries)) && PrimaryPutsSurvive(trace[i].entries)
    ensures Recovered(trace[i].disk) in {a, b}
  {
    hide Recovered, Harmless, PrimaryPutsSurvive, Durable, Decodes;
    CrashPointRecovers(trace[i]);
  }

  /** The version and then every cell of the table, once or more often, in some order. */
  ghost predicate IsTableText(text: string, version: nat, t: Cells) {
    exists ks: seq<Key> :: (forall k :: k in ks <==> k in t) && text == VersionLine(version) + CellsText(ks, t)
  }

  // ------------------------------------------------------------ the server

  class DataServer {
    var table: Rows
    var seqID: nat
    var primary: bool
    var canCheckpoint: bool
    /** The files. */
    var checkpoint: Option<string>
    var log: string

    /** The cells the checkpoint file stands for. */
    ghost var base: Cells
    /** The complete records of the log file. */
    ghost var entries: seq<Entry>
    /** The last record is logged but its effect is not in the table. */
    ghost var pending: bool
    /** What the files were after each write, since the start. */
    ghost var trace: seq<CrashPoint>
    /** All keys and values logged so far survive the text of the files. */
    ghost var clean: bool

    ghost function Now(): CrashPoint
      reads this
    {
      CrashPoint(Disk(checkpoint, log), base, entries)
    }

    ghost predicate Valid()
      reads this
    {
      clean ==> FilesHold(Now()) && TableHolds(Now(), Flat(table), pending) && AllDecode(trace)
    }

    ghost predicate Sequenced()
      reads this
    {
      Numbered(checkpoint, entries, seqID)
    }

    constructor ()
      ensures Valid() && Sequenced() && clean && !pending
      ensures table == map[] && !primary && trace == [] && canCheckpoint
    {
      table, seqID, primary, canCheckpoint := map[], 0, false, true;
      checkpoint, log := None, "";
      base, entries, pending, trace, clean := map[], [], false, [], true;
      new;
      NewFiles();
      EmptyTable();
      hide FilesHold, TableHolds, AllDecode, Numbered, Flat;
    }

    method AppendToFile(s: string, ghost es: seq<Entry>)
      modifies `log, `entries, `trace
      ensures Now() == old(Appended(Now(), s)).(entries := es)
      ensures trace == old(trace) + [Now()]
    {
      log := log + s;
      entries := es;
      trace := trace + [Now()];
    }

    /** Both `putToLog`s: three appends, so a crash may leave a torn record. */
    method PutToLog(seqno: nat, byPrimary: bool, row: string, col: string, value: string)
      requires Valid() && !pending
      modifies `log, `trace, `entries, `pending, `clean
      ensures Valid() && pending && clean == (old(clean) && Storable(Put(row, col, value)))
      ensures log == old(log) + EntryText(Entry(Put(row, col, value), seqno, byPrimary))
      ensures entries == old(entries) + [Entry(Put(row, col, value), seqno, byPrimary)]
      ensures clean ==> Between(old(trace), trace, Flat(table), Flat(table)[(row, col) := value])
    {
      hide FilesHold, TableHolds, AllDecode, Between, Start, EndMark, Storable, Flat, EntryText;
      var e := Entry(Put(row, col, value), seqno, byPrimary);
      ghost var es := entries;
      ghost var p := Now();
      clean := clean && Storable(Put(row, col, value));
      if clean {
        Logged(p, Flat(table), trace, e);
      }
      EntryGlue(log, e);
      AppendToFile(Start(e), es);
      ghost var p1 := Now();
      AppendToFile(value, es);
      ghost var p2 := Now();
      AppendToFile(EndMark(e), es + [e]);
      pending := true;
      ThreeMore(old(trace), p1, p2, Now());
      assert Writing(p, e) == [p1, p2, Now()];
    }

    /** Both `deleteToLog`s. */
    method DeleteToLog(seqno: nat, byPrimary: bool, row: string, col: string)
      requires Valid() && !pending
      modifies `log, `trace, `entries, `pending, `clean
      ensures Valid() && pending && clean == (old(clean) && Storable(Delete(row, col)))
      ensures log == old(log) + EntryText(Entry(Delete(row, col), seqno, byPrimary))
      ensures entries == old(entries) + [Entry(Delete(row, col), seqno, byPrimary)]
      ensures clean ==> Between(old(trace), trace, Flat(table), Flat(table) - {(row, col)})
    {
      hide FilesHold, TableHolds, AllDecode, Between, Start, EndMark, Storable, Flat, EntryText;
      var e := Entry(Delete(row, col), seqno, byPrimary);
      ghost var es := entries;
      clean := clean && Storable(Delete(row, col));
      if clean {
        Logged(Now(), Flat(table), trace, e);
      }
      EntryGlue(log, e);
      AppendToFile(Start(e), es);
      AppendToFile(EndMark(e), es + [e]);
      pending := true;
      assert trace == old(trace) + Writing(old(Now()), e);
    }

    /** The number and the log record of a PUT: a primary numbers it, a replica uses the
        number the primary sent. */
    method LogPut(row: string, col: string, value: string, pushed: nat)
      requires Valid() && !pending
      modifies `seqID, `log, `trace, `entries, `pending, `clean
      ensures Valid() && pending && clean == (old(clean) && Storable(Put(row, col, value)))
      ensures seqID == if primary then old(seqID) + 1 else if pushed > old(seqID) then pushed else old(seqID)
      ensures entries == old(entries) +
                [Entry(Put(row, col, value), if primary then seqID else pushed, primary)]
      ensures log == old(log) + EntryText(entries[|entries| - 1])
      ensures primary && old(Sequenced()) ==> Sequenced()
      ensures clean ==> Between(old(trace), trace, Flat(table), Flat(table)[(row, col) := value])
    {
      hide FilesHold, TableHolds, AllDecode, Between, Numbered, Storable, Flat, EntryText;
      if primary && Sequenced() {
        NumberedNext(checkpoint, entries, seqID, Entry(Put(row, col, value), seqID + 1, true));
      }
      var seqno := if primary then seqID + 1 else pushed;
      seqID := if primary || pushed > seqID then seqno else seqID;
      PutToLog(seqno, primary, row, col, value);
    }

    /** `parse_PUT`, once the value is read. */
    method ParsePut(row: string, col: string, value: string, pushed: nat) returns (r: Reply)
      requires Valid() && !pending
      modifies this
      ensures Valid() && primary == old(primary) && checkpoint == old(checkpoint)
      ensures clean == (old(clean) && Storable(Put(row, col, value)))
      ensures seqID == if primary then old(seqID) + 1 else if pushed > old(seqID) then pushed else old(seqID)
      ensures entries == old(entries) +
                [Entry(Put(row, col, value), if primary then seqID else pushed, primary)]
      ensures log == old(log) + EntryText(entries[|entries| - 1]) && canCheckpoint == old(canCheckpoint)
      ensures primary && old(Sequenced()) ==> Sequenced()
      ensures r == (if old(MissingCell(table, row, col)) then Crash else Ok)
      ensures r.Ok? ==> !pending && Flat(table) == old(Flat(table))[(row, col) := value]
      ensures r.Crash? ==> pending && table == old(table)
      ensures clean ==> Between(old(trace), trace, old(Flat(table)), old(Flat(table))[(row, col) := value])
    {
      hide FilesHold, TableHolds, AllDecode, Between, Numbered, NoDotLine, Flat, SetCell, EntryText;
      LogPut(row, col, value, pushed);
      r := Ok;
      if row !in table || col !in table {
        StoreCell(row, col, value);
      } else if col !in table[row] {
        r := Crash;
      } else {
        StoreCell(row, col, value);
      }
    }

    /** The assignment to the cell that completes a logged PUT. */
    method StoreCell(row: string, col: string, value: string)
      requires Valid() && pending && (clean ==> CellText((row, col), value))
      requires entries != [] && entries[|entries| - 1].update == Put(row, col, value)
      modifies `table, `pending
      ensures Valid() && !pending
      ensures table == SetCell(old(table), row, col, value)
      ensures Flat(table) == old(Flat(table))[(row, col) := value]
    {
      hide FilesHold, AllDecode, TableHolds, CellText, Flat, SetCell;
      FlatSet(table, row, col, value);
      if clean {
        Completed(Now(), Flat(table), Flat(SetCell(table, row, col, value)));
      }
      table := SetCell(table, row, col, value);
      pending := false;
    }

    /** `parse_DELE`. The record is written before the cell is looked up. */
    method ParseDelete(row: string, col: string, pushed: nat) returns (r: Reply)
      requires Valid() && !pending
      modifies this
      ensures Valid() && !pending && primary == old(primary) && checkpoint == old(checkpoint)
      ensures clean == (old(clean) && Storable(Delete(row, col)))
      ensures seqID == if primary then old(seqID) + 1 else old(seqID)
      ensures entries == old(entries) + [Entry(Delete(row, col), if primary then seqID else pushed, primary)]
      ensures log == old(log) + EntryText(entries[|entries| - 1]) && canCheckpoint == old(canCheckpoint)
      ensures primary && old(Sequenced()) ==> Sequenced()
      ensures r == if row !in old(table) then ErrNullRow
                   else if col !in old(table)[row] then ErrNullColumn else Ok
      ensures !r.Ok? ==> table == old(table)
      ensures Flat(table) == old(Flat(table)) - {(row, col)}
      ensures clean ==> Between(old(trace), trace, old(Flat(table)), Flat(table))
    {
      hide FilesHold, TableHolds, AllDecode, Between, Numbered, Storable, Flat, EraseCell, EntryText;
      if primary && Sequenced() {
        NumberedNext(checkpoint, entries, seqID, Entry(Delete(row, col), seqID + 1, true));
      }
      var seqno := if primary then seqID + 1 else pushed;
      seqID := if primary then seqID + 1 else seqID;
      DeleteToLog(seqno, primary, row, col);
      r := Forget(row, col);
    }

    /** The lookup and the erasure that complete a logged DELETE. */
    method Forget(row: string, col: string) returns (r: Reply)
      requires Valid() && pending
      requires entries != [] && entries[|entries| - 1].update == Delete(row, col)
      modifies `table, `pending
      ensures Valid() && !pending
      ensures r == if row !in old(table) then ErrNullRow
                   else if col !in old(table)[row] then ErrNullColumn else Ok
      ensures !r.Ok? ==> table == old(table)
      ensures Flat(table) == old(Flat(table)) - {(row, col)}
    {
      hide FilesHold, AllDecode, TableHolds, CellText, Flat, EraseCell;
      if row in table {
        FlatErase(table, row, col);
      }
      FlatAt(table, (row, col));
      if clean {
        Completed(Now(), Flat(table), Flat(table) - {(row, col)});
      }
      assert (row, col) !in Flat(table) ==> Flat(table) - {(row, col)} == Flat(table);
      pending := false;
      if row !in table {
        r := ErrNullRow;
      } else if col !in table[row] {
        r := ErrNullColumn;
      } else {
        table := EraseCell(table, row, col);
        r := Ok;
      }
    }

    /** `parse_CPUT`. The record is written and numbered as a primary's. */
    method ParseCPut(row: string, col: string, oldData: string, newData: string) returns (r: Reply)
      requires Valid() && !pending
      modifies this
      ensures Valid() && !pending && primary == old(primary) && checkpoint == old(checkpoint)
      ensures clean == (old(clean) && (r.Ok? ==> Storable(Put(row, col, newData))))
      ensures var k := (row, col);
              r == if (if k in old(Flat(table)) then old(Flat(table))[k] == oldData else oldData == "NULL\r\n")
                   then Ok else Err
      ensures r.Err? ==> table == old(table) && entries == old(entries) && seqID == old(seqID) && trace == old(trace)
                         && log == old(log)
      ensures r.Ok? ==> Flat(table) == old(Flat(table))[(row, col) := newData] && seqID == old(seqID) + 1
                        && entries == old(entries) + [Entry(Put(row, col, newData), seqID, true)]
                        && log == old(log) + EntryText(entries[|entries| - 1])
      ensures canCheckpoint == old(canCheckpoint)
      ensures old(Sequenced()) ==> Sequenced()
      ensures clean ==> Between(old(trace), trace, old(Flat(table)), Flat(table))
    {
      FlatAt(table, (row, col));
      hide FilesHold, TableHolds, AllDecode, Numbered, NoDotLine, Flat, SetCell, EntryText;
      if Sequenced() {
        NumberedNext(checkpoint, entries, seqID, Entry(Put(row, col, newData), seqID + 1, true));
      }
      var present := row in table && col in table[row];
      if (if present then table[row][col] == oldData else oldData == "NULL\r\n") {
        seqID := seqID + 1;
        PutToLog(seqID, true, row, col, newData);
        StoreCell(row, col, newData);
        r := Ok;
      } else {
        r := Err;
      }
    }

    /** `parse_GET`. */
    method ParseGet(row: string, col: string) returns (r: Reply)
      ensures r == if row !in table then ErrNullRow
                   else if col !in table[row] then ErrNullColumn else Data(table[row][col])
      ensures (row, col) in Flat(table) ==> r == Data(Flat(table)[(row, col)])
    {
      FlatAt(table, (row, col));
      if row !in table {
        r := ErrNullRow;
      } else if col !in table[row] {
        r := ErrNullColumn;
      } else {
        r := Data(table[row][col]);
      }
    }

    /** `writeToDisk`: the whole table goes to a temporary file, which then replaces the
        checkpoint, after which the log is emptied. */
    method WriteToDisk(canOpen: bool) returns (done: bool)
      requires Valid() && !pending
      modifies `checkpoint, `log, `base, `entries, `trace
      ensures done == canOpen
      ensures Valid() && clean == old(clean) && (clean ==> Between(old(trace), trace, Flat(table), Flat(table)))
      ensures !done ==> Now() == old(Now()) && trace == old(trace)
      ensures done ==> log == "" && entries == [] && base == Flat(table)
                       && checkpoint.Some? && FindVersion(checkpoint.value) == seqID
                       && IsTableText(checkpoint.value, seqID, Flat(table))
      ensures old(Sequenced()) ==> Sequenced()
    {
      hide FilesHold, AllDecode, TableHolds, Flat, FindVersion, Restored, Between, Decodes, Durable, Numbered;
      if !canOpen {
        BetweenNone(trace, Flat(table));
        return false;
      }
      var temp := TableText();
      ghost var p := Now();
      if clean {
        Checkpointed(p, Flat(table), temp);
      }
      NumberedEmpty(temp, seqID);
      checkpoint := Some(temp);
      base := Flat(table);
      trace := trace + [Now()];
      log := "";
      entries := [];
      trace := trace + [Now()];
      TwoMore(old(trace), Renamed(p, Flat(table), temp), Now());
      if clean {
        BetweenTwo(old(trace), Renamed(p, Flat(table), temp), Now(), Flat(table));
      }
      done := true;
    }

    /** What `writeToDisk` prints: the version and then every cell. */
    method TableText() returns (temp: string)
      requires Valid() && !pending
      ensures FindVersion(temp) == seqID && (clean ==> Restored(Some(temp)) == Flat(table))
      ensures IsTableText(temp, seqID, Flat(table))
    {
      hide FilesHold, AllDecode, TableHolds, Restored, FindVersion, VersionLine, CellText, Flat, CellsText, CellLines,
           Replay, ParseCheckpoint;
      var t := table;
      temp := VersionLine(seqID);
      ghost var ks: seq<Key> := [];
      ghost var f := Flat(t);
      if clean {
        CellsAreTexts(Now(), f);
      }
      CellsTextNone(f);
      forall k | k in f
        ensures k.0 in t && k.1 in t[k.0]
      {
        FlatAt(t, k);
      }
      assert VersionLine(seqID) + "" == VersionLine(seqID);
      var rows := t.Keys;
      while rows != {}
        invariant rows <= t.Keys
        invariant forall k :: k in ks ==> k in f
        invariant forall k :: k in f && k.0 !in rows ==> k in ks
        invariant temp == VersionLine(seqID) + CellsText(ks, f)
        decreases |rows|
      {
        var row :| row in rows;
        var cols := t[row].Keys;
        while cols != {}
          invariant cols <= t[row].Keys
          invariant forall k :: k in ks ==> k in f
          invariant forall k :: k in f && k.0 !in rows ==> k in ks
          invariant forall k :: k in f && k.0 == row && k.1 !in cols ==> k in ks
          invariant temp == VersionLine(seqID) + CellsText(ks, f)
          decreases |cols|
        {
          var col :| col in cols;
          FlatAt(t, (row, col));
          CellsTextNext(ks, f, (row, col));
          Concat3(VersionLine(seqID), CellsText(ks, f), CellLines((row, col), f[(row, col)]));
          temp := temp + CellLines((row, col), t[row][col]);
          ks := ks + [(row, col)];
          cols := cols - {col};
        }
        rows := rows - {row};
      }
      VersionRoundTrip(seqID, CellsText(ks, f));
      assert IsTableText(temp, seqID, f);
      if clean {
        CheckpointRoundTrip(seqID, ks, f);
      }
      RestoredText(temp);
    }

    /** The checkpoint thread's tick. */
    method CheckpointTick(canOpen: bool)
      requires Valid() && !pending
      modifies `checkpoint, `log, `base, `entries, `trace
      ensures Valid() && clean == old(clean) && (clean ==> Between(old(trace), trace, Flat(table), Flat(table)))
      ensures !canCheckpoint || !canOpen ==> Now() == old(Now())
      ensures canCheckpoint && canOpen ==>
                log == "" && checkpoint.Some? && IsTableText(checkpoint.value, seqID, Flat(table))
      ensures old(Sequenced()) ==> Sequenced()
    {
      if canCheckpoint {
        var done := WriteToDisk(canOpen);
      }
    }

    // ---------------------------------------------------------- replaying the files

    /** `replayLogCommand`. */
    method ReplayLogCommand(command: string)
      modifies `table
      ensures Flat(table) == Replay1(old(Flat(table)), ReadCommand(command))
    {
      hide ReadCommand, Flat, SetCell, EraseCell;
      var u := ReadCommand(command);
      match u
      case Delete(row, col) =>
        FlatAt(table, (row, col));
        if row in table && col in table[row] {
          FlatErase(table, row, row);
          table := EraseCell(table, row, row);
        }
      case Put(row, col, value) =>
        FlatSet(table, row, col, value);
        table := SetCell(table, row, col, value);
    }

    /** `replyCheckpointCommand`. */
    method ReplayCheckpointCommand(command: string)
      modifies `table
      ensures Flat(table) == Replay1(old(Flat(table)), ReadCell(command))
    {
      hide Flat, SetCell;
      var u := ReadCell(command);
      FlatSet(table, u.row, u.col, u.value);
      table := SetCell(table, u.row, u.col, u.value);
    }

    /** `recoverLog`: lines are collected until a lone dot completes a command. */
    method RecoverFromLog()
      modifies `table
      ensures Flat(table) == Replay(old(Flat(table)), ParseLog(log))
    {
      hide Find, FindFrom, Flat, Replay1, ReadCommand, Replay;
      var rest, data := log, "";
      ghost var t0 := Flat(table);
      while rest != ""
        invariant Replay(Flat(table), ReadCommands(Chunks(rest, data))) == Replay(t0, ParseLog(log))
        decreases |rest|
      {
        var k := Find(rest, "\n");
        var line := if k == NPOS then rest else rest[..k];
        ReplayNextCommand(Flat(table), rest, data);
        rest := if k == NPOS then "" else rest[k + 1..];
        data := data + line + "\n";
        if line == "." {
          ReplayLogCommand(data);
          data := "";
        }
      }
      ReplayNothing(Flat(table), data);
    }

    /** `recoverCheckpoint`: the same loop after the version line; false without a file. */
    method RecoverFromCheckpoint() returns (found: bool)
      modifies `table
      ensures found == checkpoint.Some?
      ensures !found ==> table == old(table)
      ensures found ==> Flat(table) == Replay(old(Flat(table)), ParseCheckpoint(checkpoint.value))
    {
      hide Find, FindFrom, Flat, Replay1, ReadCell, Replay, SkipLine;
      if checkpoint.None? {
        return false;
      }
      var rest, data := SkipLine(checkpoint.value), "";
      ghost var t0 := Flat(table);
      while rest != ""
        invariant Replay(Flat(table), ReadCells(Chunks(rest, data))) == Replay(t0, ParseCheckpoint(checkpoint.value))
        decreases |rest|
      {
        var k := Find(rest, "\n");
        var line := if k == NPOS then rest else rest[..k];
        ReplayNextCell(Flat(table), rest, data);
        rest := if k == NPOS then "" else rest[k + 1..];
        data := data + line + "\n";
        if line == "." {
          ReplayCheckpointCommand(data);
          data := "";
        }
      }
      ReplayNothing(Flat(table), data);
      found := true;
    }

    /** A new process that starts from the files a crash left: its table comes back, its number
        does not, and it is not a primary. */
    method Restart()
      modifies `table, `seqID, `primary, `canCheckpoint
      ensures Flat(table) == Recovered(Disk(checkpoint, log))
      ensures seqID == 0 && !primary && canCheckpoint
    {
      EmptyTable();
      hide Flat, Replay, ParseCheckpoint, ParseLog;
      seqID, primary, canCheckpoint := 0, false, true;
      table := map[];
      var found := RecoverFromCheckpoint();
      RecoverFromLog();
    }
  }

  lemma {:induction false} EmptyTable()
    ensures Flat(map[]) == map[]
  {
  }

  lemma {:induction false} ReplayNothing(t: Cells, acc: string)
    ensures Replay(t, ReadCommands(Chunks("", acc))) == t
    ensures Replay(t, ReadCells(Chunks("", acc))) == t
  {
  }

  /** One line of a text: it completes a command or it is collected. */
  lemma {:induction false} NextLine(rest: string, acc: string)
    requires rest != ""
    ensures var k := Find(rest, "\n");
            var line := if k == NPOS then rest else rest[..k];
            var more := if k == NPOS then "" else rest[k + 1..];
            Chunks(rest, acc) ==
            if line == "." then [acc + line + "\n"] + Chunks(more, "") else Chunks(more, acc + line + "\n")
  {
    hide Find, FindFrom;
    assert acc + "." + "\n" == acc + ".\n";
  }

  lemma {:induction false} ReplayFirst(t: Cells, c: string, cs: seq<string>)
    ensures Replay(t, ReadCommands([c] + cs)) == Replay(Replay1(t, ReadCommand(c)), ReadCommands(cs))
    ensures Replay(t, ReadCells([c] + cs)) == Replay(Replay1(t, ReadCell(c)), ReadCells(cs))
  {
    hide ReadCommand, ReadCell, Replay, Replay1;
    var all := [c] + cs;
    ReplayCons(t, ReadCommands(all));
    assert ReadCommands(all)[1..] == ReadCommands(cs);
    ReplayCons(t, ReadCells(all));
    assert ReadCells(all)[1..] == ReadCells(cs);
  }

  lemma {:induction false} ReplayNextCommand(t: Cells, rest: string, acc: string)
    requires rest != ""
    ensures var k := Find(rest, "\n");
            var line := if k == NPOS then rest else rest[..k];
            var more := if k == NPOS then "" else rest[k + 1..];
            Replay(t, ReadCommands(Chunks(rest, acc))) ==
            if line == "." then Replay(Replay1(t, ReadCommand(acc + line + "\n")), ReadCommands(Chunks(more, "")))
            else Replay(t, ReadCommands(Chunks(more, acc + line + "\n")))
  {
    hide Find, FindFrom, ReadCommands, ReadCommand, Replay, Replay1, Chunks;
    NextLine(rest, acc);
    var k := Find(rest, "\n");
    var line := if k == NPOS then rest else rest[..k];
    ReplayFirst(t, acc + line + "\n", Chunks(if k == NPOS then "" else rest[k + 1..], ""));
  }

  lemma {:induction false} ReplayNextCell(t: Cells, rest: string, acc: string)
    requires rest != ""
    ensures var k := Find(rest, "\n");
            var line := if k == NPOS then rest else rest[..k];
            var more := if k == NPOS then "" else rest[k + 1..];
            Replay(t, ReadCells(Chunks(rest, acc))) ==
            if line == "." then Replay(Replay1(t, ReadCell(acc + line + "\n")), ReadCells(Chunks(more, "")))
            else Replay(t, ReadCells(Chunks(more, acc + line + "\n")))
  {
    hide Find, FindFrom, ReadCells, ReadCell, Replay, Replay1, Chunks;
    NextLine(rest, acc);
    var k := Find(rest, "\n");
    var line := if k == NPOS then rest else rest[..k];
    ReplayFirst(t, acc + line + "\n", Chunks(if k == NPOS then "" else rest[k + 1..], ""));
  }
}
