/** Which overlaps of local files, transferred log and held-back updates bring a recovering
    replica exactly up to date, and what the recovery request really says. */
module CatchUp {
  import opened Text
  import opened Updates
  import opened BackStore
  import opened LogFormat

  /** The table of the first `n` updates of a history. */
  function StateAt(h: seq<Update>, n: nat): Cells
    requires n <= |h|
  {
    Apply(map[], h[..n])
  }

  /** A restored table, then the replay of the primary's log at time `n1`, whose checkpoint has
      version `v`, then the commands held back since `n0`, which are carried out as sent. */
  function AfterCatchUp(local: Cells, h: seq<Update>, v: nat, n1: nat, n0: nat): Cells
    requires v <= n1 <= |h| && n0 <= |h|
  {
    Apply(Replay(local, h[v..n1]), h[n0..])
  }

  /** A history that puts one cell at time `i` and otherwise only deletes another, whose column
      is named like its row. */
  function OnePut(n: nat, i: nat): (h: seq<Update>)
    ensures |h| == n
  {
    seq(n, j => if j == i then Put("r", "c", "v\r\n") else Delete("r", "r"))
  }

  lemma {:induction false} OnePutHarmless(n: nat, i: nat, lo: nat, hi: nat)
    requires lo <= hi <= n
    ensures Harmless(OnePut(n, i)[lo..hi])
  {
  }

  lemma {:induction false} LastOpOfSlice(h: seq<Update>, lo: nat, hi: nat, k: Key)
    requires lo <= hi <= |h|
    ensures var j := LastOp(h, k);
            (j < lo ==> LastOp(h[lo..hi], k) == -1) && (lo <= j < hi ==> LastOp(h[lo..hi], k) == j - lo)
  {
    var s := h[lo..hi];
    var i := LastOp(s, k);
    assert forall x :: 0 <= x < |s| ==> s[x] == h[lo + x];
  }

  /** A stretch of a history that has the last update of a cell decides it. */
  lemma {:induction false} SegmentDecides(t: Cells, h: seq<Update>, lo: nat, hi: nat, k: Key)
    requires lo <= LastOp(h, k) < hi <= |h|
    ensures SameCell(Apply(t, h[lo..hi]), Apply(map[], h), k)
  {
    hide Apply;
    LastOpOfSlice(h, lo, hi, k);
    LastWriterWins(t, h[lo..hi], k);
    LastWriterWins(map[], h, k);
  }

  /** A stretch after the last update of a cell leaves it alone. */
  lemma {:induction false} SegmentLeaves(t: Cells, h: seq<Update>, lo: nat, hi: nat, k: Key)
    requires LastOp(h, k) < lo <= hi <= |h|
    ensures SameCell(Apply(t, h[lo..hi]), t, k)
  {
    hide Apply;
    LastOpOfSlice(h, lo, hi, k);
    LastWriterWins(t, h[lo..hi], k);
  }

  /** A cell whose last update is among those replayed, or that is right to begin with, is
      right after the catch-up. */
  lemma {:induction false} CellCaughtUp(local: Cells, h: seq<Update>, v: nat, n1: nat, n0: nat, k: Key)
    requires v <= n1 <= |h| && n0 <= n1 && Harmless(h[v..n1])
    requires var j := LastOp(h, k); j < v && j < n0 ==> SameCell(local, Apply(map[], h), k)
    ensures SameCell(AfterCatchUp(local, h, v, n1, n0), Apply(map[], h), k)
  {
    hide Harmless, Apply, Replay, LastOp;
    HarmlessReplays(local, h[v..n1]);
    var t, j := Apply(local, h[v..n1]), LastOp(h, k);
    assert h[n0..|h|] == h[n0..];
    if j >= n0 {
      SegmentDecides(t, h, n0, |h|, k);
    } else {
      SegmentLeaves(t, h, n0, |h|, k);
      if j >= v {
        SegmentDecides(local, h, v, n1, k);
      } else {
        SegmentLeaves(local, h, v, n1, k);
      }
    }
  }

  lemma {:induction false} OnePutState(n: nat, i: nat)
    requires i < n
    ensures ("r", "c") in Apply(map[], OnePut(n, i))
    ensures Apply(map[], OnePut(n, i))[("r", "c")] == "v\r\n"
    ensures forall lo: nat, hi: nat :: lo <= hi <= n && !(lo <= i < hi) ==>
              LastOp(OnePut(n, i)[lo..hi], ("r", "c")) == -1
  {
    var h, k := OnePut(n, i), ("r", "c");
    assert h[i].Key() == k;
    assert LastOp(h, k) == i;
    LastWriterWins(map[], h, k);
    forall lo: nat, hi: nat | lo <= hi <= n && !(lo <= i < hi)
      ensures LastOp(h[lo..hi], k) == -1
    {
      var s := h[lo..hi];
      assert forall x :: 0 <= x < |s| ==> s[x] == h[lo + x];
    }
  }

  /** A cell that was not updated after time `a` is right in the table of time `a`. */
  lemma {:induction false} EarlyCell(h: seq<Update>, a: nat, k: Key)
    requires a <= |h| && LastOp(h, k) < a
    ensures SameCell(StateAt(h, a), Apply(map[], h), k)
  {
    LastOpOfSlice(h, 0, a, k);
    assert h[0..a] == h[..a];
    LastWriterWins(map[], h[..a], k);
    LastWriterWins(map[], h, k);
  }

  /** With the table of the first `a` updates, the catch-up is exact for every history whose
      transferred log replays correctly if and only if the log (or the held-back queue) starts
      no later than `a`, or nothing is missing. `versionNum <= startSeq`, which
      `parse_RECOVERY` tests, is that condition as long as no checkpoint moves the version
      before the log is sent. */
  lemma {:induction false} CatchUpIff(a: nat, v: nat, n1: nat, n0: nat, n: nat)
    requires a <= n && v <= n1 <= n && n0 <= n1
    ensures (forall h: seq<Update> | |h| == n && Harmless(h[v..n1]) ::
               AfterCatchUp(StateAt(h, a), h, v, n1, n0) == StateAt(h, n))
            <==> v <= a || n0 <= a || a == n
  {
    hide Apply, Harmless, AfterCatchUp, StateAt;
    if v <= a || n0 <= a || a == n {
      forall h: seq<Update> | |h| == n && Harmless(h[v..n1])
        ensures AfterCatchUp(StateAt(h, a), h, v, n1, n0) == StateAt(h, n)
      {
        CaughtUpFrom(h, a, v, n1, n0);
      }
    } else {
      var h := OnePut(n, a);
      OnePutHarmless(n, a, v, n1);
      MissedPut(h, a, a, v, n1, n0);
      assert AfterCatchUp(StateAt(h, a), h, v, n1, n0) != StateAt(h, n);
    }
  }

  lemma {:induction false} CaughtUpFrom(h: seq<Update>, a: nat, v: nat, n1: nat, n0: nat)
    requires a <= |h| && v <= n1 <= |h| && n0 <= n1 && Harmless(h[v..n1])
    requires v <= a || n0 <= a || a == |h|
    ensures AfterCatchUp(StateAt(h, a), h, v, n1, n0) == StateAt(h, |h|)
  {
    hide Apply, Harmless, AfterCatchUp;
    assert h[..|h|] == h;
    var local := StateAt(h, a);
    forall k: Key
      ensures SameCell(AfterCatchUp(local, h, v, n1, n0), Apply(map[], h), k)
    {
      if LastOp(h, k) < a {
        EarlyCell(h, a, k);
      }
      CellCaughtUp(local, h, v, n1, n0, k);
    }
    Extensional(AfterCatchUp(local, h, v, n1, n0), Apply(map[], h));
  }

  /** The cell put at time `i` is missing when neither the table nor the replays cover `i`. */
  lemma {:induction false} MissedPut(h: seq<Update>, i: nat, a: nat, v: nat, n1: nat, n0: nat)
    requires i < |h| && h == OnePut(|h|, i) && a <= i && v <= n1 <= |h| && n0 <= |h|
    requires (i < v || n1 <= i) && i < n0
    ensures ("r", "c") !in AfterCatchUp(StateAt(h, a), h, v, n1, n0)
    ensures ("r", "c") in StateAt(h, |h|)
  {
    var k := ("r", "c");
    OnePutState(|h|, i);
    OnePutHarmless(|h|, i, v, n1);
    HarmlessReplays(StateAt(h, a), h[v..n1]);
    assert h[..|h|] == h && h[0..a] == h[..a] && h[n0..|h|] == h[n0..];
    LastWriterWins(map[], h[..a], k);
    LastWriterWins(StateAt(h, a), h[v..n1], k);
    LastWriterWins(Apply(StateAt(h, a), h[v..n1]), h[n0..], k);
  }

  /** When a checkpoint has emptied the log before it is sent, `v` is `n1`: the replica must
      have the updates up to then itself, or in its queue. */
  lemma {:induction false} EmptiedLogCatchUpIff(a: nat, n1: nat, n0: nat, n: nat)
    requires a <= n && n0 <= n1 <= n
    ensures (forall h: seq<Update> | |h| == n :: AfterCatchUp(StateAt(h, a), h, n1, n1, n0) == StateAt(h, n))
            <==> n1 <= a || n0 <= a || a == n
  {
    hide AfterCatchUp, StateAt;
    CatchUpIff(a, n1, n1, n0, n);
    forall h: seq<Update> | |h| == n
      ensures Harmless(h[n1..n1])
    {
      assert h[n1..n1] == [];
    }
  }

  // ------------------------------------------------------------ a replica's own log

  /** Updates as a replica's own log gives them back: every value without its last
      character. */
  function Chopped(us: seq<Update>): (vs: seq<Update>)
    ensures |vs| == |us|
  {
    seq(|us|, i requires 0 <= i < |us| => Read(Entry(us[i], 0, false)))
  }

  /** What a replica restores from its checkpoint of version `lv` and its log up to `a`. */
  function LocalTable(h: seq<Update>, lv: nat, a: nat): Cells
    requires lv <= a <= |h|
  {
    Replay(StateAt(h, lv), Chopped(h[lv..a]))
  }

  lemma {:induction false} ChoppedLastOp(us: seq<Update>, k: Key)
    ensures LastOp(Chopped(us), k) == LastOp(us, k)
  {
    if us != [] {
      assert Chopped(us)[..|us| - 1] == Chopped(us[..|us| - 1]);
      ChoppedLastOp(us[..|us| - 1], k);
    }
  }

  lemma {:induction false} ChoppedHarmless(us: seq<Update>)
    requires Harmless(us)
    ensures Harmless(Chopped(us))
  {
    var vs := Chopped(us);
    forall i | 0 <= i < |vs| && vs[i].Delete? && vs[i].row != vs[i].col
      ensures Masked(vs, i)
    {
      assert Masked(us, i);
      ChoppedLastOp(us, us[i].Key());
      ChoppedLastOp(us, (us[i].row, us[i].row));
    }
  }

  /** The replay of `us` touches no cell but those that `us` names, and the cells named like
      the rows of its DELETEs. */
  lemma {:induction false} ReplayTouches(t: Cells, us: seq<Update>, k: Key)
    requires LastOp(us, k) == -1
    requires k.0 == k.1 ==> forall j :: 0 <= j < |us| && us[j].Delete? ==> us[j].row != k.0
    ensures SameCell(Replay(t, us), t, k)
  {
    if k.0 == k.1 {
      DiagonalUntouched(t, us, k.0);
    } else {
      UntouchedOffDiagonal(t, us, k);
    }
  }

  /** In a log that replays correctly, a cell it does not name is not hit by its DELETEs. */
  lemma {:induction false} NotHit(us: seq<Update>, k: Key, j: nat)
    requires Harmless(us) && LastOp(us, k) == -1 && j < |us| && us[j].Delete? && k.0 == k.1
    ensures us[j].row != k.0
  {
    if us[j].row != us[j].col {
      assert Masked(us, j);
    } else {
      assert us[j].Key() != k;
    }
  }

  /** Updates of cells that `h` updates from `v` on, of the same kinds: what a replica's own log
      gives back, whichever of them it holds and whatever became of their values. */
  ghost predicate Shaped(h: seq<Update>, v: nat, vs: seq<Update>) {
    forall j :: 0 <= j < |vs| ==> Touched(h, v, vs[j])
  }

  ghost predicate Touched(h: seq<Update>, v: nat, u: Update) {
    exists m: nat :: v <= m < |h| && SameKind(h[m], u)
  }

  predicate SameKind(u: Update, u': Update) {
    u.Key() == u'.Key() && (u.Put? <==> u'.Put?)
  }

  /** A replica that restores its own files, whose checkpoint is no older than the primary's,
      has after the primary's log what the primary had when it sent it: whatever the local
      replay got wrong is in cells that the log sets again. */
  lemma {:induction false} LogCatchesUp(h: seq<Update>, v: nat, lv: nat, vs: seq<Update>)
    requires v <= lv <= |h| && Shaped(h, v, vs) && Harmless(h[v..])
    ensures Replay(Replay(StateAt(h, lv), vs), h[v..]) == StateAt(h, |h|)
  {
    hide Harmless, Replay, Apply, StateAt, Shaped;
    var local, log := Replay(StateAt(h, lv), vs), h[v..];
    HarmlessReplays(local, log);
    assert h[v..|h|] == log;
    forall k: Key
      ensures SameCell(Apply(local, log), Apply(map[], h), k)
    {
      LastOpOfSlice(h, v, |h|, k);
      LastWriterWins(local, log, k);
      LastWriterWins(map[], h, k);
      if LastOp(h, k) < v {
        LocalCell(h, v, lv, vs, k);
      }
    }
    Extensional(Apply(local, log), Apply(map[], h));
    WholeState(h);
  }

  lemma {:induction false} WholeState(h: seq<Update>)
    ensures StateAt(h, |h|) == Apply(map[], h)
  {
    assert h[..|h|] == h;
  }

  /** Cells last updated before `v` are right in the local table. */
  lemma {:induction false} LocalCell(h: seq<Update>, v: nat, lv: nat, vs: seq<Update>, k: Key)
    requires v <= lv <= |h| && Shaped(h, v, vs) && Harmless(h[v..]) && LastOp(h, k) < v
    ensures SameCell(Replay(StateAt(h, lv), vs), Apply(map[], h), k)
  {
    hide Harmless, Replay, Apply, StateAt;
    LastOpOfSlice(h, v, |h|, k);
    assert h[v..|h|] == h[v..];
    if k.0 == k.1 {
      forall j | 0 <= j < |vs| && vs[j].Delete?
        ensures vs[j].row != k.0
      {
        assert Touched(h, v, vs[j]);
        var m: nat :| v <= m < |h| && SameKind(h[m], vs[j]);
        assert h[v..][m - v] == h[m];
        NotHit(h[v..], k, m - v);
      }
    }
    var i := LastOp(vs, k);
    assert i >= 0 ==> Touched(h, v, vs[i]);
    ReplayTouches(StateAt(h, lv), vs, k);
    EarlyCell(h, lv, k);
  }

  /** With a log of its own that replays correctly, up to the lost line feeds, a cell last
      updated before the local checkpoint is right. */
  lemma {:induction false} OwnLogCell(h: seq<Update>, lv: nat, a: nat, k: Key)
    requires lv <= a <= |h| && Harmless(h[lv..a]) && LastOp(h, k) < lv
    ensures SameCell(LocalTable(h, lv, a), Apply(map[], h), k)
  {
    var own := h[lv..a];
    ChoppedHarmless(own);
    HarmlessReplays(StateAt(h, lv), Chopped(own));
    hide Harmless, Replay, Apply;
    LastOpOfSlice(h, lv, a, k);
    ChoppedLastOp(own, k);
    LastWriterWins(StateAt(h, lv), Chopped(own), k);
    EarlyCell(h, lv, k);
  }

  /** Both logs of a catch-up from a replica's own files replay correctly, but for the lost
      line feeds of the replica's. */
  ghost predicate BothReplay(h: seq<Update>, lv: nat, a: nat, v: nat, n1: nat)
    requires lv <= a <= |h| && v <= n1 <= |h|
  {
    Harmless(h[lv..a]) && Harmless(h[v..n1])
  }

  /** For a replica whose log is its own, `versionNum <= startSeq` is not enough: the
      catch-up is exact for every history if and only if the primary's log (or the queue)
      reaches back to the version of the replica's checkpoint. */
  lemma {:induction false} OwnLogCatchUpIff(lv: nat, a: nat, v: nat, n1: nat, n0: nat, n: nat)
    requires lv <= a <= n && v <= n1 <= n && n0 <= n1 && a <= n1
    ensures (forall h: seq<Update> | |h| == n && BothReplay(h, lv, a, v, n1) ::
               AfterCatchUp(LocalTable(h, lv, a), h, v, n1, n0) == StateAt(h, n))
            <==> v <= lv || n0 <= lv || lv == n
  {
    hide Harmless, AfterCatchUp, LocalTable, StateAt;
    if v <= lv || n0 <= lv || lv == n {
      forall h: seq<Update> | |h| == n && BothReplay(h, lv, a, v, n1)
        ensures AfterCatchUp(LocalTable(h, lv, a), h, v, n1, n0) == StateAt(h, n)
      {
        OwnLogCaughtUp(h, lv, a, v, n1, n0);
      }
    } else {
      OnePutHarmless(n, lv, lv, a);
      OnePutHarmless(n, lv, v, n1);
      ChoppedPutStays(lv, a, v, n1, n0, n);
    }
  }

  lemma {:induction false} OwnLogCaughtUp(h: seq<Update>, lv: nat, a: nat, v: nat, n1: nat, n0: nat)
    requires lv <= a <= |h| && v <= n1 <= |h| && n0 <= n1 && BothReplay(h, lv, a, v, n1)
    requires v <= lv || n0 <= lv || lv == |h|
    ensures AfterCatchUp(LocalTable(h, lv, a), h, v, n1, n0) == StateAt(h, |h|)
  {
    hide Apply, Harmless, AfterCatchUp, LocalTable;
    assert h[..|h|] == h;
    var local := LocalTable(h, lv, a);
    forall k: Key
      ensures SameCell(AfterCatchUp(local, h, v, n1, n0), Apply(map[], h), k)
    {
      if LastOp(h, k) < lv {
        OwnLogCell(h, lv, a, k);
      }
      CellCaughtUp(local, h, v, n1, n0, k);
    }
    Extensional(AfterCatchUp(local, h, v, n1, n0), Apply(map[], h));
  }

  lemma {:induction false} ChoppedPutStays(lv: nat, a: nat, v: nat, n1: nat, n0: nat, n: nat)
    requires lv <= a <= n1 && lv < n && lv < v <= n1 <= n && lv < n0 <= n1
    ensures var h := OnePut(n, lv); AfterCatchUp(LocalTable(h, lv, a), h, v, n1, n0) != StateAt(h, n)
  {
    var h, k := OnePut(n, lv), ("r", "c");
    OnePutState(n, lv);
    assert h[..n] == h && h[0..lv] == h[..lv] && h[n0..n] == h[n0..];
    var local := LocalTable(h, lv, a);
    ChoppedPut(n, lv, a);
    OnePutHarmless(n, lv, v, n1);
    HarmlessReplays(local, h[v..n1]);
    hide Harmless, Replay, Apply, LocalTable, OnePut;
    LastWriterWins(local, h[v..n1], k);
    LastWriterWins(Apply(local, h[v..n1]), h[n0..], k);
  }

  /** The cell put right after the local checkpoint is missing locally, or too short. */
  lemma {:induction false} ChoppedPut(n: nat, lv: nat, a: nat)
    requires lv <= a <= n && lv < n
    ensures var t, k := LocalTable(OnePut(n, lv), lv, a), ("r", "c"); k in t ==> |t[k]| < |"v\r\n"|
  {
    var h, k := OnePut(n, lv), ("r", "c");
    var own := h[lv..a];
    OnePutState(n, lv);
    OnePutHarmless(n, lv, lv, a);
    ChoppedHarmless(own);
    HarmlessReplays(StateAt(h, lv), Chopped(own));
    hide Harmless, Replay;
    assert h[0..lv] == h[..lv];
    LastWriterWins(map[], h[..lv], k);
    ChoppedLastOp(own, k);
    LastWriterWins(StateAt(h, lv), Chopped(own), k);
    if lv < a {
      assert own[0] == h[lv];
      assert LastOp(h, k) == lv by {
        assert h[lv].Key() == k;
      }
      LastOpOfSlice(h, lv, a, k);
      assert |Chopped(own)[0].value| < |h[lv].value|;
    }
  }

  // ------------------------------------------------------------ the recovery request

  /** `parse_RECOVERY`: the first word after the keyword is taken for the address, the second
      for the number. */
  function ParseRecovery(command: string): (string, int) {
    var rest := command[Find(command, " ") + 1..];
    var addr := Slice(rest, 0, Find(rest, " "));
    var rest2 := rest[Find(rest, " ") + 1..];
    (addr, Stol(Slice(rest2, 0, Find(rest2, " "))))
  }

  /** What `recoverProcess` sends: the number comes first. */
  function RecoveryRequest(seqno: nat, addr: string): string {
    "RECOVERY" + (" " + (Digits(seqno) + (" " + (addr + "\r\n"))))
  }

  lemma {:induction false} FirstWord(word: string, rest: string)
    requires Free(word, ' ')
    ensures var text := word + (" " + rest);
            Find(text, " ") == |word| && Slice(text, 0, |word|) == word && text[|word| + 1..] == rest
  {
    var text := word + (" " + rest);
    assert text[..|word|] == word;
    FindChar(text, ' ', |word|);
  }

  /** The two are read swapped: the address is the number's digits, and the number is what
      the address starts with. */
  lemma {:induction false} RecoveryIsReadSwapped(seqno: nat, addr: string)
    requires Free(addr, ' ')
    ensures ParseRecovery(RecoveryRequest(seqno, addr)) == (Digits(seqno), Stol(addr + "\r\n"))
  {
    hide Find, FindFrom, Stol, Digits;
    var d, tail := Digits(seqno), addr + "\r\n";
    assert !IsDigit(' ');
    FirstWord("RECOVERY", d + (" " + tail));
    FirstWord(d, tail);
    NoChar(tail, ' ');
  }

  /** So the request marks a replica as recovering only if its address is spelled like that
      number, which no address with a port is: nothing is ever held back for it. */
  lemma {:induction false} RecoveryMarksNobody(rs: seq<Replica>, seqno: nat, addr: string)
    requires Free(addr, ' ')
    requires forall i :: 0 <= i < |rs| ==> ':' in rs[i].addr
    ensures IndexOf(rs, ParseRecovery(RecoveryRequest(seqno, addr)).0) == |rs|
  {
    RecoveryIsReadSwapped(seqno, addr);
    assert !IsDigit(':');
    var i := IndexOf(rs, Digits(seqno));
  }

  /** Without a queue, the catch-up is exact for every history whose transferred log replays
      correctly if and only if no update comes between the transfer of the log and READY, and
      the log reaches back to the local table. */
  lemma {:induction false} UnmarkedCatchUpIff(a: nat, v: nat, n1: nat, n: nat)
    requires a <= n1 <= n && v <= n1
    ensures (forall h: seq<Update> | |h| == n && Harmless(h[v..n1]) ::
               AfterCatchUp(StateAt(h, a), h, v, n1, n) == StateAt(h, n))
            <==> n1 == n && v <= a
  {
    hide Apply, Harmless, AfterCatchUp, StateAt;
    if n1 == n {
      CatchUpIff(a, v, n1, n, n);
    } else {
      var h := OnePut(n, n1);
      OnePutHarmless(n, n1, v, n1);
      MissedPut(h, n1, a, v, n1, n);
      assert AfterCatchUp(StateAt(h, a), h, v, n1, n) != StateAt(h, n);
    }
  }
}
