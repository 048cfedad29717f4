/** The meaning of updates: a table of cells, what a sequence of updates does to it, why
    overlapping replays are harmless, and what the log replay really does with a DELETE. */
module Updates {

  /** Row and column of a cell. */
  type Key = (string, string)

  /** The cells of a table. Rows without cells are not visible here. */
  type Cells = map<Key, string>

  datatype Update =
    | Put(row: string, col: string, value: string)
    | Delete(row: string, col: string)
  {
    function Key(): Key {
      (row, col)
    }
  }

  function Apply1(t: Cells, u: Update): Cells {
    match u
    case Put(r, c, v) => t[(r, c) := v]
    case Delete(r, c) => t - {(r, c)}
  }

  /** The table after all of `us`, in order. */
  function Apply(t: Cells, us: seq<Update>): Cells {
    if us == [] then t
    else Apply1(Apply(t, us[..|us| - 1]), us[|us| - 1])
  }

  /** The position of the last update of cell `k`, or -1. */
  function LastOp(us: seq<Update>, k: Key): (i: int)
    ensures -1 <= i < |us|
    ensures i >= 0 ==> us[i].Key() == k
    ensures forall j :: i < j < |us| ==> us[j].Key() != k
  {
    if us == [] then -1
    else if us[|us| - 1].Key() == k then |us| - 1
    else LastOp(us[..|us| - 1], k)
  }

  ghost predicate SameCell(t: Cells, t': Cells, k: Key) {
    (k in t <==> k in t') && (k in t ==> t[k] == t'[k])
  }

  /** The last writer of a cell wins: the final content of `k` is decided by `LastOp`. */
  lemma {:induction false} LastWriterWins(t: Cells, us: seq<Update>, k: Key)
    ensures LastOp(us, k) < 0 ==> SameCell(Apply(t, us), t, k)
    ensures LastOp(us, k) >= 0 && us[LastOp(us, k)].Put? ==>
              k in Apply(t, us) && Apply(t, us)[k] == us[LastOp(us, k)].value
    ensures LastOp(us, k) >= 0 && us[LastOp(us, k)].Delete? ==> k !in Apply(t, us)
  {
    if us != [] {
      LastWriterWins(t, us[..|us| - 1], k);
    }
  }

  lemma {:induction false} ApplySplit(t: Cells, a: seq<Update>, b: seq<Update>)
    ensures Apply(t, a + b) == Apply(Apply(t, a), b)
  {
    if b == [] {
      assert a + b == a;
    } else {
      var b' := b[..|b| - 1];
      assert (a + b)[..|a + b| - 1] == a + b';
      ApplySplit(t, a, b');
    }
  }

  lemma {:induction false} Extensional(t: Cells, t': Cells)
    requires forall k :: SameCell(t, t', k)
    ensures t == t'
  {
    forall k | k in t || k in t'
      ensures k in t && k in t' && t[k] == t'[k]
    {
      assert SameCell(t, t', k);
    }
  }

  /** Replaying any suffix of what has already been applied changes nothing. */
  lemma {:induction false} Absorb(t: Cells, us: seq<Update>, b: nat)
    requires b <= |us|
    ensures Apply(Apply(t, us), us[b..]) == Apply(t, us)
  {
    var done := Apply(t, us);
    forall k
      ensures SameCell(Apply(done, us[b..]), done, k)
    {
      LastWriterWins(t, us, k);
      LastWriterWins(done, us[b..], k);
      var i := LastOp(us[b..], k);
      if i >= 0 {
        assert us[b..][i] == us[b + i];
        assert forall j :: b + i < j < |us| ==> us[j] == us[b..][j - b];
        assert LastOp(us, k) == b + i;
      }
    }
    Extensional(Apply(done, us[b..]), done);
  }

  /** Catching up may start anywhere in what is already there: a table that reflects
      `h[..a]` and then replays `h[b..n]` with `b <= a` reflects `h[..n]`. */
  lemma {:induction false} Overlap(t: Cells, h: seq<Update>, b: nat, a: nat, n: nat)
    requires b <= a <= n <= |h|
    ensures Apply(Apply(t, h[..a]), h[b..n]) == Apply(t, h[..n])
  {
    assert h[b..n] == h[b..a] + h[a..n];
    ApplySplit(Apply(t, h[..a]), h[b..a], h[a..n]);
    assert h[..a][b..] == h[b..a];
    Absorb(t, h[..a], b);
    assert h[..n] == h[..a] + h[a..n];
    ApplySplit(t, h[..a], h[a..n]);
  }

  // ------------------------------------------------- what the log replay does

  /** One replayed log command. A DELETE whose cell exists erases the column named like the
      row, not the column it names. */
  function Replay1(t: Cells, u: Update): Cells {
    match u
    case Put(r, c, v) => t[(r, c) := v]
    case Delete(r, c) => if (r, c) in t then t - {(r, r)} else t
  }

  function Replay(t: Cells, us: seq<Update>): Cells {
    if us == [] then t
    else Replay1(Replay(t, us[..|us| - 1]), us[|us| - 1])
  }

  /** The DELETE at `i` does no lasting harm: its own cell is written again later, and the
      cell it erases instead is written later or ends up deleted anyway. */
  predicate Masked(us: seq<Update>, i: nat)
    requires i < |us|
  {
    var own := LastOp(us, us[i].Key());
    var hit := LastOp(us, (us[i].row, us[i].row));
    own >= 0 && us[own].Put? && hit >= 0 && (us[hit].Delete? || hit > i)
  }

  /** Every DELETE of the log names a column equal to its row, or is masked. */
  predicate Harmless(us: seq<Update>) {
    forall i :: 0 <= i < |us| && us[i].Delete? && us[i].row != us[i].col ==> Masked(us, i)
  }

  lemma {:induction false} ReplaySplit(t: Cells, a: seq<Update>, b: seq<Update>)
    ensures Replay(t, a + b) == Replay(Replay(t, a), b)
  {
    if b == [] {
      assert a + b == a;
    } else {
      var b' := b[..|b| - 1];
      assert (a + b)[..|a + b| - 1] == a + b';
      ReplaySplit(t, a, b');
    }
  }

  /** A cell off the diagonal is never erased by the replay. */
  lemma {:induction false} OffDiagonalStays(t: Cells, us: seq<Update>, k: Key)
    requires k.0 != k.1 && k in t
    ensures k in Replay(t, us)
  {
    if us != [] {
      OffDiagonalStays(t, us[..|us| - 1], k);
    }
  }

  /** Off the diagonal, a log that never deletes `k` replays it correctly. */
  lemma {:induction false} OffDiagonalCell(t: Cells, us: seq<Update>, k: Key)
    requires k.0 != k.1
    requires LastOp(us, k) >= 0 ==> us[LastOp(us, k)].Put?
    ensures SameCell(Replay(t, us), Apply(t, us), k)
  {
    LastWriterWins(t, us, k);
    var i := LastOp(us, k);
    if i >= 0 {
      ReplayAt(t, us, i);
      UntouchedOffDiagonal(Replay1(Replay(t, us[..i]), us[i]), us[i + 1..], k);
    } else {
      UntouchedOffDiagonal(t, us, k);
    }
  }

  lemma {:induction false} UntouchedOffDiagonal(t: Cells, us: seq<Update>, k: Key)
    requires k.0 != k.1 && forall j :: 0 <= j < |us| ==> us[j].Key() != k
    ensures SameCell(Replay(t, us), t, k)
  {
    if us != [] {
      UntouchedOffDiagonal(t, us[..|us| - 1], k);
    }
  }

  /** Without a PUT of the diagonal cell it never comes back. */
  lemma {:induction false} DiagonalStaysAbsent(t: Cells, us: seq<Update>, r: string)
    requires (r, r) !in t
    requires forall j :: 0 <= j < |us| && us[j].Put? ==> us[j].Key() != (r, r)
    ensures (r, r) !in Replay(t, us)
  {
    if us != [] {
      DiagonalStaysAbsent(t, us[..|us| - 1], r);
    }
  }

  /** Without an update of the diagonal cell or a DELETE in its row it is left alone. */
  lemma {:induction false} DiagonalUntouched(t: Cells, us: seq<Update>, r: string)
    requires forall j :: 0 <= j < |us| ==> us[j].Key() != (r, r) && (us[j].Delete? ==> us[j].row != r)
    ensures SameCell(Replay(t, us), t, (r, r))
  {
    if us != [] {
      DiagonalUntouched(t, us[..|us| - 1], r);
    }
  }

  lemma {:induction false} DiagonalCell(t: Cells, us: seq<Update>, r: string)
    requires Harmless(us)
    ensures SameCell(Replay(t, us), Apply(t, us), (r, r))
  {
    var k := (r, r);
    LastWriterWins(t, us, k);
    var i := LastOp(us, k);
    if i < 0 {
      DiagonalUntouched(t, us, r);
    } else {
      ReplayAt(t, us, i);
      var mid := Replay1(Replay(t, us[..i]), us[i]);
      if us[i].Delete? {
        DiagonalStaysAbsent(mid, us[i + 1..], r);
      } else {
        forall j | i < j < |us|
          ensures us[j].Delete? ==> us[j].row != r
        {
          assert us[j].Key() != k;
          assert us[j].Delete? && us[j].row != us[j].col ==> Masked(us, j);
        }
        DiagonalUntouched(mid, us[i + 1..], r);
      }
    }
  }

  /** A replay, seen from its update number `i`. */
  lemma {:induction false} ReplayAt(t: Cells, us: seq<Update>, i: nat)
    requires i < |us|
    ensures Replay(t, us) == Replay(Replay1(Replay(t, us[..i]), us[i]), us[i + 1..])
  {
    var one := [us[i]];
    assert us == us[..i] + one + us[i + 1..];
    ReplaySplit(t, us[..i] + one, us[i + 1..]);
    ReplaySplit(t, us[..i], one);
    assert one[..0] == [];
  }

  lemma {:induction false} HarmlessReplays(t: Cells, us: seq<Update>)
    requires Harmless(us)
    ensures Replay(t, us) == Apply(t, us)
  {
    forall k: Key
      ensures SameCell(Replay(t, us), Apply(t, us), k)
    {
      if k.0 == k.1 {
        DiagonalCell(t, us, k.0);
      } else {
        OffDiagonalCell(t, us, k);
      }
    }
    Extensional(Replay(t, us), Apply(t, us));
  }

  /** A DELETE that is not masked is replayed wrongly from some table: a cell is kept that
      should be gone, or gone that should be kept. */
  lemma {:induction false} Unmasked(us: seq<Update>, i: nat) returns (t: Cells, k: Key)
    requires i < |us| && us[i].Delete? && us[i].row != us[i].col && !Masked(us, i)
    ensures (k in Replay(t, us)) != (k in Apply(t, us))
  {
    var own, hit := us[i].Key(), (us[i].row, us[i].row);
    t := map[own := "", hit := ""];
    LastWriterWins(t, us, own);
    LastWriterWins(t, us, hit);
    OffDiagonalStays(t, us, own);
    if us[LastOp(us, own)].Put? {
      ReplayAt(t, us, i);
      OffDiagonalStays(t, us[..i], own);
      DiagonalStaysAbsent(Replay1(Replay(t, us[..i]), us[i]), us[i + 1..], us[i].row);
      k := hit;
    } else {
      k := own;
    }
  }

  /** Exactly which logs the code replays correctly, from whatever table it starts. */
  lemma {:induction false} ReplayCorrectIff(us: seq<Update>)
    ensures Harmless(us) <==> forall t :: Replay(t, us) == Apply(t, us)
  {
    if Harmless(us) {
      forall t
        ensures Replay(t, us) == Apply(t, us)
      {
        HarmlessReplays(t, us);
      }
    } else {
      var i :| 0 <= i < |us| && us[i].Delete? && us[i].row != us[i].col && !Masked(us, i);
      var t, k := Unmasked(us, i);
    }
  }

  /** The smallest failure: after one effective DELETE the deleted cell is still there. */
  lemma {:induction false} ReplayKeepsDeletedCell()
    ensures Replay(map[("r", "c") := "v"], [Delete("r", "c")]) == map[("r", "c") := "v"]
    ensures Apply(map[("r", "c") := "v"], [Delete("r", "c")]) == map[]
  {
    var us := [Delete("r", "c")];
    assert us[..|us| - 1] == [];
  }
}
