/** The master's placement of rows on nodes: the least loaded node gets the next row. */
module Placement {
  import opened Text

  /** Which node holds a row, and how many rows each node was given. */
  datatype Table = Table(index: map<string, nat>, rows: seq<nat>)

  /** The first node with the fewest rows among those from `i` on, if fewer than `best` has. */
  function Least(rows: seq<nat>, i: nat, best: nat): (m: nat)
    requires i <= |rows| && best < |rows|
    ensures m < |rows| && rows[m] <= rows[best]
    ensures forall j :: i <= j < |rows| ==> rows[m] <= rows[j]
    ensures m == best || (i <= m && rows[m] < rows[best] && forall j :: i <= j < m ==> rows[m] < rows[j])
    decreases |rows| - i
  {
    if i == |rows| then best
    else Least(rows, i + 1, if rows[i] < rows[best] then i else best)
  }

  /** One WHERE: a known row stays where it is. */
  function Where(t: Table, row: string): (r: Table)
    requires |t.rows| > 0
    ensures |r.rows| == |t.rows| && row in r.index
  {
    if row in t.index then t
    else
      var m := Least(t.rows, 0, 0);
      Table(t.index[row := m], t.rows[m := t.rows[m] + 1])
  }

  function Run(t: Table, asked: seq<string>): (r: Table)
    requires |t.rows| > 0
    ensures |r.rows| == |t.rows|
  {
    if asked == [] then t else Where(Run(t, asked[..|asked| - 1]), asked[|asked| - 1])
  }

  function Zeros(n: nat): (s: seq<nat>)
    ensures |s| == n && forall i :: 0 <= i < n ==> s[i] == 0
  {
    seq(n, _ => 0)
  }

  function Start(n: nat): Table {
    Table(map[], Zeros(n))
  }

  // ------------------------------------------------------------ what every request keeps

  /** The rows mapped to a node. */
  function RowsOf(index: map<string, nat>, i: nat): set<string> {
    set r | r in index && index[r] == i
  }

  ghost predicate Counted(t: Table) {
    && (forall r :: r in t.index ==> t.index[r] < |t.rows|)
    && (forall i: nat :: i < |t.rows| ==> t.rows[i] == |RowsOf(t.index, i)|)
  }

  ghost predicate Level(rows: seq<nat>) {
    forall i, j :: 0 <= i < |rows| && 0 <= j < |rows| ==> rows[i] <= rows[j] + 1
  }

  function Sum(rows: seq<nat>): nat {
    if rows == [] then 0 else Sum(rows[..|rows| - 1]) + rows[|rows| - 1]
  }

  lemma {:induction false} OneMore(rows: seq<nat>, m: nat)
    requires m < |rows|
    ensures Sum(rows[m := rows[m] + 1]) == Sum(rows) + 1
  {
    var front, more := rows[..|rows| - 1], rows[m := rows[m] + 1];
    if m == |rows| - 1 {
      assert more[..|rows| - 1] == front;
    } else {
      assert more[..|rows| - 1] == front[m := front[m] + 1];
      OneMore(front, m);
    }
  }

  lemma {:induction false} NewRow(index: map<string, nat>, row: string, m: nat, i: nat)
    requires row !in index
    ensures |RowsOf(index[row := m], i)| == |RowsOf(index, i)| + if i == m then 1 else 0
  {
    if i == m {
      assert RowsOf(index[row := m], i) == RowsOf(index, i) + {row};
    } else {
      assert RowsOf(index[row := m], i) == RowsOf(index, i);
    }
  }

  lemma {:induction false} LevelNext(rows: seq<nat>, m: nat)
    requires m < |rows| && Level(rows) && forall j :: 0 <= j < |rows| ==> rows[m] <= rows[j]
    ensures Level(rows[m := rows[m] + 1])
  {
  }

  lemma {:induction false} CountedNext(t: Table, row: string, m: nat)
    requires m < |t.rows| && Counted(t) && row !in t.index
    ensures Counted(Table(t.index[row := m], t.rows[m := t.rows[m] + 1]))
  {
    hide RowsOf;
    var rows := t.rows[m := t.rows[m] + 1];
    forall i: nat | i < |t.rows|
      ensures rows[i] == |RowsOf(t.index[row := m], i)|
    {
      NewRow(t.index, row, m, i);
    }
  }

  lemma {:induction false} WhereKeeps(t: Table, row: string)
    requires |t.rows| > 0 && Counted(t) && Level(t.rows) && Sum(t.rows) == |t.index|
    ensures var r := Where(t, row);
            && Counted(r) && Level(r.rows) && Sum(r.rows) == |r.index|
            && forall x :: x in t.index ==> x in r.index && r.index[x] == t.index[x]
  {
    hide Counted, Level, Sum;
    if row !in t.index {
      var m := Least(t.rows, 0, 0);
      OneMore(t.rows, m);
      LevelNext(t.rows, m);
      CountedNext(t, row, m);
    }
  }

  lemma {:induction false} NothingPlaced(n: nat)
    ensures Counted(Start(n)) && Level(Start(n).rows) && Sum(Start(n).rows) == 0
  {
    forall i: nat | i < n
      ensures |RowsOf(map[], i)| == 0
    {
      assert RowsOf(map[], i) == {};
    }
    NoRows(n);
  }

  lemma {:induction false} NoRows(n: nat)
    ensures Sum(Zeros(n)) == 0
  {
    if n > 0 {
      NoRows(n - 1);
      assert Zeros(n)[..n - 1] == Zeros(n - 1);
    }
  }

  lemma {:induction false} RunKeeps(n: nat, asked: seq<string>)
    requires n > 0
    ensures var t := Run(Start(n), asked);
            Counted(t) && Level(t.rows) && Sum(t.rows) == |t.index|
  {
    hide Counted, Level, Sum, Where;
    NothingPlaced(n);
    if asked != [] {
      RunKeeps(n, asked[..|asked| - 1]);
      WhereKeeps(Run(Start(n), asked[..|asked| - 1]), asked[|asked| - 1]);
    }
  }

  /** A row never moves. */
  lemma {:induction false} Sticky(n: nat, asked: seq<string>, k: nat, row: string)
    requires n > 0 && k <= |asked| && row in Run(Start(n), asked[..k]).index
    ensures row in Run(Start(n), asked).index
    ensures Run(Start(n), asked).index[row] == Run(Start(n), asked[..k]).index[row]
    decreases |asked|
  {
    hide Where;
    if k == |asked| {
      assert asked[..k] == asked;
    } else {
      var front := asked[..|asked| - 1];
      assert front[..k] == asked[..k];
      Sticky(n, front, k, row);
      RunKeeps(n, front);
      WhereKeeps(Run(Start(n), front), asked[|asked| - 1]);
    }
  }

  lemma {:induction false} SumBounds(rows: seq<nat>, lo: nat)
    requires forall i :: 0 <= i < |rows| ==> lo <= rows[i] <= lo + 1
    ensures lo * |rows| <= Sum(rows) <= lo * |rows| + |rows|
    ensures (exists i :: 0 <= i < |rows| && rows[i] == lo) ==> Sum(rows) < lo * |rows| + |rows|
    ensures (exists i :: 0 <= i < |rows| && rows[i] == lo + 1) ==> Sum(rows) > lo * |rows|
  {
    if rows != [] {
      SumBounds(rows[..|rows| - 1], lo);
      assert lo * |rows| == lo * (|rows| - 1) + lo;
    }
  }

  /** The rows are spread evenly: every node has the floor or the ceiling of R / n, where R is
      the number of rows placed; and each count is the number of rows mapped to the node. */
  lemma {:induction false} EvenlyPlaced(n: nat, asked: seq<string>, i: nat)
    requires i < n
    ensures var t := Run(Start(n), asked);
            var total := |t.index|;
            && t.rows[i] == |RowsOf(t.index, i)|
            && (t.rows[i] == total / n || (t.rows[i] == total / n + 1 && total % n != 0))
  {
    RunKeeps(n, asked);
    var t := Run(Start(n), asked);
    var m := Least(t.rows, 0, 0);
    var lo := t.rows[m];
    SumBounds(t.rows, lo);
    Quotient(Sum(t.rows), n, lo);
  }

  lemma {:induction false} Quotient(total: nat, n: nat, lo: nat)
    requires n > 0 && lo * n <= total < lo * n + n
    ensures total / n == lo && (total > lo * n ==> total % n != 0)
  {
    var q, r := total / n, total % n;
    assert total == q * n + r;
    if q < lo {
      Monotone(q + 1, lo, n);
    } else if q > lo {
      Monotone(lo + 1, q, n);
    }
  }

  lemma {:induction false} Monotone(a: nat, b: nat, n: nat)
    requires a <= b
    ensures a * n <= b * n
  {
  }

  // ------------------------------------------------------------ the master's object

  class Master {
    var index: map<string, nat>
    var rows: seq<nat>
    const addresses: seq<string>

    ghost predicate Valid()
      reads this
    {
      |rows| == |addresses| > 0 && forall r :: r in index ==> index[r] < |rows|
    }

    constructor (addresses: seq<string>)
      requires addresses != []
      ensures Valid() && this.addresses == addresses && Now() == Start(|addresses|)
    {
      this.addresses := addresses;
      index, rows := map[], Zeros(|addresses|);
    }

    function Now(): Table
      reads this
    {
      Table(index, rows)
    }

    /** `parse_WHERE` for one row: the address of its node's primary. */
    method ParseWhere(row: string) returns (reply: string)
      requires Valid()
      modifies `index, `rows
      ensures Valid() && Now() == Where(old(Now()), row)
      ensures reply == "SERVER <" + addresses[index[row]] + ">\r\n"
      ensures row in old(index) ==> index == old(index) && rows == old(rows)
      ensures row !in old(index) ==>
                && index == old(index)[row := index[row]] && rows == old(rows)[index[row] := old(rows)[index[row]] + 1]
                && (forall j :: 0 <= j < |rows| ==> old(rows)[index[row]] <= old(rows)[j])
                && (forall j :: 0 <= j < index[row] ==> old(rows)[index[row]] < old(rows)[j])
    {
      if row !in index {
        var min, minID := rows[0], 0;
        var i := 0;
        while i < |rows|
          invariant 0 <= i <= |rows| && minID < |rows| && min == rows[minID]
          invariant Least(rows, 0, 0) == Least(rows, i, minID)
        {
          if rows[i] < min {
            minID := i;
            min := rows[i];
          }
          i := i + 1;
        }
        index := index[row := minID];
        rows := rows[minID := rows[minID] + 1];
      }
      reply := "SERVER <" + addresses[index[row]] + ">\r\n";
    }
  }
}
