/** Reading the answer to GET on the client, piece by piece, and when that is independent of
    the pieces. */
module GetReply {
  import opened Text
  import opened Wire

  const SHUTDOWN := "-ERR Server shutting down"
  const NULL_ERR := "-ERR NULL"

  predicate Contains(s: string, p: string) {
    Find(s, p) != NPOS
  }

  /** What `read_get_data` returns; `Waiting` when it would block for more. */
  datatype Outcome = Text(text: string) | Crash | Waiting

  /** The decision on everything read so far. An empty piece is a closed connection. */
  function Decide(read: string, closed: bool): Outcome {
    if Contains(read, SHUTDOWN) || closed then Crash
    else if Contains(read, "DATA\r\n") && Contains(read, TERM) then
      Text(if |read| <= 11 then "" else read[6..|read| - 5])
    else if Contains(read, NULL_ERR) && Contains(read, "\r\n") then Text(NULL_ERR)
    else Waiting
  }

  function Scan(read: string, pieces: seq<string>): Outcome
    decreases |pieces|
  {
    if pieces == [] then Waiting
    else
      var now := read + pieces[0];
      var r := Decide(now, pieces[0] == "");
      if r.Waiting? then Scan(now, pieces[1..]) else r
  }

  /** `read_get_data`. */
  method ReadGetData(pieces: seq<string>) returns (r: Outcome)
    ensures r == Scan("", pieces)
  {
    hide Contains;
    var complete, i := "", 0;
    r := Waiting;
    while i < |pieces| && r.Waiting?
      invariant i <= |pieces|
      invariant Scan("", pieces) == if r.Waiting? then Scan(complete, pieces[i..]) else r
    {
      assert pieces[i..][1..] == pieces[i + 1..];
      complete := complete + pieces[i];
      r := Decide(complete, pieces[i] == "");
      i := i + 1;
    }
  }

  /** A connection that is closed before anything was decided counts as a crash. */
  lemma {:induction false} ClosedIsCrash(read: string, more: seq<string>)
    ensures Scan(read, [""] + more) == Crash
  {
    hide Contains;
    assert ([""] + more)[0] == "" && read + "" == read;
  }

  predicate Pieces(s: string, pieces: seq<string>) {
    Flatten(pieces) == s && forall i :: 0 <= i < |pieces| ==> pieces[i] != ""
  }

  lemma {:induction false} FlattenCons(pieces: seq<string>)
    requires pieces != []
    ensures Flatten(pieces) == pieces[0] + Flatten(pieces[1..])
  {
    if |pieces| == 1 {
      assert pieces[..0] == [] && pieces[1..] == [];
    } else {
      var front := pieces[..|pieces| - 1];
      FlattenCons(front);
      assert front[1..] == pieces[1..][..|pieces| - 2];
    }
  }

  /** A prefix of the reply that has the end mark is the whole reply. */
  lemma {:induction false} WholeReply(d: string, read: string)
    requires Clean(d) && read <= Frame("DATA", d)
    ensures Contains(read, TERM) <==> read == Frame("DATA", d)
    ensures Contains(Frame("DATA", d), "DATA\r\n")
  {
    hide At, FindFrom, Clean;
    var f := Frame("DATA", d);
    FrameEnd("DATA", d);
    if Contains(read, TERM) {
      FindInPrefix(read, f, TERM);
      TermAt(read, Find(read, TERM));
    }
    assert f == "DATA\r\n" + (d + TERM);
    FindAtStart("DATA\r\n", d + TERM);
  }

  lemma {:induction false} DecidePrefix(d: string, read: string)
    requires Clean(d) && read <= Frame("DATA", d)
    requires var f := Frame("DATA", d); !Contains(f, SHUTDOWN) && (Contains(f, NULL_ERR) ==> d == NULL_ERR)
    ensures var r := Decide(read, false);
            r == Text(d) || (r == Waiting && read != Frame("DATA", d))
  {
    hide FindFrom, Clean, At;
    var f := Frame("DATA", d);
    WholeReply(d, read);
    if Contains(read, SHUTDOWN) {
      FindInPrefix(read, f, SHUTDOWN);
    }
    if Contains(read, NULL_ERR) {
      FindInPrefix(read, f, NULL_ERR);
    }
    if read == f {
      assert f[6..|f| - 5] == d;
    }
  }

  lemma {:induction false} ScanExact(d: string, read: string, pieces: seq<string>)
    requires Clean(d) && read + Flatten(pieces) == Frame("DATA", d) && pieces != []
    requires forall i :: 0 <= i < |pieces| ==> pieces[i] != ""
    requires var f := Frame("DATA", d); !Contains(f, SHUTDOWN) && (Contains(f, NULL_ERR) ==> d == NULL_ERR)
    ensures Scan(read, pieces) == Text(d)
    decreases |pieces|
  {
    hide Contains, Clean, Decide;
    var f, now := Frame("DATA", d), read + pieces[0];
    FlattenCons(pieces);
    assert now + Flatten(pieces[1..]) == f;
    DecidePrefix(d, now);
    if Decide(now, false) == Waiting {
      assert pieces[1..] != [];
      ScanExact(d, now, pieces[1..]);
    }
  }

  /** The client gets a stored value back, however the reply is cut into pieces, exactly if
      the reply holds neither error marker (or is the second one itself). */
  lemma {:induction false} GetExactIff(d: string)
    requires Clean(d)
    ensures (forall pieces :: Pieces(Frame("DATA", d), pieces) ==> Scan("", pieces) == Text(d))
            <==> !Contains(Frame("DATA", d), SHUTDOWN) && (Contains(Frame("DATA", d), NULL_ERR) ==> d == NULL_ERR)
  {
    var f := Frame("DATA", d);
    if !Contains(f, SHUTDOWN) && (Contains(f, NULL_ERR) ==> d == NULL_ERR) {
      forall pieces | Pieces(f, pieces)
        ensures Scan("", pieces) == Text(d)
      {
        assert "" + Flatten(pieces) == f;
        ScanExact(d, "", pieces);
      }
    } else if Contains(f, SHUTDOWN) {
      OnePiece(f);
      assert Scan("", [f]) == Crash;
    } else {
      CutAfterMarker(d);
    }
  }

  lemma {:induction false} OnePiece(f: string)
    requires f != ""
    ensures Pieces(f, [f])
  {
    assert [f][..0] == [];
    assert "" + f == f;
  }

  /** The first occurrence of the marker lies after the first line. */
  lemma {:induction false} MarkerAfterHead(d: string)
    requires Contains(Frame("DATA", d), NULL_ERR)
    ensures var f := Frame("DATA", d); 6 <= Find(f, NULL_ERR) < |f| - 13
  {
    hide FindFrom;
    var f := Frame("DATA", d);
    var m := Find(f, NULL_ERR);
    AtChar(f, NULL_ERR, m, 0);
    AtChar(f, NULL_ERR, m, 8);
    assert f[..6] == "DATA\r\n";
    var e := f[|f| - 5..];
    assert e == TERM;
    assert forall x :: 0 <= x < 6 ==> f[x] == f[..6][x];
    assert forall x :: |f| - 5 <= x < |f| ==> f[x] == e[x - (|f| - 5)];
  }

  /** What has been read once the marker has arrived is taken for a missing cell. */
  lemma {:induction false} MarkerDecides(f: string, d: string, k: nat)
    requires Clean(d) && f == Frame("DATA", d) && !Contains(f, SHUTDOWN)
    requires 15 <= k < |f| && At(f, NULL_ERR, k - 9)
    ensures Decide(f[..k], false) == Text(NULL_ERR)
  {
    hide FindFrom, Clean;
    var a := f[..k];
    assert a[k - 9..k] == f[k - 9..k];
    assert At(a, NULL_ERR, k - 9);
    assert f[4..6] == "\r\n";
    assert a[4..6] == f[4..6];
    assert At(a, "\r\n", 4);
    WholeReply(d, a);
    if Contains(a, SHUTDOWN) {
      FindInPrefix(a, f, SHUTDOWN);
    }
  }

  lemma {:induction false} ScanPair(a: string, b: string)
    requires a != "" && !Decide(a, false).Waiting?
    ensures Scan("", [a, b]) == Decide(a, false)
  {
    hide Decide;
    assert "" + a == a;
  }

  /** Cut right after the marker, the reply is taken for a missing cell. */
  lemma {:induction false} CutAfterMarker(d: string)
    requires Clean(d)
    requires var f := Frame("DATA", d); !Contains(f, SHUTDOWN) && Contains(f, NULL_ERR) && d != NULL_ERR
    ensures exists pieces :: Pieces(Frame("DATA", d), pieces) && Scan("", pieces) != Text(d)
  {
    hide FindFrom, Clean, Decide, Scan, Flatten;
    var f := Frame("DATA", d);
    MarkerAfterHead(d);
    var k := Find(f, NULL_ERR) + 9;
    MarkerDecides(f, d, k);
    var a, b := f[..k], f[k..];
    ScanPair(a, b);
    TwoPieces(a, b);
    assert a + b == f;
    var pieces := [a, b];
    assert Pieces(f, pieces);
    assert Scan("", pieces) == Text(NULL_ERR);
  }

  lemma {:induction false} TwoPieces(a: string, b: string)
    ensures Flatten([a, b]) == a + b
  {
    FlattenCons([a, b]);
    FlattenCons([b]);
    assert [a, b][1..] == [b];
    assert [b][1..] == [];
    assert b + "" == b;
  }
}
