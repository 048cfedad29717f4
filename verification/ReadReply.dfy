/** `do_read` gives back what is stored, wherever the network cuts the reply. */
module ReadReply {
  import opened Text
  import opened Wire
  import opened GetReply
  import opened Buffer

  /** What follows the first line of the reply for a value `d`. */
  function DataPart(d: string): string {
    (d + CRLF) + ".\r\n"
  }

  /** Whole lines of the value. */
  predicate Boundary(d: string, response: string) {
    && response <= d + CRLF
    && (response == "" || (|response| >= 2 && response[|response| - 2] == '\r' && response[|response| - 1] == '\n'))
  }

  lemma {:induction false} CrlfAt(s: string, i: int)
    ensures At(s, CRLF, i) <==> 0 <= i <= |s| - 2 && s[i] == '\r' && s[i + 1] == '\n'
  {
    if 0 <= i <= |s| - 2 {
      assert s[i..i + 2] == [s[i], s[i + 1]];
    }
  }

  /** The characters of the data part around its end. */
  lemma {:induction false} EndChars(d: string)
    ensures var t, n := DataPart(d), |d| + 2;
            && |t| == n + 3 && t[n - 2] == '\r' && t[n - 1] == '\n'
            && t[n] == '.' && t[n + 1] == '\r' && t[n + 2] == '\n'
            && forall i :: 0 <= i < n ==> t[i] == (d + CRLF)[i]
  {
  }

  /** A lone dot after whole lines is the end. */
  lemma {:induction false} LoneDot(d: string, response: string)
    requires Clean(d) && Boundary(d, response) && response + ".\r\n" <= DataPart(d)
    ensures response == d + CRLF
  {
    hide Find, FindFrom, At, DataPart;
    var t, q, n := DataPart(d), |response|, |d| + 2;
    EndChars(d);
    var p := response + ".\r\n";
    assert t[q] == p[q] == '.' && t[q + 1] == p[q + 1] == '\r' && t[q + 2] == p[q + 2] == '\n';
    var e := "\r\n" + (d + "\r\n");
    assert q + 3 <= n ==> At(e, TERM, q) by {
      TermAt(e, q);
      assert forall i :: 0 <= i < n ==> e[i + 2] == (d + CRLF)[i];
      assert q > 0 ==> e[q] == response[q - 2] && e[q + 1] == response[q - 1];
    }
  }

  /** The first line end in the rest of the data part lies in the value, unless only the end
      is left. */
  lemma {:induction false} EndInside(d: string, q: nat, k: nat)
    requires q <= |d| + 2 && q != |d| + 1
    requires var t := DataPart(d); q + k + 2 <= |t| && t[q + k] == '\r' && t[q + k + 1] == '\n'
    requires var t := DataPart(d); forall i :: q <= i < q + k ==> !(t[i] == '\r' && t[i + 1] == '\n')
    ensures q + k + 2 <= |d| + 2 || (q == |d| + 2 && k == 1)
  {
    hide DataPart;
    EndChars(d);
  }

  /** Whole lines do not end between the CR and the LF that end the value. */
  lemma {:induction false} BoundaryAt(d: string, response: string)
    requires Boundary(d, response)
    ensures |response| <= |d| + 2 && |response| != |d| + 1
  {
    var body := d + CRLF;
    assert |response| >= 1 ==> response[|response| - 1] == body[|response| - 1];
  }

  lemma {:induction false} AfterPrefix(t: string, response: string, pending: string)
    requires response + pending <= t
    ensures pending <= t[|response|..]
  {
    var p := response + pending;
    assert t[..|p|] == p;
    assert t[|response|..][..|pending|] == p[|response|..] == pending;
  }

  lemma {:induction false} FirstEnd(t: string, response: string, pending: string)
    requires response + pending <= t && Find(pending, CRLF) != NPOS
    ensures var q, k := |response|, Find(pending, CRLF);
            && 0 <= k && q + k + 2 <= |response + pending| && t[q + k] == '\r' && t[q + k + 1] == '\n'
            && forall i :: q <= i < q + k ==> !(t[i] == '\r' && t[i + 1] == '\n')
  {
    hide FindFrom, At;
    AfterPrefix(t, response, pending);
    var q, k := |response|, Find(pending, CRLF);
    var rest := t[q..];
    CrlfAt(pending, k);
    assert t[q + k] == rest[k] == pending[k] && t[q + k + 1] == rest[k + 1] == pending[k + 1];
    forall i | q <= i < q + k
      ensures !(t[i] == '\r' && t[i + 1] == '\n')
    {
      var x := i - q;
      CrlfAt(pending, x);
      assert t[i] == rest[x] == pending[x] && t[i + 1] == rest[x + 1] == pending[x + 1];
    }
  }

  lemma {:induction false} OnlyEndLeft(d: string, response: string, pending: string)
    requires response + pending <= DataPart(d) && |response| == |d| + 2 && |pending| >= 3
    ensures pending == ".\r\n"
  {
    hide DataPart;
    EndChars(d);
    var t, p := DataPart(d), response + pending;
    assert |p| == |t| && p == t;
    assert pending == p[|response|..];
    assert pending == [t[|d| + 2], t[|d| + 3], t[|d| + 4]];
  }

  /** The next line that is not the end is a line of the value. */
  lemma {:induction false} NextLine(d: string, response: string, pending: string)
    requires Boundary(d, response) && response + pending <= DataPart(d)
    requires Find(pending, CRLF) != NPOS && pending != ".\r\n"
    ensures Boundary(d, response + FullLine(pending))
  {
    hide Find, DataPart, Boundary;
    var t, q, n, k := DataPart(d), |response|, |d| + 2, Find(pending, CRLF);
    FirstEnd(t, response, pending);
    BoundaryAt(d, response);
    EndInside(d, q, k);
    if q == n && |pending| >= 3 {
      OnlyEndLeft(d, response, pending);
    }
    Grown(d, response, pending, k);
  }

  lemma {:induction false} Grown(d: string, response: string, pending: string, k: nat)
    requires response + pending <= DataPart(d) && k + 2 <= |pending| && |response| + k + 2 <= |d| + 2
    requires pending[k] == '\r' && pending[k + 1] == '\n'
    ensures Boundary(d, response + pending[..k + 2])
  {
    var r := response + pending[..k + 2];
    assert r == DataPart(d)[..|r|];
    assert r == (d + CRLF)[..|r|];
  }

  /** Once everything has arrived there is a line end left to take. */
  lemma {:induction false} EndArrives(d: string, response: string, pending: string)
    requires Boundary(d, response) && response + pending == DataPart(d)
    ensures Find(pending, CRLF) != NPOS
  {
    hide FindFrom, At, DataPart;
    var t, q := DataPart(d), |response|;
    EndChars(d);
    CrlfAt(pending, |d| + 3 - q);
    assert pending == t[q..];
  }

  /** Draining the buffer takes whole lines of the value, and the end if it has arrived. */
  lemma {:induction false} DrainData(d: string, r: Reader)
    requires Clean(d) && r.inData && !r.quit
    requires r.response + r.pending <= DataPart(d) && Boundary(d, r.response)
    ensures var t := Drain(r);
            && t.inData
            && if t.quit then r.response + r.pending == DataPart(d) && t.response == d + CRLF
               else t.response + t.pending == r.response + r.pending && Boundary(d, t.response)
                    && Find(t.pending, CRLF) == NPOS
    decreases |r.pending|
  {
    hide Find, Clean, DataPart, Boundary;
    if Find(r.pending, CRLF) != NPOS {
      LineFits(r.pending);
      if r.pending == ".\r\n" {
        LoneDot(d, r.response);
        DataPartIs(d);
      } else {
        NextLine(d, r.response, r.pending);
        var line := FullLine(r.pending);
        var next := OnLine(r);
        assert r.pending == line + next.pending;
        assert next.response + next.pending == r.response + (line + next.pending);
        DrainData(d, next);
      }
    }
  }

  lemma {:induction false} DataPartIs(d: string)
    ensures d + CRLF + ".\r\n" == DataPart(d)
    ensures Frame("DATA", d) == "DATA\r\n" + DataPart(d)
  {
    assert "DATA" + "\r\n" == "DATA\r\n";
    assert d + TERM == DataPart(d);
  }

  /** The first line of the reply. */
  lemma {:induction false} FirstLine(p: string, d: string)
    requires p <= Frame("DATA", d)
    ensures |p| < 6 ==> Find(p, CRLF) == NPOS
    ensures |p| >= 6 ==> Find(p, CRLF) == 4 && p == "DATA\r\n" + p[6..] && p[6..] <= DataPart(d)
    ensures |p| >= 6 ==> OnLine(Reader(p, false, "", false)) == Reader(p[6..], true, "", false)
  {
    hide FindFrom;
    DataPartIs(d);
    var h := "DATA\r\n";
    var n := if |p| < 6 then |p| else 6;
    assert forall i :: 0 <= i < n ==> p[i] == h[i];
    var k := Find(p, CRLF);
    CrlfAt(p, k);
    CrlfAt(p, 4);
    if |p| >= 6 {
      assert p[..6] == h;
      assert p[6..] == Frame("DATA", d)[6..|p|];
    }
  }

  /** Where reading stands after the part `p` of the reply has arrived. */
  predicate Standing(d: string, r: Reader, p: string) {
    && p <= Frame("DATA", d)
    && if r.quit then p == Frame("DATA", d) && r.response == d + CRLF
       else if r.inData then
         |p| >= 6 && r.response + r.pending == p[6..] && Boundary(d, r.response) && Find(r.pending, CRLF) == NPOS
       else |p| < 6 && r.pending == p && r.response == ""
  }

  lemma {:induction false} FeedKeeps(d: string, r: Reader, p: string, piece: string)
    requires Clean(d) && Standing(d, r, p) && !r.quit && p + piece <= Frame("DATA", d)
    ensures Standing(d, Drain(r.(pending := r.pending + piece)), p + piece)
  {
    hide Find, Clean, DataPart, Boundary, Frame;
    var now, p' := r.(pending := r.pending + piece), p + piece;
    FirstLine(p', d);
    DataPartIs(d);
    if r.inData {
      assert now.response + now.pending == p'[6..];
      DrainData(d, now);
    } else if |p'| >= 6 {
      assert now == Reader(p', false, "", false);
      var next := OnLine(now);
      NothingTaken(d);
      assert next.response + next.pending == p'[6..];
      DrainData(d, next);
    } else {
      DrainDone(now);
    }
    if Drain(now).quit {
      assert p' == "DATA\r\n" + p'[6..];
    }
  }

  lemma {:induction false} NothingTaken(d: string)
    ensures Boundary(d, "")
  {
  }

  // ------------------------------------------------------------ replies of one line

  /** A reply that is complete with its line. */
  predicate OneLineReply(s: string) {
    StartsWithCI(s, "-ERR") || StartsWithCI(s, "+OK") || StartsWithCI(s, "SERVER")
  }

  /** Before its line end nothing of a line is taken. */
  lemma {:induction false} LineWaits(line: string, p: string)
    requires Find(line + CRLF, CRLF) == |line| && p <= line + CRLF
    ensures Find(p, CRLF) == if p == line + CRLF then |line| else NPOS
  {
    hide FindFrom, At;
    var s, k := line + CRLF, Find(p, CRLF);
    CrlfAt(p, k);
    CrlfAt(s, k);
    assert forall i :: 0 <= i < |p| ==> p[i] == s[i];
  }

  /** Then an answer to a command is returned whole, the line that announces a value starts
      it, and every other line is skipped. */
  lemma {:induction false} LineTaken(line: string)
    requires Find(line + CRLF, CRLF) == |line|
    ensures var s := line + CRLF;
            Drain(Reader(s, false, "", false)) ==
            if StartsWithCI(s, "DATA\r\n") then Reader("", true, "", false)
            else if OneLineReply(s) then Reader(s, false, s, true)
            else Reader("", false, "", false)
  {
    hide FindFrom, At, StartsWithCI;
    var s := line + CRLF;
    assert s[..|line| + 2] == s && s[|s|..] == "";
    NoCrlfIn();
    DrainNext(Reader(s, false, "", false));
    hide Find;
    DrainDone(OnLine(Reader(s, false, "", false)));
  }

  lemma {:induction false} NoCrlfIn()
    ensures Find("", CRLF) == NPOS
  {
  }

  lemma {:induction false} NotBoth(s: string)
    ensures StartsWithCI(s, "DATA\r\n") ==> !OneLineReply(s)
  {
    if StartsWithCI(s, "DATA\r\n") {
      assert Lower(s[0]) == Lower("DATA\r\n"[0]) == 'd';
      assert Lower("-ERR"[0]) == '-' && Lower("+OK"[0]) == '+' && Lower("SERVER"[0]) == 's';
    }
  }

  lemma {:induction false} OneLineFed(line: string, p: string, pieces: seq<string>)
    requires Find(line + CRLF, CRLF) == |line| && |line| + 2 < BUFF_SIZE
    requires p + Flatten(pieces) == line + CRLF && p != line + CRLF
    requires forall i :: 0 <= i < |pieces| ==> pieces[i] != ""
    ensures ReadAll(Reader(p, false, "", false), pieces) ==
            if OneLineReply(line + CRLF) then Done(line + CRLF) else Result.Waiting
    decreases |pieces|
  {
    hide Find, Drain, OneLineReply, StartsWithCI;
    assert p + "" == p;
    if pieces != [] {
      FlattenCons(pieces);
      var now, more := p + pieces[0], Flatten(pieces[1..]);
      assert now + more == line + CRLF && now <= line + CRLF;
      LineWaits(line, now);
      if now == line + CRLF {
        assert |more| == 0;
        NothingMore(pieces[1..]);
        LineTaken(line);
        NotBoth(now);
      } else {
        DrainDone(Reader(now, false, "", false));
        OneLineFed(line, now, pieces[1..]);
      }
    }
  }

  lemma {:induction false} NothingMore(pieces: seq<string>)
    requires |Flatten(pieces)| == 0 && forall i :: 0 <= i < |pieces| ==> pieces[i] != ""
    ensures pieces == []
  {
  }

  /** A line is returned as the reply, however it is cut, exactly if it is an error, an
      acknowledgement or the address of a server; otherwise the reader waits for more. */
  lemma {:induction false} LineReplyIff(line: string, pieces: seq<string>)
    requires Find(line + CRLF, CRLF) == |line| && |line| + 2 < BUFF_SIZE && Pieces(line + CRLF, pieces)
    ensures ReadAll(EMPTY, pieces) == if OneLineReply(line + CRLF) then Done(line + CRLF) else Result.Waiting
  {
    hide Find, Drain, OneLineReply;
    assert "" + Flatten(pieces) == line + CRLF;
    OneLineFed(line, "", pieces);
  }

  /** What follows the last line end of a text. */
  function AfterLastEnd(p: string): (r: string)
    ensures |r| <= |p|
  {
    var last := RFind(p, CRLF);
    if last == NPOS then p else p[last + 2..]
  }

  /** Each time a piece arrives, it fits the buffer behind what follows the last line end, with
      room for the NUL. */
  predicate Fits(p: string, pieces: seq<string>)
    decreases |pieces|
  {
    pieces == [] || (|AfterLastEnd(p)| + |pieces[0]| < BUFF_SIZE && Fits(p + pieces[0], pieces[1..]))
  }

  lemma {:induction false} LastEndBefore(front: string, rest: string)
    requires Find(rest, CRLF) == NPOS
    requires |front| >= 2 && front[|front| - 2] == '\r' && front[|front| - 1] == '\n'
    ensures AfterLastEnd(front + rest) == rest
  {
    hide At, FindFrom, RFindFrom;
    var p := front + rest;
    CrlfAt(p, |front| - 2);
    var last := RFind(p, CRLF);
    CrlfAt(p, last);
    if last != NPOS {
      CrlfAt(rest, last - |front|);
    }
    assert last == |front| - 2 by {
      assert forall i :: 0 <= i < |rest| ==> p[|front| + i] == rest[i];
    }
  }

  lemma {:induction false} NoEndYet(p: string)
    requires Find(p, CRLF) == NPOS
    ensures AfterLastEnd(p) == p
  {
  }

  /** The unread text is what follows the last line end of all that has arrived. */
  lemma {:induction false} PendingIsRest(d: string, r: Reader, p: string)
    requires Standing(d, r, p) && !r.quit
    ensures AfterLastEnd(p) == r.pending
  {
    hide Find, AfterLastEnd;
    FirstLine(p, d);
    if r.inData {
      var front := "DATA\r\n" + r.response;
      assert p == "DATA\r\n" + (r.response + r.pending) == front + r.pending;
      assert r.response == "" ==> front == "DATA\r\n";
      LastEndBefore(front, r.pending);
    } else {
      NoEndYet(p);
    }
  }

  lemma {:induction false} ScanReply(d: string, r: Reader, p: string, pieces: seq<string>)
    requires Clean(d) && Standing(d, r, p) && p + Flatten(pieces) == Frame("DATA", d)
    requires forall i :: 0 <= i < |pieces| ==> pieces[i] != ""
    ensures r.quit ==> pieces == []
    ensures ReadAll(r, pieces) == if Fits(p, pieces) then Done(d + CRLF) else Overflow
    decreases |pieces|
  {
    hide Clean, Frame, Drain, AfterLastEnd;
    if r.quit {
      if pieces != [] {
        SomethingLeft(pieces);
      }
    } else {
      if pieces == [] {
        assert p + "" == p;
        StillOpen(d, r, p);
      } else {
        PendingIsRest(d, r, p);
        FlattenCons(pieces);
        var p' := p + pieces[0];
        assert p' + Flatten(pieces[1..]) == Frame("DATA", d);
        FeedKeeps(d, r, p, pieces[0]);
        ScanReply(d, Drain(r.(pending := r.pending + pieces[0])), p', pieces[1..]);
      }
    }
  }

  lemma {:induction false} SomethingLeft(pieces: seq<string>)
    requires pieces != [] && forall i :: 0 <= i < |pieces| ==> pieces[i] != ""
    ensures Flatten(pieces) != ""
  {
    assert pieces[|pieces| - 1] != "";
  }

  /** With everything read, reading is over. */
  lemma {:induction false} StillOpen(d: string, r: Reader, p: string)
    requires Standing(d, r, p) && !r.quit
    ensures p != Frame("DATA", d)
  {
    hide Find, DataPart, Boundary;
    DataPartIs(d);
    FirstLine(p, d);
    if r.inData && r.response + r.pending == DataPart(d) {
      EndArrives(d, r.response, r.pending);
    }
  }

  /** A stored value comes back exactly, with the CRLF it is stored with, for exactly those
      ways of cutting the reply in which every piece fits the buffer. */
  lemma {:induction false} ReplyReadExactly(d: string, pieces: seq<string>)
    requires Clean(d) && Pieces(Frame("DATA", d), pieces)
    ensures ReadAll(EMPTY, pieces) == if Fits("", pieces) then Done(d + CRLF) else Overflow
  {
    hide Find, FindFrom, Clean, Flatten, Frame, Fits;
    assert "" + Flatten(pieces) == Frame("DATA", d);
    assert Standing(d, EMPTY, "");
    ScanReply(d, EMPTY, "", pieces);
  }

  /** A reply shorter than the buffer always fits. */
  lemma {:induction false} ShortFits(p: string, pieces: seq<string>)
    requires |p + Flatten(pieces)| < BUFF_SIZE
    ensures Fits(p, pieces)
    decreases |pieces|
  {
    hide AfterLastEnd;
    if pieces != [] {
      FlattenCons(pieces);
      assert p + Flatten(pieces) == (p + pieces[0]) + Flatten(pieces[1..]);
      ShortFits(p + pieces[0], pieces[1..]);
    }
  }
}
