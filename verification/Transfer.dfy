/** How a recovering replica receives the primary's checkpoint and log: read by read, until the
    end mark is seen. */
module Transfer {
  import opened Text
  import opened Wire
  import opened GetReply

  const CRLF := "\r\n"
  const LOG_END := "LOG END"
  const CHECKPOINT_END := "CHECKPOINT END"

  /** The size of the receive buffer. */
  const RLEN := 1000

  /** What the calls of `do_read` return for what the single reads bring: each goes on until
      its own buffer holds a CRLF, or is full. */
  function Gather(segments: seq<string>, buf: string): (pieces: seq<string>)
    decreases |segments|
  {
    if segments == [] then []
    else
      var now := buf + segments[0];
      if Contains(now, CRLF) || |now| >= RLEN then [now] + Gather(segments[1..], "")
      else Gather(segments[1..], now)
  }

  /** How a transfer ends: with a text, waiting forever, or with a buffer that has no room for
      the NUL. */
  datatype Arrival = Got(text: string) | Stuck | Overrun

  /** `receiveCheckpoint` and `receiveLog`: the mark and its CRLF must lie in one piece, and
      the text goes up to the first mark in all that was read. */
  function Receive(pieces: seq<string>, mark: string, read: string): Arrival
    decreases |pieces|
  {
    if pieces == [] then Stuck
    else if |pieces[0]| >= RLEN then Overrun
    else
      var now := read + pieces[0];
      if Contains(pieces[0], mark + CRLF) then Got(Slice(now, 0, Find(now, mark)))
      else Receive(pieces[1..], mark, now)
  }

  function Arrived(segments: seq<string>, mark: string): Arrival {
    Receive(Gather(segments, ""), mark, "")
  }

  /** The loop over `do_read`, with the loop inside it. */
  method ReceiveText(segments: seq<string>, mark: string) returns (r: Arrival)
    ensures r == Arrived(segments, mark)
  {
    EmptyHasNoEnd();
    hide Contains;
    var buffer, i := "", 0;
    while i < |segments|
      invariant 0 <= i <= |segments|
      invariant Receive(Gather(segments[i..], ""), mark, buffer) == Arrived(segments, mark)
      decreases |segments| - i
    {
      var buf, full := "", false;
      ghost var start := i;
      while i < |segments| && !full
        invariant start <= i <= |segments| && (i == start ==> !full)
        invariant full <==> Contains(buf, CRLF) || |buf| >= RLEN
        invariant Arrived(segments, mark) ==
                  Receive(if full then [buf] + Gather(segments[i..], "") else Gather(segments[i..], buf), mark, buffer)
        decreases |segments| - i
      {
        assert segments[i..][1..] == segments[i + 1..];
        buf := buf + segments[i];
        full := Contains(buf, CRLF) || |buf| >= RLEN;
        i := i + 1;
      }
      if !full {
        return Stuck;
      }
      if |buf| >= RLEN {
        return Overrun;
      }
      buffer := buffer + buf;
      if Contains(buf, mark + CRLF) {
        return Got(Slice(buffer, 0, Find(buffer, mark)));
      }
    }
    r := Stuck;
  }

  lemma {:induction false} EmptyHasNoEnd()
    ensures !Contains("", CRLF)
  {
  }

  // ------------------------------------------------------------ what arrives

  /** A text ends where its last character first occurs, as both marks do. */
  predicate StopMark(mark: string) {
    mark != "" && forall i :: 0 <= i < |mark| - 1 ==> mark[i] != mark[|mark| - 1]
  }

  lemma {:induction false} BothMarks()
    ensures StopMark(LOG_END) && StopMark(CHECKPOINT_END)
  {
  }

  /** Behind a text without the mark, the mark is found where it was put. */
  lemma {:induction false} MarkFound(text: string, mark: string, rest: string)
    requires StopMark(mark)
    ensures Find(text + (mark + rest), mark) == |text| <==> !Contains(text, mark)
  {
    hide FindFrom;
    var s := text + (mark + rest);
    assert s[|text|..|text| + |mark|] == mark;
    assert At(s, mark, |text|);
    var k, x := Find(s, mark), Find(text, mark);
    if x != NPOS {
      assert s[x..x + |mark|] == text[x..x + |mark|];
      assert At(s, mark, x);
    }
    if k < |text| {
      EndsBefore(text, mark, rest, k);
      assert text[k..k + |mark|] == s[k..k + |mark|];
      assert At(text, mark, k);
    }
  }

  /** An occurrence that starts in the text ends there: the mark's last character is not
      among its earlier ones. */
  lemma {:induction false} EndsBefore(text: string, mark: string, rest: string, k: nat)
    requires StopMark(mark) && k < |text| && At(text + (mark + rest), mark, k)
    ensures k + |mark| <= |text|
  {
    var s := text + (mark + rest);
    assert forall i :: |text| <= i < |text| + |mark| ==> s[i] == mark[i - |text|];
    AtChar(s, mark, k, |mark| - 1);
  }

  lemma {:induction false} AtFirst(s: string, p: string, q: string, k: int)
    requires At(s, p + q, k)
    ensures At(s, p, k) && k + |p + q| <= |s|
  {
    assert s[k..k + |p + q|][..|p|] == s[k..k + |p|];
    assert (p + q)[..|p|] == p;
  }

  lemma {:induction false} GatherPrefix(segments: seq<string>, buf: string)
    ensures Flatten(Gather(segments, buf)) <= buf + Flatten(segments)
    decreases |segments|
  {
    hide Contains;
    if segments != [] {
      FlattenCons(segments);
      var now, more := buf + segments[0], Flatten(segments[1..]);
      assert buf + (segments[0] + more) == now + more;
      if Contains(now, CRLF) || |now| >= RLEN {
        GatherPrefix(segments[1..], "");
        var rest := Gather(segments[1..], "");
        FlattenCons([now] + rest);
        assert ([now] + rest)[1..] == rest;
        assert "" + more == more;
        PrefixAfter(now, Flatten(rest), more);
      } else {
        GatherPrefix(segments[1..], now);
      }
    }
  }

  lemma {:induction false} PrefixAfter(a: string, b: string, c: string)
    requires b <= c
    ensures a + b <= a + c
  {
    assert c == b + c[|b|..];
    assert a + c == (a + b) + c[|b|..];
  }

  lemma {:induction false} ContainsPart(s: string, i: nat, j: nat, p: string)
    requires i <= j <= |s| && Contains(s[i..j], p)
    ensures exists k :: i <= k <= j - |p| && At(s, p, k)
  {
    hide FindFrom;
    var k := Find(s[i..j], p);
    SliceOfSlice(s, i, j, k, k + |p|);
    assert At(s, p, i + k);
  }

  lemma {:induction false} SliceOfSlice(s: string, i: nat, j: nat, k: nat, m: nat)
    requires i <= j <= |s| && k <= m <= j - i
    ensures s[i..j][k..m] == s[i + k..i + m]
  {
    var a, b := s[i..j][k..m], s[i + k..i + m];
    assert forall x :: 0 <= x < |a| ==> a[x] == b[x];
  }

  /** What is received is what precedes the first mark. */
  lemma {:induction false} ReceivedIs(pieces: seq<string>, mark: string, read: string)
    requires Receive(pieces, mark, read).Got?
    ensures var s := read + Flatten(pieces);
            Contains(s, mark) && Receive(pieces, mark, read).text == s[..Find(s, mark)]
    decreases |pieces|
  {
    hide FindFrom, Find;
    FlattenCons(pieces);
    var now, s := read + pieces[0], read + Flatten(pieces);
    assert s == now + Flatten(pieces[1..]);
    if Contains(pieces[0], mark + CRLF) {
      StopsAtMark(now, |read|, mark);
      FindInPrefix(now, s, mark);
      CutThere(now, s, mark);
    } else {
      ReceivedIs(pieces[1..], mark, now);
    }
  }

  lemma {:induction false} StopsAtMark(now: string, from: nat, mark: string)
    requires from <= |now| && Contains(now[from..], mark + CRLF)
    ensures Contains(now, mark)
  {
    assert now[from..] == now[from..|now|];
    ContainsPart(now, from, |now|, mark + CRLF);
    var k :| from <= k && At(now, mark + CRLF, k);
    AtFirst(now, mark, CRLF, k);
  }

  lemma {:induction false} CutThere(now: string, s: string, mark: string)
    requires now <= s && Contains(now, mark) && Find(s, mark) == Find(now, mark)
    ensures Slice(now, 0, Find(now, mark)) == s[..Find(s, mark)]
  {
  }

  /** The reads cut the reply well: every piece fits its buffer, and the last one is there and
      holds the whole end mark with its CRLF. */
  predicate Lands(segments: seq<string>, mark: string) {
    var pieces := Gather(segments, "");
    && pieces != [] && (forall i :: 0 <= i < |pieces| ==> |pieces[i]| < RLEN)
    && Flatten(pieces) == Flatten(segments)
    && |pieces[|pieces| - 1]| >= |mark| + 2
  }

  predicate NoneEmpty(pieces: seq<string>) {
    forall i :: 0 <= i < |pieces| ==> pieces[i] != ""
  }

  lemma {:induction false} GatherNoneEmpty(segments: seq<string>, buf: string)
    requires NoneEmpty(segments)
    ensures NoneEmpty(Gather(segments, buf))
    decreases |segments|
  {
    hide Contains;
    if segments != [] {
      GatherNoneEmpty(segments[1..], "");
      GatherNoneEmpty(segments[1..], buf + segments[0]);
    }
  }

  lemma {:induction false} NothingLeft(pieces: seq<string>)
    requires NoneEmpty(pieces) && Flatten(pieces) == ""
    ensures pieces == []
  {
  }

  /** In a reply whose text is free of the mark, receiving ends at a piece that ends the
      reply. */
  lemma {:induction false} EndsLast(pieces: seq<string>, mark: string, read: string, text: string)
    requires StopMark(mark) && !Contains(text, mark)
    requires read + Flatten(pieces) <= text + (mark + CRLF) && NoneEmpty(pieces)
    ensures Receive(pieces, mark, read).Got? <==>
            pieces != [] && read + Flatten(pieces) == text + (mark + CRLF)
            && |pieces[|pieces| - 1]| >= |mark| + 2 && forall i :: 0 <= i < |pieces| ==> |pieces[i]| < RLEN
    decreases |pieces|
  {
    hide Contains, StopMark;
    if pieces != [] {
      FlattenCons(pieces);
      var now, s, more := read + pieces[0], text + (mark + CRLF), Flatten(pieces[1..]);
      assert read + Flatten(pieces) == now + more;
      assert now <= s;
      HoldsMark(read, pieces[0], text, mark);
      if pieces[1..] == [] {
        assert now + "" == now;
      }
      if |pieces[0]| < RLEN && !Contains(pieces[0], mark + CRLF) {
        EndsLast(pieces[1..], mark, now, text);
        if pieces[1..] != [] {
          assert pieces[1..][|pieces[1..]| - 1] == pieces[|pieces| - 1];
          assert forall i :: 0 <= i < |pieces| - 1 ==> pieces[1..][i] == pieces[i + 1];
        }
      } else if Contains(pieces[0], mark + CRLF) {
        NothingLeft(pieces[1..]);
      }
    }
  }

  /** Only the end of the reply holds the mark with its CRLF. */
  lemma {:induction false} HoldsMark(read: string, piece: string, text: string, mark: string)
    requires StopMark(mark) && !Contains(text, mark) && read + piece <= text + (mark + CRLF)
    ensures Contains(piece, mark + CRLF) <==> read + piece == text + (mark + CRLF) && |piece| >= |mark| + 2
  {
    hide FindFrom, Find, StopMark;
    var s, now := text + (mark + CRLF), read + piece;
    MarkFound(text, mark, CRLF);
    if Contains(piece, mark + CRLF) {
      assert now[|read|..|now|] == piece;
      assert s[|read|..|now|] == piece;
      ContainsPart(s, |read|, |now|, mark + CRLF);
      var k :| |read| <= k <= |now| - |mark + CRLF| && At(s, mark + CRLF, k);
      AtFirst(s, mark, CRLF, k);
      assert k >= |text|;
      assert |now| == |s|;
    }
    if now == s && |piece| >= |mark| + 2 {
      var i := |piece| - |mark| - 2;
      assert piece[i..i + |mark| + 2] == s[|text|..] == mark + CRLF;
      assert At(piece, mark + CRLF, i);
    }
  }

  /** A transferred text arrives whole if and only if the mark is nowhere in it and the reads
      cut the reply well. Whatever else is received is only the part before the first mark. */
  lemma {:induction false} ArrivedIff(text: string, mark: string, segments: seq<string>)
    requires StopMark(mark) && Pieces(text + (mark + CRLF), segments)
    ensures Arrived(segments, mark) == Got(text) <==> !Contains(text, mark) && Lands(segments, mark)
    ensures Arrived(segments, mark).Got? ==>
              var s := text + (mark + CRLF);
              Contains(s, mark) && Arrived(segments, mark).text == s[..Find(s, mark)]
  {
    hide Contains, StopMark, Gather, Receive, Flatten;
    var s, pieces := text + (mark + CRLF), Gather(segments, "");
    GatherNoneEmpty(segments, "");
    GatherPrefix(segments, "");
    assert "" + Flatten(segments) == s && "" + Flatten(pieces) == Flatten(pieces);
    MarkFound(text, mark, CRLF);
    if Arrived(segments, mark).Got? {
      ReceivedIs(pieces, mark, "");
      FirstOfPrefix(Flatten(pieces), s, mark);
    }
    if !Contains(text, mark) {
      EndsLast(pieces, mark, "", text);
      assert s[..|text|] == text;
    }
  }

  /** So nothing but the whole text arrives when the mark is not in it. */
  lemma {:induction false} GotIsWhole(text: string, mark: string, segments: seq<string>)
    requires StopMark(mark) && Pieces(text + (mark + CRLF), segments)
    requires !Contains(text, mark) && Arrived(segments, mark).Got?
    ensures Arrived(segments, mark) == Got(text)
  {
    hide Contains, StopMark, Arrived, Pieces;
    ArrivedIff(text, mark, segments);
    MarkFound(text, mark, CRLF);
    assert (text + (mark + CRLF))[..|text|] == text;
  }

  lemma {:induction false} FirstOfPrefix(a: string, s: string, mark: string)
    requires a <= s && Contains(a, mark)
    ensures Contains(s, mark) && Find(s, mark) == Find(a, mark) && s[..Find(s, mark)] == a[..Find(a, mark)]
  {
    FindInPrefix(a, s, mark);
  }

  /** Receiving goes on over pieces that fit and do not hold the mark. */
  predicate GoesOn(pieces: seq<string>, n: nat, mark: string)
    requires n <= |pieces|
  {
    forall i :: 0 <= i < n ==> |pieces[i]| < RLEN && !Contains(pieces[i], mark + CRLF)
  }

  /** It waits forever exactly if it goes on over all of them, and overruns its buffer exactly
      at a first piece that does not fit. */
  lemma {:induction false} EndsIff(pieces: seq<string>, mark: string, read: string)
    ensures Receive(pieces, mark, read) == Stuck <==> GoesOn(pieces, |pieces|, mark)
    ensures Receive(pieces, mark, read) == Overrun <==>
            exists n: nat :: n < |pieces| && GoesOn(pieces, n, mark) && |pieces[n]| >= RLEN
    decreases |pieces|
  {
    hide Contains;
    if pieces != [] {
      var rest := pieces[1..];
      EndsIff(rest, mark, read + pieces[0]);
      assert forall i :: 0 <= i < |rest| ==> rest[i] == pieces[i + 1];
      if |pieces[0]| >= RLEN {
        assert GoesOn(pieces, 0, mark);
      } else if !Contains(pieces[0], mark + CRLF) {
        AllOn(pieces, mark);
        if n: nat :| n < |rest| && GoesOn(rest, n, mark) && |rest[n]| >= RLEN {
          assert GoesOn(pieces, n + 1, mark) && |pieces[n + 1]| >= RLEN;
        }
        if n: nat :| n < |pieces| && GoesOn(pieces, n, mark) && |pieces[n]| >= RLEN {
          assert GoesOn(rest, n - 1, mark) && |rest[n - 1]| >= RLEN;
        }
      } else {
        assert forall n: nat :: 0 < n <= |pieces| ==> !GoesOn(pieces, n, mark);
      }
    }
  }

  lemma {:induction false} AllOn(pieces: seq<string>, mark: string)
    requires pieces != [] && |pieces[0]| < RLEN && !Contains(pieces[0], mark + CRLF)
    ensures GoesOn(pieces, |pieces|, mark) <==> GoesOn(pieces[1..], |pieces| - 1, mark)
  {
    hide Contains;
    var rest := pieces[1..];
    assert forall i :: 0 <= i < |rest| ==> rest[i] == pieces[i + 1];
    if GoesOn(rest, |rest|, mark) {
      forall i | 0 <= i < |pieces|
        ensures |pieces[i]| < RLEN && !Contains(pieces[i], mark + CRLF)
      {
        assert i > 0 ==> pieces[i] == rest[i - 1];
      }
    }
  }

  // ------------------------------------------------------------ texts without a CRLF

  lemma {:induction false} NoEarlyCrlf(s: string, buf: string)
    requires Find(s, CRLF) == |s| - 2 && buf <= s
    ensures Contains(buf, CRLF) ==> buf == s
  {
    hide FindFrom;
    if Contains(buf, CRLF) {
      FindInPrefix(buf, s, CRLF);
    }
  }

  /** If the only CRLF is at the end, `do_read` goes on to the end, or to the end of its
      buffer. */
  lemma {:induction false} OnePieceOnly(segments: seq<string>, buf: string, s: string)
    requires Find(s, CRLF) == |s| - 2 && |s| >= 2 && NoneEmpty(segments)
    requires buf + Flatten(segments) == s && buf != s && |buf| < RLEN
    ensures var pieces := Gather(segments, buf);
            pieces != [] && (if |s| < RLEN then pieces == [s] else |pieces[0]| >= RLEN)
    decreases |segments|
  {
    hide Contains, Find;
    assert buf + "" == buf;
    if segments != [] {
      FlattenCons(segments);
      var now, more := buf + segments[0], Flatten(segments[1..]);
      assert now + more == s;
      NoEarlyCrlf(s, now);
      if now == s {
        NothingLeft(segments[1..]);
        SelfContains(s);
      } else if |now| < RLEN {
        OnePieceOnly(segments[1..], now, s);
      }
    }
  }

  lemma {:induction false} SelfContains(s: string)
    requires Find(s, CRLF) == |s| - 2 && |s| >= 2
    ensures Contains(s, CRLF)
  {
  }

  lemma {:induction false} OnlyCrlf(text: string, mark: string)
    requires Free(text, '\r') && Free(mark, '\r')
    ensures var s := text + (mark + CRLF); Find(s, CRLF) == |s| - 2
  {
    assert text + (mark + CRLF) == (text + mark) + ("\r\n" + "");
    FindCrlf(text + mark, "");
  }

  /** A text without a CRLF, such as a log of nothing but DELETEs, arrives whole, however the
      reads cut it, if and only if it fits the receive buffer with its end mark and does not
      hold the mark. */
  lemma {:induction false} OneLineIff(text: string, mark: string, segments: seq<string>)
    requires StopMark(mark) && Free(mark, '\r') && Free(text, '\r')
    requires Pieces(text + (mark + CRLF), segments)
    ensures Arrived(segments, mark) == Got(text) <==> !Contains(text, mark) && |text + (mark + CRLF)| < RLEN
  {
    hide Contains, StopMark, Gather, Receive, Find;
    var s := text + (mark + CRLF);
    OnlyCrlf(text, mark);
    ArrivedIff(text, mark, segments);
    assert "" + Flatten(segments) == s;
    OnePieceOnly(segments, "", s);
    var pieces := Gather(segments, "");
    if |s| < RLEN {
      FlattenOne(s);
    }
  }

  lemma {:induction false} FlattenOne(s: string)
    ensures Flatten([s]) == s
  {
    FlattenCons([s]);
    assert s + "" == s;
  }
}
