/** Commands and values on the wire: framing a value, cutting it out of what has been read so
    far, pushing it to a replica and reading it back. */
module Wire {
  import opened Text
  import opened Updates
  import opened LogFormat

  const TERM: string := "\r\n.\r\n"

  /** A line `head`, the value's lines, and the end mark. */
  function Frame(head: string, d: string): string {
    head + ("\r\n" + (d + TERM))
  }

  /** No line of `d` is a lone dot. */
  predicate Clean(d: string) {
    Find("\r\n" + (d + "\r\n"), TERM) == NPOS
  }

  lemma {:induction false} TermAt(s: string, i: int)
    ensures At(s, TERM, i) <==>
            && 0 <= i <= |s| - 5
            && s[i] == '\r' && s[i + 1] == '\n' && s[i + 2] == '.' && s[i + 3] == '\r' && s[i + 4] == '\n'
  {
    if 0 <= i <= |s| - 5 {
      var w := s[i..i + 5];
      assert w == [s[i], s[i + 1], s[i + 2], s[i + 3], s[i + 4]];
    }
  }

  /** An occurrence of the end mark inside a frame, seen from the value's lines. */
  lemma {:induction false} TermInside(head: string, d: string, j: int)
    requires Free(head, '\r')
    ensures At(Frame(head, d), TERM, j) && j < |head| + 2 + |d|
            <==> At("\r\n" + (d + "\r\n"), TERM, j - |head|)
  {
    hide At;
    var f, e := Frame(head, d), "\r\n" + (d + "\r\n");
    TermAt(f, j);
    TermAt(e, j - |head|);
    var n := |head|;
    assert forall x :: 0 <= x < n ==> f[x] == head[x];
    assert forall x :: 0 <= x < |e| ==> f[n + x] == e[x];
    assert f[n + 2 + |d|] == '\r' && f[n + 3 + |d|] == '\n' && f[n + 4 + |d|] == '.';
  }

  /** The end mark is found right after the value exactly if the value is clean. */
  lemma {:induction false} FrameEnd(head: string, d: string)
    requires Free(head, '\r')
    ensures Find(Frame(head, d), TERM) == |head| + 2 + |d| <==> Clean(d)
    ensures |head| <= Find(Frame(head, d), TERM) <= |head| + 2 + |d|
  {
    hide At;
    var f, e, n := Frame(head, d), "\r\n" + (d + "\r\n"), |head| + 2 + |d|;
    TermAt(f, n);
    var j := Find(f, TERM);
    TermAt(f, j);
    assert forall i :: 0 <= i < |head| ==> f[i] == head[i];
    TermInside(head, d, j);
    var x := Find(e, TERM);
    if x != NPOS {
      TermInside(head, d, x + |head|);
    }
  }

  lemma {:induction false} FindInPrefix(s: string, t: string, p: string)
    requires s <= t && Find(s, p) != NPOS
    ensures Find(t, p) == Find(s, p)
  {
    var k := Find(s, p);
    assert t[k..k + |p|] == s[k..k + |p|];
    assert At(t, p, k);
    var j := Find(t, p);
    assert j + |p| <= |s|;
    assert s[j..j + |p|] == t[j..j + |p|];
    assert At(s, p, j);
  }

  // ------------------------------------------------------------ reading on the server

  /** The read loop of `parse_PUT` and `parse_CPUT`: what arrives is appended until the end
      mark is there. The pieces are whatever the network delivers. */
  method ReadToTerm(start: string, pieces: seq<string>, ghost stream: string)
      returns (buffer: string, used: nat)
    requires stream == start + Flatten(pieces)
    requires Find(stream, TERM) != NPOS
    ensures used <= |pieces| && buffer == start + Flatten(pieces[..used])
    ensures buffer <= stream
    ensures Find(buffer, TERM) == Find(stream, TERM)
  {
    buffer, used := start, 0;
    FlattenAll(pieces);
    assert pieces[..0] == [];
    assert start + "" == start;
    hide Find, FindFrom;
    while Find(buffer, TERM) == NPOS
      invariant used <= |pieces| && buffer == start + Flatten(pieces[..used])
      decreases |pieces| - used
    {
      assert used < |pieces| by {
        assert pieces[..|pieces|] == pieces;
      }
      FlattenNext(pieces, used);
      assert start + (Flatten(pieces[..used]) + pieces[used]) == buffer + pieces[used];
      buffer := buffer + pieces[used];
      used := used + 1;
    }
    FlattenPrefix(pieces, used);
    assert stream == buffer + Flatten(pieces)[|Flatten(pieces[..used])|..];
    FindInPrefix(buffer, stream, TERM);
  }

  function Flatten(pieces: seq<string>): string {
    if pieces == [] then "" else Flatten(pieces[..|pieces| - 1]) + pieces[|pieces| - 1]
  }

  lemma {:induction false} FlattenAll(pieces: seq<string>)
    ensures pieces[..|pieces|] == pieces
  {
  }

  lemma {:induction false} FlattenNext(pieces: seq<string>, i: nat)
    requires i < |pieces|
    ensures Flatten(pieces[..i + 1]) == Flatten(pieces[..i]) + pieces[i]
  {
    assert pieces[..i + 1][..i] == pieces[..i];
  }

  lemma {:induction false} FlattenPrefix(pieces: seq<string>, i: nat)
    requires i <= |pieces|
    ensures Flatten(pieces[..i]) <= Flatten(pieces)
    decreases |pieces| - i
  {
    if i == |pieces| {
      assert pieces[..i] == pieces;
    } else {
      FlattenPrefix(pieces, i + 1);
      FlattenNext(pieces, i);
    }
  }

  /** The value a primary cuts out of a read buffer, with the CRLF that ends it. */
  function PutValue(buffer: string): string
    requires Find(buffer, TERM) != NPOS && Find(buffer, "DATA\r\n") + 6 <= |buffer|
  {
    Slice(buffer, Find(buffer, "DATA\r\n") + 6, Find(buffer, TERM) + 2)
  }

  /** What `parse_PUT` leaves for the next command. */
  function Leftover(buffer: string): string
    requires Find(buffer, TERM) != NPOS
  {
    var end := Find(buffer, TERM);
    if end + 5 == |buffer| then "" else buffer[end + 6..]
  }

  /** The number and the value a replica cuts out of a pushed command. */
  function PushedSeq(buffer: string): int {
    Stol(Slice(buffer, 0, Find(buffer, "\r\n")))
  }

  function PushedValue(buffer: string): string
    requires Find(buffer, TERM) != NPOS
  {
    Slice(buffer, Find(buffer, "\r\n") + 2, Find(buffer, TERM) + 2)
  }

  /** The row and column `parse_command` cuts out of a command line. */
  function RowOf(command: string): string {
    FirstField(command[Find(command, " ") + 1..])
  }

  function ColOf(command: string): string {
    FirstField(AfterField(command[Find(command, " ") + 1..]))
  }

  lemma {:induction false} FindAtStart(p: string, rest: string)
    ensures Find(p + rest, p) == 0
  {
    assert (p + rest)[0..|p|] == p;
  }

  /** A PUT is stored as the client's value and a CRLF exactly if the value is clean,
      wherever the network cut the frame and whatever follows it. */
  lemma {:induction false} PutRoundTripIff(d: string, buffer: string)
    requires Frame("DATA", d) <= buffer
    ensures Find(buffer, TERM) != NPOS && Find(buffer, "DATA\r\n") == 0
    ensures PutValue(buffer) == d + "\r\n" <==> Clean(d)
  {
    hide At, FindFrom, Clean;
    var f := Frame("DATA", d);
    FrameEnd("DATA", d);
    FindInPrefix(f, buffer, TERM);
    var more := buffer[4..];
    assert buffer == "DATA\r\n" + buffer[6..] by {
      assert f[..6] == "DATA\r\n";
      assert buffer[..6] == f[..6];
    }
    FindAtStart("DATA\r\n", buffer[6..]);
    var end := Find(buffer, TERM);
    ValueOfFrame("DATA", d, buffer, end);
  }

  /** The text between a frame's first line and an end position. */
  lemma {:induction false} ValueOfFrame(head: string, d: string, buffer: string, end: int)
    requires Frame(head, d) <= buffer && |head| <= end <= |head| + 2 + |d|
    ensures |head| + 2 <= |buffer|
    ensures Slice(buffer, |head| + 2, end + 2) == d + "\r\n" <==> end == |head| + 2 + |d|
  {
    var f, n := Frame(head, d), |head| + 2;
    assert end + 2 <= |f| <= |buffer|;
    var v := Slice(buffer, n, end + 2);
    assert v == buffer[n..end + 2];
    assert |v| == end - |head|;
    assert f[n..n + |d| + 2] == d + "\r\n";
    assert buffer[n..n + |d| + 2] == f[n..n + |d| + 2];
  }

  /** Pipelined bytes after a frame survive exactly if there are none: one is dropped. */
  lemma {:induction false} LeftoverIff(d: string, rest: string)
    requires Clean(d)
    ensures Find(Frame("DATA", d) + rest, TERM) != NPOS
    ensures Leftover(Frame("DATA", d) + rest) == (if rest == "" then "" else rest[1..])
    ensures Leftover(Frame("DATA", d) + rest) == rest <==> rest == ""
  {
    hide At, FindFrom, Clean;
    FrameEnd("DATA", d);
    var f := Frame("DATA", d);
    FindInPrefix(f, f + rest, TERM);
    assert |f| == Find(f + rest, TERM) + 5;
  }

  /** What follows the command line of a pushed PUT. */
  function PushBody(value: string, seqno: nat): string {
    Digits(seqno) + "\r\n" + value + ".\r\n"
  }

  /** A pushed value arrives as it was stored, with its number. */
  lemma {:induction false} PushRoundTrip(d: string, seqno: nat)
    requires Clean(d)
    ensures var b := PushBody(d + "\r\n", seqno);
            Find(b, TERM) != NPOS && PushedSeq(b) == seqno && PushedValue(b) == d + "\r\n"
  {
    hide At, FindFrom, Clean, Digits, Stol;
    var n := Digits(seqno);
    assert !IsDigit('\r');
    assert PushBody(d + "\r\n", seqno) == Frame(n, d) by {
      assert n + "\r\n" + (d + "\r\n") + ".\r\n" == n + ("\r\n" + (d + TERM));
    }
    var f := Frame(n, d);
    FrameEnd(n, d);
    FindCrlf(n, d + TERM);
    ValueOfFrame(n, d, f, Find(f, TERM));
    assert Slice(f, 0, |n|) == n;
    StolDigits(seqno, "");
    assert n + "" == n;
  }

  lemma {:induction false} FindCrlf(head: string, rest: string)
    requires Free(head, '\r')
    ensures Find(head + ("\r\n" + rest), "\r\n") == |head|
  {
    hide At, FindFrom;
    var s := head + ("\r\n" + rest);
    PairAt(s, '\r', '\n', |head|);
    var j := Find(s, "\r\n");
    PairAt(s, '\r', '\n', j);
    assert forall x :: 0 <= x < |head| ==> s[x] == head[x];
  }

  /** Keys without '>' are parsed back from the command line the clients build. */
  lemma {:induction false} KeysRoundTrip(verb: string, row: string, col: string)
    requires Free(verb, ' ') && Free(row, '>') && Free(col, '>')
    ensures var line := verb + " " + "<" + row + "> <" + col + ">\r\n";
            RowOf(line) == row && ColOf(line) == col
  {
    hide FindFrom, Find, At;
    var tail := " " + ("<" + (col + (">" + "\r\n")));
    var s := "" + ("<" + (row + (">" + tail)));
    var line := verb + (" " + s);
    assert verb + " " + "<" + row + "> <" + col + ">\r\n" == line;
    FirstBlank(verb, s);
    FieldOf("", row, tail);
    FieldOf(" ", col, "\r\n");
  }

  /** The command line of a PUT, as clients and `push` write it, without its line end. */
  function PutLine(row: string, col: string): string {
    "PUT <" + row + "> <" + col + ">"
  }

  /** A whole pushed command: `extract_command` cuts off the line, which gives the keys, and
      what is left gives the number and the value. */
  lemma {:induction false} PushArrives(row: string, col: string, d: string, seqno: nat)
    requires Clean(d) && Free(row, '>') && Free(col, '>') && Free(row, '\r') && Free(col, '\r')
    ensures var text := PutLine(row, col) + ("\r\n" + PushBody(d + "\r\n", seqno));
            var end := Find(text, "\r\n");
            && 0 <= end <= |text| - 2
            && var command, rest := text[..end + 2], text[end + 2..];
               && RowOf(command) == row && ColOf(command) == col
               && Find(rest, TERM) != NPOS && PushedSeq(rest) == seqno && PushedValue(rest) == d + "\r\n"
  {
    hide Find, FindFrom, At, Clean, RowOf, ColOf, PushedSeq, PushedValue, PushBody;
    var line, body := PutLine(row, col), PushBody(d + "\r\n", seqno);
    var text := line + ("\r\n" + body);
    NoReturn(row, col);
    FindCrlf(line, body);
    assert text[..|line| + 2] == "PUT" + " " + "<" + row + "> <" + col + ">\r\n";
    assert text[|line| + 2..] == body;
    KeysRoundTrip("PUT", row, col);
    PushRoundTrip(d, seqno);
  }

  lemma {:induction false} NoReturn(row: string, col: string)
    requires Free(row, '\r') && Free(col, '\r')
    ensures Free(PutLine(row, col), '\r')
  {
  }

  lemma {:induction false} FirstBlank(word: string, rest: string)
    requires Free(word, ' ')
    ensures var text := word + (" " + rest); Find(text, " ") == |word| && text[|word| + 1..] == rest
  {
    var text := word + (" " + rest);
    assert text[..|word|] == word;
    FindChar(text, ' ', |word|);
  }

  // ------------------------------------------------------------ CPUT

  /** The two values of a CPUT, as `parse_CPUT` cuts them out. */
  function CPutOld(buffer: string): string
    requires Find(buffer, TERM) != NPOS && Find(buffer, "OLD\r\n") + 5 <= |buffer|
  {
    Slice(buffer, Find(buffer, "OLD\r\n") + 5, Find(buffer, TERM) + 2)
  }

  function AfterOld(buffer: string): string
    requires Find(buffer, TERM) != NPOS
  {
    buffer[Find(buffer, TERM) + 3..]
  }

  function CPutNew(buffer: string): string
    requires Find(buffer, TERM) != NPOS && Find(buffer, "NEW\r\n") + 5 <= |buffer|
  {
    Slice(buffer, Find(buffer, "NEW\r\n") + 5, Find(buffer, TERM) + 2)
  }

  /** Both values of a CPUT reach the comparison unchanged. */
  lemma {:induction false} CPutRoundTrip(o: string, n: string)
    requires Clean(o) && Clean(n)
    ensures var b := Frame("OLD", o) + Frame("NEW", n);
            && Find(b, TERM) != NPOS && Find(b, "OLD\r\n") == 0 && CPutOld(b) == o + "\r\n"
            && var b2 := AfterOld(b);
               Find(b2, TERM) != NPOS && Find(b2, "NEW\r\n") == 2 && CPutNew(b2) == n + "\r\n"
  {
    hide At, FindFrom, Clean;
    var f, g := Frame("OLD", o), Frame("NEW", n);
    var b := f + g;
    FrameEnd("OLD", o);
    FindInPrefix(f, b, TERM);
    assert b == "OLD\r\n" + b[5..] by {
      assert b[..5] == f[..5] == "OLD\r\n";
    }
    FindAtStart("OLD\r\n", b[5..]);
    ValueOfFrame("OLD", o, b, Find(b, TERM));
    var b2 := AfterOld(b);
    assert b2 == "\r\n" + g by {
      assert f[|f| - 2..] == "\r\n";
    }
    FrameEnd("NEW", n);
    assert g == "NEW\r\n" + g[5..] by {
      assert g[..5] == "NEW\r\n";
    }
    FindAtStart("NEW\r\n", g[5..]);
    SkipCrlf(g, TERM);
    SkipCrlf(g, "NEW\r\n");
    ValueOfFrame("NEW", n, g, Find(g, TERM));
    assert Slice(b2, 7, Find(b2, TERM) + 2) == Slice(g, 5, Find(g, TERM) + 2);
  }

  /** Searching past a leading CRLF. */
  lemma {:induction false} SkipCrlf(g: string, p: string)
    requires Find(g, p) != NPOS && |p| >= 5 && |g| >= 3 && g[0] == 'N'
    requires p == TERM || p == "NEW\r\n"
    ensures Find("\r\n" + g, p) == Find(g, p) + 2
  {
    var s, k := "\r\n" + g, Find(g, p);
    assert s[k + 2..k + 2 + |p|] == g[k..k + |p|];
    forall j | 0 <= j < k + 2
      ensures !At(s, p, j)
    {
      if At(s, p, j) {
        AtChar(s, p, j, 0);
        AtChar(s, p, j, 2);
        if j >= 2 {
          assert g[j - 2..j - 2 + |p|] == s[j..j + |p|];
          assert At(g, p, j - 2);
        }
      }
    }
    FindFromIs(s, p, 0, k + 2);
  }
}
