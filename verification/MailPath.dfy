/** The way of a mail: split into lines by the client, collected by the SMTP server, stored
    under its hash, read back and taken apart. */
module MailPath {
  import opened Wrappers
  import opened Text
  import opened Wire
  import opened GetReply
  import opened Buffer
  import opened ReadReply
  import opened Smtp

  // ------------------------------------------------------------ the sending client

  /** The text up to and with its last line end. */
  function WholeLines(data: string): string {
    var last := RFind(data, CRLF);
    if last == NPOS then "" else data[..last + 2]
  }

  /** One line: a line end at its end and nowhere else. */
  predicate OneLine(s: string) {
    |s| >= 2 && Find(s, CRLF) == |s| - 2
  }

  lemma {:induction false} CutLine(data: string, from: nat)
    requires from <= |data| && FindFrom(data, CRLF, from) != NPOS
    ensures from <= FindFrom(data, CRLF, from) <= |data| - 2
    ensures OneLine(data[from..FindFrom(data, CRLF, from) + 2])
  {
    var next := FindFrom(data, CRLF, from);
    var s := data[from..next + 2];
    CrlfAt(data, next);
    CrlfAt(s, next - from);
    forall j | 0 <= j < next - from
      ensures !At(s, CRLF, j)
    {
      CrlfAt(s, j);
      CrlfAt(data, from + j);
    }
    FindFromIs(s, CRLF, 0, next - from);
  }

  lemma {:induction false} LastEnd(data: string, from: nat)
    requires from <= |data| && FindFrom(data, CRLF, from) == NPOS
    requires from == 0 || (from >= 2 && At(data, CRLF, from - 2))
    ensures WholeLines(data) == data[..from]
  {
    var last := RFind(data, CRLF);
    if last != NPOS {
      assert last < from;
      CrlfAt(data, last);
      CrlfAt(data, from - 2);
      assert from >= 2;
    }
  }

  /** The loop of `sendto_smpt_server` that writes the message line by line. */
  method SendLines(data: string) returns (requests: seq<string>)
    ensures Flatten(requests) == WholeLines(data)
    ensures forall i :: 0 <= i < |requests| ==> OneLine(requests[i])
  {
    hide At, FindFrom, WholeLines, OneLine;
    requests := [];
    var prev := -2;
    while true
      invariant -2 <= prev <= |data| - 2
      invariant Flatten(requests) == data[..prev + 2]
      invariant prev == -2 || (prev >= 0 && At(data, CRLF, prev))
      invariant forall i :: 0 <= i < |requests| ==> OneLine(requests[i])
      decreases |data| - prev
    {
      var next := FindFrom(data, CRLF, prev + 2);
      if next == NPOS {
        break;
      }
      CutLine(data, prev + 2);
      var request := data[prev + 2..next + 2];
      ghost var before := requests;
      requests := requests + [request];
      assert requests[..|requests| - 1] == before;
      assert data[..next + 2] == data[..prev + 2] + request;
      prev := next;
    }
    LastEnd(data, prev + 2);
  }

  /** The whole message part of `sendto_smpt_server`: the lines and the final dot. For a text
      that ends with a line end, what reaches the server is its data part. */
  method SendMessage(data: string) returns (requests: seq<string>)
    ensures Flatten(requests) == WholeLines(data) + ".\r\n"
    ensures forall d :: data == d + CRLF ==> Pieces(DataPart(d), requests)
  {
    hide WholeLines, OneLine, Pieces, DataPart;
    requests := SendLines(data);
    ghost var lines := requests;
    requests := requests + [".\r\n"];
    assert requests[..|requests| - 1] == lines;
    forall d | data == d + CRLF
      ensures Pieces(DataPart(d), requests)
    {
      AllWhole(d);
      ArePieces(d, lines);
    }
  }

  lemma {:induction false} AllWhole(d: string)
    ensures WholeLines(d + CRLF) == d + CRLF
  {
    CrlfAt(d + CRLF, |d|);
    CrlfAt(d + CRLF, RFind(d + CRLF, CRLF));
  }

  lemma {:induction false} ArePieces(d: string, lines: seq<string>)
    requires Flatten(lines) == d + CRLF && forall i :: 0 <= i < |lines| ==> OneLine(lines[i])
    ensures Pieces(DataPart(d), lines + [".\r\n"])
  {
    hide Find;
    var all := lines + [".\r\n"];
    assert all[..|lines|] == lines;
    forall i | 0 <= i < |all|
      ensures all[i] != ""
    {
      assert i < |lines| ==> OneLine(lines[i]);
    }
  }

  // ------------------------------------------------------------ the collecting server

  /** The command loop on a buffer: commands are taken from its front while there is a full
      line and the session goes on. */
  function Serve(t: Trace, pending: string): (Trace, string)
    decreases |pending|
  {
    if t.mail.state >= QUIT || Find(pending, CRLF) == NPOS then (t, pending)
    else Serve(Step(t, pending), pending[|FullLine(pending)|..])
  }

  /** After QUIT, or when the program has gone, nothing more is taken from the buffer. */
  lemma {:induction false} NothingServed(t: Trace, pending: string)
    ensures t.mail.state >= QUIT || Find(pending, CRLF) == NPOS ==> Serve(t, pending) == (t, pending)
    ensures t.mail.state < QUIT && Find(pending, CRLF) != NPOS ==>
              Serve(t, pending) == Serve(Step(t, pending), pending[Find(pending, CRLF) + 2..])
  {
    hide Step, Find;
    if Find(pending, CRLF) != NPOS {
      LineFits(pending);
      assert |FullLine(pending)| == Find(pending, CRLF) + 2;
    }
  }

  /** A connection on which `pieces` arrive; `None` when the buffer has no room for the NUL. */
  function Connection(t: Trace, pending: string, pieces: seq<string>): Option<(Trace, string)>
    decreases |pieces|
  {
    if pieces == [] then Some((t, pending))
    else if |pending| + |pieces[0]| >= BUFF_SIZE then None
    else
      var r := Serve(t, pending + pieces[0]);
      Connection(r.0, r.1, pieces[1..])
  }

  /** The session that is entering a message, after some of its lines. */
  function Entering(t: Trace, data: string, lines: seq<Action>): Trace {
    t.(mail := t.mail.(data := data), log := t.log + lines)
  }

  predicate AllLines(lines: seq<Action>) {
    forall i :: 0 <= i < |lines| ==> lines[i].Line?
  }

  /** What the dot at the end makes of the session. */
  predicate Accepted(t: Trace, text: string, r: Trace) {
    && r.mail == Mail(DATA_END, "", {}, "")
    && r.deliveries == t.deliveries + [Delivery(t.mail.sender, t.mail.rcpts, text)]
    && t.log < r.log && r.log[|r.log| - 1] == End
    && AllLines(r.log[|t.log|..|r.log| - 1])
  }

  lemma {:induction false} LineTaken(t: Trace, data: string, lines: seq<Action>, pending: string)
    requires t.mail.state == DATA_START && AllLines(lines)
    requires Find(pending, CRLF) != NPOS && pending != ".\r\n"
    ensures Step(Entering(t, data, lines), pending) ==
            Entering(t, data + FullLine(pending), lines + [Line(FullLine(pending))])
  {
    hide Find, StartsWithCI, FullLine;
    assert t.log + lines + [Line(FullLine(pending))] == t.log + (lines + [Line(FullLine(pending))]);
  }

  lemma {:induction false} DotTaken(t: Trace, data: string, lines: seq<Action>)
    requires t.mail.state == DATA_START && AllLines(lines) && !TitleThrows(data)
    ensures Find(".\r\n", CRLF) == 1
    ensures Accepted(t, data, Step(Entering(t, data, lines), ".\r\n"))
  {
    CrlfAt(".\r\n", 0);
    CrlfAt(".\r\n", 1);
    FindFromIs(".\r\n", CRLF, 0, 1);
    hide Find, StartsWithCI, TitleThrows;
    var r := Step(Entering(t, data, lines), ".\r\n");
    assert r.log == t.log + lines + [End];
    assert r.log[|t.log|..|r.log| - 1] == lines;
  }

  /** The lines of a message are collected, and its end delivers them. */
  lemma {:induction false} ServeData(d: string, t: Trace, data: string, lines: seq<Action>, pending: string)
    requires Clean(d) && t.mail.state == DATA_START && AllLines(lines) && !TitleThrows(d + CRLF)
    requires data + pending <= DataPart(d) && Boundary(d, data)
    ensures var r := Serve(Entering(t, data, lines), pending);
            if data + pending == DataPart(d) then Accepted(t, d + CRLF, r.0) && r.1 == ""
            else Holding(d, t, r.0, r.1) && r.0.mail.data + r.1 == data + pending
    decreases |pending|
  {
    hide Find, Clean, DataPart, Boundary, Step, TitleThrows, Accepted;
    if Find(pending, CRLF) == NPOS {
      StillEntering(d, t, data, lines, pending);
    } else {
      LineFits(pending);
      if pending == ".\r\n" {
        LoneDot(d, data);
        DataPartIs(d);
        DotTaken(t, data, lines);
        Served(t, d + CRLF, Step(Entering(t, data, lines), pending));
      } else {
        NextLine(d, data, pending);
        LineTaken(t, data, lines, pending);
        var line, rest := FullLine(pending), pending[|FullLine(pending)|..];
        assert pending == line + rest;
        assert (data + line) + rest == data + pending;
        ServeData(d, t, data + line, lines + [Line(line)], rest);
      }
    }
  }

  /** A message that is being entered: whole lines of it are collected, the rest waits. */
  ghost predicate Holding(d: string, t: Trace, r: Trace, pending: string) {
    && (exists lines :: AllLines(lines) && r == Entering(t, r.mail.data, lines))
    && Boundary(d, r.mail.data) && Find(pending, CRLF) == NPOS
  }

  lemma {:induction false} StillEntering(d: string, t: Trace, data: string, lines: seq<Action>, pending: string)
    requires AllLines(lines) && Boundary(d, data) && Find(pending, CRLF) == NPOS
    ensures Holding(d, t, Entering(t, data, lines), pending) && data + pending != DataPart(d)
    ensures Serve(Entering(t, data, lines), pending) == (Entering(t, data, lines), pending)
  {
    hide Find, Boundary, DataPart;
    if data + pending == DataPart(d) {
      EndArrives(d, data, pending);
    }
  }

  lemma {:induction false} Served(t: Trace, text: string, r: Trace)
    requires Accepted(t, text, r)
    ensures Serve(r, "") == (r, "")
  {
  }

  /** One piece more of a message. */
  lemma {:induction false} PieceCollected(d: string, t: Trace, r: Trace, pending: string, piece: string, rest: string)
    requires Clean(d) && t.mail.state == DATA_START && !TitleThrows(d + CRLF)
    requires Holding(d, t, r, pending) && r.mail.data + pending + (piece + rest) == DataPart(d)
    ensures var next := Serve(r, pending + piece);
            if rest == "" then Accepted(t, d + CRLF, next.0) && next.1 == ""
            else Holding(d, t, next.0, next.1) && next.0.mail.data + next.1 == r.mail.data + pending + piece
                 && next.0.mail.data + next.1 + rest == DataPart(d)
  {
    hide Clean, DataPart, TitleThrows, Boundary, Find, Accepted, Serve;
    var lines :| AllLines(lines) && r == Entering(t, r.mail.data, lines);
    var data, now := r.mail.data, pending + piece;
    assert data + pending + (piece + rest) == (data + now) + rest;
    assert data + now <= DataPart(d);
    ServeData(d, t, data, lines, now);
    assert rest == "" <==> |data + now| == |DataPart(d)|;
    assert (data + now) + "" == data + now;
  }

  lemma {:induction false} ConnectionCollects(d: string, t: Trace, r: Trace, pending: string, pieces: seq<string>)
    requires Clean(d) && t.mail.state == DATA_START && !TitleThrows(d + CRLF)
    requires Holding(d, t, r, pending) && pieces != []
    requires r.mail.data + pending + Flatten(pieces) == DataPart(d)
    requires forall i :: 0 <= i < |pieces| ==> pieces[i] != ""
    ensures var c := Connection(r, pending, pieces);
            && (c.Some? <==> Fits(r.mail.data + pending, pieces))
            && (c.Some? ==> Accepted(t, d + CRLF, c.value.0) && c.value.1 == "")
    decreases |pieces|
  {
    hide Clean, DataPart, TitleThrows, Holding, Flatten, Accepted, Serve, AfterLastEnd;
    FlattenCons(pieces);
    WaitingIsRest(d, t, r, pending);
    PieceCollected(d, t, r, pending, pieces[0], Flatten(pieces[1..]));
    var next := Serve(r, pending + pieces[0]);
    if pieces[1..] == [] {
      FlattenNone();
    } else {
      SomethingLeft(pieces[1..]);
      assert next.0.mail.data + next.1 == r.mail.data + pending + pieces[0];
      ConnectionCollects(d, t, next.0, next.1, pieces[1..]);
    }
  }

  /** What waits in the buffer is what follows the last line end of the message so far. */
  lemma {:induction false} WaitingIsRest(d: string, t: Trace, r: Trace, pending: string)
    requires Holding(d, t, r, pending)
    ensures AfterLastEnd(r.mail.data + pending) == pending
  {
    hide Find, AfterLastEnd;
    if r.mail.data == "" {
      assert "" + pending == pending;
      NoEndYet(pending);
    } else {
      LastEndBefore(r.mail.data, pending);
    }
  }

  lemma {:induction false} FlattenNone()
    ensures Flatten([]) == ""
  {
  }

  /** A message is delivered as it was written, with the sender and the recipients of its
      session, for exactly those ways of cutting it in which every piece fits the buffer. */
  lemma {:induction false} MessageCollected(d: string, t: Trace, pieces: seq<string>)
    requires Clean(d) && t.mail.state == DATA_START && t.mail.data == "" && !TitleThrows(d + CRLF)
    requires Pieces(DataPart(d), pieces)
    ensures var c := Connection(t, "", pieces);
            && (c.Some? <==> Fits("", pieces))
            && (c.Some? ==> Accepted(t, d + CRLF, c.value.0) && c.value.1 == "")
  {
    hide Find, FindFrom, Clean, TitleThrows, Accepted, Connection, Fits;
    assert t.log + [] == t.log;
    assert t == Entering(t, "", []);
    assert AllLines([]);
    NoCrlf();
    assert Holding(d, t, t, "");
    assert "" + "" + Flatten(pieces) == DataPart(d);
    assert pieces != [] by {
      EndChars(d);
    }
    ConnectionCollects(d, t, t, "", pieces);
  }

  lemma {:induction false} NoCrlf()
    ensures Find("", CRLF) == NPOS
  {
  }

  // ------------------------------------------------------------ storing and reading back

  /** The title cut out of a message: what follows "Subject: " on its line; without a subject,
      what lies between the ninth character and the end of the first line. */
  function Title(data: string): string
    requires !TitleThrows(data)
  {
    var f1 := Find(data, "Subject: ");
    Slice(data, f1 + 9, FindFrom(data, CRLF, f1 + 1))
  }

  /** The header line of a mail in an inbox, without its line end. */
  function Header(server: string, sender: string, rcpt: string, title: string, time: string): string {
    "Header |" + (server + ("|" + (sender + ("|" + (rcpt + ("|" + (title + ("|" + time))))))))
  }

  /** What `extract_email` makes of a reply. */
  datatype Email = Email(header: string, content: string, hash: string)

  function Extract(response: string, hash: string -> string): Option<Email> {
    var f1 := Find(response, "Header ");
    var f2 := FindFrom(response, CRLF, f1 + 1);
    var f3 := FindFrom(response, CRLF, f2 + 1);
    if f1 == NPOS || f3 + 2 > |response| || f2 + 2 > |response| then None
    else Some(Email(Slice(response, f1, f2), response[f3 + 2..], hash(response[f2 + 2..])))
  }

  /** Whatever holds the word "Header " is taken apart. If its line does not end, the content
      starts behind the first line end of the whole reply, or at its second character. */
  lemma {:induction false} ExtractIff(response: string, hash: string -> string)
    ensures Extract(response, hash).Some? <==> Find(response, "Header ") != NPOS
    ensures var f1, first := Find(response, "Header "), Find(response, CRLF);
            f1 != NPOS && FindFrom(response, CRLF, f1 + 1) == NPOS ==>
              Extract(response, hash).value.content == response[if first == NPOS then 1 else first + 2..]
  {
    hide FindFrom;
    var f1 := Find(response, "Header ");
    if f1 != NPOS {
      var f2 := FindFrom(response, CRLF, f1 + 1);
      var f3 := FindFrom(response, CRLF, f2 + 1);
      assert f1 + 7 <= |response|;
    }
  }

  lemma {:induction false} StartsHere(p: string, rest: string)
    requires p <= rest
    ensures Find(rest, p) == 0
  {
    assert rest[0..|p|] == p;
  }

  /** The first line end of a header and its message. */
  lemma {:induction false} HeaderEnd(hd: string, data: string)
    requires "Header " <= hd
    ensures var v := hd + (CRLF + data);
            && Find(v, "Header ") == 0
            && 1 <= FindFrom(v, CRLF, 1) <= |hd|
            && (FindFrom(v, CRLF, 1) == |hd| <==> Find(hd, CRLF) == NPOS)
  {
    hide FindFrom, At;
    var v := hd + (CRLF + data);
    assert "Header " <= v by {
      assert v[..|hd|] == hd;
    }
    StartsHere("Header ", v);
    CrlfAt(v, |hd|);
    var f2, x := FindFrom(v, CRLF, 1), Find(hd, CRLF);
    CrlfAt(v, f2);
    CrlfAt(hd, f2);
    CrlfAt(v, x);
    CrlfAt(hd, x);
    assert forall i :: 0 <= i < |hd| ==> v[i] == hd[i];
    assert hd[0] == "Header "[0] == 'H';
  }

  /** The hash recomputed from a stored mail is the hash of its message, for every hash
      function, exactly if the header is a single line; then the header comes back too. */
  lemma {:induction false} HashComesBackIff(hd: string, data: string)
    requires "Header " <= hd && Find(data, CRLF) != NPOS
    ensures var v := hd + (CRLF + data);
            && (forall hash: string -> string :: Extract(v, hash).Some?)
            && ((forall hash: string -> string :: Extract(v, hash).value.hash == hash(data))
                <==> Find(hd, CRLF) == NPOS)
            && (Find(hd, CRLF) == NPOS ==>
                  forall hash: string -> string ::
                    Extract(v, hash).value == Email(hd, data[Find(data, CRLF) + 2..], hash(data)))
  {
    hide Find, FindFrom;
    var v := hd + (CRLF + data);
    HeaderEnd(hd, data);
    var f2 := FindFrom(v, CRLF, 1);
    SecondEnd(hd, data, f2);
    var f3 := FindFrom(v, CRLF, f2 + 1);
    assert forall hash: string -> string :: Extract(v, hash) == Some(Email(v[0..f2], v[f3 + 2..], hash(v[f2 + 2..])));
    if Find(hd, CRLF) == NPOS {
      assert v[f2 + 2..] == data && v[0..f2] == hd;
      assert v[f3 + 2..] == data[Find(data, CRLF) + 2..];
    } else {
      var length := (s: string) => if |s| == |data| then "a" else "b";
      assert |v[f2 + 2..]| != |data|;
      assert Extract(v, length).value.hash == "b" != length(data);
    }
  }

  /** There is always a line end after the header. */
  lemma {:induction false} SecondEnd(hd: string, data: string, f2: nat)
    requires f2 <= |hd| && Find(data, CRLF) != NPOS
    requires var v := hd + (CRLF + data); At(v, CRLF, f2)
    ensures var v := hd + (CRLF + data);
            var f3 := FindFrom(v, CRLF, f2 + 1);
            f2 + 2 <= f3 <= |v| - 2 && (f2 == |hd| ==> f3 == |hd| + 2 + Find(data, CRLF))
  {
    hide FindFrom, At;
    var v := hd + (CRLF + data);
    var x := Find(data, CRLF);
    CrlfAt(v, f2);
    CrlfAt(data, x);
    CrlfAt(v, |hd| + 2 + x);
    assert v[|hd| + 2 + x] == data[x] && v[|hd| + 2 + x + 1] == data[x + 1];
    var f3 := FindFrom(v, CRLF, f2 + 1);
    CrlfAt(v, f3);
    if f2 == |hd| {
      CrlfAt(data, f3 - |hd| - 2);
      assert f3 >= |hd| + 2;
      assert v[f3] == data[f3 - |hd| - 2] && v[f3 + 1] == data[f3 - |hd| - 1];
    }
  }

  /** The title of a message is on one line exactly if there is a subject, or the first line
      has eight characters, or there is nothing after the ninth to take a line end from. */
  predicate TitleOnOneLine(data: string) {
    Find(data, "Subject: ") != NPOS || Find(data, CRLF) >= 8 || |data| < 10
  }

  lemma {:induction false} TitleIff(data: string)
    requires Ended(data) && !TitleThrows(data)
    ensures Find(Title(data), CRLF) == NPOS <==> TitleOnOneLine(data)
  {
    hide FindFrom, At;
    var f1 := Find(data, "Subject: ");
    var f2 := FindFrom(data, CRLF, f1 + 1);
    CrlfAt(data, |data| - 2);
    CrlfAt(data, f2);
    if f1 != NPOS {
      SubjectFits(data);
      SubjectLine(data, f1, f2);
      InsideLine(data, f1 + 9, f2, f1 + 1);
    } else if f2 >= 8 {
      InsideLine(data, 8, f2, 0);
    } else {
      RestOfMessage(data);
    }
  }

  /** The title of a message with a subject is what follows "Subject: " on its line. */
  lemma {:induction false} TitleIs(pre: string, t: string, rest: string)
    requires var data := pre + ("Subject: " + (t + (CRLF + rest))); Find(data, "Subject: ") == |pre|
    requires Free(t, '\r')
    ensures Title(pre + ("Subject: " + (t + (CRLF + rest)))) == t
  {
    hide FindFrom, At;
    var data, n := pre + ("Subject: " + (t + (CRLF + rest))), |pre| + 9;
    assert data[n..] == t + (CRLF + rest);
    CrlfAt(data, n + |t|);
    var f2 := FindFrom(data, CRLF, |pre| + 1);
    CrlfAt(data, f2);
    assert forall i :: 0 <= i < 9 ==> data[|pre| + i] == "Subject: "[i];
    assert forall i :: 0 <= i < |t| ==> data[n + i] == t[i];
    assert data[n..n + |t|] == t;
  }

  /** Without a subject it is the first line without its first eight characters. */
  lemma {:induction false} TitleWithout(line: string, rest: string)
    requires var data := line + (CRLF + rest); Find(data, "Subject: ") == NPOS
    requires Free(line, '\r') && |line| >= 8
    ensures Title(line + (CRLF + rest)) == line[8..]
  {
    hide FindFrom, At;
    var data := line + (CRLF + rest);
    CrlfAt(data, |line|);
    var f2 := FindFrom(data, CRLF, 0);
    CrlfAt(data, f2);
    assert forall i :: 0 <= i < |line| ==> data[i] == line[i];
    assert data[8..|line|] == line[8..];
  }

  /** What a mail reader shows of a header. */
  datatype Shown = Shown(sender: string, rcpt: string, title: string, time: string)

  /** `parse_header`: the text between the bars. */
  function ParseHeader(header: string): Shown {
    var p1 := Find(header, "|");
    var p2 := FindFrom(header, "|", p1 + 1);
    var p3 := FindFrom(header, "|", p2 + 1);
    var p4 := FindFrom(header, "|", p3 + 1);
    var p5 := FindFrom(header, "|", p4 + 1);
    Shown(Slice(header, p2 + 1, p3), Slice(header, p3 + 1, p4), Slice(header, p4 + 1, p5), header[p5 + 1..])
  }

  /** The next bar behind a field without bars. */
  lemma {:induction false} NextBar(before: string, field: string, after: string)
    requires Free(field, '|')
    ensures var h := before + (field + ("|" + after));
            FindFrom(h, "|", |before|) == |before| + |field| && Slice(h, |before|, |before| + |field|) == field
  {
    hide At;
    var h, n := before + (field + ("|" + after)), |before|;
    assert h[n..] == field + ("|" + after);
    assert h[n..n + |field|] == field;
    AtIndex(h, "|", n + |field|);
    forall j | n <= j < n + |field|
      ensures !At(h, "|", j)
    {
      assert h[j] == field[j - n];
      if At(h, "|", j) {
        AtChar(h, "|", j, 0);
      }
    }
    FindFromIs(h, "|", n, n + |field|);
  }

  lemma {:induction false} BarsAt(h: string, p1: nat, p2: nat, p3: nat, p4: nat)
    requires Find(h, "|") == p1 && FindFrom(h, "|", p1 + 1) == p2
    requires FindFrom(h, "|", p2 + 1) == p3 && FindFrom(h, "|", p3 + 1) == p4 < |h|
    ensures var p5 := FindFrom(h, "|", p4 + 1);
            ParseHeader(h) ==
            Shown(Slice(h, p2 + 1, p3), Slice(h, p3 + 1, p4), Slice(h, p4 + 1, p5), h[p5 + 1..])
  {
    hide FindFrom, At, Slice;
  }

  /** Whatever the title is, the bars before it are found, and it ends at the first one in
      what follows. */
  lemma {:induction false} BarsFound(server: string, sender: string, rcpt: string, title: string, time: string)
    requires Free(server, '|') && Free(sender, '|') && Free(rcpt, '|')
    ensures var h := Header(server, sender, rcpt, title, time);
            var p4 := 8 + |server| + |sender| + |rcpt| + 2;
            && p4 < |h| && h[p4 + 1..] == title + ("|" + time)
            && ParseHeader(h) ==
               var p5 := FindFrom(h, "|", p4 + 1);
               Shown(sender, rcpt, Slice(h, p4 + 1, p5), h[p5 + 1..])
  {
    hide FindFrom, At, Slice, ParseHeader;
    var h, end := Header(server, sender, rcpt, title, time), title + ("|" + time);
    var a1 := "Header |";
    var a2 := a1 + (server + "|");
    var a3 := a2 + (sender + "|");
    var a4 := a3 + (rcpt + "|");
    assert h == "" + ("Header " + ("|" + (server + ("|" + (sender + ("|" + (rcpt + ("|" + end))))))));
    NextBar("", "Header ", server + ("|" + (sender + ("|" + (rcpt + ("|" + end))))));
    assert h == a1 + (server + ("|" + (sender + ("|" + (rcpt + ("|" + end))))));
    NextBar(a1, server, sender + ("|" + (rcpt + ("|" + end))));
    assert h == a2 + (sender + ("|" + (rcpt + ("|" + end))));
    NextBar(a2, sender, rcpt + ("|" + end));
    assert h == a3 + (rcpt + ("|" + end));
    NextBar(a3, rcpt, end);
    assert h == a4 + end;
    BarsAt(h, 7, |a2| - 1, |a3| - 1, |a4| - 1);
  }

  /** What is taken for the title and for the time. */
  lemma {:induction false} TitleShown(a: string, title: string, time: string)
    ensures var h := a + (title + ("|" + time));
            var p5 := FindFrom(h, "|", |a|);
            && |a| <= p5 < |h|
            && (Slice(h, |a|, p5) == title <==> Free(title, '|'))
            && (Free(title, '|') ==> h[p5 + 1..] == time)
  {
    hide FindFrom, At;
    if Free(title, '|') {
      NextBar(a, title, time);
      Behind(a, title, time);
    } else {
      var k := FirstBar(title);
      var rest := title[k + 1..] + ("|" + time);
      assert title + ("|" + time) == title[..k] + ("|" + rest);
      NextBar(a, title[..k], rest);
    }
  }

  lemma {:induction false} Behind(a: string, title: string, time: string)
    ensures (a + (title + ("|" + time)))[|a| + |title| + 1..] == time
  {
  }

  /** The fields of a header are shown as they were written exactly if the title has no bar. */
  lemma {:induction false} HeaderShownIff(server: string, sender: string, rcpt: string, title: string, time: string)
    requires Free(server, '|') && Free(sender, '|') && Free(rcpt, '|')
    ensures ParseHeader(Header(server, sender, rcpt, title, time)) == Shown(sender, rcpt, title, time)
            <==> Free(title, '|')
  {
    hide FindFrom, At, ParseHeader, Header, Free, Slice;
    BarsFound(server, sender, rcpt, title, time);
    var h, n := Header(server, sender, rcpt, title, time), 8 + |server| + |sender| + |rcpt| + 3;
    assert h == h[..n] + h[n..];
    TitleShown(h[..n], title, time);
  }

  /** The parts of a text that its bars separate. */
  function BarParts(s: string): (r: seq<string>)
    ensures r != []
  {
    if s == "" then [""]
    else
      var r := BarParts(s[1..]);
      if s[0] == '|' then [""] + r else [[s[0]] + r[0]] + r[1..]
  }

  lemma {:induction false} FirstPart(field: string, after: string)
    requires Free(field, '|')
    ensures BarParts(field + ("|" + after)) == [field] + BarParts(after)
  {
    var s := field + ("|" + after);
    if field == "" {
      assert s[0] == '|' && s[1..] == after;
    } else {
      assert s[0] == field[0] != '|' && s[1..] == field[1..] + ("|" + after);
      FirstPart(field[1..], after);
      assert [field[0]] + field[1..] == field;
    }
  }

  lemma {:induction false} OnePart(field: string)
    requires Free(field, '|')
    ensures BarParts(field) == [field]
  {
    if field != "" {
      OnePart(field[1..]);
      assert field[0] != '|' && [field[0]] + field[1..] == field;
    }
  }

  /** With plain fields, these are what the bars of a header separate, in this order. */
  lemma {:induction false} HeaderParts(server: string, sender: string, rcpt: string, title: string, time: string)
    requires Free(server, '|') && Free(sender, '|') && Free(rcpt, '|') && Free(title, '|') && Free(time, '|')
    ensures BarParts(Header(server, sender, rcpt, title, time)) == ["Header ", server, sender, rcpt, title, time]
  {
    hide BarParts;
    var behind := server + ("|" + (sender + ("|" + (rcpt + ("|" + (title + ("|" + time)))))));
    assert Header(server, sender, rcpt, title, time) == "Header " + ("|" + behind);
    FirstPart("Header ", behind);
    FirstPart(server, sender + ("|" + (rcpt + ("|" + (title + ("|" + time))))));
    FirstPart(sender, rcpt + ("|" + (title + ("|" + time))));
    FirstPart(rcpt, title + ("|" + time));
    FirstPart(title, time);
    OnePart(time);
  }

  lemma {:induction false} FirstBar(title: string) returns (k: nat)
    requires '|' in title
    ensures k < |title| && title[k] == '|' && Free(title[..k], '|')
  {
    k := 0;
    while title[k] != '|'
      invariant k < |title| && Free(title[..k], '|') && '|' in title[k..]
      decreases |title| - k
    {
      assert title[..k + 1] == title[..k] + [title[k]];
      k := k + 1;
    }
  }

  /** The text ends with a line end. */
  predicate Ended(data: string) {
    |data| >= 2 && data[|data| - 2] == '\r' && data[|data| - 1] == '\n'
  }

  lemma {:induction false} SubjectFits(data: string)
    requires Find(data, "Subject: ") != NPOS
    ensures 0 <= Find(data, "Subject: ") <= |data| - 9
  {
  }

  lemma {:induction false} SubjectLine(data: string, f1: nat, f2: int)
    requires Ended(data) && At(data, "Subject: ", f1) && f2 == FindFrom(data, CRLF, f1 + 1)
    ensures f1 + 9 <= f2 <= |data| - 2
  {
    hide FindFrom, At;
    CrlfAt(data, |data| - 2);
    CrlfAt(data, f2);
    SubjectAt(data, f1, 8);
    if 0 <= f2 - f1 < 9 {
      SubjectAt(data, f1, f2 - f1);
    }
  }

  lemma {:induction false} SubjectAt(data: string, f1: nat, k: nat)
    requires At(data, "Subject: ", f1) && k < 9
    ensures f1 + k < |data| && data[f1 + k] == "Subject: "[k] && data[f1 + k] != '\r'
  {
    AtChar(data, "Subject: ", f1, k);
  }

  /** Before the first line end there is none. */
  lemma {:induction false} InsideLine(data: string, lo: nat, f2: nat, from: nat)
    requires from <= lo <= f2 <= |data| && f2 == FindFrom(data, CRLF, from)
    ensures Slice(data, lo, f2) == data[lo..f2] && Find(data[lo..f2], CRLF) == NPOS
  {
    hide FindFrom, At;
    var s := data[lo..f2];
    var k := Find(s, CRLF);
    CrlfAt(s, k);
    CrlfAt(data, lo + k);
  }

  lemma {:induction false} RestOfMessage(data: string)
    requires Ended(data) && Find(data, "Subject: ") == NPOS && 0 <= Find(data, CRLF) < 8 <= |data|
    ensures Title(data) == data[8..]
    ensures Find(data[8..], CRLF) == NPOS <==> |data| < 10
  {
    hide FindFrom, At;
    var s := data[8..];
    CrlfAt(s, |data| - 10);
    CrlfAt(s, Find(s, CRLF));
  }

  lemma {:induction false} BarEndsNothing(a: string, b: string)
    requires Free(a, '\r')
    ensures Find(a + ("|" + b), CRLF) == NPOS <==> Find(b, CRLF) == NPOS
  {
    hide FindFrom, At;
    var s := a + ("|" + b);
    var k, x := Find(s, CRLF), Find(b, CRLF);
    CrlfAt(s, k);
    CrlfAt(b, k - |a| - 1);
    CrlfAt(b, x);
    CrlfAt(s, x + |a| + 1);
    assert forall i :: 0 <= i < |a| ==> s[i] == a[i];
    assert s[|a|] == '|';
    assert forall i :: 0 <= i < |b| ==> s[i + (|a| + 1)] == b[i];
  }

  lemma {:induction false} BarBefore(a: string, b: string)
    requires Free(b, '\r')
    ensures Find(a + ("|" + b), CRLF) == NPOS <==> Find(a, CRLF) == NPOS
  {
    hide FindFrom, At;
    var s := a + ("|" + b);
    var k, x := Find(s, CRLF), Find(a, CRLF);
    CrlfAt(s, k);
    CrlfAt(a, k);
    CrlfAt(a, x);
    CrlfAt(s, x);
    assert forall i :: 0 <= i < |a| ==> s[i] == a[i];
    assert s[|a|] == '|';
    assert forall i :: 0 <= i < |b| ==> s[i + (|a| + 1)] == b[i];
  }

  /** With plain other fields, the header is one line exactly if the title is. */
  lemma {:induction false} HeaderOneLine(server: string, sender: string, rcpt: string, title: string, time: string)
    requires Free(server, '\r') && Free(sender, '\r') && Free(rcpt, '\r') && Free(time, '\r')
    ensures Find(Header(server, sender, rcpt, title, time), CRLF) == NPOS <==> Find(title, CRLF) == NPOS
    ensures "Header |" <= Header(server, sender, rcpt, title, time)
  {
    hide Find;
    BarBefore(title, time);
    BarEndsNothing(rcpt, title + ("|" + time));
    BarEndsNothing(sender, rcpt + ("|" + (title + ("|" + time))));
    BarEndsNothing(server, sender + ("|" + (rcpt + ("|" + (title + ("|" + time))))));
    BarEndsNothing("Header ", server + ("|" + (sender + ("|" + (rcpt + ("|" + (title + ("|" + time))))))));
    assert "Header " + ("|" + (server + ("|" + (sender + ("|" + (rcpt + ("|" + (title + ("|" + time)))))))))
        == Header(server, sender, rcpt, title, time);
  }

  /** A header line before a clean message keeps it clean. */
  lemma {:induction false} HeaderKeepsClean(hd: string, d: string)
    requires Clean(d) && Find(hd, CRLF) == NPOS && hd != "" && hd[0] == 'H'
    ensures Clean(hd + (CRLF + d))
  {
    hide FindFrom, At;
    var e, w := "\r\n" + ((hd + (CRLF + d)) + "\r\n"), "\r\n" + (d + "\r\n");
    var j := Find(e, TERM);
    TermAt(e, j);
    TermAt(w, j - |hd| - 2);
    CrlfAt(hd, j - 2);
    assert forall i :: 0 <= i < |hd| ==> e[i + 2] == hd[i];
    assert forall i :: 0 <= i < |w| ==> e[i + (|hd| + 2)] == w[i];
  }

  /** A message whose first "Subject: " is followed by that subject, on its line. */
  predicate WrittenWith(text: string, pre: string, subject: string, rest: string) {
    && text == pre + ("Subject: " + (subject + (CRLF + rest)))
    && Find(text, "Subject: ") == |pre| && Free(subject, '\r')
  }

  /** The whole way of a mail. A clean message, entered in a session after DATA and cut
      anywhere, is delivered as written; its stored form is what the server cuts out of the
      PUT; it is read back unchanged however the reply is cut; and from it come the header,
      the text below its first line, and the hash under whose name it was stored. The header
      shows the sender, the recipient, the subject the message was written with, and the
      time. */
  lemma {:induction false} MailEndToEnd(
      d: string, t: Trace, pieces: seq<string>, server: string, rcpt: string, time: string,
      replyPieces: seq<string>, hash: string -> string, pre: string, subject: string, rest: string)
    requires Clean(d) && t.mail.state == DATA_START && t.mail.data == ""
    requires Pieces(DataPart(d), pieces) && !TitleThrows(d + CRLF) && TitleOnOneLine(d + CRLF)
    requires Free(server, '\r') && Free(t.mail.sender, '\r') && Free(rcpt, '\r') && Free(time, '\r')
    requires var hd := Header(server, t.mail.sender, rcpt, Title(d + CRLF), time);
             Pieces(Frame("DATA", hd + (CRLF + d)), replyPieces)
    ensures var text := d + CRLF;
            var hd := Header(server, t.mail.sender, rcpt, Title(text), time);
            var stored := hd + (CRLF + d);
            var frame := Frame("DATA", stored);
            var c := Connection(t, "", pieces);
            && (if Fits("", pieces) then c.Some? && Accepted(t, text, c.value.0) else c.None?)
            && Find(frame, TERM) != NPOS && Find(frame, "DATA\r\n") == 0
            && PutValue(frame) == stored + CRLF
            && ReadAll(EMPTY, replyPieces) == (if Fits("", replyPieces) then Done(stored + CRLF) else Overflow)
            && Extract(stored + CRLF, hash) == Some(Email(hd, text[Find(text, CRLF) + 2..], hash(text)))
            && (WrittenWith(text, pre, subject, rest) && Free(server + t.mail.sender + rcpt + subject, '|') ==>
                  && ParseHeader(hd) == Shown(t.mail.sender, rcpt, subject, time)
                  && (Free(time, '|') ==>
                        BarParts(hd) == ["Header ", server, t.mail.sender, rcpt, subject, time]))
  {
    hide BarParts, Find, FindFrom, Clean, TitleThrows, TitleOnOneLine, Title, Header, Connection, Accepted, Extract,
         Frame, DataPart, ReadAll, PutValue, Fits;
    var text := d + CRLF;
    var hd := Header(server, t.mail.sender, rcpt, Title(text), time);
    var stored := hd + (CRLF + d);
    MessageCollected(d, t, pieces);
    MessageEnded(d);
    TitleIff(text);
    HeaderOneLine(server, t.mail.sender, rcpt, Title(text), time);
    HeaderStarts(hd);
    HeaderKeepsClean(hd, d);
    PutRoundTripIff(stored, Frame("DATA", stored));
    ReplyReadExactly(stored, replyPieces);
    HashComesBackIff(hd, text);
    assert stored + CRLF == hd + (CRLF + text);
    if WrittenWith(text, pre, subject, rest) && Free(server + t.mail.sender + rcpt + subject, '|') {
      TitleIs(pre, subject, rest);
      FreeParts(server, t.mail.sender, rcpt, subject);
      HeaderShownIff(server, t.mail.sender, rcpt, subject, time);
      if Free(time, '|') {
        HeaderParts(server, t.mail.sender, rcpt, subject, time);
      }
    }
  }

  lemma {:induction false} FreeParts(a: string, b: string, c: string, d: string)
    requires Free(a + b + c + d, '|')
    ensures Free(a, '|') && Free(b, '|') && Free(c, '|') && Free(d, '|')
  {
    var s := a + b + c + d;
    assert forall i :: 0 <= i < |a| ==> s[i] == a[i];
    assert forall i :: 0 <= i < |b| ==> s[|a| + i] == b[i];
    assert forall i :: 0 <= i < |c| ==> s[|a| + |b| + i] == c[i];
    assert forall i :: 0 <= i < |d| ==> s[|a| + |b| + |c| + i] == d[i];
  }

  lemma {:induction false} HeaderStarts(hd: string)
    requires "Header |" <= hd
    ensures "Header " <= hd && hd != "" && hd[0] == 'H'
  {
    assert hd[..8] == "Header |";
    assert hd[..7] == hd[..8][..7] == "Header ";
  }

  lemma {:induction false} MessageEnded(d: string)
    ensures Ended(d + CRLF) && Find(d + CRLF, CRLF) != NPOS
  {
    assert At(d + CRLF, CRLF, |d|);
  }
}
