/** A replica's connection to the primary: many pushed commands in one stream, cut into reads in
    any way, and exactly when the replica carries out all of them. */
module Pushes {
  import opened Text
  import opened Updates
  import opened LogFormat
  import opened Wire
  import opened GetReply
  import opened Transfer

  /** A pushed command. */
  datatype Pushed = Pushed(update: Update, seqno: int)

  /** How the worker stops: it waits for more, it meets a line that is no pushed command, or
      `stol` finds no number. */
  datatype End = Idle | Strange(line: string) | NoNumber

  datatype Outcome = Outcome(carried: seq<Pushed>, end: End)

  function Then(c: Pushed, o: Outcome): Outcome {
    Outcome([c] + o.carried, o.end)
  }

  // ------------------------------------------------------------ the worker

  /** A call of `do_read` or `do_read_data`: it returns when its own buffer holds the mark it
      looks for. */
  datatype Call = Blocked | Returned(buf: string, rest: seq<string>)

  function ReadCall(mark: string, buf: string, segments: seq<string>): (r: Call)
    ensures r.Returned? ==> |r.rest| < |segments|
    decreases |segments|
  {
    if segments == [] then Blocked
    else
      var now := buf + segments[0];
      if Contains(now, mark) then Returned(now, segments[1..]) else ReadCall(mark, now, segments[1..])
  }

  /** The body of a command: what is there, and more until `mark` is. Every call of
      `do_read_data` waits for the end mark of a value, whatever `mark` is. */
  function Collect(mark: string, buffer: string, segments: seq<string>): (r: Call)
    ensures r.Returned? ==> |r.rest| < |segments| || (r.rest == segments && r.buf == buffer)
    ensures r.Returned? ==> Contains(r.buf, mark)
    decreases |segments|
  {
    if Contains(buffer, mark) then Returned(buffer, segments)
    else
      match ReadCall(TERM, "", segments)
      case Blocked => Blocked
      case Returned(buf, rest) => Collect(mark, buffer + buf, rest)
  }

  function Upper(c: char): char {
    if 'a' <= c <= 'z' then (c as int - 32) as char else c
  }

  /** `strnicmp`, which compares as many characters as both have. */
  predicate Starts(line: string, verb: string) {
    line != "" && forall i :: 0 <= i < |verb| && i < |line| ==> Upper(line[i]) == verb[i]
  }

  /** A whole line starts with a verb exactly if it does so letter by letter, in either case. */
  lemma {:induction false} StartsIff(line: string, verb: string)
    requires |line| >= 2 && line[|line| - 2] == '\r' && line[|line| - 1] == '\n'
    requires forall i :: 0 <= i < |verb| ==> 'A' <= verb[i] <= 'Z'
    ensures Starts(line, verb) <==>
            |verb| <= |line| && forall i :: 0 <= i < |verb| ==>
              line[i] == verb[i] || line[i] as int == verb[i] as int + 32
  {
    forall i | 0 <= i < |verb| && i < |line|
      ensures Upper(line[i]) == verb[i] <==> line[i] == verb[i] || line[i] as int == verb[i] as int + 32
    {
      UpperIff(line[i], verb[i]);
    }
    assert |line| < |verb| ==> Upper(line[|line| - 1]) != verb[|line| - 1];
  }

  lemma {:induction false} UpperIff(c: char, v: char)
    requires 'A' <= v <= 'Z'
    ensures Upper(c) == v <==> c == v || c as int == v as int + 32
  {
  }

  /** `w << buf` after `w.str(..)`: writing starts at the front, over what was left there. */
  function Over(w: string, buf: string): string {
    if |buf| < |w| then buf + w[|buf|..] else buf
  }

  function NumberOf(buffer: string): int {
    Stol(Slice(buffer, 0, Find(buffer, CRLF)))
  }

  /** The command that a line and its body make. */
  function Command(line: string, buffer: string): Pushed
    requires Starts(line, "PUT") ==> Contains(buffer, TERM)
  {
    if Starts(line, "PUT") then Pushed(Put(RowOf(line), ColOf(line), PushedValue(buffer)), PushedSeq(buffer))
    else Pushed(Delete(RowOf(line), ColOf(line)), NumberOf(buffer))
  }

  /** What is left for the next command. */
  function LeftBehind(line: string, buffer: string): (w: string)
    requires if Starts(line, "PUT") then Contains(buffer, TERM) else Contains(buffer, CRLF)
    ensures |w| <= |buffer|
  {
    if Starts(line, "PUT") then Leftover(buffer) else buffer[Find(buffer, CRLF) + 2..]
  }

  function BodyMark(line: string): string {
    if Starts(line, "PUT") then TERM else CRLF
  }

  /** `Worker::run` on a replica, from the unread text `w` on. */
  function Carry(w: string, segments: seq<string>): Outcome
    decreases |segments|, |w|
  {
    var k := Find(w, CRLF);
    if k == NPOS then
      match ReadCall(CRLF, "", segments)
      case Blocked => Outcome([], Idle)
      case Returned(buf, rest) => Carry(Over(w, buf), rest)
    else
      var line := w[..k + 2];
      if !Starts(line, "PUT") && !Starts(line, "DELETE") then Outcome([], Strange(line))
      else
        match Collect(BodyMark(line), w[k + 2..], segments)
        case Blocked => Outcome([], Idle)
        case Returned(buffer, rest) =>
          var c := Command(line, buffer);
          if c.seqno < 0 then Outcome([], NoNumber)
          else Then(c, Carry(LeftBehind(line, buffer), rest))
  }

  /** A DELETE whose first line in the body has no number ends the worker, whatever follows. */
  lemma {:induction false} NumberlessEnds(line: string, body: string, segments: seq<string>)
    requires Find(line, CRLF) == |line| - 2 >= 0 && Starts(line, "DELETE") && !Starts(line, "PUT")
    requires Contains(body, CRLF) && NumberOf(body) < 0
    ensures Carry(line + body, segments) == Outcome([], NoNumber)
  {
    hide FindFrom, Starts, Stol, Slice;
    var w := line + body;
    assert At(w, CRLF, |line| - 2);
    assert Find(w, CRLF) == |line| - 2 by {
      var k := Find(w, CRLF);
      assert k < |line| - 2 ==> At(line, CRLF, k);
    }
    assert w[..|line|] == line && w[|line|..] == body;
  }

  // ------------------------------------------------------------ what the primary sends

  function LineOf(u: Update): string {
    if u.Put? then PutLine(u.row, u.col) else "DELETE <" + u.row + "> <" + u.col + ">"
  }

  function BodyOf(c: Pushed): string
    requires c.seqno >= 0
  {
    if c.update.Put? then PushBody(c.update.value, c.seqno) else Digits(c.seqno) + "\r\n"
  }

  /** A command as `push` and `poll` write it. */
  function CommandText(c: Pushed): string
    requires c.seqno >= 0
  {
    LineOf(c.update) + ("\r\n" + BodyOf(c))
  }

  /** Commands that can be pushed: keys and values as they come from the wire. */
  predicate Pushable(c: Pushed) {
    && c.seqno >= 0
    && Free(c.update.row, '>') && Free(c.update.row, '\r') && Free(c.update.col, '>') && Free(c.update.col, '\r')
    && (c.update.Put? ==> EndsLine(c.update.value) && Clean(c.update.value[..|c.update.value| - 2]))
  }

  predicate AllPushable(cs: seq<Pushed>) {
    forall i :: 0 <= i < |cs| ==> Pushable(cs[i])
  }

  function Stream(cs: seq<Pushed>): string
    requires AllPushable(cs)
  {
    if cs == [] then "" else CommandText(cs[0]) + Stream(cs[1..])
  }

  // ------------------------------------------------------------ the exact condition

  /** How far the replica has read, being at `a`, when it first has `p` characters. */
  function Reach(a: nat, segments: seq<string>, p: nat): (r: nat)
    ensures r >= a
    decreases |segments|
  {
    if a >= p || segments == [] then a else Reach(a + |segments[0]|, segments[1..], p)
  }

  /** The reads that are then still to come. */
  function Unread(a: nat, segments: seq<string>, p: nat): (r: seq<string>)
    decreases |segments|
  {
    if a >= p || segments == [] then segments else Unread(a + |segments[0]|, segments[1..], p)
  }

  predicate HasPut(cs: seq<Pushed>) {
    exists i :: 0 <= i < |cs| && cs[i].update.Put?
  }

  /** Where the first PUT ends. */
  function PutEnd(cs: seq<Pushed>): nat
    requires AllPushable(cs)
  {
    if cs == [] then 0
    else if cs[0].update.Put? then |CommandText(cs[0])|
    else |CommandText(cs[0])| + PutEnd(cs[1..])
  }

  /** The reads carry all commands through, when the first `a` characters have been read. A
      read that ends inside a command line must have begun with it. If the body is not there
      with the line, the next call reads up to the end of the first PUT, whose end mark it
      must see whole. And no read goes past the end of a PUT. */
  predicate Through(a: nat, segments: seq<string>, cs: seq<Pushed>)
    requires AllPushable(cs)
    decreases |cs|
  {
    cs == [] ||
    var c, line, end := cs[0], |LineOf(cs[0].update)| + 2, |CommandText(cs[0])|;
    var a1, s1 := Reach(a, segments, line), Unread(a, segments, line);
    && (a == 0 || a >= line)
    && if a1 >= end then
         (c.update.Put? ==> a1 == end) && Through(a1 - end, s1, cs[1..])
       else
         var a2, s2 := Reach(a1, s1, PutEnd(cs)), Unread(a1, s1, PutEnd(cs));
         && HasPut(cs) && (c.update.Put? ==> a1 + 5 <= end && a2 == end)
         && a2 >= end && Through(a2 - end, s2, cs[1..])
  }

  // ------------------------------------------------------------ one call

  /** A prefix holds the mark once it reaches the end of the first one. */
  lemma {:induction false} PrefixHas(s: string, now: string, mark: string)
    requires now <= s
    ensures Contains(now, mark) <==> Find(s, mark) != NPOS && Find(s, mark) + |mark| <= |now|
    ensures Contains(now, mark) ==> Find(now, mark) == Find(s, mark)
  {
    hide FindFrom;
    if Contains(now, mark) {
      FindInPrefix(now, s, mark);
    }
    var k := Find(s, mark);
    if k != NPOS && k + |mark| <= |now| {
      assert now[k..k + |mark|] == s[k..k + |mark|];
      assert At(now, mark, k);
    }
  }

  lemma {:induction false} ReadCallIs(mark: string, buf: string, segments: seq<string>, s: string)
    requires buf + Flatten(segments) == s && Find(s, mark) != NPOS && |buf| < Find(s, mark) + |mark|
    ensures var p := Find(s, mark) + |mark|;
            var r, rest := Reach(|buf|, segments, p), Unread(|buf|, segments, p);
            && p <= r <= |s| && ReadCall(mark, buf, segments) == Returned(s[..r], rest)
            && s[..r] + Flatten(rest) == s
    decreases |segments|
  {
    hide Find, Contains;
    assert buf + "" == buf;
    if segments != [] {
      FlattenCons(segments);
      var now, more := buf + segments[0], Flatten(segments[1..]);
      assert now + more == s;
      assert now <= s && s[..|now|] == now;
      PrefixHas(s, now, mark);
      if |now| < Find(s, mark) + |mark| {
        ReadCallIs(mark, now, segments[1..], s);
      }
    }
  }

  lemma {:induction false} ReadCallBlocks(mark: string, buf: string, segments: seq<string>, s: string)
    requires buf + Flatten(segments) == s && Find(s, mark) == NPOS
    ensures ReadCall(mark, buf, segments) == Blocked
    decreases |segments|
  {
    hide Find, Contains;
    if segments != [] {
      FlattenCons(segments);
      var now, more := buf + segments[0], Flatten(segments[1..]);
      assert now + more == s;
      assert now <= s;
      PrefixHas(s, now, mark);
      ReadCallBlocks(mark, now, segments[1..], s);
    }
  }

  /** Searching the rest of a text, from where nothing has been missed. */
  lemma {:induction false} FindTail(s: string, mark: string, a: nat)
    requires a <= |s| && (Find(s, mark) == NPOS || a <= Find(s, mark))
    ensures Find(s[a..], mark) == if Find(s, mark) == NPOS then NPOS else Find(s, mark) - a
  {
    hide FindFrom, At;
    assert s == s[..a] + s[a..];
    var k, j := Find(s, mark), Find(s[a..], mark);
    if j != NPOS {
      AtShift(s[..a], s[a..], mark, j);
    }
    if k != NPOS {
      AtShift(s[..a], s[a..], mark, k - a);
    }
  }

  // ------------------------------------------------------------ one command

  /** Text that may follow a command. */
  predicate NotDot(more: string) {
    more == "" || more[0] != '.'
  }

  lemma {:induction false} LineFree(u: Update)
    requires Free(u.row, '\r') && Free(u.col, '\r')
    ensures Free(LineOf(u), '\r') && |LineOf(u)| >= 9
  {
  }

  lemma {:induction false} LineEnds(c: Pushed, more: string)
    requires Pushable(c)
    ensures Find(CommandText(c) + more, CRLF) == |LineOf(c.update)|
  {
    hide Find, LineOf, Free, BodyOf;
    LineFree(c.update);
    assert CommandText(c) + more == LineOf(c.update) + ("\r\n" + (BodyOf(c) + more));
    FindCrlf(LineOf(c.update), BodyOf(c) + more);
  }

  /** The value of a PUT, as the client sent it. */
  function ValueOf(c: Pushed): string
    requires c.update.Put? && EndsLine(c.update.value)
  {
    c.update.value[..|c.update.value| - 2]
  }

  lemma {:induction false} PutBody(c: Pushed)
    requires Pushable(c) && c.update.Put?
    ensures BodyOf(c) == Frame(Digits(c.seqno), ValueOf(c)) && Free(Digits(c.seqno), '\r')
    ensures BodyOf(c) == PushBody(ValueOf(c) + "\r\n", c.seqno) && Clean(ValueOf(c))
  {
    hide Digits, Clean;
    var n, v := Digits(c.seqno), c.update.value;
    assert !IsDigit('\r');
    assert v == ValueOf(c) + "\r\n";
    assert n + "\r\n" + v + ".\r\n" == n + ("\r\n" + (ValueOf(c) + TERM));
  }

  /** The end mark of a PUT's body is the body's end. */
  lemma {:induction false} BodyTerm(c: Pushed)
    requires Pushable(c) && c.update.Put?
    ensures Find(BodyOf(c), TERM) == |BodyOf(c)| - 5 >= 0
  {
    hide Find, Digits, Clean, BodyOf, Free;
    PutBody(c);
    FrameEnd(Digits(c.seqno), ValueOf(c));
  }

  /** A body starts with its number. */
  lemma {:induction false} BodyNumber(c: Pushed)
    requires Pushable(c)
    ensures Digits(c.seqno) + "\r\n" <= BodyOf(c) && IsDigit(BodyOf(c)[0])
    ensures Find(BodyOf(c), CRLF) == |Digits(c.seqno)|
    ensures !c.update.Put? ==> BodyOf(c) == Digits(c.seqno) + "\r\n"
  {
    hide Find, Digits, Clean;
    var n := Digits(c.seqno);
    assert !IsDigit('\r');
    if c.update.Put? {
      var more := c.update.value + ".\r\n";
      assert BodyOf(c) == n + ("\r\n" + more);
      FindCrlf(n, more);
    } else {
      assert BodyOf(c) == n + ("\r\n" + "");
      FindCrlf(n, "");
    }
  }

  /** No end mark starts in the line. */
  lemma {:induction false} NoTermInLine(line: string, rest: string, j: int)
    requires Free(line, '\r') && rest != "" && rest[0] != '.'
    requires At(line + ("\r\n" + rest), TERM, j)
    ensures j >= |line| + 2
  {
    hide At;
    var s := line + ("\r\n" + rest);
    TermAt(s, j);
    assert forall i :: 0 <= i < |line| ==> s[i] == line[i];
    assert s[|line|] == '\r' && s[|line| + 1] == '\n' && s[|line| + 2] == rest[0];
  }

  lemma {:induction false} DigitNoDot(c: Pushed, more: string)
    requires Pushable(c)
    ensures BodyOf(c) + more != "" && (BodyOf(c) + more)[0] != '.'
  {
    BodyNumber(c);
    assert !IsDigit('.');
    hide BodyOf, Digits, Clean;
    assert (BodyOf(c) + more)[0] == BodyOf(c)[0];
  }

  lemma {:induction false} TermShift(line: string, rest: string)
    requires Free(line, '\r') && rest != "" && rest[0] != '.'
    ensures Find(line + ("\r\n" + rest), TERM) ==
            if Find(rest, TERM) == NPOS then NPOS else |line| + 2 + Find(rest, TERM)
  {
    hide At, FindFrom;
    var s, a := line + ("\r\n" + rest), line + "\r\n";
    assert s == a + rest;
    var k, j := Find(rest, TERM), Find(s, TERM);
    if k != NPOS {
      AtShift(a, rest, TERM, k);
    }
    if j != NPOS {
      NoTermInLine(line, rest, j);
      AtShift(a, rest, TERM, j - |a|);
    }
  }

  /** The first end mark behind the start of a PUT is its own. */
  lemma {:induction false} PutTerm(c: Pushed, more: string)
    requires Pushable(c) && c.update.Put?
    ensures Find(CommandText(c) + more, TERM) == |CommandText(c)| - 5
    ensures |CommandText(c)| >= |LineOf(c.update)| + 2 + 5
  {
    hide Find, LineOf, BodyOf, Free, Clean;
    BodyTerm(c);
    LineFree(c.update);
    DigitNoDot(c, more);
    var b := BodyOf(c);
    FindInPrefix(b, b + more, TERM);
    TermShift(LineOf(c.update), b + more);
    assert CommandText(c) + more == LineOf(c.update) + ("\r\n" + (b + more));
  }

  lemma {:induction false} NumberTerm(n: string, more: string)
    requires Free(n, '\r') && NotDot(more)
    ensures Find(n + ("\r\n" + more), TERM) ==
            if Find(more, TERM) == NPOS then NPOS else |n| + 2 + Find(more, TERM)
  {
    hide Find, Free;
    if more != "" {
      TermShift(n, more);
    } else {
      NoTermInNumber(n);
    }
  }

  lemma {:induction false} TwoLines(l: string, n: string, more: string)
    requires Free(l, '\r') && Free(n, '\r') && n != "" && n[0] != '.' && NotDot(more)
    ensures Find(l + ("\r\n" + (n + ("\r\n" + more))), TERM) ==
            if Find(more, TERM) == NPOS then NPOS else |l| + 2 + |n| + 2 + Find(more, TERM)
  {
    hide Find, Free, NotDot;
    var rest := n + ("\r\n" + more);
    assert rest[0] == n[0];
    TermShift(l, rest);
    NumberTerm(n, more);
  }

  lemma {:induction false} DeleteText(c: Pushed, more: string)
    requires c.seqno >= 0 && !c.update.Put?
    ensures var l, n := LineOf(c.update), Digits(c.seqno);
            CommandText(c) + more == l + ("\r\n" + (n + ("\r\n" + more))) && |CommandText(c)| == |l| + |n| + 4
  {
    hide LineOf, Digits;
  }

  /** A DELETE has none. */
  lemma {:induction false} DeleteTerm(c: Pushed, more: string)
    requires Pushable(c) && !c.update.Put? && NotDot(more)
    ensures Find(CommandText(c) + more, TERM) ==
            if Find(more, TERM) == NPOS then NPOS else |CommandText(c)| + Find(more, TERM)
  {
    var n := Digits(c.seqno);
    assert !IsDigit('\r') && !IsDigit('.');
    assert Free(n, '\r') && n[0] != '.';
    LineFree(c.update);
    hide Find, LineOf, Free, Clean, Digits, NotDot, CommandText;
    DeleteText(c, more);
    TwoLines(LineOf(c.update), n, more);
  }

  lemma {:induction false} NoTermInNumber(n: string)
    requires Free(n, '\r')
    ensures Find(n + ("\r\n" + ""), TERM) == NPOS && Find("", TERM) == NPOS
  {
    hide At, FindFrom;
    var s := n + ("\r\n" + "");
    var j := Find(s, TERM);
    TermAt(s, j);
    TermAt("", Find("", TERM));
    assert forall i :: 0 <= i < |n| ==> s[i] == n[i];
  }

  // ------------------------------------------------------------ what a worker makes of one

  lemma {:induction false} LineStarts(u: Update)
    ensures var line := LineOf(u) + CRLF;
            (Starts(line, "PUT") <==> u.Put?) && (Starts(line, "DELETE") <==> u.Delete?)
  {
    var line := LineOf(u) + CRLF;
    if u.Put? {
      assert line[..3] == "PUT";
      assert line[0] == 'P' && line[1] == 'U' && line[2] == 'T';
    } else {
      assert line[..6] == "DELETE";
      assert line[0] == 'D' && line[1] == 'E' && line[2] == 'L' && line[3] == 'E' && line[4] == 'T' && line[5] == 'E';
    }
  }

  lemma {:induction false} LineKeys(u: Update)
    requires Free(u.row, '>') && Free(u.col, '>')
    ensures RowOf(LineOf(u) + CRLF) == u.row && ColOf(LineOf(u) + CRLF) == u.col
  {
    hide RowOf, ColOf;
    var verb := if u.Put? then "PUT" else "DELETE";
    assert LineOf(u) + CRLF == verb + " " + "<" + u.row + "> <" + u.col + ">\r\n";
    KeysRoundTrip(verb, u.row, u.col);
  }

  /** A slice up to the first mark does not depend on what comes behind it. */
  lemma {:induction false} SliceSame(b: string, buffer: string, from: nat, to: int)
    requires b <= buffer && from <= to <= |b|
    ensures Slice(buffer, from, to) == Slice(b, from, to)
  {
    assert buffer[from..to] == b[from..to];
  }

  lemma {:induction false} NumberRead(c: Pushed, buffer: string)
    requires Pushable(c) && BodyOf(c) <= buffer
    ensures Find(buffer, CRLF) == |Digits(c.seqno)| && NumberOf(buffer) == c.seqno
  {
    hide Find, BodyOf, Digits, Stol, Clean, Free;
    BodyNumber(c);
    var n := Digits(c.seqno);
    FindInPrefix(BodyOf(c), buffer, CRLF);
    assert (n + "\r\n")[..|n|] == n;
    assert buffer[..|n|] == n;
    assert Slice(buffer, 0, |n|) == n;
    StolDigits(c.seqno, "");
    assert n + "" == n;
  }

  lemma {:induction false} ValueRead(c: Pushed, buffer: string)
    requires Pushable(c) && c.update.Put? && BodyOf(c) <= buffer
    ensures Find(buffer, TERM) == |BodyOf(c)| - 5 && PushedValue(buffer) == c.update.value
  {
    hide Find, BodyOf, Digits, Clean, Free, PushBody, PushedSeq;
    var b, d := BodyOf(c), ValueOf(c);
    PutBody(c);
    BodyTerm(c);
    BodyNumber(c);
    PushRoundTrip(d, c.seqno);
    assert d + "\r\n" == c.update.value;
    FindInPrefix(b, buffer, TERM);
    FindInPrefix(b, buffer, CRLF);
    assert Find(b, CRLF) + 2 <= Find(b, TERM) + 2;
    SliceSame(b, buffer, Find(b, CRLF) + 2, Find(b, TERM) + 2);
  }

  /** With the whole body, the command is carried out as it was pushed; behind a PUT a
      character is dropped. */
  lemma {:induction false} CommandIs(c: Pushed, buffer: string)
    requires Pushable(c) && BodyOf(c) <= buffer
    ensures var line, n := LineOf(c.update) + CRLF, |BodyOf(c)|;
            && Contains(buffer, BodyMark(line)) && Command(line, buffer) == c
            && LeftBehind(line, buffer) ==
               if c.update.Put? && |buffer| > n then buffer[n + 1..] else buffer[n..]
  {
    hide Find, LineOf, Digits, Clean, Starts, RowOf, ColOf, BodyOf, PushedValue, Stol;
    LineStarts(c.update);
    LineKeys(c.update);
    NumberRead(c, buffer);
    BodyNumber(c);
    if c.update.Put? {
      BodyTerm(c);
      ValueRead(c, buffer);
    }
  }

  // ------------------------------------------------------------ a line that is cut off in front

  lemma {:induction false} NotAtFront(line: string)
    requires line != "" && line[0] !in {'P', 'p', 'D', 'd'}
    ensures !Starts(line, "PUT") && !Starts(line, "DELETE")
  {
    assert "PUT"[0] == 'P' && "DELETE"[0] == 'D';
  }

  /** A line that lost at least its first character, but not the '<' of the row. */
  lemma {:induction false} VerbCut(u: Update, k: nat)
    requires 1 <= k <= (if u.Put? then 4 else 7)
    ensures k < |LineOf(u) + CRLF|
    ensures var line := (LineOf(u) + CRLF)[k..]; !Starts(line, "PUT") && !Starts(line, "DELETE")
  {
    var t := LineOf(u) + CRLF;
    var head := if u.Put? then "PUT <" else "DELETE <";
    assert t[..|head|] == head;
    assert t[k] == head[k];
    NotAtFront(t[k..]);
  }

  /** The first field of a text that ends in CRLF. */
  lemma {:induction false} FieldLeft(s: string, g: nat)
    requires |s| >= 2 && s[|s| - 2] == '\r' && s[|s| - 1] == '\n'
    requires g < |s| - 2 && Find(s, ">") == g && Find(s, "<") != NPOS
    ensures '\r' in FirstField(s) || |FirstField(s)| < g
  {
    hide FindFrom;
    var lt := Find(s, "<");
    AtChar(s, "<", lt, 0);
    if lt + 1 > g {
      assert FirstField(s) == s[lt + 1..];
      assert s[lt + 1..][|s| - 2 - (lt + 1)] == '\r';
    }
  }

  lemma {:induction false} LastField()
    ensures FirstField("\r\n") == "\r\n" && AfterField("\r\n") == "\r\n"
  {
    hide Find, FindFrom;
    NoChar("\r\n", '<');
    NoChar("\r\n", '>');
  }

  /** A suffix of a command line without the row's '<' has not both keys. */
  lemma {:induction false} KeysCut(before: string, row: string, col: string, s: string)
    requires Free(before, '>') && Free(row, '>') && Free(col, '>') && Free(row, '\r') && Free(col, '\r')
    requires var t := before + ("> <" + (col + ">\r\n")); 2 <= |s| <= |t| && s == t[|t| - |s|..]
    requires |before| <= |row|
    ensures FirstField(s) != row || FirstField(AfterField(s)) != col
  {
    hide Find, FindFrom, FirstField, AfterField;
    var tail := "> <" + (col + ">\r\n");
    var t := before + tail;
    LastField();
    if |s| >= |tail| {
      RowCut(before, row, col, s);
    } else {
      ColCut(col, s);
    }
  }

  lemma {:induction false} RowCut(before: string, row: string, col: string, s: string)
    requires Free(before, '>') && Free(row, '\r') && |before| <= |row|
    requires var t := before + ("> <" + (col + ">\r\n"));
             |"> <" + (col + ">\r\n")| <= |s| <= |t| && s == t[|t| - |s|..]
    ensures FirstField(s) != row
  {
    hide Find, FindFrom, FirstField;
    var tail := "> <" + (col + ">\r\n");
    var g := |s| - |tail|;
    var x := before[|before| - g..];
    assert s == x + tail;
    assert s[..g] == x && s[g] == '>' && s[g + 2] == '<';
    FindChar(s, '>', g);
    AtIndex(s, "<", g + 2);
    assert s[|s| - 2] == '\r' && s[|s| - 1] == '\n';
    FieldLeft(s, g);
  }

  /** The end of a line, from before or behind its last '>'. */
  lemma {:induction false} LineTail(x: string)
    requires Free(x, '>')
    ensures AfterField(x + ">\r\n") == "\r\n"
  {
    hide FindFrom, Find;
    var s := x + ">\r\n";
    assert s[..|x|] == x && s[|x|] == '>';
    FindChar(s, '>', |x|);
    assert s[|x| + 1..] == "\r\n";
  }

  lemma {:induction false} ColCut(col: string, s: string)
    requires Free(col, '>') && Free(col, '\r')
    requires var tail := "> <" + (col + ">\r\n"); 2 <= |s| < |tail| && s == tail[|tail| - |s|..]
    ensures FirstField(AfterField(s)) != col
  {
    hide Find, FindFrom, FirstField, AfterField;
    LastField();
    var mid := " <" + col;
    assert Free(mid, '>');
    assert "> <" + (col + ">\r\n") == ">" + (mid + ">\r\n");
    if |s| == 2 {
      assert s == "\r\n";
    } else {
      var x := mid[|mid| - (|s| - 3)..];
      assert s == x + ">\r\n";
      LineTail(x);
    }
    assert "\r\n"[0] == '\r';
  }

  /** A command line that lost its front is no command, or one for another cell. */
  lemma {:induction false} SuffixDiffers(u: Update, k: nat)
    requires Free(u.row, '>') && Free(u.col, '>') && Free(u.row, '\r') && Free(u.col, '\r')
    requires 1 <= k <= |LineOf(u)|
    ensures var line := (LineOf(u) + CRLF)[k..];
            Starts(line, "PUT") || Starts(line, "DELETE") ==> RowOf(line) != u.row || ColOf(line) != u.col
  {
    hide Find, FindFrom, FirstField, AfterField, Starts, Free;
    var vb := if u.Put? then 4 else 7;
    if k <= vb {
      VerbCut(u, k);
    } else {
      BeyondVerb(u, k);
    }
  }

  /** A command line behind the '<' of its row. */
  function Fields(u: Update): string {
    u.row + ("> <" + (u.col + ">\r\n"))
  }

  lemma {:induction false} LineParts(u: Update)
    ensures LineOf(u) + CRLF == (if u.Put? then "PUT <" else "DELETE <") + Fields(u)
  {
  }

  lemma {:induction false} BeyondVerb(u: Update, k: nat)
    requires Free(u.row, '>') && Free(u.col, '>') && Free(u.row, '\r') && Free(u.col, '\r')
    requires (if u.Put? then 4 else 7) < k <= |LineOf(u)|
    ensures var line := (LineOf(u) + CRLF)[k..]; RowOf(line) != u.row || ColOf(line) != u.col
  {
    hide Find, FindFrom, FirstField, AfterField, LineOf, Fields, Free;
    LineParts(u);
    var t, rest := LineOf(u) + CRLF, Fields(u);
    var line := t[k..];
    var b := Find(line, " ");
    BlankBeforeEnd(line, b);
    var s := line[b + 1..];
    SuffixOf(if u.Put? then "PUT <" else "DELETE <", rest, k, b + 1);
    FieldsCut(u, s);
  }

  lemma {:induction false} SuffixOf(head: string, rest: string, k: nat, m: nat)
    requires |head| <= k && k + m <= |head + rest|
    ensures var s := (head + rest)[k..][m..]; |s| <= |rest| && s == rest[|rest| - |s|..]
  {
    var s := (head + rest)[k..][m..];
    assert |s| == |rest| - (k + m - |head|);
    assert forall i :: 0 <= i < |s| ==> s[i] == rest[k + m - |head| + i];
  }

  lemma {:induction false} FieldsCut(u: Update, s: string)
    requires Free(u.row, '>') && Free(u.col, '>') && Free(u.row, '\r') && Free(u.col, '\r')
    requires 2 <= |s| <= |Fields(u)| && s == Fields(u)[|Fields(u)| - |s|..]
    ensures FirstField(s) != u.row || FirstField(AfterField(s)) != u.col
  {
    hide Find, FindFrom, FirstField, AfterField;
    KeysCut(u.row, u.row, u.col, s);
  }

  lemma {:induction false} BlankBeforeEnd(line: string, b: int)
    requires |line| >= 2 && line[|line| - 2] == '\r' && line[|line| - 1] == '\n' && b == Find(line, " ")
    ensures -1 <= b < |line| - 2
  {
    hide FindFrom;
    if b != NPOS {
      AtChar(line, " ", b, 0);
    }
  }

  // ------------------------------------------------------------ a stream out of step

  /** The first line decides what is carried out first. */
  lemma {:induction false} FirstLineDecides(w: string, segments: seq<string>, c: Pushed)
    requires Contains(w, CRLF)
    requires var line := w[..Find(w, CRLF) + 2];
             Starts(line, "PUT") || Starts(line, "DELETE") ==>
               RowOf(line) != c.update.row || ColOf(line) != c.update.col
    ensures var o := Carry(w, segments); o.carried == [] || o.carried[0] != c
  {
    hide FindFrom, Starts, RowOf, ColOf, LeftBehind, PushedValue, PushedSeq, NumberOf, Collect;
  }

  lemma {:induction false} StreamStarts(cs: seq<Pushed>)
    requires AllPushable(cs)
    ensures NotDot(Stream(cs))
    ensures cs != [] ==> Find(Stream(cs), CRLF) == |LineOf(cs[0].update)|
    ensures cs != [] ==> Stream(cs)[..|LineOf(cs[0].update)| + 2] == LineOf(cs[0].update) + CRLF
  {
    hide Find, BodyOf, Clean, Free;
    if cs != [] {
      LineEnds(cs[0], Stream(cs[1..]));
    }
  }

  /** Without its beginning the next line is not found: what is read replaces it. */
  lemma {:induction false} Broken(w: string, x: string, segments: seq<string>, cs: seq<Pushed>)
    requires AllPushable(cs) && cs != [] && x + Flatten(segments) == Stream(cs)
    requires 0 < |x| < |LineOf(cs[0].update)| + 2 && !Contains(w, CRLF)
    ensures Carry(w, segments) != Outcome(cs, Idle)
  {
    hide Find, Carry, Stream, LineOf, Flatten, Starts, RowOf, ColOf, Clean, Free;
    StreamStarts(cs);
    var c, t, y := cs[0], Stream(cs), Flatten(segments);
    assert y == t[|x|..];
    assert "" + y == y;
    if Find(y, CRLF) == NPOS {
      ReadCallBlocks(CRLF, "", segments, y);
      NoLineYet(w, segments);
    } else {
      ReadCallIs(CRLF, "", segments, y);
      NoLineYet(w, segments);
      var q := Find(y, CRLF);
      var r := Reach(0, segments, q + 2);
      var w2, rest := Over(w, y[..r]), Unread(0, segments, q + 2);
      assert y[..r] <= w2;
      PrefixHas(y, y[..r], CRLF);
      FindInPrefix(y[..r], w2, CRLF);
      assert w2[..q + 2] == y[..q + 2];
      CutLine(x, y, c, t);
      FirstLineDecides(w2, rest, c);
    }
  }

  lemma {:induction false} NoLineYet(w: string, segments: seq<string>)
    requires !Contains(w, CRLF)
    ensures Carry(w, segments) ==
            match ReadCall(CRLF, "", segments)
            case Blocked => Outcome([], Idle)
            case Returned(buf, rest) => Carry(Over(w, buf), rest)
  {
    hide Find;
  }

  /** The line that follows a cut-off beginning. */
  lemma {:induction false} CutLine(x: string, y: string, c: Pushed, t: string)
    requires Pushable(c) && x + y == t && 0 < |x| < |LineOf(c.update)| + 2
    requires Find(t, CRLF) == |LineOf(c.update)| && Find(y, CRLF) != NPOS
    requires |LineOf(c.update)| + 2 <= |t| && t[..|LineOf(c.update)| + 2] == LineOf(c.update) + CRLF
    ensures var line := y[..Find(y, CRLF) + 2];
            Starts(line, "PUT") || Starts(line, "DELETE") ==>
              RowOf(line) != c.update.row || ColOf(line) != c.update.col
  {
    hide Find, LineOf, Starts, RowOf, ColOf, Clean, Free;
    var n := |LineOf(c.update)|;
    assert y == t[|x|..];
    if |x| <= n {
      FindTail(t, CRLF, |x|);
      assert y[..n - |x| + 2] == (LineOf(c.update) + CRLF)[|x|..];
      SuffixDiffers(c.update, |x|);
    } else {
      assert y[0] == t[..n + 2][n + 1] == '\n';
      NotAtFront(y[..Find(y, CRLF) + 2]);
    }
  }

  lemma {:induction false} SomethingMore(x: string, more: string, cs: seq<Pushed>)
    requires AllPushable(cs) && x != "" && x + more == Stream(cs)
    ensures cs != []
  {
    hide CommandText;
  }

  /** The whole next line was there, but for its first character. */
  lemma {:induction false} VerbLost(x: string, segments: seq<string>, c: Pushed)
    requires Pushable(c) && |LineOf(c.update)| + 2 <= |x| && x[..|LineOf(c.update)| + 2] == LineOf(c.update) + CRLF
    requires Find(x, CRLF) == |LineOf(c.update)|
    ensures var o := Carry(x[1..], segments); o.carried == [] || o.carried[0] != c
  {
    hide Find, Carry, LineOf, Starts, RowOf, ColOf, Clean, Free, Contains;
    var n := |LineOf(c.update)|;
    LineFree(c.update);
    FindTail(x, CRLF, 1);
    HasIt(x[1..], CRLF);
    assert x[1..][..n + 1] == x[..n + 2][1..];
    SuffixDiffers(c.update, 1);
    FirstLineDecides(x[1..], segments, c);
  }

  lemma {:induction false} HasIt(s: string, p: string)
    ensures Contains(s, p) <==> Find(s, p) != NPOS
  {
  }

  /** A stream whose first character was dropped. */
  lemma {:induction false} Beheaded(x: string, segments: seq<string>, cs: seq<Pushed>)
    requires AllPushable(cs) && x != "" && x + Flatten(segments) == Stream(cs)
    ensures Carry(x[1..], segments) != Outcome(cs, Idle)
  {
    hide Find, Carry, Stream, LineOf, Flatten, Clean, Free, Contains;
    SomethingMore(x, Flatten(segments), cs);
    StreamStarts(cs);
    var c, t := cs[0], Stream(cs);
    var n := |LineOf(c.update)|;
    LineFree(c.update);
    assert x <= t;
    PrefixHas(t, x, CRLF);
    if |x| >= n + 2 {
      assert x[..n + 2] == t[..n + 2];
      VerbLost(x, segments, c);
    } else {
      HasIt(x, CRLF);
      HasIt(x[1..], CRLF);
      FindTail(x, CRLF, 1);
      Broken(x[1..], x, segments, cs);
    }
  }

  // ------------------------------------------------------------ the first end mark

  /** The first end mark of a stream is that of its first PUT. */
  lemma {:induction false} StreamTerm(cs: seq<Pushed>)
    requires AllPushable(cs)
    ensures Find(Stream(cs), TERM) == if HasPut(cs) then PutEnd(cs) - 5 else NPOS
    ensures HasPut(cs) ==> PutEnd(cs) >= 5
    ensures HasPut(cs) ==> PutEnd(cs) >= |CommandText(cs[0])| + (if cs[0].update.Put? then 0 else 5)
    decreases |cs|
  {
    hide Find, BodyOf, LineOf, Clean, Free;
    if cs == [] {
      NoTermInNothing();
    } else {
      var c, rest := cs[0], cs[1..];
      StreamStarts(rest);
      if c.update.Put? {
        PutTerm(c, Stream(rest));
      } else {
        StreamTerm(rest);
        DeleteTerm(c, Stream(rest));
        HasPutRest(cs);
      }
    }
  }

  lemma {:induction false} NoTermInNothing()
    ensures Find("", TERM) == NPOS
  {
  }

  lemma {:induction false} HasPutRest(cs: seq<Pushed>)
    requires cs != [] && !cs[0].update.Put?
    ensures HasPut(cs) <==> HasPut(cs[1..])
  {
    if HasPut(cs) {
      var i :| 0 <= i < |cs| && cs[i].update.Put?;
      assert cs[1..][i - 1] == cs[i];
    }
  }

  // ------------------------------------------------------------ one round of the worker

  /** Reading on from `a` is reading from nothing with `a` less to go. */
  lemma {:induction false} ReachShift(a: nat, segments: seq<string>, p: nat, b: nat)
    requires p >= a
    ensures Reach(b + a, segments, b + p) == b + Reach(a, segments, p)
    ensures Unread(b + a, segments, b + p) == Unread(a, segments, p)
    decreases |segments|
  {
    if a < p && segments != [] {
      if a + |segments[0]| <= p {
        ReachShift(a + |segments[0]|, segments[1..], p, b);
      }
    }
  }

  /** The first line is read, unless a part of it was there. */
  lemma {:induction false} LineStep(t: string, a: nat, segments: seq<string>, line: nat)
    requires a <= |t| && t[..a] + Flatten(segments) == t
    requires Find(t, CRLF) != NPOS && line == Find(t, CRLF) + 2 && (a == 0 || a >= line)
    ensures var a1, s1 := Reach(a, segments, line), Unread(a, segments, line);
            line <= a1 <= |t| && t[..a1] + Flatten(s1) == t && Carry(t[..a], segments) == Carry(t[..a1], s1)
  {
    hide Find, Flatten;
    PrefixHas(t, t[..a], CRLF);
    if a == 0 {
      assert t[..0] == "";
      ReadCallIs(CRLF, "", segments, t);
      NoLineYet("", segments);
    }
  }

  /** What is behind the first command, for the next one. */
  function NextText(put: bool, t: string, end: nat, r: nat): string
    requires end <= r <= |t|
  {
    if put && r > end then t[end + 1..r] else t[end..r]
  }

  /** The body of the first command, once it is there. */
  lemma {:induction false} BodyStep(c: Pushed, t: string, a1: nat, s1: seq<string>, r: nat, s2: seq<string>)
    requires Pushable(c) && CommandText(c) <= t && Find(t, CRLF) == |LineOf(c.update)|
    requires |LineOf(c.update)| + 2 <= a1 <= r <= |t| && |CommandText(c)| <= r
    requires Collect(BodyMark(LineOf(c.update) + CRLF), t[|LineOf(c.update)| + 2..a1], s1) ==
             Returned(t[|LineOf(c.update)| + 2..r], s2)
    ensures Carry(t[..a1], s1) == Then(c, Carry(NextText(c.update.Put?, t, |CommandText(c)|, r), s2))
  {
    hide Find, BodyOf, LineOf, Clean, Free, EndsLine, Starts, Collect, Command, LeftBehind, Carry, CommandText,
         BodyMark;
    var n := |LineOf(c.update)| + 2;
    var buffer, w := t[n..r], t[..a1];
    PrefixHas(t, w, CRLF);
    HasIt(w, CRLF);
    LineIs(c, t);
    assert w[..n] == t[..n] && w[n..] == t[n..a1];
    LineStarts(c.update);
    BodyIs(c, t, r);
    CommandIs(c, buffer);
    ReadyCarry(w, s1, buffer, s2);
    BehindBody(t, n, |BodyOf(c)|, r);
  }

  lemma {:induction false} BehindBody(t: string, n: nat, m: nat, r: nat)
    requires n + m <= r <= |t|
    ensures t[n..r][m..] == t[n + m..r] && (r > n + m ==> t[n..r][m + 1..] == t[n + m + 1..r])
  {
  }

  /** A command whose body is there. */
  lemma {:induction false} ReadyCarry(w: string, segments: seq<string>, buffer: string, rest: seq<string>)
    requires Find(w, CRLF) != NPOS
    requires var line := w[..Find(w, CRLF) + 2];
             && (Starts(line, "PUT") || Starts(line, "DELETE"))
             && Collect(BodyMark(line), w[Find(w, CRLF) + 2..], segments) == Returned(buffer, rest)
             && Contains(buffer, BodyMark(line)) && Command(line, buffer).seqno >= 0
    ensures var line := w[..Find(w, CRLF) + 2];
            Carry(w, segments) == Then(Command(line, buffer), Carry(LeftBehind(line, buffer), rest))
  {
    hide FindFrom, Starts, Collect, Command, LeftBehind;
  }

  lemma {:induction false} LineIs(c: Pushed, t: string)
    requires c.seqno >= 0 && CommandText(c) <= t
    ensures |LineOf(c.update)| + 2 <= |t| && t[..|LineOf(c.update)| + 2] == LineOf(c.update) + CRLF
  {
    hide LineOf, BodyOf;
    var n := |LineOf(c.update)| + 2;
    assert CommandText(c)[..n] == LineOf(c.update) + CRLF;
    assert t[..n] == CommandText(c)[..n];
  }

  lemma {:induction false} BodyIs(c: Pushed, t: string, r: nat)
    requires c.seqno >= 0 && CommandText(c) <= t && |CommandText(c)| <= r <= |t|
    ensures |CommandText(c)| == |LineOf(c.update)| + 2 + |BodyOf(c)|
    ensures BodyOf(c) <= t[|LineOf(c.update)| + 2..r]
  {
    hide LineOf, BodyOf;
    var n := |LineOf(c.update)| + 2;
    assert CommandText(c)[n..] == BodyOf(c);
    assert t[n..r][..|BodyOf(c)|] == CommandText(c)[n..];
  }

  /** If not all of the body came with the line, its mark did not. */
  lemma {:induction false} BodyMissing(c: Pushed, more: string, a1: nat)
    requires Pushable(c) && NotDot(more)
    requires |LineOf(c.update)| + 2 <= a1 < |CommandText(c)|
    ensures !Contains((CommandText(c) + more)[|LineOf(c.update)| + 2..a1], BodyMark(LineOf(c.update) + CRLF))
  {
    hide Find, LineOf, BodyOf, Clean, Free, Starts;
    var t, n := CommandText(c) + more, |LineOf(c.update)| + 2;
    LineStarts(c.update);
    BodyIs(c, t, |t|);
    assert t[n..|t|] == t[n..];
    assert t[n..a1] <= BodyOf(c) by {
      assert BodyOf(c) == t[n..|CommandText(c)|];
    }
    PrefixHas(BodyOf(c), t[n..a1], BodyMark(LineOf(c.update) + CRLF));
    BodyNumber(c);
    if c.update.Put? {
      BodyTerm(c);
    }
  }

  /** Then the next call waits for an end mark, wherever that is. */
  lemma {:induction false} CollectMore(mark: string, buffer: string, segments: seq<string>)
    requires !Contains(buffer, mark) && mark in {TERM, CRLF}
    ensures Collect(mark, buffer, segments) ==
            match ReadCall(TERM, "", segments)
            case Blocked => Blocked
            case Returned(buf, rest) => Returned(buffer + buf, rest)
  {
    hide Find, Contains;
    var r := ReadCall(TERM, "", segments);
    if r.Returned? {
      ReturnsMark(TERM, "", segments);
      MarkBehind(buffer, r.buf, mark);
    }
  }

  lemma {:induction false} ReturnsMark(mark: string, buf: string, segments: seq<string>)
    ensures var r := ReadCall(mark, buf, segments);
            r.Returned? ==> Contains(r.buf, mark) && r.buf + Flatten(r.rest) == buf + Flatten(segments)
    decreases |segments|
  {
    hide Contains;
    if segments != [] {
      FlattenCons(segments);
      var now := buf + segments[0];
      assert now + Flatten(segments[1..]) == buf + Flatten(segments);
      if !Contains(now, mark) {
        ReturnsMark(mark, now, segments[1..]);
      }
    }
  }

  lemma {:induction false} MarkBehind(a: string, b: string, mark: string)
    requires Contains(b, TERM) && mark in {TERM, CRLF}
    ensures Contains(a + b, mark)
  {
    hide FindFrom;
    var k := Find(b, TERM);
    assert b[k..k + 5][..2] == b[k..k + 2] == CRLF;
    assert At(b, mark, k);
    AtShift(a, b, mark, k);
  }

  // ------------------------------------------------------------ the theorem

  lemma {:induction false} ThenAll(c: Pushed, o: Outcome, cs: seq<Pushed>)
    requires cs != [] && cs[0] == c
    ensures Then(c, o) == Outcome(cs, Idle) <==> o == Outcome(cs[1..], Idle)
  {
    assert cs == [c] + cs[1..];
    assert ([c] + o.carried)[1..] == o.carried;
  }

  /** After a body has been read up to `r`. */
  lemma {:induction false} AfterBody(cs: seq<Pushed>, a1: nat, s1: seq<string>, r: nat, s2: seq<string>)
    requires AllPushable(cs) && cs != []
    requires var c, t := cs[0], Stream(cs);
             var n := |LineOf(c.update)| + 2;
             && n <= a1 <= r <= |t| && |CommandText(c)| <= r && t[..r] + Flatten(s2) == t
             && Collect(BodyMark(LineOf(c.update) + CRLF), t[n..a1], s1) == Returned(t[n..r], s2)
    requires var x := Stream(cs)[|CommandText(cs[0])|..r];
             Carry(x, s2) == Outcome(cs[1..], Idle) <==> Through(|x|, s2, cs[1..])
    ensures var end := |CommandText(cs[0])|;
            Carry(Stream(cs)[..a1], s1) == Outcome(cs, Idle) <==>
            (cs[0].update.Put? ==> r == end) && Through(r - end, s2, cs[1..])
  {
    hide Find, BodyOf, LineOf, Clean, Free, EndsLine, Carry, Collect, Through, Flatten, CommandText, Stream, BodyMark,
         Contains, Starts, NotDot;
    var c, t, end := cs[0], Stream(cs), |CommandText(cs[0])|;
    StreamStarts(cs);
    StreamIs(cs);
    BodyStep(c, t, a1, s1, r, s2);
    var x := t[end..r];
    ThenAll(c, Carry(NextText(c.update.Put?, t, end, r), s2), cs);
    Aligned(t, end, r, s2, Stream(cs[1..]));
    if c.update.Put? && r > end {
      Beheaded(x, s2, cs[1..]);
      assert x[1..] == t[end + 1..r];
    }
  }

  lemma {:induction false} Aligned(t: string, end: nat, r: nat, s2: seq<string>, more: string)
    requires end <= r <= |t| && t[..r] + Flatten(s2) == t && t[end..] == more
    ensures t[end..r] + Flatten(s2) == more
  {
    var y := Flatten(s2);
    assert t[..r] + y == t[..end] + (t[end..r] + y);
    assert (t[..end] + (t[end..r] + y))[end..] == t[end..r] + y;
  }

  /** The body came with the line. */
  lemma {:induction false} WithLine(cs: seq<Pushed>, a1: nat, s1: seq<string>)
    requires AllPushable(cs) && cs != []
    requires var t := Stream(cs); |CommandText(cs[0])| <= a1 <= |t| && t[..a1] + Flatten(s1) == t
    requires var x := Stream(cs)[|CommandText(cs[0])|..a1];
             Carry(x, s1) == Outcome(cs[1..], Idle) <==> Through(|x|, s1, cs[1..])
    ensures var end := |CommandText(cs[0])|;
            Carry(Stream(cs)[..a1], s1) == Outcome(cs, Idle) <==>
            (cs[0].update.Put? ==> a1 == end) && Through(a1 - end, s1, cs[1..])
  {
    hide Find, LineOf, BodyOf, Clean, Free, Carry, Through, Flatten, CommandText, Command, LeftBehind, BodyMark;
    var c, t := cs[0], Stream(cs);
    assert CommandText(c) <= t;
    BodyIs(c, t, a1);
    CommandIs(c, t[|LineOf(c.update)| + 2..a1]);
    AfterBody(cs, a1, s1, a1, s1);
  }

  /** What has been read and what is still to come, behind the first `a` characters. */
  lemma {:induction false} Rest(t: string, a: nat, segments: seq<string>)
    requires a <= |t| && t[..a] + Flatten(segments) == t
    ensures "" + Flatten(segments) == t[a..]
  {
    assert t[a..] == (t[..a] + Flatten(segments))[a..];
  }

  /** A call that starts at `a` reads to the end of the first end mark. */
  lemma {:induction false} CallReaches(t: string, a: nat, segments: seq<string>, p: nat)
    requires a <= |t| && t[..a] + Flatten(segments) == t && Find(t, TERM) == p - 5 && a + 5 <= p
    ensures var r, rest := Reach(a, segments, p), Unread(a, segments, p);
            && p <= r <= |t| && ReadCall(TERM, "", segments) == Returned(t[a..r], rest)
            && t[..r] + Flatten(rest) == t
  {
    hide Find, Flatten, Reach, Unread, ReadCall;
    Rest(t, a, segments);
    FindTail(t, TERM, a);
    ReadCallIs(TERM, "", segments, t[a..]);
    ReachShift(0, segments, p - a, a);
    Resumed(t, a, Reach(a, segments, p), Flatten(Unread(a, segments, p)));
  }

  /** A text read up to `a` and on to `r`. */
  lemma {:induction false} Resumed(t: string, a: nat, r: nat, more: string)
    requires a <= r <= |t| && t[a..][..r - a] + more == t[a..]
    ensures t[a..][..r - a] == t[a..r] && t[..r] + more == t
  {
    assert t[r..] == t[a..][r - a..] == more;
  }

  /** The body's call goes on to the first end mark that it sees whole. */
  lemma {:induction false} Later(cs: seq<Pushed>, a1: nat, s1: seq<string>)
    requires AllPushable(cs) && cs != [] && HasPut(cs)
    requires var t := Stream(cs); a1 <= |t| && t[..a1] + Flatten(s1) == t
    requires |LineOf(cs[0].update)| + 2 <= a1 < |CommandText(cs[0])|
    requires cs[0].update.Put? ==> a1 + 5 <= |CommandText(cs[0])|
    ensures var t, n := Stream(cs), |LineOf(cs[0].update)| + 2;
            var a2, s2 := Reach(a1, s1, PutEnd(cs)), Unread(a1, s1, PutEnd(cs));
            && |CommandText(cs[0])| <= a2 <= |t| && t[..a2] + Flatten(s2) == t
            && Collect(BodyMark(LineOf(cs[0].update) + CRLF), t[n..a1], s1) == Returned(t[n..a2], s2)
  {
    hide Find, LineOf, BodyOf, Clean, Free, Flatten, CommandText, Contains, Collect, Starts, Stream, PutEnd, BodyMark,
         ReadCall, Reach, Unread;
    var c, t, n := cs[0], Stream(cs), |LineOf(cs[0].update)| + 2;
    StreamIs(cs);
    PutEndsLate(cs);
    StreamTerm(cs);
    StreamStarts(cs[1..]);
    BodyMissing(c, Stream(cs[1..]), a1);
    EitherMark(LineOf(c.update) + CRLF);
    CallReaches(t, a1, s1, PutEnd(cs));
    CollectMore(BodyMark(LineOf(c.update) + CRLF), t[n..a1], s1);
    var a2 := Reach(a1, s1, PutEnd(cs));
    assert t[n..a1] + t[a1..a2] == t[n..a2];
  }

  lemma {:induction false} StreamIs(cs: seq<Pushed>)
    requires AllPushable(cs) && cs != []
    ensures Stream(cs) == CommandText(cs[0]) + Stream(cs[1..]) && AllPushable(cs[1..])
  {
    hide CommandText;
  }

  lemma {:induction false} EitherMark(line: string)
    ensures BodyMark(line) in {TERM, CRLF}
  {
    hide Starts;
  }

  lemma {:induction false} PutEndsLate(cs: seq<Pushed>)
    requires AllPushable(cs) && cs != []
    ensures cs[0].update.Put? ==> PutEnd(cs) == |CommandText(cs[0])|
  {
  }

  lemma {:induction false} BodyBlocked(c: Pushed, t: string, a1: nat, s1: seq<string>)
    requires Pushable(c) && CommandText(c) <= t && Find(t, CRLF) == |LineOf(c.update)|
    requires |LineOf(c.update)| + 2 <= a1 <= |t|
    requires Collect(BodyMark(LineOf(c.update) + CRLF), t[|LineOf(c.update)| + 2..a1], s1) == Blocked
    ensures Carry(t[..a1], s1) == Outcome([], Idle)
  {
    hide Find, BodyOf, LineOf, Clean, Free, EndsLine, Starts, Collect, Carry, CommandText, BodyMark;
    var n := |LineOf(c.update)| + 2;
    PrefixHas(t, t[..a1], CRLF);
    HasIt(t[..a1], CRLF);
    LineIs(c, t);
    var w := t[..a1];
    assert w[..n] == t[..n] && w[n..] == t[n..a1];
    LineStarts(c.update);
    BlockedCarry(w, s1);
  }

  /** A command whose body does not arrive. */
  lemma {:induction false} BlockedCarry(w: string, segments: seq<string>)
    requires Find(w, CRLF) != NPOS
    requires var k := Find(w, CRLF);
             && (Starts(w[..k + 2], "PUT") || Starts(w[..k + 2], "DELETE"))
             && Collect(BodyMark(w[..k + 2]), w[k + 2..], segments) == Blocked
    ensures Carry(w, segments) == Outcome([], Idle)
  {
    hide FindFrom, Starts, Collect, BodyMark, Command, LeftBehind;
  }

  /** Without a later PUT the call never returns. */
  lemma {:induction false} NoPutLater(cs: seq<Pushed>, a1: nat, s1: seq<string>)
    requires AllPushable(cs) && cs != [] && !HasPut(cs)
    requires var t := Stream(cs); a1 <= |t| && t[..a1] + Flatten(s1) == t
    requires |LineOf(cs[0].update)| + 2 <= a1 < |CommandText(cs[0])|
    ensures Carry(Stream(cs)[..a1], s1) != Outcome(cs, Idle)
  {
    hide Find, LineOf, BodyOf, Clean, Free, Carry, Flatten, CommandText, Contains, Collect, Starts;
    var c, t, n := cs[0], Stream(cs), |LineOf(cs[0].update)| + 2;
    assert t == CommandText(c) + Stream(cs[1..]);
    StreamTerm(cs);
    StreamStarts(cs);
    StreamStarts(cs[1..]);
    BodyMissing(c, Stream(cs[1..]), a1);
    Rest(t, a1, s1);
    FindTail(t, TERM, a1);
    ReadCallBlocks(TERM, "", s1, t[a1..]);
    CollectMore(BodyMark(LineOf(c.update) + CRLF), t[n..a1], s1);
    BodyBlocked(c, t, a1, s1);
  }

  /** An end mark that is cut in two by the end of the first read is not seen. */
  lemma {:induction false} MarkSplit(cs: seq<Pushed>, a1: nat, s1: seq<string>)
    requires AllPushable(cs) && cs != [] && cs[0].update.Put?
    requires var t := Stream(cs); a1 <= |t| && t[..a1] + Flatten(s1) == t
    requires |LineOf(cs[0].update)| + 2 <= a1 < |CommandText(cs[0])| < a1 + 5
    ensures Carry(Stream(cs)[..a1], s1) != Outcome(cs, Idle)
  {
    hide Find, LineOf, BodyOf, Clean, Free, Carry, Flatten, CommandText, Collect, Starts;
    var c, t, n := cs[0], Stream(cs), |LineOf(cs[0].update)| + 2;
    var end := |CommandText(c)|;
    assert t == CommandText(c) + Stream(cs[1..]);
    StreamStarts(cs);
    StreamStarts(cs[1..]);
    BodyMissing(c, Stream(cs[1..]), a1);
    Rest(t, a1, s1);
    CollectMore(BodyMark(LineOf(c.update) + CRLF), t[n..a1], s1);
    ReturnsMark(TERM, "", s1);
    match ReadCall(TERM, "", s1)
    case Blocked => BodyBlocked(c, t, a1, s1);
    case Returned(buf, s2) =>
      assert |buf| >= 5;
      Joins(t, a1, n, buf, Flatten(s2));
      var r := a1 + |buf|;
      BodyStep(c, t, a1, s1, r, s2);
      Aligned(t, end, r, s2, Stream(cs[1..]));
      Beheaded(t[end..r], s2, cs[1..]);
      assert t[end..r][1..] == t[end + 1..r];
      ThenAll(c, Carry(t[end + 1..r], s2), cs);
  }

  lemma {:induction false} Joins(t: string, a1: nat, n: nat, buf: string, more: string)
    requires n <= a1 <= |t| && t[a1..] == buf + more
    ensures a1 + |buf| <= |t| && t[n..a1] + buf == t[n..a1 + |buf|] && t[..a1 + |buf|] + more == t
  {
    var r := a1 + |buf|;
    assert t == t[..a1] + (buf + more);
    assert t[a1..r] == buf;
    assert t[n..r] == t[n..a1] + t[a1..r];
    assert t[r..] == more;
  }

  /** Pushed commands in one stream, cut into reads in any way: the replica carries out all of
      them, in order and as they were pushed, if and only if the reads carry them through. */
  lemma {:induction false} CarryIff(a: nat, segments: seq<string>, cs: seq<Pushed>)
    requires AllPushable(cs) && a <= |Stream(cs)| && Stream(cs)[..a] + Flatten(segments) == Stream(cs)
    ensures Carry(Stream(cs)[..a], segments) == Outcome(cs, Idle) <==> Through(a, segments, cs)
    decreases |cs|, 2
  {
    hide Carry, Flatten, CommandText;
    if cs == [] {
      NothingToRead(segments);
    } else {
      hide Through;
      StreamStarts(cs);
      var line := |LineOf(cs[0].update)| + 2;
      if 0 < a < line {
        PrefixHas(Stream(cs), Stream(cs)[..a], CRLF);
        Broken(Stream(cs)[..a], Stream(cs)[..a], segments, cs);
        NotThrough(a, segments, cs);
      } else {
        LineStep(Stream(cs), a, segments, line);
        FromLine(a, segments, cs);
      }
    }
  }

  lemma {:induction false} NotThrough(a: nat, segments: seq<string>, cs: seq<Pushed>)
    requires AllPushable(cs) && cs != [] && 0 < a < |LineOf(cs[0].update)| + 2
    ensures !Through(a, segments, cs)
  {
    hide LineOf, CommandText;
  }

  /** From the moment the first line is there. */
  lemma {:induction false} FromLine(a: nat, segments: seq<string>, cs: seq<Pushed>)
    requires AllPushable(cs) && cs != [] && (a == 0 || a >= |LineOf(cs[0].update)| + 2)
    requires var t, line := Stream(cs), |LineOf(cs[0].update)| + 2;
             var a1, s1 := Reach(a, segments, line), Unread(a, segments, line);
             line <= a1 <= |t| && t[..a1] + Flatten(s1) == t
    ensures var line := |LineOf(cs[0].update)| + 2;
            var a1, s1 := Reach(a, segments, line), Unread(a, segments, line);
            Carry(Stream(cs)[..a1], s1) == Outcome(cs, Idle) <==> Through(a, segments, cs)
    decreases |cs|, 1
  {
    hide Find, LineOf, BodyOf, Clean, Free, Carry, Flatten, CommandText, BodyMark, Collect, Reach, Unread, Stream;
    var c, line, end := cs[0], |LineOf(cs[0].update)| + 2, |CommandText(cs[0])|;
    var a1, s1 := Reach(a, segments, line), Unread(a, segments, line);
    if a1 >= end {
      NextCarry(cs, a1, s1);
      WithLine(cs, a1, s1);
    } else if !HasPut(cs) {
      NoPutLater(cs, a1, s1);
    } else if c.update.Put? && a1 + 5 > end {
      MarkSplit(cs, a1, s1);
    } else {
      Later(cs, a1, s1);
      var a2, s2 := Reach(a1, s1, PutEnd(cs)), Unread(a1, s1, PutEnd(cs));
      NextCarry(cs, a2, s2);
      AfterBody(cs, a1, s1, a2, s2);
    }
  }

  lemma {:induction false} NothingToRead(segments: seq<string>)
    requires "" + Flatten(segments) == ""
    ensures Carry("", segments) == Outcome([], Idle)
  {
    NoCrlfInNothing();
    hide Contains, Find;
    ReadCallBlocks(CRLF, "", segments, "");
    NoLineYet("", segments);
  }

  lemma {:induction false} NoCrlfInNothing()
    ensures Find("", CRLF) == NPOS && !Contains("", CRLF)
  {
  }

  /** The theorem for what follows the first command. */
  lemma {:induction false} NextCarry(cs: seq<Pushed>, r: nat, s2: seq<string>)
    requires AllPushable(cs) && cs != [] && |CommandText(cs[0])| <= r <= |Stream(cs)|
    requires Stream(cs)[..r] + Flatten(s2) == Stream(cs)
    ensures var x := Stream(cs)[|CommandText(cs[0])|..r];
            Carry(x, s2) == Outcome(cs[1..], Idle) <==> Through(|x|, s2, cs[1..])
    decreases |cs|, 0
  {
    hide Carry, Through, Flatten, CommandText;
    var t, end := Stream(cs), |CommandText(cs[0])|;
    var x, more := t[end..r], Stream(cs[1..]);
    assert t[end..] == more;
    Aligned(t, end, r, s2, more);
    assert more[..|x|] == x;
    CarryIff(|x|, s2, cs[1..]);
  }

  /** The same from the first read on. */
  lemma {:induction false} CarriedIff(segments: seq<string>, cs: seq<Pushed>)
    requires AllPushable(cs) && Flatten(segments) == Stream(cs)
    ensures Carry("", segments) == Outcome(cs, Idle) <==> Through(0, segments, cs)
  {
    hide Carry, Flatten, Stream, Through;
    assert Stream(cs)[..0] == "";
    assert "" + Flatten(segments) == Stream(cs);
    CarryIff(0, segments, cs);
  }

  // ------------------------------------------------------------ what this asks of the reads

  /** A read ends at `p`, the first one beginning at `a`. */
  ghost predicate CutAt(a: nat, segments: seq<string>, p: nat) {
    exists i: nat :: i <= |segments| && a + |Flatten(segments[..i])| == p
  }

  lemma {:induction false} CutCons(a: nat, segments: seq<string>, p: nat)
    requires segments != [] && CutAt(a + |segments[0]|, segments[1..], p)
    ensures CutAt(a, segments, p)
  {
    var i: nat :| i <= |segments[1..]| && a + |segments[0]| + |Flatten(segments[1..][..i])| == p;
    FlattenCons(segments[..i + 1]);
    assert segments[..i + 1][1..] == segments[1..][..i];
    assert a + |Flatten(segments[..i + 1])| == p;
  }

  lemma {:induction false} CutHere(a: nat, segments: seq<string>)
    ensures CutAt(a, segments, a)
  {
    assert segments[..0] == [];
    assert a + |Flatten(segments[..0])| == a;
  }

  /** Where a call stops, a read ends, and so it does where a later read ends. */
  lemma {:induction false} ReachIsCut(a: nat, segments: seq<string>, p: nat, base: nat, q: nat)
    requires var r := Reach(a, segments, p);
             base <= r && (q == r || (q >= base && CutAt(r - base, Unread(a, segments, p), q - base)))
    ensures CutAt(a, segments, q)
    decreases |segments|
  {
    hide CutAt;
    if a >= p || segments == [] {
      if q == a {
        CutHere(a, segments);
      } else {
        CutMoves(a, segments, base, q);
      }
    } else {
      ReachIsCut(a + |segments[0]|, segments[1..], p, base, q);
      CutCons(a, segments, q);
    }
  }

  lemma {:induction false} CutMoves(a: nat, segments: seq<string>, base: nat, q: nat)
    requires base <= a && base <= q && CutAt(a - base, segments, q - base)
    ensures CutAt(a, segments, q)
  {
    var i: nat :| i <= |segments| && a - base + |Flatten(segments[..i])| == q - base;
    assert a + |Flatten(segments[..i])| == q;
  }

  lemma {:induction false} StreamUpTo(cs: seq<Pushed>, j: nat)
    requires AllPushable(cs) && j < |cs|
    ensures AllPushable(cs[..j + 1]) && AllPushable(cs[1..])
    ensures j == 0 ==> Stream(cs[..1]) == CommandText(cs[0])
    ensures j > 0 ==>
              AllPushable(cs[1..][..j]) && |Stream(cs[..j + 1])| == |CommandText(cs[0])| + |Stream(cs[1..][..j])|
  {
    hide CommandText, Clean, Free, EndsLine;
    var front := cs[..j + 1];
    assert front[0] == cs[0] && front[1..] == cs[1..][..j];
    assert CommandText(cs[0]) + "" == CommandText(cs[0]);
    assert Stream(front) == CommandText(front[0]) + Stream(front[1..]);
  }

  /** If all commands are carried out, a read ends where each PUT ends. */
  lemma {:induction false} PutsEndReads(a: nat, segments: seq<string>, cs: seq<Pushed>, j: nat)
    requires AllPushable(cs) && Through(a, segments, cs) && j < |cs| && cs[j].update.Put?
    ensures AllPushable(cs[..j + 1]) && CutAt(a, segments, |Stream(cs[..j + 1])|)
    decreases |cs|
  {
    hide CommandText, LineOf, Clean, Free, EndsLine, Reach, Unread, Stream, PutEnd, HasPut;
    StreamUpTo(cs, j);
    var line, end := |LineOf(cs[0].update)| + 2, |CommandText(cs[0])|;
    var a1, s1 := Reach(a, segments, line), Unread(a, segments, line);
    var p := PutEnd(cs);
    var r, rest := if a1 >= end then a1 else Reach(a1, s1, p), if a1 >= end then s1 else Unread(a1, s1, p);
    var q := |Stream(cs[..j + 1])|;
    if j > 0 {
      assert cs[1..][j - 1] == cs[j];
      PutsEndReads(r - end, rest, cs[1..], j - 1);
    }
    if a1 < end {
      ReachIsCut(a1, s1, p, end, q);
      ReachIsCut(a, segments, line, 0, q);
    } else {
      ReachIsCut(a, segments, line, end, q);
    }
  }

  // ------------------------------------------------------------ commands read by themselves

  /** The reads of one command: the one that brings its line brings the whole command, or, for
      a PUT, leaves the whole end mark to later ones. */
  predicate Alone(c: Pushed, segments: seq<string>)
    requires c.seqno >= 0
  {
    var r, end := Reach(0, segments, |LineOf(c.update)| + 2), |CommandText(c)|;
    r == end || (c.update.Put? && r + 5 <= end)
  }

  /** Enough reads for what is looked for: further ones do not matter. */
  lemma {:induction false} ReachWithin(a: nat, segments: seq<string>, more: seq<string>, p: nat)
    requires a + |Flatten(segments)| >= p
    ensures Reach(a, segments + more, p) == Reach(a, segments, p)
    ensures Unread(a, segments + more, p) == Unread(a, segments, p) + more
    ensures Reach(a, segments, p) + |Flatten(Unread(a, segments, p))| == a + |Flatten(segments)|
    ensures p <= Reach(a, segments, p)
    decreases |segments|
  {
    if a < p {
      FlattenCons(segments);
      assert (segments + more)[1..] == segments[1..] + more;
      ReachWithin(a + |segments[0]|, segments[1..], more, p);
    }
  }

  lemma {:induction false} UnreadNoneEmpty(a: nat, segments: seq<string>, p: nat)
    requires NoneEmpty(segments)
    ensures NoneEmpty(Unread(a, segments, p))
    decreases |segments|
  {
    if a < p && segments != [] {
      UnreadNoneEmpty(a + |segments[0]|, segments[1..], p);
    }
  }

  lemma {:induction false} NoneLeft(segments: seq<string>)
    requires NoneEmpty(segments) && |Flatten(segments)| == 0
    ensures segments == []
  {
    NothingLeft(segments);
  }

  /** A command with reads of its own, before others. */
  lemma {:induction false} Apart(c: Pushed, segments: seq<string>, more: seq<string>, cs: seq<Pushed>)
    requires Pushable(c) && AllPushable(cs) && Pieces(CommandText(c), segments)
    ensures AllPushable([c] + cs)
    ensures Alone(c, segments) ==> (Through(0, segments + more, [c] + cs) <==> Through(0, more, cs))
    ensures !Alone(c, segments) && more == [] && cs == [] ==> !Through(0, segments, [c])
  {
    hide CommandText, LineOf, Clean, Free, EndsLine, Reach, Unread, Flatten;
    assert ([c] + cs)[1..] == cs;
    LineWithin(c);
    var line, end := |LineOf(c.update)| + 2, |CommandText(c)|;
    ReachWithin(0, segments, more, line);
    UnreadNoneEmpty(0, segments, line);
    var a1, s1 := Reach(0, segments, line), Unread(0, segments, line);
    if a1 >= end {
      NoneLeft(s1);
      assert s1 + more == more;
    } else if c.update.Put? {
      PutFirst(c, cs);
      ReachWithin(a1, s1, more, end);
      UnreadNoneEmpty(a1, s1, end);
      NoneLeft(Unread(a1, s1, end));
      assert Unread(a1, s1, end) + more == more;
    } else {
      assert cs == [] ==> !HasPut([c] + cs);
    }
    assert cs == [] ==> [c] + cs == [c];
    assert more == [] ==> segments + more == segments;
  }

  lemma {:induction false} LineWithin(c: Pushed)
    requires c.seqno >= 0
    ensures |LineOf(c.update)| + 2 <= |CommandText(c)|
  {
    hide LineOf, BodyOf;
  }

  lemma {:induction false} PutFirst(c: Pushed, cs: seq<Pushed>)
    requires c.update.Put? && Pushable(c) && AllPushable([c] + cs)
    ensures HasPut([c] + cs) && PutEnd([c] + cs) == |CommandText(c)|
  {
    hide CommandText;
    assert ([c] + cs)[0] == c;
  }

  /** Exactly when a single command is carried out: an end mark cut in two by the first read is
      not seen, and a DELETE whose number is not there with its line waits for a PUT. */
  lemma {:induction false} AloneIff(c: Pushed, segments: seq<string>)
    requires Pushable(c) && Pieces(CommandText(c), segments)
    ensures Carry("", segments) == Outcome([c], Idle) <==> Alone(c, segments)
  {
    hide Carry, Through, CommandText, Alone, Clean, Free, EndsLine, Flatten;
    assert AllPushable([c]) && [c][1..] == [];
    assert CommandText(c) + "" == CommandText(c);
    assert Stream([c][1..]) == "";
    assert Stream([c]) == CommandText(c);
    CarriedIff(segments, [c]);
    Apart(c, segments, [], []);
    NothingThrough();
    assert segments + [] == segments && [c] + [] == [c];
  }

  lemma {:induction false} NothingThrough()
    ensures AllPushable([]) && Through(0, [], [])
  {
  }

  function Concat(groups: seq<seq<string>>): seq<string> {
    if groups == [] then [] else groups[0] + Concat(groups[1..])
  }

  /** Each command has reads of its own that carry it. */
  predicate ReadApart(cs: seq<Pushed>, groups: seq<seq<string>>)
    requires AllPushable(cs)
  {
    |groups| == |cs| &&
    forall i :: 0 <= i < |cs| ==> Pieces(CommandText(cs[i]), groups[i]) && Alone(cs[i], groups[i])
  }

  lemma {:induction false} ApartThrough(cs: seq<Pushed>, groups: seq<seq<string>>)
    requires AllPushable(cs) && ReadApart(cs, groups)
    ensures Through(0, Concat(groups), cs) && Flatten(Concat(groups)) == Stream(cs)
  {
    hide CommandText, Clean, Free, EndsLine, Through, Alone, Flatten;
    if cs == [] {
      NothingThrough();
      NothingFlat();
    } else {
      var c, rest := cs[0], cs[1..];
      assert ReadApart(rest, groups[1..]) by {
        assert forall i :: 0 <= i < |rest| ==> rest[i] == cs[i + 1] && groups[1..][i] == groups[i + 1];
      }
      ApartThrough(rest, groups[1..]);
      Apart(c, groups[0], Concat(groups[1..]), rest);
      assert cs == [c] + rest;
      FlattenConcat(groups[0], Concat(groups[1..]));
    }
  }

  lemma {:induction false} NothingFlat()
    ensures Flatten([]) == ""
  {
  }

  lemma {:induction false} FlattenConcat(a: seq<string>, b: seq<string>)
    ensures Flatten(a + b) == Flatten(a) + Flatten(b)
  {
    if b == [] {
      assert a + b == a;
      assert Flatten(a) + "" == Flatten(a);
    } else {
      var b' := b[..|b| - 1];
      assert (a + b)[..|a + b| - 1] == a + b';
      FlattenConcat(a, b');
      assert Flatten(a) + (Flatten(b') + b[|b| - 1]) == (Flatten(a) + Flatten(b')) + b[|b| - 1];
    }
  }

  /** Commands that are read one by one are all carried out. */
  lemma {:induction false} ApartCarried(cs: seq<Pushed>, groups: seq<seq<string>>)
    requires AllPushable(cs) && ReadApart(cs, groups)
    ensures Carry("", Concat(groups)) == Outcome(cs, Idle)
  {
    hide Carry, Through, Stream, Flatten, ReadApart, AllPushable;
    ApartThrough(cs, groups);
    CarriedIff(Concat(groups), cs);
  }

  /** Two commands in one read, as `reconnect` sends them: behind a PUT the next one loses its
      first character and is not understood. */
  lemma {:induction false} BurstLoses(c: Pushed, c2: Pushed)
    requires Pushable(c) && Pushable(c2) && c.update.Put?
    ensures Carry("", [CommandText(c) + CommandText(c2)]) == Outcome([c], Strange((LineOf(c2.update) + CRLF)[1..]))
  {
    hide Carry, LineOf, BodyOf, Clean, Free, EndsLine, Find, Contains, Collect, Starts, CommandText, BodyMark;
    var t, end := CommandText(c) + CommandText(c2), |CommandText(c)|;
    var n, line := |t|, |LineOf(c.update)| + 2;
    LineEnds(c, CommandText(c2));
    LineWithin(c);
    LineWithin(c2);
    assert "" + t == t && t[..0] == "" && t[..n] == t;
    OneSegment(t, line);
    LineStep(t, 0, [t], line);
    BodyIs(c, t, n);
    CollectThere(c, t[line..n]);
    BodyStep(c, t, n, [], n, []);
    assert t[end + 1..n] == CommandText(c2)[1..];
    HeadLost(c2);
  }

  lemma {:induction false} OneSegment(t: string, line: nat)
    requires 0 < line <= |t|
    ensures Flatten([t]) == t && Flatten([]) == "" && Reach(0, [t], line) == |t| && Unread(0, [t], line) == []
  {
    FlattenOne(t);
    assert [t][1..] == [];
    assert Reach(|t|, [], line) == |t|;
  }

  lemma {:induction false} CollectThere(c: Pushed, buffer: string)
    requires Pushable(c) && BodyOf(c) <= buffer
    ensures var mark := BodyMark(LineOf(c.update) + CRLF); Collect(mark, buffer, []) == Returned(buffer, [])
  {
    hide LineOf, BodyOf, Clean, Free, EndsLine, Contains, Starts, Command, LeftBehind;
    CommandIs(c, buffer);
  }

  lemma {:induction false} HeadLost(c: Pushed)
    requires Pushable(c)
    ensures Carry(CommandText(c)[1..], []) == Outcome([], Strange((LineOf(c.update) + CRLF)[1..]))
  {
    hide LineOf, BodyOf, Clean, Free, EndsLine, Find, Starts;
    LineEnds(c, "");
    LineFree(c.update);
    LineWithin(c);
    LineIs(c, CommandText(c));
    VerbCut(c.update, 1);
    var t := CommandText(c);
    assert t + "" == t;
    FindTail(t, CRLF, 1);
    var n := |LineOf(c.update)|;
    assert t[1..][..n + 1] == t[..n + 2][1..];
  }

  // ------------------------------------------------------------ the loops

  /** `do_read` and `do_read_data`. */
  method DoRead(mark: string, segments: seq<string>) returns (r: Call)
    ensures r == ReadCall(mark, "", segments)
  {
    hide Contains;
    var buf, i := "", 0;
    while i < |segments|
      invariant 0 <= i <= |segments|
      invariant ReadCall(mark, buf, segments[i..]) == ReadCall(mark, "", segments)
    {
      assert segments[i..][1..] == segments[i + 1..];
      buf := buf + segments[i];
      i := i + 1;
      if Contains(buf, mark) {
        return Returned(buf, segments[i..]);
      }
    }
    r := Blocked;
  }

  /** The read loop of `parse_PUT` and `parse_DELE`. */
  method ReadBody(mark: string, start: string, segments: seq<string>) returns (r: Call)
    ensures r == Collect(mark, start, segments)
  {
    hide Contains;
    var buffer, rest := start, segments;
    while !Contains(buffer, mark)
      invariant Collect(mark, buffer, rest) == Collect(mark, start, segments)
      decreases |rest|
    {
      var call := DoRead(TERM, rest);
      if call.Blocked? {
        return Blocked;
      }
      buffer, rest := buffer + call.buf, call.rest;
    }
    r := Returned(buffer, rest);
  }

  /** `Worker::run`, for what a replica gets from its primary. */
  method Serve(segments: seq<string>) returns (o: Outcome)
    ensures o == Carry("", segments)
  {
    hide Contains, Find, Collect, ReadCall, Starts, Command, LeftBehind;
    var w, rest, carried := "", segments, [];
    while true
      invariant Carry("", segments) == Outcome(carried + Carry(w, rest).carried, Carry(w, rest).end)
      decreases |rest|, |w|
    {
      var k := Find(w, CRLF);
      if k == NPOS {
        var call := DoRead(CRLF, rest);
        if call.Blocked? {
          return Outcome(carried, Idle);
        }
        w, rest := Over(w, call.buf), call.rest;
      } else {
        var line := w[..k + 2];
        if !Starts(line, "PUT") && !Starts(line, "DELETE") {
          return Outcome(carried, Strange(line));
        }
        var body := ReadBody(BodyMark(line), w[k + 2..], rest);
        if body.Blocked? {
          return Outcome(carried, Idle);
        }
        var c := Command(line, body.buf);
        if c.seqno < 0 {
          return Outcome(carried, NoNumber);
        }
        assert carried + ([c] + Carry(LeftBehind(line, body.buf), body.rest).carried) ==
               (carried + [c]) + Carry(LeftBehind(line, body.buf), body.rest).carried;
        carried, w, rest := carried + [c], LeftBehind(line, body.buf), body.rest;
      }
    }
  }
}
