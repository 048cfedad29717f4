/** The text of the log and of the checkpoint file: what the writers put there and what the
    line-by-line replay loops read back. */
module LogFormat {
  import opened Text
  import opened Updates

  /** A logged update. A primary and a replica end a PUT record differently. */
  datatype Entry = Entry(update: Update, seqno: nat, byPrimary: bool)

  function Header(u: Update): string {
    (if u.Put? then "PUT <" else "DELETE <") + u.row + "> <" + u.col + ">"
  }

  /** The three appends of `putToLog` (the last two are one for `deleteToLog`). */
  function Start(e: Entry): string {
    Header(e.update) + "\n" + Digits(e.seqno) + "\n"
  }

  function EntryText(e: Entry): string {
    match e.update
    case Put(_, _, v) => Start(e) + v + (if e.byPrimary then "\n.\n" else ".\n")
    case Delete(_, _) => Start(e) + ".\n"
  }

  function LogText(es: seq<Entry>): string {
    if es == [] then "" else LogText(es[..|es| - 1]) + EntryText(es[|es| - 1])
  }

  // ------------------------------------------------------------ the replay loops

  /** The commands a replay loop hands over: lines are collected, each with its line feed,
      until a line that is exactly "."; what follows the last such line is dropped. */
  function Chunks(text: string, acc: string): seq<string>
    decreases |text|
  {
    if text == "" then []
    else
      var k := Find(text, "\n");
      var line := if k == NPOS then text else text[..k];
      var rest := if k == NPOS then "" else text[k + 1..];
      if line == "." then [acc + ".\n"] + Chunks(rest, "")
      else Chunks(rest, acc + line + "\n")
  }

  function FirstField(line: string): string {
    Slice(line, Find(line, "<") + 1, Find(line, ">"))
  }

  function AfterField(line: string): string {
    line[Find(line, ">") + 1..]
  }

  /** `replayLogCommand`, up to its effect on the table. */
  function ReadCommand(chunk: string): Update {
    var isDelete := Slice(chunk, 0, Find(chunk, " ")) == "DELETE";
    var pos := Find(chunk, "\n");
    var line := Slice(chunk, 0, pos);
    var row := FirstField(line);
    var col := FirstField(AfterField(line));
    var str := chunk[pos + 1..];
    if isDelete then Delete(row, col)
    else
      var data := str[Find(str, "\n") + 1..];
      Put(row, col, Slice(data, 0, Find(data, "\n.\n")))
  }

  /** `replyCheckpointCommand`, up to its effect on the table. */
  function ReadCell(chunk: string): Update {
    var pos := Find(chunk, "\n");
    var line := Slice(chunk, 0, pos);
    Put(FirstField(line), FirstField(AfterField(line)), Slice(chunk, pos + 1, Find(chunk, "\n.\n")))
  }

  function ReadCommands(cs: seq<string>): (us: seq<Update>)
    ensures |us| == |cs|
  {
    seq(|cs|, i requires 0 <= i < |cs| => ReadCommand(cs[i]))
  }

  function ReadCells(cs: seq<string>): (us: seq<Update>)
    ensures |us| == |cs|
  {
    seq(|cs|, i requires 0 <= i < |cs| => ReadCell(cs[i]))
  }

  /** The updates `recoverLog` replays for a log file. */
  function ParseLog(text: string): seq<Update> {
    ReadCommands(Chunks(text, ""))
  }

  /** The text after the first line, which `recoverCheckpoint` skips. */
  function SkipLine(text: string): string {
    var k := Find(text, "\n");
    if k == NPOS then "" else text[k + 1..]
  }

  /** The cells `recoverCheckpoint` puts for a checkpoint file. */
  function ParseCheckpoint(text: string): seq<Update> {
    ReadCells(Chunks(SkipLine(text), ""))
  }

  // ------------------------------------------------------------ what can be stored

  /** A line of `s` that is exactly "." starts (and ends) at `i`. */
  predicate DotLineAt(s: string, i: int) {
    0 <= i < |s| && s[i] == '.' && (i > 0 ==> s[i - 1] == '\n') && (i + 1 < |s| ==> s[i + 1] == '\n')
  }

  predicate NoDotLine(s: string) {
    forall i :: 0 <= i < |s| ==> !DotLineAt(s, i)
  }

  /** Keys cut out of a command line never hold '>'. */
  predicate KeyText(s: string) {
    Free(s, '>') && Free(s, '\n')
  }

  predicate EndsLine(v: string) {
    |v| >= 2 && v[|v| - 2] == '\r' && v[|v| - 1] == '\n'
  }

  predicate CellText(k: Key, v: string) {
    KeyText(k.0) && KeyText(k.1) && EndsLine(v) && NoDotLine(v)
  }

  predicate Storable(u: Update) {
    KeyText(u.row) && KeyText(u.col) && (u.Put? ==> EndsLine(u.value) && NoDotLine(u.value))
  }

  /** What the replay makes of a logged update: a replica's PUT loses its last line feed. */
  function Read(e: Entry): Update {
    if e.update.Put? && !e.byPrimary && |e.update.value| > 0
    then e.update.(value := e.update.value[..|e.update.value| - 1])
    else e.update
  }

  function Reads(es: seq<Entry>): (us: seq<Update>)
    ensures |us| == |es|
  {
    seq(|es|, i requires 0 <= i < |es| => Read(es[i]))
  }

  // ------------------------------------------------------------ searching lemmas

  lemma {:induction false} FindChar(s: string, c: char, k: nat)
    requires k < |s| && s[k] == c && c !in s[..k]
    ensures Find(s, [c]) == k
  {
    AtIndex(s, [c], k);
    forall j | 0 <= j < k
      ensures !At(s, [c], j)
    {
      assert s[..k][j] == s[j];
      if At(s, [c], j) {
        AtChar(s, [c], j, 0);
      }
    }
    FindFromIs(s, [c], 0, k);
  }

  lemma {:induction false} NoChar(s: string, c: char)
    requires c !in s
    ensures Find(s, [c]) == NPOS
  {
    var r := Find(s, [c]);
    if r != NPOS {
      AtChar(s, [c], r, 0);
    }
  }

  /** In `v` followed by the end mark, the end mark is found right after `v`. */
  lemma {:induction false} FindEndMark(v: string)
    requires NoDotLine(v)
    ensures Find(v + "\n.\n", "\n.\n") == |v|
  {
    var s := v + "\n.\n";
    AtIndex(s, "\n.\n", |v|);
    forall j | 0 <= j < |v|
      ensures !At(s, "\n.\n", j)
    {
      if At(s, "\n.\n", j) {
        AtChar(s, "\n.\n", j, 0);
        AtChar(s, "\n.\n", j, 1);
        AtChar(s, "\n.\n", j, 2);
        assert DotLineAt(v, j + 1);
      }
    }
    FindFromIs(s, "\n.\n", 0, |v|);
  }

  // ------------------------------------------------------------ splitting into commands

  /** A first line, up to its line feed. */
  lemma {:induction false} FirstLine(line: string, rest: string)
    requires Free(line, '\n')
    ensures var text := line + ("\n" + rest);
            Find(text, "\n") == |line| && Slice(text, 0, |line|) == line && text[|line| + 1..] == rest
  {
    var text := line + ("\n" + rest);
    assert text[..|line|] == line;
    FindChar(text, '\n', |line|);
  }

  /** One line of a text. */
  lemma {:induction false} ChunkLine(line: string, rest: string, acc: string)
    requires Free(line, '\n')
    ensures Chunks(line + ("\n" + rest), acc) ==
            if line == "." then [acc + ".\n"] + Chunks(rest, "") else Chunks(rest, acc + line + "\n")
  {
    hide Find, FindFrom;
    var text := line + ("\n" + rest);
    FirstLine(line, rest);
    assert text[..|line|] == line;
    ChunksStep(text, acc);
  }

  lemma {:induction false} ChunksStep(text: string, acc: string)
    requires Find(text, "\n") != NPOS
    ensures var k := Find(text, "\n");
            Chunks(text, acc) ==
            if text[..k] == "." then [acc + ".\n"] + Chunks(text[k + 1..], "")
            else Chunks(text[k + 1..], acc + text[..k] + "\n")
  {
  }

  lemma {:induction false} Rejoin(line: string, more: string, end: string)
    ensures line + "\n" + more + end == (line + ("\n" + more)) + end
    ensures line + ("\n" + (more + end)) == (line + ("\n" + more)) + end
  {
  }

  lemma {:induction false} Regroup(acc: string, line: string, more: string)
    ensures acc + line + "\n" + more == acc + (line + ("\n" + more))
  {
  }

  lemma {:induction false} RejoinMark(line: string, rest: string)
    ensures line + ("\n.\n" + rest) == line + ("\n" + ("." + ("\n" + rest)))
  {
  }

  lemma {:induction false} RegroupMark(acc: string)
    ensures acc + "\n" + ".\n" == acc + "\n.\n"
  {
  }

  /** The first line of a body with several. */
  lemma {:induction false} FirstOfBody(body: string, k: int)
    requires NoDotLine(body) && k == Find(body, "\n") != NPOS
    ensures 0 <= k < |body|
    ensures body == body[..k] + ("\n" + body[k + 1..])
    ensures Free(body[..k], '\n') && body[..k] != "." && NoDotLine(body[k + 1..])
  {
    LineEnd(body, k);
    assert !DotLineAt(body, 0);
    NoDotLineTail(body, k);
  }

  lemma {:induction false} OnlyOfBody(body: string)
    requires NoDotLine(body) && Find(body, "\n") == NPOS
    ensures Free(body, '\n') && body != "."
  {
    NoLineFeed(body);
    assert |body| > 0 ==> !DotLineAt(body, 0);
  }

  /** A body without lone dots, the end mark, and whatever follows. */
  lemma {:induction false} ChunkBody(body: string, acc: string, rest: string)
    requires NoDotLine(body)
    ensures Chunks(body + ("\n.\n" + rest), acc) == [acc + body + "\n.\n"] + Chunks(rest, "")
    decreases |body|
  {
    hide Chunks, NoDotLine, Find, FindFrom, Free;
    var k := Find(body, "\n");
    if k != NPOS {
      FirstOfBody(body, k);
      var line, body' := body[..k], body[k + 1..];
      var end := "\n.\n" + rest;
      Rejoin(line, body', end);
      ChunkLine(line, body' + end, acc);
      ChunkBody(body', acc + line + "\n", rest);
      Regroup(acc, line, body');
    } else {
      LastOfBody(body, acc, rest);
    }
  }

  lemma {:induction false} LastOfBody(body: string, acc: string, rest: string)
    requires NoDotLine(body) && Find(body, "\n") == NPOS
    ensures Chunks(body + ("\n.\n" + rest), acc) == [acc + body + "\n.\n"] + Chunks(rest, "")
  {
    hide Chunks, NoDotLine, Find, FindFrom, Free;
    OnlyOfBody(body);
    RejoinMark(body, rest);
    ChunkLine(body, "." + ("\n" + rest), acc);
    DotIsOneLine();
    ChunkLine(".", rest, acc + body + "\n");
    RegroupMark(acc + body);
  }

  lemma {:induction false} DotIsOneLine()
    ensures Free(".", '\n')
  {
  }

  lemma {:induction false} NoLineFeed(s: string)
    requires Find(s, "\n") == NPOS
    ensures Free(s, '\n')
  {
    forall j | 0 <= j < |s|
      ensures s[j] != '\n'
    {
      if s[j] == '\n' {
        AtIndex(s, "\n", j);
      }
    }
  }

  /** The first line feed is where `Find` says, and nothing before it is one. */
  lemma {:induction false} LineEnd(s: string, k: int)
    requires k == Find(s, "\n") != NPOS
    ensures 0 <= k < |s| && s[k] == '\n' && '\n' !in s[..k]
  {
    AtChar(s, "\n", k, 0);
    forall j | 0 <= j < k
      ensures s[j] != '\n'
    {
      if s[j] == '\n' {
        AtIndex(s, "\n", j);
      }
    }
  }

  lemma {:induction false} NoDotLineTail(s: string, k: nat)
    requires NoDotLine(s) && k < |s| && s[k] == '\n'
    ensures NoDotLine(s[k + 1..])
  {
    var t := s[k + 1..];
    forall i | 0 <= i < |t|
      ensures !DotLineAt(t, i)
    {
      assert !DotLineAt(s, k + 1 + i);
    }
  }

  /** A text without lone dots completes no command: a torn record is dropped. */
  lemma {:induction false} ChunksNone(text: string, acc: string)
    requires NoDotLine(text)
    ensures Chunks(text, acc) == []
    decreases |text|
  {
    if text != "" {
      assert !DotLineAt(text, 0);
      var k := Find(text, "\n");
      if k != NPOS {
        LineEnd(text, k);
        NoDotLineTail(text, k);
        ChunksNone(text[k + 1..], acc + text[..k] + "\n");
      }
    }
  }

  // ------------------------------------------------------------ one record

  /** The part of a record before its end mark. */
  function Body(e: Entry): string {
    var u := e.update;
    var start := Header(u) + "\n" + Digits(e.seqno);
    if u.Delete? then start
    else if e.byPrimary || |u.value| == 0 then start + "\n" + u.value
    else start + "\n" + u.value[..|u.value| - 1]
  }

  lemma {:induction false} EntryShape(e: Entry)
    requires Storable(e.update)
    ensures EntryText(e) == Body(e) + "\n.\n"
    ensures NoDotLine(Body(e))
    ensures NoDotLine(Start(e))
    ensures e.update.Put? ==> NoDotLine(Start(e) + e.update.value)
  {
    var u := e.update;
    var h := Header(u);
    var d := Digits(e.seqno);
    assert Free(h, '\n');
    assert !IsDigit('\n') && !IsDigit('.');
    NoDotLineStart(h, d, "");
    assert h + "\n" + d + "\n" + "" == Start(e);
    if u.Put? {
      assert EntryText(e) == Body(e) + "\n.\n" by {
        if !e.byPrimary {
          assert u.value == u.value[..|u.value| - 1] + "\n";
        }
      }
      NoDotLineStart(h, d, u.value);
      assert NoDotLine(u.value[..|u.value| - 1]) by {
        var v := u.value[..|u.value| - 1];
        forall i | 0 <= i < |v|
          ensures !DotLineAt(v, i)
        {
          assert !DotLineAt(u.value, i);
        }
      }
      NoDotLineStart(h, d, u.value[..|u.value| - 1]);
    } else {
      assert EntryText(e) == Body(e) + "\n.\n";
      forall i | 0 <= i < |Body(e)|
        ensures !DotLineAt(Body(e), i)
      {
        assert !DotLineAt(Start(e), i);
      }
    }
  }

  lemma {:induction false} NoDotLineStart(h: string, d: string, v: string)
    requires Free(h, '\n') && |h| >= 2 && d != "" && AllDigits(d) && NoDotLine(v)
    ensures NoDotLine(h + "\n" + d + "\n" + v)
  {
    var s := h + "\n" + d + "\n" + v;
    forall i | 0 <= i < |s|
      ensures !DotLineAt(s, i)
    {
      if i < |h| {
        assert i > 0 ==> s[i - 1] == h[i - 1];
        assert s[i + 1] == if i + 1 < |h| then h[i + 1] else '\n';
      } else if |h| < i <= |h| + |d| {
        assert s[i] == d[i - |h| - 1];
      } else if i > |h| + |d| + 1 {
        assert !DotLineAt(v, i - |h| - |d| - 2);
      }
    }
  }

  /** A field is cut out between the first '<' and the first '>'. */
  lemma {:induction false} FieldOf(before: string, field: string, after: string)
    requires Free(before, '<') && Free(before, '>') && Free(field, '>')
    ensures var line := before + ("<" + (field + (">" + after)));
            FirstField(line) == field && AfterField(line) == after
  {
    var line := before + ("<" + (field + (">" + after)));
    assert line[..|before|] == before;
    FindChar(line, '<', |before|);
    var q := |before| + 1 + |field|;
    assert line[..q] == before + "<" + field;
    FindChar(line, '>', q);
  }

  /** The fields of a header line come back. */
  lemma {:induction false} HeaderFields(u: Update)
    requires KeyText(u.row) && KeyText(u.col)
    ensures FirstField(Header(u)) == u.row
    ensures FirstField(AfterField(Header(u))) == u.col
  {
    var kw := if u.Put? then "PUT " else "DELETE ";
    var rest := " " + ("<" + (u.col + (">" + "")));
    assert Header(u) == kw + ("<" + (u.row + (">" + rest)));
    FieldOf(kw, u.row, rest);
    FieldOf(" ", u.col, "");
  }

  lemma {:induction false} SliceTo(a: string, b: string)
    ensures Slice(a + b, 0, |a|) == a
    ensures (a + b)[|a|..] == b
  {
  }

  /** The first word of a record. */
  lemma {:induction false} KeywordOf(u: Update, rest: string)
    ensures var text := Header(u) + rest;
            (Slice(text, 0, Find(text, " ")) == "DELETE") == u.Delete?
  {
    var kw := if u.Put? then "PUT" else "DELETE";
    var text := Header(u) + rest;
    var more := " <" + u.row + "> <" + u.col + ">" + rest;
    assert text == kw + more;
    assert text[..|kw|] == kw;
    FindChar(text, ' ', |kw|);
  }

  /** What is read back as the value of a PUT record. */
  lemma {:induction false} NoDotRead(e: Entry)
    requires Storable(e.update) && e.update.Put?
    ensures NoDotLine(Read(e).value)
    ensures EntryText(e) == Start(e) + (Read(e).value + "\n.\n")
  {
    var v, u := Read(e).value, e.update;
    forall i | 0 <= i < |v|
      ensures !DotLineAt(v, i)
    {
      assert !DotLineAt(u.value, i);
    }
    if !e.byPrimary {
      assert u.value == v + "\n";
    }
  }

  lemma {:induction false} HeaderShape(u: Update)
    requires KeyText(u.row) && KeyText(u.col)
    ensures var h := Header(u); Free(h, '\n') && h != "" && h[|h| - 1] == '>'
  {
  }

  /** A record with header, number line and the rest. */
  lemma {:induction false} ReadShape(u: Update, d: string, tail: string)
    requires KeyText(u.row) && KeyText(u.col) && Free(d, '\n')
    ensures ReadCommand(Header(u) + ("\n" + (d + ("\n" + tail)))) ==
            if u.Delete? then u else Put(u.row, u.col, Slice(tail, 0, Find(tail, "\n.\n")))
  {
    hide Find, FindFrom, Slice, Header, FirstField, AfterField, Free;
    var rest := d + ("\n" + tail);
    KeywordOf(u, "\n" + rest);
    HeaderShape(u);
    FirstLine(Header(u), rest);
    HeaderFields(u);
    FirstLine(d, tail);
  }

  /** One record is read back as `Read` says. */
  lemma {:induction false} ReadEntry(e: Entry)
    requires Storable(e.update)
    ensures ReadCommand(EntryText(e)) == Read(e)
  {
    hide ReadCommand, Find, Digits;
    var u, d := e.update, Digits(e.seqno);
    assert !IsDigit('\n');
    var tail := if u.Put? then Read(e).value + "\n.\n" else ".\n";
    ReadShape(u, d, tail);
    var h := Header(u);
    assert h + "\n" + d + "\n" + tail == h + ("\n" + (d + ("\n" + tail)));
    if u.Put? {
      NoDotRead(e);
      FindEndMark(Read(e).value);
      SliceTo(Read(e).value, "\n.\n");
    }
  }

  // ------------------------------------------------------------ whole logs

  function Texts(es: seq<Entry>): seq<string> {
    seq(|es|, i requires 0 <= i < |es| => EntryText(es[i]))
  }

  /** The next record of a log is the next command. */
  lemma {:induction false} ChunkEntry(e: Entry, tail: string)
    requires Storable(e.update)
    ensures Chunks(EntryText(e) + tail, "") == [EntryText(e)] + Chunks(tail, "")
  {
    EntryShape(e);
    hide Chunks, EntryText, Body, NoDotLine;
    ChunkWhole(Body(e), tail);
  }

  lemma {:induction false} ChunkWhole(body: string, tail: string)
    requires NoDotLine(body)
    ensures Chunks(body + "\n.\n" + tail, "") == [body + "\n.\n"] + Chunks(tail, "")
  {
    hide Chunks, NoDotLine;
    assert body + "\n.\n" + tail == body + ("\n.\n" + tail);
    ChunkBody(body, "", tail);
    assert "" + body + "\n.\n" == body + "\n.\n";
  }

  lemma {:induction false} ChunksOfLog(es: seq<Entry>, tail: string)
    requires forall i :: 0 <= i < |es| ==> Storable(es[i].update)
    ensures Chunks(LogText(es) + tail, "") == Texts(es) + Chunks(tail, "")
  {
    hide Chunks, EntryText, Storable;
    if es == [] {
      assert LogText(es) + tail == tail;
      assert Texts(es) == [];
    } else {
      var es', e := es[..|es| - 1], es[|es| - 1];
      ChunksOfLog(es', EntryText(e) + tail);
      assert LogText(es) + tail == LogText(es') + (EntryText(e) + tail);
      ChunkEntry(e, tail);
      assert Texts(es) == Texts(es') + [EntryText(e)];
      assert Texts(es) + Chunks(tail, "") == Texts(es') + ([EntryText(e)] + Chunks(tail, ""));
    }
  }

  /** A log file of whole records, possibly followed by a torn one, replays as exactly the
      logged updates (with what `Read` says about a replica's records). */
  lemma {:induction false} LogRoundTrip(es: seq<Entry>, torn: string)
    requires forall i :: 0 <= i < |es| ==> Storable(es[i].update)
    requires NoDotLine(torn)
    ensures ParseLog(LogText(es) + torn) == Reads(es)
  {
    ChunksOfLog(es, torn);
    ChunksNone(torn, "");
    var cs := Chunks(LogText(es) + torn, "");
    assert cs == Texts(es);
    forall i | 0 <= i < |es|
      ensures ReadCommands(cs)[i] == Reads(es)[i]
    {
      ReadEntry(es[i]);
    }
  }

  lemma {:induction false} OneRecord(e: Entry)
    requires Storable(e.update)
    ensures ParseLog(EntryText(e)) == [Read(e)]
  {
    hide ParseLog, EntryText;
    LogRoundTrip([e], "");
    assert [e][..0] == [];
    assert LogText([e]) + "" == EntryText(e);
    assert Reads([e]) == [Read(e)];
  }

  /** A lone dot is on the first line, or on a later one. */
  lemma {:induction false} DotAfterLine(text: string, i: nat)
    requires DotLineAt(text, i)
    ensures var k := Find(text, "\n");
            (k == NPOS ==> text == ".") &&
            (k != NPOS ==> 0 <= k < |text| && (i == 0 ==> k == 1 && text[..k] == ".")
                           && (i > 0 ==> k < i && DotLineAt(text[k + 1..], i - k - 1)))
  {
    var k := Find(text, "\n");
    if k == NPOS {
      NoLineFeed(text);
    } else {
      LineEnd(text, k);
      if i > 0 {
        AtIndex(text, "\n", i - 1);
      }
    }
  }

  /** A lone dot completes a command. */
  lemma {:induction false} DotMakesCommand(text: string, acc: string, i: nat)
    requires DotLineAt(text, i)
    ensures |Chunks(text, acc)| >= 1
    decreases |text|
  {
    var k := Find(text, "\n");
    DotAfterLine(text, i);
    if k != NPOS {
      ChunksStep(text, acc);
      hide Chunks, Find, FindFrom, DotLineAt;
      if i > 0 {
        DotMakesCommand(text[k + 1..], acc + text[..k] + "\n", i - k - 1);
      }
    }
  }

  /** Two lone dots make two. */
  lemma {:induction false} TwoDots(text: string, acc: string, i: nat, j: nat)
    requires i < j && DotLineAt(text, i) && DotLineAt(text, j)
    ensures |Chunks(text, acc)| >= 2
    decreases |text|
  {
    assert |text| > 1;
    hide Chunks, Find, FindFrom, DotLineAt;
    var k := Find(text, "\n");
    DotAfterLine(text, i);
    DotAfterLine(text, j);
    ChunksStep(text, acc);
    var rest := text[k + 1..];
    if i > 0 {
      var next := if text[..k] == "." then "" else acc + text[..k] + "\n";
      TwoDots(rest, next, i - k - 1, j - k - 1);
    } else {
      DotMakesCommand(rest, "", j - k - 1);
    }
  }

  lemma {:induction false} DotInRecord(start: string, v: string, i: nat)
    requires DotLineAt(v, i) && EndsLine(v) && start != "" && start[|start| - 1] == '\n'
    ensures var text := start + v + "\n.\n"; DotLineAt(text, |start| + i) && DotLineAt(text, |text| - 2)
    ensures i < |v| - 2
  {
    var text := start + v + "\n.\n";
    assert text[|start| + i] == v[i] && text[|start| + i + 1] == v[i + 1];
    assert i > 0 ==> text[|start| + i - 1] == v[i - 1];
    assert i == 0 ==> text[|start| + i - 1] == start[|start| - 1];
  }

  /** Exactly which values survive the log of a primary: those without a lone-dot line. */
  lemma {:induction false} LogRoundTripIff(e: Entry)
    requires e.update.Put? && e.byPrimary
    requires KeyText(e.update.row) && KeyText(e.update.col) && EndsLine(e.update.value)
    ensures ParseLog(EntryText(e)) == [e.update] <==> NoDotLine(e.update.value)
  {
    var text, v := EntryText(e), e.update.value;
    if NoDotLine(v) {
      OneRecord(e);
    } else {
      var i :| 0 <= i < |v| && DotLineAt(v, i);
      var n := |Start(e)|;
      DotInRecord(Start(e), v, i);
      TwoDots(text, "", n + i, |text| - 2);
      assert text == Start(e) + v + "\n.\n";
    }
  }

  /** A replica's own PUT records never survive: the replayed value lacks its line feed. */
  lemma {:induction false} ReplicaLogLosesLineFeed(e: Entry)
    requires e.update.Put? && !e.byPrimary && Storable(e.update)
    ensures ParseLog(EntryText(e)) == [e.update.(value := e.update.value[..|e.update.value| - 1])]
    ensures ParseLog(EntryText(e)) != [e.update]
  {
    hide ParseLog, EntryText;
    OneRecord(e);
    assert Read(e).value != e.update.value;
  }

  // ------------------------------------------------------------ the last sequence number

  /** `lastLogSeq` on the content of a log file. */
  function LastLogSeq(log: string): int {
    var pos := RFind(log, ">\n");
    if pos == NPOS then 0
    else
      var pos2 := RFindFrom(log, ".\n", pos);
      var p := if pos2 != NPOS then FindFrom(log, ">\n", pos2) else Find(log, ">\n");
      var s := log[p + 2..];
      Stol(Slice(s, 0, Find(s, "\n")))
  }

  /** No line of `v` that ends in '.' is followed by one that ends in '>'. */
  ghost predicate DotNeverBeforeBracket(v: string) {
    forall i, j :: 0 <= i <= j && At(v, ".\n", i) ==> !At(v, ">\n", j)
  }

  lemma {:induction false} PairAt(s: string, a: char, b: char, i: int)
    ensures At(s, [a, b], i) <==> 0 <= i < |s| - 1 && s[i] == a && s[i + 1] == b
  {
    if 0 <= i < |s| - 1 && s[i] == a && s[i + 1] == b {
      AtIndex(s, [a, b], i);
    }
    if At(s, [a, b], i) {
      AtChar(s, [a, b], i, 0);
      AtChar(s, [a, b], i, 1);
    }
  }

  lemma {:induction false} LogEndsInMark(es: seq<Entry>)
    requires es != [] && Storable(es[|es| - 1].update)
    ensures var t := LogText(es); |t| >= 2 && t[|t| - 2] == '.' && t[|t| - 1] == '\n'
  {
    EntryShape(es[|es| - 1]);
  }

  /** From the last header on, no line ending in '.' precedes a bracketed one. */
  lemma {:induction false} NoDotBetween(pre: string, h: string, d: string, v: string, mark: string, pos: int, dot: int)
    requires Free(h, '\n') && h != "" && h[|h| - 1] == '>' && d != "" && AllDigits(d)
    requires DotNeverBeforeBracket(v) && (v == "" || EndsLine(v)) && mark in {"\n.\n", ".\n"}
    requires var log := pre + (h + ("\n" + (d + ("\n" + (v + mark)))));
             At(log, ">\n", pos) && At(log, ".\n", dot) && dot <= pos
    ensures dot < |pre|
  {
    var log := pre + (h + ("\n" + (d + ("\n" + (v + mark)))));
    var w := |pre| + |h| + 1 + |d| + 1;
    hide At;
    assert |pre| <= dot < |pre| + |h| ==> log[dot] == h[dot - |pre|];
    assert |pre| <= dot < |pre| + |h| - 1 ==> log[dot + 1] == h[dot + 1 - |pre|];
    assert |pre| + |h| < dot < w - 1 ==> log[dot] == d[dot - |pre| - |h| - 1];
    assert w <= dot < w + |v| ==> log[dot] == v[dot - w];
    assert w <= dot < w + |v| - 1 ==> log[dot + 1] == v[dot + 1 - w];
    assert w <= pos < w + |v| ==> log[pos] == v[pos - w];
    assert w <= pos < w + |v| - 1 ==> log[pos + 1] == v[pos + 1 - w];
    assert w + |v| <= pos < |log| ==> log[pos] == mark[pos - w - |v|];
    PairAt(log, '>', '\n', pos);
    PairAt(log, '.', '\n', dot);
    PairAt(v, '.', '\n', dot - w);
    PairAt(v, '>', '\n', pos - w);
  }

  /** The header is the first bracketed line from the previous end mark on. */
  lemma {:induction false} HeaderIsFirstBracket(pre: string, h: string, rest: string)
    requires Free(h, '\n') && h != "" && h[|h| - 1] == '>'
    requires pre == "" || (|pre| >= 2 && pre[|pre| - 2] == '.' && pre[|pre| - 1] == '\n')
    ensures var from := if pre == "" then 0 else |pre| - 2;
            FindFrom(pre + (h + ("\n" + rest)), ">\n", from) == |pre| + |h| - 1
  {
    var log := pre + (h + ("\n" + rest));
    var from := if pre == "" then 0 else |pre| - 2;
    var q := |pre| + |h| - 1;
    hide At, FindFrom;
    assert log[q] == '>' && log[q + 1] == '\n';
    PairAt(log, '>', '\n', q);
    forall j | from <= j < q
      ensures !At(log, ">\n", j)
    {
      assert j < |pre| ==> log[j] == pre[j];
      assert j >= |pre| ==> log[j + 1] == h[j + 1 - |pre|];
      PairAt(log, '>', '\n', j);
    }
    FindFromIs(log, ">\n", from, q);
  }

  function ValueText(e: Entry): string {
    if e.update.Put? then e.update.value else ""
  }

  function EndMark(e: Entry): string {
    if e.update.Put? && e.byPrimary then "\n.\n" else ".\n"
  }

  lemma {:induction false} EntryPieces(e: Entry)
    ensures EntryText(e) ==
            Header(e.update) + ("\n" + (Digits(e.seqno) + ("\n" + (ValueText(e) + EndMark(e)))))
  {
    hide Digits, Header;
    var h, d, v, m := Header(e.update), Digits(e.seqno), ValueText(e), EndMark(e);
    assert EntryText(e) == h + "\n" + d + "\n" + v + m;
    assert h + "\n" + d + "\n" + v + m == h + ("\n" + (d + ("\n" + (v + m))));
  }

  /** `lastLogSeq` answers the number of the last record, whatever the earlier records hold
      and even when the last value has lines ending in '>'. */
  lemma {:induction false} LastLogSeqIsLast(es: seq<Entry>)
    requires es != [] && forall i :: 0 <= i < |es| ==> Storable(es[i].update)
    requires DotNeverBeforeBracket(ValueText(es[|es| - 1]))
    ensures LastLogSeq(LogText(es)) == es[|es| - 1].seqno
  {
    hide LastLogSeq, DotNeverBeforeBracket, NoDotLine, EntryText, ValueText, LogText, Storable;
    var es' := es[..|es| - 1];
    LogTextSplit(es);
    if |es| > 1 {
      LogEndsInMark(es');
    } else {
      LogTextSplit(es');
    }
    LastLogSeqOf(LogText(es'), es[|es| - 1]);
  }

  lemma {:induction false} LogTextSplit(es: seq<Entry>)
    ensures LogText(es) == if es == [] then "" else LogText(es[..|es| - 1]) + EntryText(es[|es| - 1])
  {
  }

  lemma {:induction false} LastLogSeqOf(pre: string, e: Entry)
    requires Storable(e.update) && DotNeverBeforeBracket(ValueText(e))
    requires pre == "" || (|pre| >= 2 && pre[|pre| - 2] == '.' && pre[|pre| - 1] == '\n')
    ensures LastLogSeq(pre + EntryText(e)) == e.seqno
  {
    hide LastLogSeq, DotNeverBeforeBracket, Digits, NoDotLine, EntryText, Header, Free, At;
    EntryPieces(e);
    HeaderShape(e.update);
    SeqOfLast(pre, Header(e.update), Digits(e.seqno), ValueText(e), EndMark(e), e.seqno);
  }

  lemma {:induction false} SeqOfLast(pre: string, h: string, d: string, v: string, m: string, n: nat)
    requires Free(h, '\n') && h != "" && h[|h| - 1] == '>' && d == Digits(n)
    requires pre == "" || (|pre| >= 2 && pre[|pre| - 2] == '.' && pre[|pre| - 1] == '\n')
    requires DotNeverBeforeBracket(v) && (v == "" || EndsLine(v)) && m in {"\n.\n", ".\n"}
    ensures LastLogSeq(pre + (h + ("\n" + (d + ("\n" + (v + m)))))) == n
  {
    hide FindFrom, RFind, RFindFrom, Digits, Stol, Slice, At;
    var rest := d + ("\n" + (v + m));
    var log := pre + (h + ("\n" + rest));
    LastSearch(pre, h, d, v, m);
    HeaderIsFirstBracket(pre, h, rest);
    assert log[|pre| + |h| + 1..] == rest;
    assert !IsDigit('\n');
    FirstLine(d, v + m);
    StolDigits(n, "");
    assert d + "" == d;
  }

  /** Both backward searches of `lastLogSeq`. */
  lemma {:induction false} LastSearch(pre: string, h: string, d: string, v: string, mark: string)
    requires Free(h, '\n') && h != "" && h[|h| - 1] == '>' && d != "" && AllDigits(d)
    requires pre == "" || (|pre| >= 2 && pre[|pre| - 2] == '.' && pre[|pre| - 1] == '\n')
    requires DotNeverBeforeBracket(v) && (v == "" || EndsLine(v)) && mark in {"\n.\n", ".\n"}
    ensures var log := pre + (h + ("\n" + (d + ("\n" + (v + mark)))));
            RFind(log, ">\n") >= |pre| &&
            RFindFrom(log, ".\n", RFind(log, ">\n")) == if pre == "" then NPOS else |pre| - 2
  {
    hide RFindFrom;
    var log := pre + (h + ("\n" + (d + ("\n" + (v + mark)))));
    PairAt(log, '>', '\n', |pre| + |h| - 1);
    var pos := RFind(log, ">\n");
    var dot := RFindFrom(log, ".\n", pos);
    if dot != NPOS {
      NoDotBetween(pre, h, d, v, mark, pos, dot);
    }
    if pre != "" {
      assert log[|pre| - 2] == '.' && log[|pre| - 1] == '\n';
      PairAt(log, '.', '\n', |pre| - 2);
      PairAt(log, '.', '\n', |pre| - 1);
    }
  }

  /** When a text has a line ending in '.' before one ending in '>', what stands before it
      does not matter to `lastLogSeq`. */
  lemma {:induction false} SeqFromTail(a: string, x: string, i: nat, j: nat)
    requires i <= j && At(x, ".\n", i) && At(x, ">\n", j)
    ensures LastLogSeq(a + x) == LastLogSeq(x)
  {
    hide At, Stol, Slice, FindFrom, RFindFrom, Find;
    var y := a + x;
    var pos := RFind(x, ">\n");
    WholeShift(a, x, j);
    var pos2 := RFindFrom(x, ".\n", pos);
    RFindShift(a, x, ".\n", pos);
    FindShift(a, x, ">\n", pos2);
    BracketAfter(x, pos2, pos);
    var q := FindFrom(x, ">\n", pos2);
    assert y[|a| + q + 2..] == x[q + 2..];
  }

  lemma {:induction false} WholeShift(a: string, x: string, j: nat)
    requires At(x, ">\n", j)
    ensures RFind(x, ">\n") >= j && RFind(a + x, ">\n") == |a| + RFind(x, ">\n")
  {
    hide At, RFindFrom;
    var r, q := RFind(x, ">\n"), RFind(a + x, ">\n");
    AtShift(a, x, ">\n", r);
    AtFound(x, ">\n", r);
    AtShift(a, x, ">\n", q - |a|);
    AtFound(a + x, ">\n", q);
  }

  lemma {:induction false} BracketAfter(x: string, from: nat, pos: nat)
    requires At(x, ">\n", pos) && from <= pos
    ensures from <= FindFrom(x, ">\n", from) <= |x| - 2
  {
  }

  /** A value with a line ending in '.' before one ending in '>' misleads `lastLogSeq`: its
      answer is a matter of the value alone, whatever the number of the record and the rest of
      the log. */
  lemma {:induction false} LastLogSeqMisled(pre: string, e: Entry)
    requires !DotNeverBeforeBracket(ValueText(e))
    ensures LastLogSeq(pre + EntryText(e)) == LastLogSeq(ValueText(e) + EndMark(e))
  {
    hide LastLogSeq, Digits, EntryText, Header;
    EntryPieces(e);
    var h, d, v, m := Header(e.update), Digits(e.seqno), ValueText(e), EndMark(e);
    var i, j :| 0 <= i <= j && At(v, ".\n", i) && At(v, ">\n", j);
    var a := pre + (h + ("\n" + (d + "\n")));
    assert pre + EntryText(e) == a + (v + m);
    AtFront(v, m, ".\n", i);
    AtFront(v, m, ">\n", j);
    SeqFromTail(a, v + m, i, j);
  }

  lemma {:induction false} AtFront(v: string, m: string, p: string, i: nat)
    requires At(v, p, i)
    ensures At(v + m, p, i)
  {
    assert (v + m)[i..i + |p|] == v[i..i + |p|];
  }

  /** Exactly which last records have their number found, whatever that number is and whatever
      the log holds before them. */
  lemma {:induction false} LastLogSeqIff(es: seq<Entry>, u: Update, byPrimary: bool)
    requires Storable(u) && forall i :: 0 <= i < |es| ==> Storable(es[i].update)
    ensures (forall n: nat :: LastLogSeq(LogText(es + [Entry(u, n, byPrimary)])) == n)
            <==> (u.Put? ==> DotNeverBeforeBracket(u.value))
  {
    hide LastLogSeq, LogText, Storable, EntryText, DotNeverBeforeBracket;
    EmptyHasNoDot();
    if u.Put? ==> DotNeverBeforeBracket(u.value) {
      forall n: nat
        ensures LastLogSeq(LogText(es + [Entry(u, n, byPrimary)])) == n
      {
        LastLogSeqIsLast(es + [Entry(u, n, byPrimary)]);
      }
    } else {
      var one, two := Entry(u, 1, byPrimary), Entry(u, 2, byPrimary);
      LogOneMore(es, one);
      LogOneMore(es, two);
      LastLogSeqMisled(LogText(es), one);
      LastLogSeqMisled(LogText(es), two);
      assert LastLogSeq(LogText(es + [one])) == LastLogSeq(LogText(es + [two]));
    }
  }

  lemma {:induction false} EmptyHasNoDot()
    ensures DotNeverBeforeBracket("")
  {
  }

  lemma {:induction false} LogOneMore(es: seq<Entry>, e: Entry)
    ensures LogText(es + [e]) == LogText(es) + EntryText(e)
  {
    assert (es + [e])[..|es|] == es;
  }

  // ------------------------------------------------------------ checkpoints

  /** A cell as `writeToDisk` prints it. */
  function CellLines(k: Key, v: string): string {
    "PUT <" + k.0 + "> <" + k.1 + ">\n" + v + "\n.\n"
  }

  function CellsText(ks: seq<Key>, t: Cells): string
    requires forall k :: k in ks ==> k in t
  {
    if ks == [] then "" else CellsText(ks[..|ks| - 1], t) + CellLines(ks[|ks| - 1], t[ks[|ks| - 1]])
  }

  function VersionLine(version: nat): string {
    "Version number: <" + Digits(version) + ">\n"
  }

  /** `findVersionNum` on the content of an existing checkpoint file. */
  function FindVersion(text: string): int {
    var line := Slice(text, 0, Find(text, "\n"));
    Stol(FirstField(line))
  }

  function CellTexts(ks: seq<Key>, t: Cells): seq<string>
    requires forall k :: k in ks ==> k in t
  {
    seq(|ks|, i requires 0 <= i < |ks| => CellLines(ks[i], t[ks[i]]))
  }

  function Puts(ks: seq<Key>, t: Cells): seq<Update>
    requires forall k :: k in ks ==> k in t
  {
    seq(|ks|, i requires 0 <= i < |ks| => Put(ks[i].0, ks[i].1, t[ks[i]]))
  }

  lemma {:induction false} CellShape(k: Key, v: string)
    requires CellText(k, v)
    ensures var body := "PUT <" + k.0 + "> <" + k.1 + ">\n" + v;
            CellLines(k, v) == body + "\n.\n" && NoDotLine(body)
    ensures ReadCell(CellLines(k, v)) == Put(k.0, k.1, v)
  {
    var u := Put(k.0, k.1, v);
    var line := Header(u);
    var body := "PUT <" + k.0 + "> <" + k.1 + ">\n" + v;
    var chunk := CellLines(k, v);
    assert chunk == body + "\n.\n";
    assert body == line + "\n" + v;
    assert NoDotLine(body) by {
      forall i | 0 <= i < |body|
        ensures !DotLineAt(body, i)
      {
        if i < |line| {
          assert body[i] == line[i] && (i > 0 ==> body[i - 1] == line[i - 1]);
        } else if i > |line| {
          assert !DotLineAt(v, i - |line| - 1);
        }
      }
    }
    FindChar(chunk, '\n', |line|);
    assert chunk == line + ("\n" + v + "\n.\n");
    SliceTo(line, "\n" + v + "\n.\n");
    HeaderFields(u);
    FindEndMark(body);
    assert chunk[|line| + 1..|body|] == v;
  }

  lemma {:induction false} ChunkCell(k: Key, v: string, tail: string)
    requires CellText(k, v)
    ensures Chunks(CellLines(k, v) + tail, "") == [CellLines(k, v)] + Chunks(tail, "")
  {
    hide Chunks, CellText, NoDotLine, CellLines;
    CellShape(k, v);
    ChunkWhole("PUT <" + k.0 + "> <" + k.1 + ">\n" + v, tail);
  }

  lemma {:induction false} ChunksOfCells(ks: seq<Key>, t: Cells, tail: string)
    requires forall k :: k in ks ==> k in t && CellText(k, t[k])
    ensures Chunks(CellsText(ks, t) + tail, "") == CellTexts(ks, t) + Chunks(tail, "")
  {
    hide Chunks, CellLines, CellText;
    if ks == [] {
      assert CellsText(ks, t) + tail == tail;
      assert CellTexts(ks, t) == [];
    } else {
      var ks', k := ks[..|ks| - 1], ks[|ks| - 1];
      ChunksOfCells(ks', t, CellLines(k, t[k]) + tail);
      assert CellsText(ks, t) + tail == CellsText(ks', t) + (CellLines(k, t[k]) + tail);
      ChunkCell(k, t[k], tail);
      assert CellTexts(ks, t) == CellTexts(ks', t) + [CellLines(k, t[k])];
      assert CellTexts(ks, t) + Chunks(tail, "") == CellTexts(ks', t) + ([CellLines(k, t[k])] + Chunks(tail, ""));
    }
  }

  /** Putting the cells of `t` named by `ks`, in any order, builds `t` restricted to `ks`. */
  lemma {:induction false} PutsBuild(ks: seq<Key>, t: Cells)
    requires forall k :: k in ks ==> k in t
    ensures Replay(map[], Puts(ks, t)) == map k | k in ks :: t[k]
  {
    if ks != [] {
      var ks' := ks[..|ks| - 1];
      PutsBuild(ks', t);
      assert Puts(ks, t)[..|ks| - 1] == Puts(ks', t);
    }
  }

  /** The first line gives the version, and the rest is what is replayed. */
  lemma {:induction false} VersionRoundTrip(version: nat, rest: string)
    ensures FindVersion(VersionLine(version) + rest) == version
    ensures SkipLine(VersionLine(version) + rest) == rest
  {
    hide Find, Digits, Stol, FirstField, AfterField, Slice;
    var d := Digits(version);
    assert !IsDigit('\n') && !IsDigit('>') && !IsDigit('<');
    var line := "Version number: " + ("<" + (d + (">" + "")));
    assert VersionLine(version) + rest == line + ("\n" + rest);
    FirstLine(line, rest);
    FieldOf("Version number: ", d, "");
    StolDigits(version, "");
    assert d + "" == d;
  }

  lemma {:induction false} CellsReadBack(ks: seq<Key>, t: Cells)
    requires forall k :: k in ks ==> k in t && CellText(k, t[k])
    ensures ReadCells(Chunks(CellsText(ks, t), "")) == Puts(ks, t)
  {
    assert Chunks("", "") == [];
    hide Chunks, ReadCell, CellLines, CellText, CellsText;
    ChunksOfCells(ks, t, "");
    assert CellsText(ks, t) + "" == CellsText(ks, t);
    var cs := Chunks(CellsText(ks, t), "");
    assert cs == CellTexts(ks, t);
    forall i | 0 <= i < |ks|
      ensures ReadCell(cs[i]) == Put(ks[i].0, ks[i].1, t[ks[i]])
    {
      assert ks[i] in ks;
      CellShape(ks[i], t[ks[i]]);
    }
  }

  /** A checkpoint that lists every cell, in whatever order, restores the table and its
      version, however the keys and values look as long as they can be stored. */
  lemma {:induction false} CheckpointRoundTrip(version: nat, ks: seq<Key>, t: Cells)
    requires forall k :: k in ks <==> k in t
    requires forall k :: k in t ==> CellText(k, t[k])
    ensures var text := VersionLine(version) + CellsText(ks, t);
            Replay(map[], ParseCheckpoint(text)) == t && FindVersion(text) == version
  {
    hide Chunks, ReadCells, CellText, CellsText, VersionLine, SkipLine, FindVersion, Replay, Puts;
    VersionRoundTrip(version, CellsText(ks, t));
    CellsReadBack(ks, t);
    PutsBuild(ks, t);
    assert (map k | k in ks :: t[k]) == t;
  }
}
