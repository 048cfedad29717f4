/** A PUT record that was cut off, or whose value breaks the format: nothing that is still read
    from it is as long as the value, so no replay restores it. */
module ShortLogs {
  import opened Text
  import opened Updates
  import opened LogFormat
  import opened TornLog

  /** Every value that is put is shorter than `n`. */
  predicate Shorter(us: seq<Update>, n: nat) {
    forall i :: 0 <= i < |us| && us[i].Put? ==> |us[i].value| < n
  }

  predicate ShortCells(t: Cells, n: nat) {
    forall k :: k in t ==> |t[k]| < n
  }

  lemma {:induction false} ReplayShort(t: Cells, us: seq<Update>, n: nat)
    requires Shorter(us, n) && ShortCells(t, n)
    ensures ShortCells(Replay(t, us), n)
  {
    if us != [] {
      ReplayShort(t, us[..|us| - 1], n);
    }
  }

  // ------------------------------------------------------------ lengths of commands

  predicate EndsInLine(s: string) {
    s != "" && s[|s| - 1] == '\n'
  }

  /** Every command ends in a line feed and is at most `n` long. */
  predicate Bounded(cs: seq<string>, n: nat) {
    forall i :: 0 <= i < |cs| ==> EndsInLine(cs[i]) && |cs[i]| <= n
  }

  /** A text of lines, taken apart at its first one. */
  lemma {:induction false} FirstOfLines(text: string)
    requires EndsInLine(text)
    ensures var k := Find(text, "\n");
            && 0 <= k < |text| && (text[k + 1..] == "" || EndsInLine(text[k + 1..]))
            && |text[..k]| + 1 + |text[k + 1..]| == |text|
  {
    AtIndex(text, "\n", |text| - 1);
    LineEnd(text, Find(text, "\n"));
  }

  /** A command is no longer than the lines it is made of. */
  lemma {:induction false} CommandsWithin(text: string, acc: string)
    requires text == "" || EndsInLine(text)
    ensures Bounded(Chunks(text, acc), |acc| + |text|)
    decreases |text|
  {
    if text != "" {
      FirstOfLines(text);
      ChunksStep(text, acc);
      hide Chunks, Find, FindFrom, Bounded, EndsInLine;
      var k := Find(text, "\n");
      var line, rest := text[..k], text[k + 1..];
      if line == "." {
        CommandsWithin(rest, "");
        DotBounded(acc, rest, |acc| + |text|);
      } else {
        var acc' := acc + line + "\n";
        assert |acc'| + |rest| == |acc| + |text|;
        CommandsWithin(rest, acc');
      }
    } else {
      ChunksEmpty();
    }
  }

  lemma {:induction false} DotBounded(acc: string, rest: string, n: nat)
    requires Bounded(Chunks(rest, ""), |rest|) && |acc| + 2 + |rest| <= n
    ensures Bounded([acc + ".\n"] + Chunks(rest, ""), n)
  {
    hide Chunks;
    OneMoreBounded(acc + ".\n", Chunks(rest, ""), |rest|, n);
  }

  lemma {:induction false} OneMoreBounded(c: string, cs: seq<string>, m: nat, n: nat)
    requires EndsInLine(c) && |c| <= n && m <= n && Bounded(cs, m)
    ensures Bounded([c] + cs, n)
  {
  }

  /** The value of a command lacks at least two of its characters. */
  lemma {:induction false} ValueWithin(c: string)
    requires EndsInLine(c)
    ensures var u := ReadCommand(c); u.Put? ==> u.value == "" || |u.value| + 2 <= |c|
  {
    AtIndex(c, "\n", |c| - 1);
    var pos := Find(c, "\n");
    LineEnd(c, pos);
    var str := c[pos + 1..];
    if str != "" {
      AtIndex(str, "\n", |str| - 1);
      LineEnd(str, Find(str, "\n"));
    }
  }

  lemma {:induction false} CommandsShort(text: string, n: nat)
    requires text == "" || EndsInLine(text)
    requires |text| < n + 2 && 0 < n
    ensures Shorter(ReadCommands(Chunks(text, "")), n)
  {
    hide Chunks, ReadCommand;
    var cs := Chunks(text, "");
    CommandsWithin(text, "");
    forall i | 0 <= i < |cs| && ReadCommand(cs[i]).Put?
      ensures |ReadCommand(cs[i]).value| < n
    {
      ValueWithin(cs[i]);
    }
  }

  // ------------------------------------------------------------ the record's first command

  /** The first line of `w` that is a lone dot. */
  predicate FirstDot(w: string, i: nat) {
    DotLineAt(w, i) && forall j :: 0 <= j < i ==> !DotLineAt(w, j)
  }

  lemma {:induction false} SomeFirstDot(w: string) returns (i: nat)
    requires !NoDotLine(w)
    ensures FirstDot(w, i)
  {
    hide DotLineAt;
    i := 0;
    while i < |w| && !DotLineAt(w, i)
      invariant i <= |w| && forall j :: 0 <= j < i ==> !DotLineAt(w, j)
    {
      i := i + 1;
    }
  }

  /** The text behind the line `line`. */
  lemma {:induction false} BeforeFirstDot(w: string, i: nat)
    requires FirstDot(w, i) && EndsInLine(w) && i > 0
    ensures i + 2 <= |w| && NoDotLine(w[..i - 1]) && w == w[..i - 1] + "\n.\n" + w[i + 2..]
  {
    var b := w[..i - 1];
    forall j | 0 <= j < |b|
      ensures !DotLineAt(b, j)
    {
      assert !DotLineAt(w, j);
    }
    assert w[i - 1..i + 2] == "\n.\n";
  }

  lemma {:induction false} NumberLine(u: Update, d: string)
    requires KeyText(u.row) && KeyText(u.col) && d != "" && AllDigits(d)
    ensures NoDotLine(Header(u) + "\n" + d) && Free(Header(u), '\n') && |Header(u)| >= 2 && Free(d, '\n')
  {
    var s := Header(u) + "\n" + d;
    assert !IsDigit('\n') && !IsDigit('.');
    NoDotLineStart(Header(u), d, "");
    assert s + "\n" + "" == s + "\n";
    LineByLine(s + "\n", |s|);
    assert (s + "\n")[..|s|] == s;
  }

  lemma {:induction false} Joined(h: string, d: string, x: string)
    ensures h + "\n" + d + "\n" + x == h + ("\n" + (d + ("\n" + x)))
  {
  }

  lemma {:induction false} ReadAs(u: Update, d: string, tail: string)
    requires u.Put? && KeyText(u.row) && KeyText(u.col) && d != "" && AllDigits(d)
    ensures ReadCommand(Header(u) + "\n" + d + "\n" + tail) == Put(u.row, u.col, Slice(tail, 0, Find(tail, "\n.\n")))
  {
    NumberLine(u, d);
    hide Header, NoDotLine, ReadCommand, KeyText, AllDigits, Find, FindFrom, Free, Slice;
    ReadShape(u, d, tail);
    Joined(Header(u), d, tail);
  }

  /** A record with a body free of lone dots, and whatever comes behind. */
  lemma {:induction false} OneCommand(u: Update, d: string, b: string, rest: string)
    requires u.Put? && KeyText(u.row) && KeyText(u.col) && d != "" && AllDigits(d) && NoDotLine(b)
    ensures var first := Header(u) + "\n" + d + "\n" + (b + "\n.\n");
            Chunks(first + rest, "") == [first] + Chunks(rest, "") && ReadCommand(first) == Put(u.row, u.col, b)
  {
    NumberLine(u, d);
    hide Chunks, Header, NoDotLine, ReadCommand, KeyText, AllDigits, Find, FindFrom, Free;
    var st := Header(u) + "\n" + d + "\n";
    NoDotLineStart(Header(u), d, b);
    ChunkWhole(st + b, rest);
    assert st + b + "\n.\n" == st + (b + "\n.\n");
    ReadAs(u, d, b + "\n.\n");
    FindEndMark(b);
    SliceTo(b, "\n.\n");
  }

  /** The same when the first line of the value is a lone dot. */
  lemma {:induction false} EmptyCommand(u: Update, d: string, rest: string)
    requires u.Put? && KeyText(u.row) && KeyText(u.col) && d != "" && AllDigits(d)
    ensures var first := Header(u) + "\n" + d + "\n" + ".\n";
            Chunks(first + rest, "") == [first] + Chunks(rest, "") && ReadCommand(first) == Put(u.row, u.col, ".\n")
  {
    NumberLine(u, d);
    NoMarkIn();
    hide Chunks, Header, NoDotLine, ReadCommand, KeyText, AllDigits, Find, FindFrom, Free, Slice;
    var st := Header(u) + "\n" + d;
    ChunkWhole(st, rest);
    assert st + "\n.\n" == st + "\n" + ".\n";
    ReadAs(u, d, ".\n");
  }

  /** A record that goes on with the lines `w` is read as one command up to the first lone
      dot, and as whatever comes behind. */
  lemma {:induction false} FirstCommand(u: Update, d: string, w: string, i: nat) returns (first: string)
    requires u.Put? && KeyText(u.row) && KeyText(u.col) && d != "" && AllDigits(d)
    requires FirstDot(w, i) && EndsInLine(w)
    ensures i + 2 <= |w|
    ensures Chunks(Header(u) + "\n" + d + "\n" + w, "") == [first] + Chunks(w[i + 2..], "")
    ensures ReadCommand(first) == Put(u.row, u.col, if i == 0 then ".\n" else w[..i - 1])
  {
    hide Chunks, Header, NoDotLine, ReadCommand, KeyText, AllDigits;
    var st, rest := Header(u) + "\n" + d, w[i + 2..];
    if i == 0 {
      assert w == ".\n" + rest;
      EmptyCommand(u, d, rest);
      first := st + "\n" + ".\n";
      assert first + rest == st + "\n" + w;
    } else {
      var b := w[..i - 1];
      BeforeFirstDot(w, i);
      OneCommand(u, d, b, rest);
      first := st + "\n" + (b + "\n.\n");
      assert first + rest == st + "\n" + (b + "\n.\n" + rest);
    }
  }

  /** All values read from it are shorter than `n`, if both parts are short enough. */
  lemma {:induction false} RecordShort(u: Update, d: string, w: string, i: nat, n: nat)
    requires u.Put? && KeyText(u.row) && KeyText(u.col) && d != "" && AllDigits(d)
    requires FirstDot(w, i) && EndsInLine(w) && 2 < n && i <= n && |w| < n + i + 4
    ensures Shorter(ParseLog(Header(u) + "\n" + d + "\n" + w), n)
  {
    hide Chunks, Header, ReadCommand, KeyText, AllDigits;
    var first := FirstCommand(u, d, w, i);
    var rest := w[i + 2..];
    assert rest != "" ==> rest[|rest| - 1] == w[|w| - 1];
    CommandsShort(rest, n);
    var cs := Chunks(rest, "");
    assert ReadCommands([first] + cs) == [ReadCommand(first)] + ReadCommands(cs);
  }

  // ------------------------------------------------------------ damaged records

  lemma {:induction false} RecordText(u: Update, n: nat)
    requires u.Put?
    ensures EntryText(Entry(u, n, true)) == Header(u) + "\n" + Digits(n) + "\n" + (u.value + "\n.\n")
    ensures Start(Entry(u, n, true)) == Header(u) + "\n" + Digits(n) + "\n"
  {
    hide Header, Digits;
  }

  /** The record of a value with a lone-dot line gives no value of its length. */
  lemma {:induction false} DotLineShort(u: Update, n: nat)
    requires u.Put? && KeyText(u.row) && KeyText(u.col) && EndsLine(u.value) && !NoDotLine(u.value)
    ensures Shorter(ParseLog(EntryText(Entry(u, n, true))), |u.value|)
  {
    hide ParseLog, Header, Digits, EntryText, KeyText, Chunks;
    var v := u.value;
    var w := v + "\n.\n";
    RecordText(u, n);
    var i := SomeFirstDot(v);
    DotInRecord("\n", v, i);
    forall j | 0 <= j < i
      ensures !DotLineAt(w, j)
    {
      assert !DotLineAt(v, j);
    }
    assert w[i] == v[i] && w[i + 1] == v[i + 1];
    RecordShort(u, Digits(n), w, i, |v|);
  }

  lemma {:induction false} StartQuiet(u: Update, d: string, k: nat)
    requires KeyText(u.row) && KeyText(u.col) && d != "" && AllDigits(d)
    requires k <= |Header(u) + "\n" + d + "\n"|
    ensures NoDotLine((Header(u) + "\n" + d + "\n")[..k])
  {
    NumberLine(u, d);
    assert !IsDigit('.');
    assert Header(u)[0] != '.';
    hide Header;
    var h := Header(u);
    var t := (h + "\n" + d + "\n")[..k];
    forall j | 0 <= j < k
      ensures !DotLineAt(t, j)
    {
      assert j < |h| ==> t[j] == h[j];
      assert 0 < j <= |h| ==> t[j - 1] == h[j - 1];
      assert |h| < j <= |h| + |d| ==> t[j] == d[j - |h| - 1];
    }
  }

  lemma {:induction false} QuietShort(text: string, n: nat)
    requires NoDotLine(text)
    ensures Shorter(ParseLog(text), n)
  {
    hide Chunks, NoDotLine, ReadCommand;
    ChunksNone(text, "");
  }

  lemma {:induction false} SameWithLineEnd(text: string)
    requires text != ""
    ensures ParseLog(text) == ParseLog(if EndsInLine(text) then text else text + "\n")
  {
    hide Chunks;
    if !EndsInLine(text) {
      LastLine(text, "");
    }
  }

  /** Lines behind the number line of a record. */
  lemma {:induction false} LinesShort(u: Update, d: string, w: string, n: nat)
    requires u.Put? && KeyText(u.row) && KeyText(u.col) && d != "" && AllDigits(d)
    requires EndsInLine(w) && 2 < n && |w| < n
    ensures Shorter(ParseLog(Header(u) + "\n" + d + "\n" + w), n)
  {
    hide ParseLog, Header, KeyText, AllDigits, NoDotLine, FirstDot;
    if NoDotLine(w) {
      NumberLine(u, d);
      NoDotLineStart(Header(u), d, w);
      QuietShort(Header(u) + "\n" + d + "\n" + w, n);
    } else {
      var i := SomeFirstDot(w);
      DotInside(w, i);
      RecordShort(u, d, w, i, n);
    }
  }

  lemma {:induction false} DotInside(w: string, i: nat)
    requires FirstDot(w, i)
    ensures i < |w|
  {
  }

  /** A record that lacks its last seven characters gives no value of its length either. */
  lemma {:induction false} CutShort(u: Update, n: nat, k: nat)
    requires u.Put? && KeyText(u.row) && KeyText(u.col)
    requires k + 7 <= |EntryText(Entry(u, n, true))|
    ensures Shorter(ParseLog(EntryText(Entry(u, n, true))[..k]), |u.value|)
  {
    hide ParseLog, Header, Digits, EntryText, KeyText;
    RecordText(u, n);
    var st, v := Header(u) + "\n" + Digits(n) + "\n", u.value;
    var text := EntryText(Entry(u, n, true))[..k];
    if k <= |st| {
      assert text == st[..k];
      StartQuiet(u, Digits(n), k);
      QuietShort(text, |v|);
    } else {
      var w := v[..k - |st|];
      assert text == st + w;
      SameWithLineEnd(text);
      assert st + w + "\n" == st + (w + "\n");
      LinesShort(u, Digits(n), if EndsInLine(w) then w else w + "\n", |v|);
    }
  }
}
