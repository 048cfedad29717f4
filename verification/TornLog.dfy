/** A crash in the middle of writing a log record: the record may be torn after any of its
    characters. */
module TornLog {
  import opened Text
  import opened Updates
  import opened LogFormat
  import opened Recovery
  import opened Node

  /** A line of `v` starts with a dot at `i`. */
  predicate DotStartsLine(v: string, i: int) {
    0 <= i < |v| && v[i] == '.' && (i > 0 ==> v[i - 1] == '\n')
  }

  predicate NoDotStart(v: string) {
    forall i :: 0 <= i < |v| ==> !DotStartsLine(v, i)
  }

  /** A last line without a line feed is read like one with it. */
  lemma {:induction false} LastLine(text: string, acc: string)
    requires text != "" && text[|text| - 1] != '\n'
    ensures Chunks(text + "\n", acc) == Chunks(text, acc)
    decreases |text|
  {
    hide Chunks, FindFrom, At;
    var t, k := text + "\n", Find(text, "\n");
    ChunksUnfold(text, acc);
    ChunksUnfold(t, acc);
    if k == NPOS {
      NoLineFeed(text);
      FindChar(t, '\n', |text|) by {
        assert t[..|text|] == text;
      }
      assert t[..|text|] == text && t[|text| + 1..] == "";
      ChunksEmpty();
    } else {
      LineEnd(text, k);
      FindChar(t, '\n', k) by {
        assert t[..k] == text[..k];
        assert t[k] == text[k];
      }
      var rest := text[k + 1..];
      assert t[..k] == text[..k] && t[k + 1..] == rest + "\n";
      LastLine(rest, if text[..k] == "." then "" else acc + text[..k] + "\n");
    }
  }

  lemma {:induction false} ChunksEmpty()
    ensures forall acc :: Chunks("", acc) == []
  {
  }

  lemma {:induction false} ChunksUnfold(text: string, acc: string)
    requires text != ""
    ensures var k := Find(text, "\n");
            var line := if k == NPOS then text else text[..k];
            var rest := if k == NPOS then "" else text[k + 1..];
            Chunks(text, acc) ==
            if line == "." then [acc + ".\n"] + Chunks(rest, "") else Chunks(rest, acc + line + "\n")
  {
  }

  // ------------------------------------------------------------ a record without such lines

  /** Only a line of the value can start with a dot, up to the end mark. */
  lemma {:induction false} BodyDots(e: Entry)
    requires Storable(e.update) && NoDotStart(ValueText(e))
    ensures NoDotStart(Body(e))
  {
    var b, h, d := Body(e), Header(e.update), Digits(e.seqno);
    HeaderShape(e.update);
    assert !IsDigit('.') && !IsDigit('\n');
    var w := |h| + 1 + |d| + 1;
    forall i | 0 <= i < |b|
      ensures !DotStartsLine(b, i)
    {
      if i < |h| {
        assert b[i] == h[i] && (i > 0 ==> b[i - 1] == h[i - 1]);
        assert h[0] in {'P', 'D'};
      } else if |h| < i < w - 1 {
        assert b[i] == d[i - |h| - 1];
      } else if i >= w {
        var v := ValueText(e);
        assert !DotStartsLine(v, i - w);
        assert b[i] == v[i - w] && (i > w ==> b[i - 1] == v[i - w - 1]);
      }
    }
  }

  /** A record torn before its final dot completes no command. */
  lemma {:induction false} TornQuiet(e: Entry, k: nat)
    requires Storable(e.update) && NoDotStart(ValueText(e)) && k <= |Body(e)| + 1
    ensures k <= |EntryText(e)| && NoDotLine(EntryText(e)[..k])
  {
    EntryShape(e);
    BodyDots(e);
    hide EntryText, Body, Storable, ValueText;
    var t, b := EntryText(e), Body(e);
    forall i | 0 <= i < k
      ensures !DotLineAt(t[..k], i)
    {
      if i < |b| {
        assert !DotStartsLine(b, i);
        assert t[i] == b[i] && (i > 0 ==> t[i - 1] == b[i - 1]);
      } else {
        assert t[i] == '\n';
      }
    }
  }

  /** Torn after that dot it is complete: the line loop supplies the line feed. */
  lemma {:induction false} TornComplete(e: Entry, k: nat)
    requires Storable(e.update) && k == |Body(e)| + 2
    ensures k <= |EntryText(e)| && Chunks(EntryText(e)[..k], "") == [EntryText(e)]
  {
    EntryShape(e);
    ChunkEntry(e, "");
    ChunksEmpty();
    hide EntryText, Body, Storable, Chunks;
    var t := EntryText(e)[..k];
    assert EntryText(e) == t + "\n" && t[|t| - 1] == '.';
    LastLine(t, "");
    assert EntryText(e) + "" == EntryText(e);
  }

  /** What is replayed from a log whose last record may be torn anywhere. */
  lemma {:induction false} TornLogParses(es: seq<Entry>, e: Entry, k: nat)
    requires Storable(e.update) && forall i :: 0 <= i < |es| ==> Storable(es[i].update)
    requires NoDotStart(ValueText(e)) && k <= |EntryText(e)|
    ensures ParseLog(LogText(es) + EntryText(e)[..k]) in {Reads(es), Reads(es + [e])}
  {
    hide NoDotStart, ValueText, LogText, Storable, ParseLog;
    var torn := EntryText(e)[..k];
    EntryShape(e);
    if k <= |Body(e)| + 1 {
      TornQuiet(e, k);
      LogRoundTrip(es, torn);
    } else {
      assert Chunks(torn, "") == [EntryText(e)] by {
        if k == |Body(e)| + 2 {
          TornComplete(e, k);
        } else {
          assert torn == EntryText(e) + "";
          ChunkEntry(e, "");
          ChunksEmpty();
        }
      }
      OneMoreChunk(es, torn, EntryText(e));
      ReadEntry(e);
      ReadsMore(es, e);
    }
  }

  /** A rest that is read as one command adds that command. */
  lemma {:induction false} OneMoreChunk(es: seq<Entry>, torn: string, chunk: string)
    requires (forall i :: 0 <= i < |es| ==> Storable(es[i].update)) && Chunks(torn, "") == [chunk]
    ensures ParseLog(LogText(es) + torn) == Reads(es) + [ReadCommand(chunk)]
  {
    hide ReadCommand, Chunks, LogText, EntryText, Storable;
    ChunksOfLog(es, torn);
    var cs := Chunks(LogText(es) + torn, "");
    assert cs == Texts(es) + [chunk];
    forall i | 0 <= i < |es|
      ensures ReadCommands(cs)[i] == Reads(es)[i]
    {
      ReadEntry(es[i]);
    }
  }

  lemma {:induction false} ReadsMore(es: seq<Entry>, e: Entry)
    ensures Reads(es + [e]) == Reads(es) + [Read(e)]
  {
  }

  // ------------------------------------------------------------ a record with such a line

  /** The part of a record before the line that starts with a dot at `i` of the value. */
  function Before(e: Entry, i: nat): string
    requires i <= |ValueText(e)|
  {
    if i == 0 then Header(e.update) + "\n" + Digits(e.seqno) else Start(e) + ValueText(e)[..i - 1]
  }

  /** A text cut after the dot at `i` of its second part. */
  lemma {:induction false} CutAtDot(st: string, v: string, m: string, i: nat)
    requires DotStartsLine(v, i) && st != "" && st[|st| - 1] == '\n'
    ensures var b := if i == 0 then st[..|st| - 1] else st + v[..i - 1];
            && (st + v + m)[..|st| + i + 1] == b + "\n."
            && |b| < |st + v| && (st + v)[..|b|] == b && (st + v)[|b|] == '\n'
  {
    if i == 0 {
      assert (st + v + m)[..|st| + 1] == st + ".";
      assert st == st[..|st| - 1] + "\n";
    } else {
      assert (st + v + m)[..|st| + i + 1] == st + v[..i + 1];
      assert v[..i + 1] == v[..i - 1] + "\n.";
    }
  }

  lemma {:induction false} StartIs(e: Entry)
    ensures Start(e)[..|Start(e)| - 1] == Header(e.update) + "\n" + Digits(e.seqno)
    ensures Start(e) != "" && Start(e)[|Start(e)| - 1] == '\n'
    ensures EntryText(e) == Start(e) + ValueText(e) + EndMark(e)
  {
    hide Header, Digits;
  }

  lemma {:induction false} TornAtDot(e: Entry, i: nat)
    requires Storable(e.update) && DotStartsLine(ValueText(e), i)
    ensures var k := |Start(e)| + i + 1;
            k <= |EntryText(e)| && EntryText(e)[..k] == Before(e, i) + "\n."
    ensures NoDotLine(Before(e, i))
  {
    EntryShape(e);
    hide EntryText, Storable, Start, EndMark, NoDotLine, Header, Digits;
    StartIs(e);
    CutAtDot(Start(e), ValueText(e), EndMark(e), i);
    LineByLine(Start(e) + ValueText(e), |Before(e, i)|);
  }

  lemma {:induction false} LineByLine(s: string, m: nat)
    requires NoDotLine(s) && m < |s| && s[m] == '\n'
    ensures NoDotLine(s[..m])
  {
    forall j | 0 <= j < m
      ensures !DotLineAt(s[..m], j)
    {
      assert !DotLineAt(s, j);
    }
  }

  /** Torn right after that dot, the record is read as a PUT of something else. */
  lemma {:induction false} TornMisread(e: Entry, i: nat)
    requires Storable(e.update) && DotStartsLine(ValueText(e), i)
    ensures Chunks(Before(e, i) + "\n.", "") == [Before(e, i) + "\n.\n"]
    ensures ReadCommand(Before(e, i) + "\n.\n") != Read(e)
  {
    TornAtDot(e, i);
    TornChunk(Before(e, i));
    TornValue(e, i);
  }

  lemma {:induction false} TornChunk(b: string)
    requires NoDotLine(b)
    ensures Chunks(b + "\n.", "") == [b + "\n.\n"]
  {
    hide Chunks, NoDotLine;
    ChunkWhole(b, "");
    ChunksEmpty();
    var t := b + "\n.";
    assert t + "\n" == b + "\n.\n" == b + "\n.\n" + "";
    LastLine(t, "");
  }

  lemma {:induction false} TornValue(e: Entry, i: nat)
    requires Storable(e.update) && DotStartsLine(ValueText(e), i)
    ensures ReadCommand(Before(e, i) + "\n.\n") != Read(e)
  {
    hide ReadCommand, Find, Digits, Header, NoDotLine;
    var u, d, v := e.update, Digits(e.seqno), ValueText(e);
    assert !IsDigit('\n');
    var tail := if i == 0 then ".\n" else v[..i - 1] + "\n.\n";
    TornText(e, i, tail);
    ReadShape(u, d, tail);
    if i == 0 {
      NoMarkIn();
      assert |v| > 1 && v[1] != '\n' by {
        NotAlone(v);
      }
    } else {
      LineByLine(v, i - 1);
      FindEndMark(v[..i - 1]);
      SliceTo(v[..i - 1], "\n.\n");
    }
  }

  lemma {:induction false} TornText(e: Entry, i: nat, tail: string)
    requires i <= |ValueText(e)| && tail == if i == 0 then ".\n" else ValueText(e)[..i - 1] + "\n.\n"
    ensures Before(e, i) + "\n.\n" == Header(e.update) + ("\n" + (Digits(e.seqno) + ("\n" + tail)))
  {
    hide Header, Digits, ValueText;
  }

  lemma {:induction false} NotAlone(v: string)
    requires NoDotLine(v) && v != "" && v[0] == '.'
    ensures |v| > 1 && v[1] != '\n'
  {
    assert !DotLineAt(v, 0);
  }

  lemma {:induction false} NoMarkIn()
    ensures Find(".\n", "\n.\n") == NPOS && Slice(".\n", 0, NPOS) == ".\n"
  {
  }

  lemma {:induction false} TornBreaks(es: seq<Entry>, e: Entry, i: nat)
    requires Storable(e.update) && forall i :: 0 <= i < |es| ==> Storable(es[i].update)
    requires DotStartsLine(ValueText(e), i)
    ensures var k := |Start(e)| + i + 1;
            k <= |EntryText(e)| && ParseLog(LogText(es) + EntryText(e)[..k]) !in {Reads(es), Reads(es + [e])}
  {
    hide ParseLog, LogText, Storable, EntryText, ValueText, Start, Before, ReadCommand, Read, Chunks;
    var k := |Start(e)| + i + 1;
    TornAtDot(e, i);
    TornMisread(e, i);
    var chunk := Before(e, i) + "\n.\n";
    OneMoreChunk(es, EntryText(e)[..k], chunk);
    ReadsMore(es, e);
    LastDiffers(Reads(es), ReadCommand(chunk), Read(e));
  }

  lemma {:induction false} LastDiffers(us: seq<Update>, x: Update, y: Update)
    requires x != y
    ensures us + [x] !in {us, us + [y]}
  {
    assert (us + [x])[|us|] != (us + [y])[|us|];
  }

  /** Exactly which records may be torn anywhere: after a crash the log is read without the
      record or with it, wherever it was torn, if and only if no line of its value starts with
      a dot. */
  lemma {:induction false} TornRecordIff(es: seq<Entry>, e: Entry)
    requires Storable(e.update) && forall i :: 0 <= i < |es| ==> Storable(es[i].update)
    ensures (forall k: nat :: k <= |EntryText(e)| ==>
               ParseLog(LogText(es) + EntryText(e)[..k]) in {Reads(es), Reads(es + [e])})
            <==> NoDotStart(ValueText(e))
  {
    hide ParseLog, LogText, Storable, EntryText, ValueText, Start, DotStartsLine, Reads;
    if NoDotStart(ValueText(e)) {
      forall k: nat | k <= |EntryText(e)|
        ensures ParseLog(LogText(es) + EntryText(e)[..k]) in {Reads(es), Reads(es + [e])}
      {
        TornLogParses(es, e, k);
      }
    } else {
      var i: nat :| i < |ValueText(e)| && DotStartsLine(ValueText(e), i);
      TornBreaks(es, e, i);
    }
  }

  lemma {:induction false} FilesAre(p: CrashPoint)
    requires FilesHold(p)
    ensures forall i :: 0 <= i < |p.entries| ==> Storable(p.entries[i].update)
    ensures p.disk.log == LogText(p.entries) && Restored(p.disk.checkpoint) == p.base
  {
  }

  lemma {:induction false} UpdatedMore(base: Cells, es: seq<Entry>, e: Entry)
    ensures Apply(base, Updated(es + [e])) == Apply1(Apply(base, Updated(es)), e.update)
  {
    var us := Updated(es + [e]);
    assert us[..|us| - 1] == Updated(es);
  }

  /** A crash at any character of a record leaves files that restore the table before the
      command or after it. */
  lemma {:induction false} CrashWithinRecord(p: CrashPoint, e: Entry, k: nat)
    requires FilesHold(p) && Storable(e.update) && NoDotStart(ValueText(e)) && k <= |EntryText(e)|
    requires Harmless(Updated(p.entries)) && PrimaryPutsSurvive(p.entries)
    requires Harmless(Updated(p.entries + [e])) && PrimaryPutsSurvive(p.entries + [e])
    ensures Recovered(Appended(p, EntryText(e)[..k]).disk) in {Durable(p), Apply1(Durable(p), e.update)}
  {
    hide FilesHold, Storable, NoDotStart, ValueText, EntryText, Harmless, PrimaryPutsSurvive, Updated, Apply, Apply1,
         Replay, ParseLog, Restored, LogText, Reads;
    FilesAre(p);
    TornLogParses(p.entries, e, k);
    RecoverLog(p.base, p.entries);
    RecoverLog(p.base, p.entries + [e]);
    UpdatedMore(p.base, p.entries, e);
  }
}
