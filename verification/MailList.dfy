/** The lists of mail hashes: one line per mail, newest first, and a final mark. */
module MailList {
  import opened Wrappers
  import opened Text
  import opened GetReply
  import opened Store
  import opened Optimistic

  const CRLF := "\r\n"
  const MARK := "list\r\n"

  /** `hash_MD5` prints each of the sixteen bytes over the second digit of the one before it,
      so a hash has seventeen characters. */
  const HASH_LENGTH := 17

  predicate IsHash(h: string) {
    |h| == HASH_LENGTH && Free(h, '\r') && Free(h, '\n')
  }

  predicate Hashes(hs: seq<string>) {
    forall i :: 0 <= i < |hs| ==> IsHash(hs[i])
  }

  predicate Distinct(hs: seq<string>) {
    forall i, j :: 0 <= i < j < |hs| ==> hs[i] != hs[j]
  }

  function ListText(hs: seq<string>): (t: string)
    ensures |t| >= |MARK|
  {
    if hs == [] then MARK else hs[0] + (CRLF + ListText(hs[1..]))
  }

  /** `s.erase(from, count)`; a negative count has wrapped to a huge one. */
  function Erase(s: string, from: nat, count: int): string
    requires from <= |s|
  {
    if count < 0 || from + count > |s| then s[..from] else s[..from] + s[from + count..]
  }

  /** That is `erase` with a count that has wrapped. */
  lemma {:induction false} EraseIs(s: string, from: nat, count: int)
    requires from <= |s| < SIZES / 2 && -SIZES / 2 < count < SIZES / 2
    ensures var n := count % SIZES;
            Erase(s, from, count) == s[..from] + s[if from + n < |s| then from + n else |s|..]
  {
    if count < 0 {
      assert count % SIZES == count + SIZES;
    }
  }

  /** The text edit of a delivery: an earlier line of the hash is erased, the hash goes to
      the top. */
  function EraseHash(value: string, hash: string): string {
    var f1 := Find(value, hash);
    if f1 == NPOS then value else Erase(value, f1, FindFrom(value, CRLF, f1 + 1) - f1 + 2)
  }

  function DeliverText(value: string, hash: string): string {
    hash + (CRLF + EraseHash(value, hash))
  }

  function RemoveFirst(hs: seq<string>, h: string): (r: seq<string>)
    ensures |r| == if h in hs then |hs| - 1 else |hs|
    ensures forall x :: x in r ==> x in hs
    ensures forall x :: x in hs && x != h ==> x in r
  {
    if hs == [] then []
    else if hs[0] == h then hs[1..]
    else [hs[0]] + RemoveFirst(hs[1..], h)
  }

  /** A hash starts only where a line starts. */
  lemma {:induction false} NotInside(h0: string, rest: string, h: string, j: nat)
    requires IsHash(h0) && IsHash(h) && j < HASH_LENGTH + 2
    ensures At(h0 + (CRLF + rest), h, j) <==> j == 0 && h == h0
  {
    var t := h0 + (CRLF + rest);
    assert t[..HASH_LENGTH] == h0;
    assert t[HASH_LENGTH] == '\r' && t[HASH_LENGTH + 1] == '\n';
    if At(t, h, j) && j > 0 {
      AtChar(t, h, j, if j <= HASH_LENGTH then HASH_LENGTH - j else 0);
    }
  }

  lemma {:induction false} EraseTop(h0: string, rest: string)
    requires IsHash(h0)
    ensures EraseHash(h0 + (CRLF + rest), h0) == rest
  {
    hide At, FindFrom, Erase;
    var t := h0 + (CRLF + rest);
    NotInside(h0, rest, h0, 0);
    FirstCrlf(h0, rest);
    EraseLine(h0, rest);
  }

  lemma {:induction false} EraseLine(h0: string, rest: string)
    requires IsHash(h0)
    ensures Erase(h0 + (CRLF + rest), 0, HASH_LENGTH + 2) == rest
  {
    var t := h0 + (CRLF + rest);
    assert t[..0] == "" && t[HASH_LENGTH + 2..] == rest;
  }

  /** The first line end at or after position 1. */
  lemma {:induction false} FirstCrlf(h0: string, rest: string)
    requires IsHash(h0)
    ensures FindFrom(h0 + (CRLF + rest), CRLF, 1) == HASH_LENGTH
  {
    var t := h0 + (CRLF + rest);
    assert t[HASH_LENGTH..HASH_LENGTH + 2] == CRLF;
    forall j | 1 <= j < HASH_LENGTH
      ensures !At(t, CRLF, j)
    {
      assert t[j] == h0[j];
      assert j + 2 <= |t| ==> t[j..j + 2][0] == t[j];
    }
    FindFromIs(t, CRLF, 1, HASH_LENGTH);
  }

  /** Below a line end there is always another one. */
  predicate Ended(rest: string) {
    |rest| >= 2 && rest[|rest| - 2..] == CRLF
  }

  lemma {:induction false} ListEnded(hs: seq<string>)
    ensures Ended(ListText(hs))
  {
    if hs != [] {
      ListEnded(hs[1..]);
      var t, rest := ListText(hs), ListText(hs[1..]);
      assert t[|t| - 2..] == rest[|rest| - 2..];
    }
  }

  lemma {:induction false} EndAfter(rest: string, h: string)
    requires Ended(rest) && IsHash(h) && Find(rest, h) != NPOS
    ensures FindFrom(rest, CRLF, Find(rest, h) + 1) != NPOS
  {
    assert At(rest, CRLF, |rest| - 2);
  }

  lemma {:induction false} EraseShift(a: string, rest: string, from: nat, count: nat)
    requires from + count <= |rest|
    ensures Erase(a + rest, |a| + from, count) == a + Erase(rest, from, count)
  {
    var front, back := rest[..from], rest[from + count..];
    TailOf(a, rest, from + count);
    FrontOf(a, rest, from);
    assert (a + front) + back == a + (front + back);
  }

  lemma {:induction false} TailOf(a: string, rest: string, n: nat)
    requires n <= |rest|
    ensures (a + rest)[|a| + n..] == rest[n..]
  {
  }

  lemma {:induction false} FrontOf(a: string, rest: string, n: nat)
    requires n <= |rest|
    ensures (a + rest)[..|a| + n] == a + rest[..n]
  {
  }

  lemma {:induction false} EraseBelow(h0: string, rest: string, h: string)
    requires IsHash(h0) && IsHash(h) && h0 != h && Ended(rest)
    ensures EraseHash(h0 + (CRLF + rest), h) == h0 + (CRLF + EraseHash(rest, h))
  {
    hide At, FindFrom, Erase, Ended, IsHash;
    var a := h0 + CRLF;
    var t := h0 + (CRLF + rest);
    assert t == a + rest;
    assert |a| == HASH_LENGTH + 2 by {
      LengthOf(h0);
    }
    forall j | 0 <= j < HASH_LENGTH + 2
      ensures !At(t, h, j)
    {
      NotInside(h0, rest, h, j);
    }
    FindSkip(t, h, 0, HASH_LENGTH + 2);
    FindShift(a, rest, h, 0);
    var f1 := Find(rest, h);
    if f1 != NPOS {
      EndAfter(rest, h);
      FindShift(a, rest, CRLF, f1 + 1);
      var f2 := FindFrom(rest, CRLF, f1 + 1);
      AtFits(rest, CRLF, f2);
      EraseShift(a, rest, f1, f2 - f1 + 2);
    }
    assert a + EraseHash(rest, h) == h0 + (CRLF + EraseHash(rest, h));
  }

  lemma {:induction false} LengthOf(h: string)
    requires IsHash(h)
    ensures |h| == HASH_LENGTH
  {
  }

  lemma {:induction false} AtFits(s: string, p: string, i: int)
    requires At(s, p, i)
    ensures i + |p| <= |s|
  {
  }

  lemma {:induction false} NoHashInMark(h: string)
    requires IsHash(h)
    ensures EraseHash(MARK, h) == MARK
  {
  }

  /** On a list of hashes the text edit takes out the first line of the hash. */
  lemma {:induction false} EraseMeans(hs: seq<string>, h: string)
    requires Hashes(hs) && IsHash(h)
    ensures EraseHash(ListText(hs), h) == ListText(RemoveFirst(hs, h))
  {
    hide EraseHash;
    if hs == [] {
      NoHashInMark(h);
    } else {
      var rest := hs[1..];
      assert Hashes(rest);
      ListEnded(rest);
      if hs[0] == h {
        EraseTop(h, ListText(rest));
      } else {
        EraseMeans(rest, h);
        EraseBelow(hs[0], ListText(rest), h);
        ListCons(hs[0], RemoveFirst(rest, h));
      }
    }
  }

  lemma {:induction false} ListCons(h: string, hs: seq<string>)
    ensures ListText([h] + hs) == h + (CRLF + ListText(hs))
  {
    assert ([h] + hs)[1..] == hs;
  }

  /** A delivery moves its hash to the front of the list, or puts it there. */
  lemma {:induction false} DeliverMeans(hs: seq<string>, h: string)
    requires Hashes(hs) && IsHash(h)
    ensures DeliverText(ListText(hs), h) == ListText([h] + RemoveFirst(hs, h))
    ensures Hashes([h] + RemoveFirst(hs, h))
    ensures Distinct(hs) ==> Distinct([h] + RemoveFirst(hs, h))
  {
    hide EraseHash, IsHash;
    EraseMeans(hs, h);
    ListCons(h, RemoveFirst(hs, h));
    RemoveFirstKeeps(hs, h);
  }

  lemma {:induction false} RemoveFirstKeeps(hs: seq<string>, h: string)
    requires Hashes(hs)
    ensures Hashes(RemoveFirst(hs, h))
    ensures Distinct(hs) ==> Distinct(RemoveFirst(hs, h)) && h !in RemoveFirst(hs, h)
  {
    hide IsHash;
    if hs != [] && hs[0] != h {
      assert Hashes(hs[1..]);
      RemoveFirstKeeps(hs[1..], h);
      var r := RemoveFirst(hs[1..], h);
      assert Distinct(hs) ==> Distinct(hs[1..]);
      if Distinct(hs) {
        forall j | 0 <= j < |r|
          ensures r[j] != hs[0]
        {
          assert r[j] in hs[1..];
        }
      }
    }
  }

  // ------------------------------------------------------------ removing hashes

  function FirstLine(text: string): string {
    var k := Find(text, "\n");
    if k == NPOS then text else text[..k]
  }

  function NextLines(text: string): (r: string)
    ensures text != "" ==> |r| < |text|
  {
    var k := Find(text, "\n");
    if k == NPOS then "" else text[k + 1..]
  }

  /** What `update_hash` leaves of a text; `None` where it pops from an empty line. */
  function Filtered(text: string, gone: set<string>): Option<string>
    decreases |text|
  {
    if text == "" then Some("")
    else
      var line := FirstLine(text);
      if line == "" then None
      else
        var hash := line[..|line| - 1];
        var more := Filtered(NextLines(text), gone);
        if more.None? then None
        else Some((if hash in gone then "" else hash + CRLF) + more.value)
  }

  /** `update_hash`. */
  method UpdateHash(oldHash: string, gone: set<string>) returns (newHash: Option<string>)
    ensures newHash == Filtered(oldHash, gone)
  {
    hide FirstLine, NextLines;
    var rest, acc := oldHash, "";
    assert Filtered(oldHash, gone).Some? ==> "" + Filtered(oldHash, gone).value == Filtered(oldHash, gone).value;
    while rest != ""
      invariant Filtered(oldHash, gone) ==
                if Filtered(rest, gone).None? then None else Some(acc + Filtered(rest, gone).value)
      decreases |rest|
    {
      var line := FirstLine(rest);
      if line == "" {
        return None;
      }
      var hash := line[..|line| - 1];
      ghost var more := Filtered(NextLines(rest), gone);
      if hash !in gone {
        assert more.Some? ==> acc + (hash + CRLF + more.value) == acc + (hash + CRLF) + more.value;
        acc := acc + (hash + CRLF);
      } else {
        assert more.Some? ==> acc + ("" + more.value) == acc + more.value;
      }
      rest := NextLines(rest);
    }
    assert acc + "" == acc;
    newHash := Some(acc);
  }

  function Remaining(hs: seq<string>, gone: set<string>): (r: seq<string>)
    ensures forall x :: x in r <==> x in hs && x !in gone
  {
    if hs == [] then []
    else if hs[0] in gone then Remaining(hs[1..], gone)
    else [hs[0]] + Remaining(hs[1..], gone)
  }

  lemma {:induction false} LineOf(h: string, rest: string)
    requires Free(h, '\n')
    ensures FirstLine(h + (CRLF + rest)) == h + "\r" && NextLines(h + (CRLF + rest)) == rest
  {
    var t := h + (CRLF + rest);
    assert t[..|h| + 1] == h + "\r" && t[|h| + 2..] == rest;
    assert t[|h| + 1..|h| + 2] == "\n";
    forall j | 0 <= j < |h| + 1
      ensures !At(t, "\n", j)
    {
      assert t[..|h| + 1][j] == t[j];
      assert t[j..j + 1][0] == t[j];
    }
    FindFromIs(t, "\n", 0, |h| + 1);
  }

  lemma {:induction false} FilteredLine(h: string, rest: string, gone: set<string>)
    requires Free(h, '\n') && Filtered(rest, gone).Some?
    ensures Filtered(h + (CRLF + rest), gone) ==
            Some(if h in gone then Filtered(rest, gone).value else h + (CRLF + Filtered(rest, gone).value))
  {
    hide FirstLine, NextLines;
    LineOf(h, rest);
    var t, more := h + (CRLF + rest), Filtered(rest, gone).value;
    assert (h + "\r")[..|h|] == h;
    assert "" + more == more;
    assert h + CRLF + more == h + (CRLF + more);
  }

  /** On a list of hashes `update_hash` is a filter, and the mark stays. */
  lemma {:induction false} FilterMeans(hs: seq<string>, gone: set<string>)
    requires Hashes(hs) && "list" !in gone
    ensures Filtered(ListText(hs), gone) == Some(ListText(Remaining(hs, gone)))
  {
    hide Filtered;
    if hs == [] {
      FilteredNothing(gone);
      FilteredLine("list", "", gone);
      assert "list" + (CRLF + "") == MARK;
    } else {
      assert Hashes(hs[1..]);
      FilterMeans(hs[1..], gone);
      FilteredLine(hs[0], ListText(hs[1..]), gone);
      ListCons(hs[0], Remaining(hs[1..], gone));
    }
  }

  lemma {:induction false} FilteredNothing(gone: set<string>)
    ensures Filtered("", gone) == Some("")
  {
  }

  lemma {:induction false} RemainingKeeps(hs: seq<string>, gone: set<string>)
    requires Hashes(hs)
    ensures Hashes(Remaining(hs, gone))
    ensures Distinct(hs) ==> Distinct(Remaining(hs, gone))
  {
    hide IsHash;
    var r := Remaining(hs, gone);
    forall i | 0 <= i < |r|
      ensures IsHash(r[i])
    {
      assert r[i] in r;
      assert r[i] in hs;
    }
    if hs != [] && Distinct(hs) {
      assert Hashes(hs[1..]);
      assert Distinct(hs[1..]);
      RemainingKeeps(hs[1..], gone);
      var more := Remaining(hs[1..], gone);
      forall j | 0 <= j < |more|
        ensures more[j] != hs[0]
      {
        assert more[j] in more;
        assert more[j] in hs[1..];
      }
    }
  }

  // ------------------------------------------------------------ many clients at once

  /** The stored text: the CRLF that ends the last line comes with the reply to GET and goes
      with the value of a PUT. */
  function Body(text: string): string
    requires |text| >= 2
  {
    text[..|text| - 2]
  }

  /** The stored text of a list. */
  function Stored(hs: seq<string>): string {
    Body(ListText(hs))
  }

  function DeliverEdit(h: string): Edit {
    (read: Option<string>) =>
      if read.None? then None
      else
        var value := DeliverText(read.value + CRLF, h);
        Some(if |value| >= 2 then Body(value) else "")
  }

  /** A removal that leaves only the mark does not send a CPUT, but deletes the list. */
  function DropEdit(gone: set<string>): Edit {
    (read: Option<string>) =>
      if read.None? then None
      else
        var value := Filtered(read.value + CRLF, gone);
        if value.None? || |value.value| < 2 || value.value == MARK then None else Some(Body(value.value))
  }

  datatype MailOp = Deliver(hash: string) | Drop(gone: set<string>)

  function EditOf(op: MailOp): Edit {
    match op
    case Deliver(h) => DeliverEdit(h)
    case Drop(gone) => DropEdit(gone)
  }

  function EditsOf(ops: seq<MailOp>): seq<Edit> {
    Each(ops, EditOf)
  }

  function Effect(op: MailOp, hs: seq<string>): seq<string> {
    match op
    case Deliver(h) => [h] + RemoveFirst(hs, h)
    case Drop(gone) => Remaining(hs, gone)
  }

  predicate Sensible(op: MailOp) {
    match op
    case Deliver(h) => IsHash(h)
    case Drop(gone) => "list" !in gone
  }

  predicate AllSensible(ops: seq<MailOp>) {
    forall i :: 0 <= i < |ops| ==> Sensible(ops[i])
  }

  predicate Good(hs: seq<string>) {
    Hashes(hs) && Distinct(hs)
  }

  lemma {:induction false} BodyAndEnd(hs: seq<string>)
    ensures Stored(hs) + CRLF == ListText(hs)
  {
    ListEnded(hs);
  }

  /** On the text of a mail list an edit does what its operation does to the hashes; a
      removal is a CPUT exactly if something is left. */
  lemma {:induction false} EditMeans(op: MailOp, hs: seq<string>)
    requires Good(hs) && Sensible(op)
    ensures var r := EditOf(op)(Some(Stored(hs)));
            && (r.Some? ==> r.value == Stored(Effect(op, hs)))
            && (r.None? <==> op.Drop? && Effect(op, hs) == [])
            && Good(Effect(op, hs))
  {
    hide IsHash, ListText, Body, DeliverText, Filtered, RemoveFirst, Remaining, Distinct;
    BodyAndEnd(hs);
    match op
    case Deliver(h) =>
      DeliverMeans(hs, h);
    case Drop(gone) =>
      FilterMeans(hs, gone);
      RemainingKeeps(hs, gone);
      OnlyMark(Remaining(hs, gone));
  }

  lemma {:induction false} OnlyMark(hs: seq<string>)
    requires Hashes(hs)
    ensures ListText(hs) == MARK <==> hs == []
  {
    if hs != [] {
      assert IsHash(hs[0]);
    }
  }

  function EffectsOf(ops: seq<MailOp>): seq<seq<string> -> seq<string>> {
    Each(ops, (op: MailOp) => (hs: seq<string>) => Effect(op, hs))
  }

  ghost predicate Opens(ops: seq<MailOp>, w: World, hs: seq<string>) {
    && Start(EditsOf(ops), w) && w.Cell() == Some(Stored(hs))
    && Good(hs) && AllSensible(ops)
  }

  lemma {:induction false} EditsNeedCell(ops: seq<MailOp>)
    ensures NeedCell(EditsOf(ops))
  {
    forall i | 0 <= i < |ops|
      ensures EditsOf(ops)[i](None) == None
    {
      assert EditsOf(ops)[i] == EditOf(ops[i]);
    }
  }

  lemma {:induction false} EditsStand(ops: seq<MailOp>)
    requires AllSensible(ops)
    ensures Stands(EditsOf(ops), EffectsOf(ops), Stored, Good)
  {
    hide ListText, Body, Good, EditOf, Effect, Sensible;
    forall i, hs | 0 <= i < |ops| && Good(hs) && EditsOf(ops)[i](Some(Stored(hs))).Some?
      ensures EditsOf(ops)[i](Some(Stored(hs))).value == Stored(EffectsOf(ops)[i](hs))
      ensures Good(EffectsOf(ops)[i](hs))
    {
      EditMeans(ops[i], hs);
    }
  }

  /** In every run of deliveries and removals the list is, at every moment, the text of
      distinct hashes with the mark at its end, and holds what the operations that succeeded,
      one after the other, make of the list it started with. */
  lemma {:induction false} MailListRefines(ops: seq<MailOp>, w: World, hs: seq<string>, events: seq<Event>, k: nat)
    requires Opens(ops, w, hs) && NoOutsider(events)
    requires k <= |Run(EditsOf(ops), w, events).authors|
    ensures var r := Run(EditsOf(ops), w, events);
            var now := After(EffectsOf(ops), r.authors[..k], hs);
            r.history[k] == Some(Stored(now)) && Hashes(now) && Distinct(now)
  {
    hide ListText, Body;
    EditsNeedCell(ops);
    EditsStand(ops);
    RunStands(EditsOf(ops), EffectsOf(ops), Stored, Good, w, events, hs, k);
  }

  /** When an operation has succeeded: a delivered hash is the first of the list, and of the
      removed ones none is left. */
  lemma {:induction false} DoneAtOnce(ops: seq<MailOp>, w: World, hs: seq<string>, events: seq<Event>, m: nat)
    requires Opens(ops, w, hs) && NoOutsider(events) && m < |Run(EditsOf(ops), w, events).authors|
    requires var r := Run(EditsOf(ops), w, events); r.authors[m].Some? && r.authors[m].value < |ops|
    ensures var r := Run(EditsOf(ops), w, events);
            var op := ops[r.authors[m].value];
            var before, now := After(EffectsOf(ops), r.authors[..m], hs), After(EffectsOf(ops), r.authors[..m + 1], hs);
            && r.history[m + 1] == Some(Stored(now))
            && (op.Deliver? ==> now != [] && now[0] == op.hash && forall x :: x in now <==> x == op.hash || x in before)
            && (op.Drop? ==> forall x :: x in now <==> x in before && x !in op.gone)
  {
    hide ListText, Body, After, IsHash;
    MailListRefines(ops, w, hs, events, m);
    MailListRefines(ops, w, hs, events, m + 1);
    AfterNext(EffectsOf(ops), Run(EditsOf(ops), w, events).authors, hs, m);
  }

  /** No delivery ever gives up, and a removal only when nothing but the mark is left. */
  lemma {:induction false} GivesUpForReason(ops: seq<MailOp>, w: World, hs: seq<string>, events: seq<Event>, i: nat)
    requires Opens(ops, w, hs) && NoOutsider(events) && i < |ops|
    requires Run(EditsOf(ops), w, events).sessions[i].phase.GaveUp?
    ensures ops[i].Drop?
    ensures exists k: nat :: k <= |Run(EditsOf(ops), w, events).authors| &&
              forall x :: x in After(EffectsOf(ops), Run(EditsOf(ops), w, events).authors[..k], hs) ==> x in ops[i].gone
  {
    hide ListText, Body, After, EditOf, IsHash;
    var edits := EditsOf(ops);
    var r := Run(edits, w, events);
    GaveUpWithoutAnswer(edits, w, events, i);
    var k: nat :| k < |r.history| && edits[i](r.history[k]).None?;
    MailListRefines(ops, w, hs, events, k);
    EditMeans(ops[i], After(EffectsOf(ops), r.authors[..k], hs));
  }

  ghost predicate DroppedIn(ops: seq<MailOp>, authors: seq<Option<nat>>, h: string, lo: nat, hi: nat)
    requires hi <= |authors|
  {
    exists m, i :: lo <= m < hi && 0 <= i < |ops| && authors[m] == Some(i) && ops[i].Drop? && h in ops[i].gone
  }

  /** A hash leaves the list only by a removal that names it; deliveries of other mail never
      push it out. */
  lemma {:induction false} LeavesOnlyByRemoval(
      ops: seq<MailOp>, authors: seq<Option<nat>>, hs: seq<string>, h: string, lo: nat, hi: nat)
    requires lo <= hi <= |authors|
    requires h in After(EffectsOf(ops), authors[..lo], hs)
    ensures h in After(EffectsOf(ops), authors[..hi], hs) || DroppedIn(ops, authors, h, lo, hi)
    decreases hi
  {
    hide After, Remaining, RemoveFirst;
    if lo < hi {
      LeavesOnlyByRemoval(ops, authors, hs, h, lo, hi - 1);
      AfterNext(EffectsOf(ops), authors, hs, hi - 1);
      assert authors[hi - 1].Some? ==> authors[hi - 1] == Some(authors[hi - 1].value);
    }
  }

  // ------------------------------------------------------------ the delivery loop

  /** What a client takes for an error reply: its second to fourth characters are "ERR". */
  predicate LooksLikeError(reply: string) {
    |reply| >= 4 && reply[1..4] == "ERR"
  }

  /** The loop that puts a hash into a list: it starts a list over that is missing or looks
      like an error, and ends with the one CPUT that is accepted. It is refused at most once
      per change by the others. */
  method AppendHash(cell: Remote, hash: string)
    modifies cell
    ensures cell.content == DeliverEdit(hash)(Some(Sent(cell.theirs)))
    ensures cell.refused <= old(cell.refused) + old(|cell.others|) - |cell.others|
    ensures old(cell.others) == [] && old(cell.content) == None && IsHash(hash) ==>
              cell.content == Some(hash + CRLF + "list") && cell.refused == old(cell.refused)
  {
    FirstOfList(hash);
    hide EraseHash, Sent, LooksLikeError, IsHash;
    var response := ERR;
    MarkIsNoError();
    while response != OK
      invariant response in {OK, ERR}
      invariant response == OK ==> cell.content == DeliverEdit(hash)(Some(Sent(cell.theirs)))
      invariant cell.refused <= old(cell.refused) + old(|cell.others|) - |cell.others|
      invariant old(cell.others) == [] && old(cell.content) == None && IsHash(hash) ==>
                  cell.others == [] && cell.refused == old(cell.refused)
                  && if response == OK then cell.content == Some(hash + CRLF + "list")
                     else cell.content in {None, Some("list")}
      decreases |cell.others|, if response == OK then 0
                               else if cell.content.Some? && !LooksLikeError(cell.content.value + CRLF) then 1 else 2
    {
      var before := cell.Get();
      if LooksLikeError(before + CRLF) {
        cell.Put("list");
        continue;
      }
      NullLooksLikeError();
      SentIs(before);
      var value := DeliverText(before + CRLF, hash);
      response := cell.CPut(before, Body(value));
    }
  }

  /** A list that is started for a hash holds that hash and the mark. */
  lemma {:induction false} FirstOfList(hash: string)
    ensures IsHash(hash) ==> DeliverEdit(hash)(Some("list")) == Some(hash + CRLF + "list")
  {
    if IsHash(hash) {
      NoHashInMark(hash);
      assert "list" + CRLF == MARK;
      assert DeliverText(MARK, hash) == hash + (CRLF + MARK) == (hash + CRLF + "list") + CRLF;
    }
  }

  lemma {:induction false} MarkIsNoError()
    ensures !LooksLikeError("list" + CRLF)
  {
    assert ("list" + CRLF)[1..4] == "ist";
    assert "ist"[0] != "ERR"[0];
  }

  lemma {:induction false} NullLooksLikeError()
    ensures LooksLikeError(NULL_ERR + CRLF)
  {
    assert (NULL_ERR + CRLF)[1..4] == "ERR";
  }

  lemma {:induction false} SentIs(s: string)
    ensures Sent(Some(s)) == s
  {
  }
}
