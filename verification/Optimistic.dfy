/** Any number of sessions that edit one cell by GET, compute, CPUT and retry, interleaved in
    any order with each other and with writes from outside. */
module Optimistic {
  import opened Wrappers

  /** What a session makes of what it read, `None` being a missing cell; it gives up when the
      result is `None`. */
  type Edit = Option<string> -> Option<string>

  /** A session fetches the cell, or holds what it saw and the text it will send. */
  datatype Phase = Fetching | Holding(seen: Option<string>, next: string) | Succeeded | GaveUp

  /** `failures` counts the refused CPUTs; `mark` is the number of changes there had been at
      the last GET or refusal. */
  datatype Session = Session(phase: Phase, failures: nat, mark: nat)

  /** All contents the cell ever had, and who made each change; `None` is an outsider. */
  datatype World = World(history: seq<Option<string>>, authors: seq<Option<nat>>, sessions: seq<Session>)
  {
    ghost predicate Wf() {
      |history| == |authors| + 1
    }

    ghost predicate BySessions() {
      forall k :: 0 <= k < |authors| ==> authors[k].Some?
    }

    /** Sessions made every change, and the cell was never missing. */
    ghost predicate AlwaysThere() {
      && BySessions()
      && (forall k :: 0 <= k < |history| ==> history[k].Some?)
    }

    function Cell(): Option<string>
      requires Wf()
    {
      history[|authors|]
    }

    function Changed(author: Option<nat>, content: Option<string>): World {
      this.(history := history + [content], authors := authors + [author])
    }

    function With(i: nat, s: Session): World
      requires i < |sessions|
    {
      this.(sessions := sessions[i := s])
    }
  }

  /** A missing cell and the text "NULL" are the same to CPUT, in what a client sends and in
      what the server compares it with. */
  function Sent(content: Option<string>): string {
    if content.Some? then content.value else "NULL"
  }

  predicate Accepts(cell: Option<string>, seen: Option<string>) {
    Sent(cell) == Sent(seen)
  }

  datatype Event = Get(i: nat) | CPut(i: nat) | Outside(content: Option<string>)

  function Step(edits: seq<Edit>, w: World, e: Event): (r: World)
    requires w.Wf() && |edits| == |w.sessions|
    ensures r.Wf() && |edits| == |r.sessions|
  {
    match e
    case Outside(content) => w.Changed(None, content)
    case Get(i) =>
      if i < |edits| && w.sessions[i].phase.Fetching? then
        var s := w.sessions[i].(mark := |w.authors|);
        match edits[i](w.Cell())
        case None => w.With(i, s.(phase := GaveUp))
        case Some(next) => w.With(i, s.(phase := Holding(w.Cell(), next)))
      else w
    case CPut(i) =>
      if i < |edits| && w.sessions[i].phase.Holding? then
        var s := w.sessions[i];
        if Accepts(w.Cell(), s.phase.seen) then
          w.Changed(Some(i), Some(s.phase.next)).With(i, s.(phase := Succeeded))
        else
          w.With(i, s.(phase := Fetching, failures := s.failures + 1, mark := |w.authors|))
      else w
  }

  function Run(edits: seq<Edit>, w: World, events: seq<Event>): (r: World)
    requires w.Wf() && |edits| == |w.sessions|
    ensures r.Wf() && |edits| == |r.sessions|
  {
    if events == [] then w
    else Step(edits, Run(edits, w, events[..|events| - 1]), events[|events| - 1])
  }

  ghost predicate Start(edits: seq<Edit>, w: World) {
    && w.Wf() && w.authors == [] && |edits| == |w.sessions|
    && forall i :: 0 <= i < |w.sessions| ==> w.sessions[i] == Session(Fetching, 0, 0)
  }

  // ------------------------------------------------------------ what every step keeps

  /** The number of changes not made by session `i`. */
  function Others(authors: seq<Option<nat>>, i: nat): nat {
    if authors == [] then 0
    else Others(authors[..|authors| - 1], i) + if authors[|authors| - 1] == Some(i) then 0 else 1
  }

  /** A session is charged at most one failure per change by someone else that it has already
      noticed, and a session that still wants to write has not written yet. */
  ghost predicate SessionInv(edits: seq<Edit>, w: World, i: nat)
    requires w.Wf() && i < |w.sessions| == |edits|
  {
    var s := w.sessions[i];
    && s.mark <= |w.authors|
    && s.failures <= Others(w.authors[..s.mark], i)
    && (s.phase.Holding? ==> w.history[s.mark] == s.phase.seen && edits[i](s.phase.seen) == Some(s.phase.next))
    && (!s.phase.Succeeded? ==> Some(i) !in w.authors)
  }

  /** Change `k`, when a session made it, is that session's edit of the content it replaced. */
  ghost predicate ChangeInv(edits: seq<Edit>, w: World, k: nat)
    requires w.Wf() && k < |w.authors|
  {
    match w.authors[k]
    case None => true
    case Some(i) =>
      && i < |edits| && w.history[k + 1].Some?
      && exists seen :: Accepts(w.history[k], seen) && edits[i](seen) == w.history[k + 1]
  }

  /** No session changes the cell twice. */
  ghost predicate OncePerSession(authors: seq<Option<nat>>) {
    forall j, k :: 0 <= j < k < |authors| && authors[j].Some? ==> authors[j] != authors[k]
  }

  ghost predicate Inv(edits: seq<Edit>, w: World) {
    && w.Wf() && |edits| == |w.sessions|
    && (forall i :: 0 <= i < |edits| ==> SessionInv(edits, w, i))
    && (forall k :: 0 <= k < |w.authors| ==> ChangeInv(edits, w, k))
    && OncePerSession(w.authors)
  }

  lemma {:induction false} OthersGrow(authors: seq<Option<nat>>, lo: nat, hi: nat, i: nat)
    requires lo <= hi <= |authors|
    ensures Others(authors[..lo], i) <= Others(authors[..hi], i)
    ensures Some(i) !in authors ==> Others(authors[..hi], i) == Others(authors[..lo], i) + (hi - lo)
    decreases hi
  {
    if lo < hi {
      OthersGrow(authors, lo, hi - 1, i);
      assert authors[..hi][..hi - 1] == authors[..hi - 1];
    }
  }

  /** A change leaves the sessions that did not make it as they were. */
  lemma {:induction false} ChangedKeeps(edits: seq<Edit>, w: World, author: Option<nat>, content: Option<string>,
                                        i: nat)
    requires w.Wf() && i < |w.sessions| == |edits| && SessionInv(edits, w, i) && author != Some(i)
    ensures SessionInv(edits, w.Changed(author, content), i)
  {
    var w', s := w.Changed(author, content), w.sessions[i];
    assert w'.authors[..s.mark] == w.authors[..s.mark];
  }

  lemma {:induction false} OldChangesKeep(edits: seq<Edit>, w: World, author: Option<nat>, content: Option<string>)
    requires w.Wf() && forall k :: 0 <= k < |w.authors| ==> ChangeInv(edits, w, k)
    ensures forall k :: 0 <= k < |w.authors| ==> ChangeInv(edits, w.Changed(author, content), k)
  {
    var w' := w.Changed(author, content);
    forall k | 0 <= k < |w.authors|
      ensures ChangeInv(edits, w', k)
    {
      assert ChangeInv(edits, w, k);
      assert w'.authors[k] == w.authors[k] && w'.history[k] == w.history[k] && w'.history[k + 1] == w.history[k + 1];
    }
  }

  /** A refused CPUT: someone else has changed the cell since this session's GET. */
  lemma {:induction false} RefusedBecauseChanged(edits: seq<Edit>, w: World, i: nat)
    requires Inv(edits, w) && i < |edits| && w.sessions[i].phase.Holding?
    requires !Accepts(w.Cell(), w.sessions[i].phase.seen)
    ensures w.sessions[i].mark < |w.authors|
    ensures forall k :: w.sessions[i].mark <= k < |w.authors| ==> w.authors[k] != Some(i)
    ensures Others(w.authors[..w.sessions[i].mark], i) < Others(w.authors, i)
  {
    var s := w.sessions[i];
    assert SessionInv(edits, w, i);
    OthersGrow(w.authors, s.mark, |w.authors|, i);
    assert w.authors[..|w.authors|] == w.authors;
  }

  lemma {:induction false} AcceptedKeeps(edits: seq<Edit>, w: World, i: nat)
    requires Inv(edits, w) && i < |edits| && w.sessions[i].phase.Holding?
    requires Accepts(w.Cell(), w.sessions[i].phase.seen)
    ensures Inv(edits, Step(edits, w, CPut(i)))
  {
    var w', s := Step(edits, w, CPut(i)), w.sessions[i];
    var m := w.Changed(Some(i), Some(s.phase.next));
    OldChangesKeep(edits, w, Some(i), Some(s.phase.next));
    assert SessionInv(edits, w, i);
    forall j | 0 <= j < |edits|
      ensures SessionInv(edits, w', j)
    {
      if j != i {
        ChangedKeeps(edits, w, Some(i), Some(s.phase.next), j);
        assert SessionInv(edits, m, j);
      } else {
        assert w'.authors[..s.mark] == w.authors[..s.mark];
      }
    }
    forall k | 0 <= k < |w'.authors|
      ensures ChangeInv(edits, w', k)
    {
      if k < |w.authors| {
        assert ChangeInv(edits, m, k);
      } else {
        assert Accepts(w'.history[k], s.phase.seen) && edits[i](s.phase.seen) == w'.history[k + 1];
      }
    }
  }

  lemma {:induction false} SessionStepKeeps(edits: seq<Edit>, w: World, w': World, i: nat)
    requires Inv(edits, w) && i < |edits| && |w'.sessions| == |edits|
    requires w' == w.With(i, w'.sessions[i]) && SessionInv(edits, w', i)
    ensures Inv(edits, w')
  {
    forall j | 0 <= j < |edits|
      ensures SessionInv(edits, w', j)
    {
      assert SessionInv(edits, w, j);
    }
    forall k | 0 <= k < |w'.authors|
      ensures ChangeInv(edits, w', k)
    {
      assert ChangeInv(edits, w, k);
    }
  }

  lemma {:induction false} StepKeeps(edits: seq<Edit>, w: World, e: Event)
    requires Inv(edits, w)
    ensures Inv(edits, Step(edits, w, e))
  {
    var w' := Step(edits, w, e);
    match e
    case Outside(content) =>
      OldChangesKeep(edits, w, None, content);
      forall j | 0 <= j < |edits|
        ensures SessionInv(edits, w', j)
      {
        ChangedKeeps(edits, w, None, content, j);
      }
    case Get(i) =>
      if i < |edits| && w.sessions[i].phase.Fetching? {
        assert SessionInv(edits, w, i);
        OthersGrow(w.authors, w.sessions[i].mark, |w.authors|, i);
        SessionStepKeeps(edits, w, w', i);
      }
    case CPut(i) =>
      if i < |edits| && w.sessions[i].phase.Holding? {
        if Accepts(w.Cell(), w.sessions[i].phase.seen) {
          AcceptedKeeps(edits, w, i);
        } else {
          assert SessionInv(edits, w, i);
          RefusedBecauseChanged(edits, w, i);
          assert w.authors[..|w.authors|] == w.authors;
          SessionStepKeeps(edits, w, w', i);
        }
      }
  }

  lemma {:induction false} RunKeeps(edits: seq<Edit>, w: World, events: seq<Event>)
    requires Start(edits, w)
    ensures Inv(edits, Run(edits, w, events))
    ensures w.history <= Run(edits, w, events).history
  {
    if events != [] {
      RunKeeps(edits, w, events[..|events| - 1]);
      StepKeeps(edits, Run(edits, w, events[..|events| - 1]), events[|events| - 1]);
    } else {
      forall i | 0 <= i < |edits|
        ensures SessionInv(edits, w, i)
      {
      }
    }
  }

  // ------------------------------------------------------------ over whole runs

  /** In any run a session is refused at most once for every change made by someone else. */
  lemma {:induction false} FailuresCharged(edits: seq<Edit>, w: World, events: seq<Event>, i: nat)
    requires Start(edits, w) && i < |edits|
    ensures var r := Run(edits, w, events);
            r.sessions[i].failures <= Others(r.authors, i)
  {
    RunKeeps(edits, w, events);
    var r := Run(edits, w, events);
    assert SessionInv(edits, r, i);
    OthersGrow(r.authors, r.sessions[i].mark, |r.authors|, i);
    assert r.authors[..|r.authors|] == r.authors;
  }

  /** Sessions that give up when the cell is missing. */
  ghost predicate NeedCell(edits: seq<Edit>) {
    forall i :: 0 <= i < |edits| ==> edits[i](None) == None
  }

  ghost predicate NoOutsider(events: seq<Event>) {
    forall j :: 0 <= j < |events| ==> !events[j].Outside?
  }

  /** Without outsiders only sessions change the cell, and it stays there. */
  lemma {:induction false} OnlySessions(edits: seq<Edit>, w: World, events: seq<Event>)
    requires Start(edits, w) && NoOutsider(events) && w.Cell().Some?
    ensures Run(edits, w, events).AlwaysThere()
  {
    if events != [] {
      var front, last := events[..|events| - 1], events[|events| - 1];
      assert !last.Outside?;
      assert NoOutsider(front) by {
        assert forall j :: 0 <= j < |front| ==> front[j] == events[j];
      }
      OnlySessions(edits, w, front);
      var m, r := Run(edits, w, front), Run(edits, w, events);
      if last.CPut? && r.authors != m.authors {
        assert r.authors == m.authors + [Some(last.i)];
        assert r.history == m.history + [Some(m.sessions[last.i].phase.next)];
      } else {
        assert r.authors == m.authors && r.history == m.history;
      }
    } else {
      assert w.history[0] == w.Cell();
    }
  }

  /** The edits of the sessions in `authors`, one after the other. */
  function Serial(edits: seq<Edit>, authors: seq<Option<nat>>, content: string): (r: Option<string>) {
    if authors == [] then Some(content)
    else
      var before := Serial(edits, authors[..|authors| - 1], content);
      match authors[|authors| - 1]
      case None => None
      case Some(i) => if before.Some? && i < |edits| then edits[i](before) else None
  }

  lemma {:induction false} SerialPrefix(edits: seq<Edit>, r: World, content: string, k: nat)
    requires Inv(edits, r) && NeedCell(edits) && k <= |r.authors| && r.history[0] == Some(content)
    requires r.AlwaysThere()
    ensures Serial(edits, r.authors[..k], content) == r.history[k]
  {
    if k > 0 {
      SerialPrefix(edits, r, content, k - 1);
      assert r.authors[..k][..k - 1] == r.authors[..k - 1];
      assert ChangeInv(edits, r, k - 1);
      assert r.history[k - 1].Some? && r.history[k].Some?;
    }
  }

  /** No update is lost: whatever the interleaving, the cell ends up as if the sessions that
      succeeded had run one after the other, each exactly once. */
  lemma {:induction false} NoLostUpdate(edits: seq<Edit>, w: World, events: seq<Event>)
    requires Start(edits, w) && NeedCell(edits) && NoOutsider(events) && w.Cell().Some?
    ensures var r := Run(edits, w, events);
            && r.Cell() == Serial(edits, r.authors, w.Cell().value)
            && OncePerSession(r.authors)
            && forall i :: 0 <= i < |edits| ==> (r.sessions[i].phase.Succeeded? <==> Some(i) in r.authors)
  {
    var r := Run(edits, w, events);
    RunKeeps(edits, w, events);
    OnlySessions(edits, w, events);
    SerialPrefix(edits, r, w.Cell().value, |r.authors|);
    assert r.authors[..|r.authors|] == r.authors;
    SucceededWrote(edits, w, events);
    forall i | 0 <= i < |edits|
      ensures r.sessions[i].phase.Succeeded? <==> Some(i) in r.authors
    {
      assert SessionInv(edits, r, i);
    }
  }

  lemma {:induction false} SucceededWrote(edits: seq<Edit>, w: World, events: seq<Event>)
    requires Start(edits, w)
    ensures var r := Run(edits, w, events);
            forall i :: 0 <= i < |edits| && r.sessions[i].phase.Succeeded? ==> Some(i) in r.authors
  {
    if events != [] {
      SucceededWrote(edits, w, events[..|events| - 1]);
    }
  }

  /** The same at every moment of the run. */
  lemma {:induction false} EveryContentIsSerial(edits: seq<Edit>, w: World, events: seq<Event>, k: nat)
    requires Start(edits, w) && NeedCell(edits) && NoOutsider(events) && w.Cell().Some?
    requires k <= |Run(edits, w, events).authors|
    ensures var r := Run(edits, w, events);
            && r.AlwaysThere() && Inv(edits, r)
            && r.history[k] == Serial(edits, r.authors[..k], w.Cell().value)
  {
    RunKeeps(edits, w, events);
    OnlySessions(edits, w, events);
    SerialPrefix(edits, Run(edits, w, events), w.Cell().value, k);
  }

  // ------------------------------------------------------------ what the texts stand for

  /** The state after the operations of the sessions in `authors`, one after the other. */
  function After<S>(effects: seq<S -> S>, authors: seq<Option<nat>>, start: S): S {
    if authors == [] then start
    else
      var before := After(effects, authors[..|authors| - 1], start);
      match authors[|authors| - 1]
      case None => before
      case Some(i) => if i < |effects| then effects[i](before) else before
  }

  lemma {:induction false} AfterNext<S>(effects: seq<S -> S>, authors: seq<Option<nat>>, start: S, k: nat)
    requires k < |authors|
    ensures After(effects, authors[..k + 1], start) ==
            if authors[k].Some? && authors[k].value < |effects|
            then effects[authors[k].value](After(effects, authors[..k], start))
            else After(effects, authors[..k], start)
  {
    assert authors[..k + 1][..k] == authors[..k];
  }

  /** On the text of a good state, whatever an edit writes is the text of the good state that
      its operation makes. */
  ghost predicate Stands<S(!new)>(edits: seq<Edit>, effects: seq<S -> S>, text: S -> string, good: S -> bool) {
    && |effects| == |edits|
    && forall i, s :: 0 <= i < |edits| && good(s) && edits[i](Some(text(s))).Some? ==>
         edits[i](Some(text(s))).value == text(effects[i](s)) && good(effects[i](s))
  }

  lemma {:induction false} SerialStands<S(!new)>(
      edits: seq<Edit>, effects: seq<S -> S>, text: S -> string, good: S -> bool, authors: seq<Option<nat>>, start: S)
    requires Stands(edits, effects, text, good) && good(start)
    requires Serial(edits, authors, text(start)).Some?
    ensures Serial(edits, authors, text(start)) == Some(text(After(effects, authors, start)))
    ensures good(After(effects, authors, start))
  {
    if authors != [] {
      SerialStands(edits, effects, text, good, authors[..|authors| - 1], start);
    }
  }

  /** At every moment of every run the cell holds the text of the state that the successful
      operations, one after the other, make of the one it started with. */
  lemma {:induction false} RunStands<S(!new)>(
      edits: seq<Edit>, effects: seq<S -> S>, text: S -> string, good: S -> bool,
      w: World, events: seq<Event>, start: S, k: nat)
    requires Start(edits, w) && NeedCell(edits) && NoOutsider(events)
    requires Stands(edits, effects, text, good) && good(start) && w.Cell() == Some(text(start))
    requires k <= |Run(edits, w, events).authors|
    ensures var r := Run(edits, w, events);
            var now := After(effects, r.authors[..k], start);
            r.history[k] == Some(text(now)) && good(now)
  {
    hide Stands;
    EveryContentIsSerial(edits, w, events, k);
    SerialStands(edits, effects, text, good, Run(edits, w, events).authors[..k], start);
  }

  // ------------------------------------------------------------ how often at most

  lemma {:induction false} AtMostAll(authors: seq<Option<nat>>, i: nat, left: set<nat>)
    requires OncePerSession(authors)
    requires forall k :: 0 <= k < |authors| ==> authors[k].Some? && (authors[k].value == i || authors[k].value in left)
    ensures Others(authors, i) <= |left|
  {
    if authors != [] {
      var front, last := authors[..|authors| - 1], authors[|authors| - 1];
      if last == Some(i) {
        AtMostAll(front, i, left);
      } else {
        forall k | 0 <= k < |front|
          ensures front[k].Some? && (front[k].value == i || front[k].value in left - {last.value})
        {
          assert authors[k] != last;
        }
        AtMostAll(front, i, left - {last.value});
      }
    }
  }

  function UpTo(n: nat): (s: set<nat>)
    ensures |s| == n && forall i: nat :: i in s <==> i < n
  {
    if n == 0 then {} else UpTo(n - 1) + {n - 1}
  }

  /** Among `n` sessions no one is refused `n` times. */
  lemma {:induction false} RetriesBounded(edits: seq<Edit>, w: World, events: seq<Event>, i: nat)
    requires Start(edits, w) && NoOutsider(events) && w.Cell().Some? && i < |edits|
    ensures Run(edits, w, events).sessions[i].failures <= |edits| - 1
  {
    var r := Run(edits, w, events);
    RunKeeps(edits, w, events);
    OnlySessions(edits, w, events);
    FailuresCharged(edits, w, events, i);
    forall k | 0 <= k < |r.authors|
      ensures r.authors[k].value == i || r.authors[k].value in UpTo(|edits|) - {i}
    {
      assert ChangeInv(edits, r, k);
    }
    AtMostAll(r.authors, i, UpTo(|edits|) - {i});
  }

  // ------------------------------------------------------------ going on trying

  /** Event `k` is a CPUT that session `i` sent and that changed nothing. */
  ghost predicate RefusedAt(edits: seq<Edit>, w: World, events: seq<Event>, k: nat, i: nat)
    requires Start(edits, w) && i < |edits| && k < |events|
  {
    var before := Run(edits, w, events[..k]);
    && events[k] == CPut(i) && before.sessions[i].phase.Holding?
    && Run(edits, w, events[..k + 1]).authors == before.authors
  }

  ghost function Refusals(edits: seq<Edit>, w: World, events: seq<Event>, i: nat, n: nat): nat
    requires Start(edits, w) && i < |edits| && n <= |events|
  {
    if n == 0 then 0
    else Refusals(edits, w, events, i, n - 1) + if RefusedAt(edits, w, events, n - 1, i) then 1 else 0
  }

  /** Every refusal is counted, and nothing else is. */
  lemma {:induction false} FailuresAreRefusals(edits: seq<Edit>, w: World, events: seq<Event>, i: nat, n: nat)
    requires Start(edits, w) && i < |edits| && n <= |events|
    ensures Run(edits, w, events[..n]).sessions[i].failures == Refusals(edits, w, events, i, n)
  {
    if n > 0 {
      FailuresAreRefusals(edits, w, events, i, n - 1);
      assert events[..n][..n - 1] == events[..n - 1];
    } else {
      assert events[..0] == [];
    }
  }

  /** A refused session fetches again; an accepted one is done. */
  lemma {:induction false} AfterCPut(edits: seq<Edit>, w: World, i: nat)
    requires w.Wf() && i < |edits| == |w.sessions| && w.sessions[i].phase.Holding?
    ensures var r, s := Step(edits, w, CPut(i)), w.sessions[i].phase;
            if Sent(w.Cell()) == Sent(s.seen) then r.sessions[i].phase.Succeeded? && r.Cell() == Some(s.next)
            else r.sessions[i].phase.Fetching? && r.Cell() == w.Cell()
  {
  }

  /** Left alone for one more round, a session is done: it has written its edit of what the
      cell holds, or given up because there is none. */
  lemma {:induction false} OneRound(edits: seq<Edit>, w: World, i: nat)
    requires w.Wf() && i < |edits| == |w.sessions| && w.sessions[i].phase.Fetching?
    ensures var r, edited := Step(edits, Step(edits, w, Get(i)), CPut(i)), edits[i](w.Cell());
            if edited.Some? then r.sessions[i].phase.Succeeded? && r.Cell() == edited
            else r.sessions[i].phase.GaveUp? && r.Cell() == w.Cell()
  {
    assert Accepts(w.Cell(), w.Cell());
  }

  /** From wherever a run has come, three events of its own bring a session to its end: it has
      succeeded, or its edit has no answer for what the cell holds. */
  lemma {:induction false} Progress(edits: seq<Edit>, w: World, events: seq<Event>, i: nat)
    requires Start(edits, w) && i < |edits|
    ensures var m := Run(edits, w, events);
            var r := Step(edits, Step(edits, Step(edits, m, CPut(i)), Get(i)), CPut(i));
            && (r.sessions[i].phase.Succeeded? || r.sessions[i].phase.GaveUp?)
            && (r.sessions[i].phase.GaveUp? && !m.sessions[i].phase.GaveUp? ==> edits[i](m.Cell()).None?)
  {
    var m := Run(edits, w, events);
    var first := Step(edits, m, CPut(i));
    if m.sessions[i].phase.Holding? {
      AfterCPut(edits, m, i);
    }
    if first.sessions[i].phase.Fetching? {
      OneRound(edits, first, i);
    }
  }

  /** The edit of session `i` had no answer for one of the contents so far. */
  ghost predicate NoAnswer(edits: seq<Edit>, w: World, i: nat)
    requires i < |edits|
  {
    exists k :: 0 <= k < |w.history| && edits[i](w.history[k]).None?
  }

  /** A session gives up only because its edit had no answer for a content that the cell had
      during the run. */
  lemma {:induction false} GaveUpWithoutAnswer(edits: seq<Edit>, w: World, events: seq<Event>, i: nat)
    requires Start(edits, w) && i < |edits|
    ensures Run(edits, w, events).sessions[i].phase.GaveUp? ==> NoAnswer(edits, Run(edits, w, events), i)
  {
    if events != [] {
      var front := events[..|events| - 1];
      GaveUpWithoutAnswer(edits, w, front, i);
      var m, r := Run(edits, w, front), Run(edits, w, events);
      if NoAnswer(edits, m, i) {
        var k :| 0 <= k < |m.history| && edits[i](m.history[k]).None?;
        assert r.history[k] == m.history[k];
      }
      assert edits[i](m.Cell()).None? ==> NoAnswer(edits, m, i);
    }
  }

  // ------------------------------------------------------------ registering a user

  /** `resgister`: the password cell must be missing, and is created by a CPUT of "NULL". */
  function Registration(password: string): Edit {
    (read: Option<string>) => if read.None? then Some(password) else None
  }

  function Registrations(passwords: seq<string>): (edits: seq<Edit>)
    ensures |edits| == |passwords|
    ensures forall i :: 0 <= i < |edits| ==> edits[i] == Registration(passwords[i])
  {
    seq(|passwords|, i requires 0 <= i < |passwords| => Registration(passwords[i]))
  }

  function NoUser(n: nat): World {
    World([None], [], seq(n, _ => Session(Fetching, 0, 0)))
  }

  /** Of several clients that register one user name, only one can succeed in any run,
      exactly if none of them chooses the password "NULL". */
  lemma {:induction false} RegisterOnceIff(passwords: seq<string>)
    requires |passwords| >= 2
    ensures var edits := Registrations(passwords);
            (forall events :: NoOutsider(events) ==> |Run(edits, NoUser(|edits|), events).authors| <= 1)
            <==> "NULL" !in passwords
  {
    var edits := Registrations(passwords);
    if "NULL" in passwords {
      var i :| 0 <= i < |passwords| && passwords[i] == "NULL";
      TwoRegister(passwords, i, if i == 0 then 1 else 0);
    } else {
      forall events | NoOutsider(events)
        ensures |Run(edits, NoUser(|edits|), events).authors| <= 1
      {
        OneRegisters(passwords, events);
      }
    }
  }

  lemma {:induction false} OneRegisters(passwords: seq<string>, events: seq<Event>)
    requires "NULL" !in passwords && NoOutsider(events)
    ensures |Run(Registrations(passwords), NoUser(|passwords|), events).authors| <= 1
  {
    var edits := Registrations(passwords);
    var w := NoUser(|edits|);
    RunKeeps(edits, w, events);
    SessionsOnly(edits, w, events);
    var r := Run(edits, w, events);
    if |r.authors| >= 2 {
      RegistrationWrote(passwords, r, 0);
      RegistrationWrote(passwords, r, 1);
    }
  }

  /** A registration replaces "NULL", or nothing, by a password. */
  lemma {:induction false} RegistrationWrote(passwords: seq<string>, r: World, k: nat)
    requires Inv(Registrations(passwords), r) && r.BySessions() && k < |r.authors|
    ensures Sent(r.history[k]) == "NULL" && Sent(r.history[k + 1]) in passwords
  {
    assert ChangeInv(Registrations(passwords), r, k);
    var i := r.authors[k].value;
    assert r.history[k + 1].value == passwords[i];
  }

  lemma {:induction false} SessionsOnly(edits: seq<Edit>, w: World, events: seq<Event>)
    requires Start(edits, w) && NoOutsider(events)
    ensures Run(edits, w, events).BySessions()
  {
    if events != [] {
      var front, last := events[..|events| - 1], events[|events| - 1];
      assert !last.Outside?;
      assert NoOutsider(front) by {
        assert forall j :: 0 <= j < |front| ==> front[j] == events[j];
      }
      SessionsOnly(edits, w, front);
    }
  }

  /** Both read the missing cell; one registers with "NULL", which the other takes for a cell
      that is still missing. */
  lemma {:induction false} TwoRegister(passwords: seq<string>, i: nat, j: nat)
    requires i < |passwords| && j < |passwords| && i != j && passwords[i] == "NULL"
    ensures exists events :: NoOutsider(events)
              && |Run(Registrations(passwords), NoUser(|passwords|), events).authors| > 1
  {
    var edits := Registrations(passwords);
    var w := NoUser(|edits|);
    var events := [Get(i), Get(j), CPut(i), CPut(j)];
    FourSteps(edits, w, Get(i), Get(j), CPut(i), CPut(j));
    BothAccepted(passwords, i, j);
    assert NoOutsider(events);
  }

  lemma {:induction false} BothAccepted(passwords: seq<string>, i: nat, j: nat)
    requires i < |passwords| && j < |passwords| && i != j && passwords[i] == "NULL"
    ensures var edits := Registrations(passwords);
            var read := Step(edits, Step(edits, NoUser(|edits|), Get(i)), Get(j));
            |Step(edits, Step(edits, read, CPut(i)), CPut(j)).authors| == 2
  {
    var edits := Registrations(passwords);
    var read := Step(edits, Step(edits, NoUser(|edits|), Get(i)), Get(j));
    assert read.authors == [] && read.history == [None];
    assert read.sessions[i].phase == Holding(None, "NULL");
    assert read.sessions[j].phase == Holding(None, passwords[j]);
    var one := Step(edits, read, CPut(i));
    assert one.authors == [Some(i)] && one.history == [None, Some("NULL")];
    assert one.sessions[j].phase == Holding(None, passwords[j]);
  }

  lemma {:induction false} FourSteps(edits: seq<Edit>, w: World, a: Event, b: Event, c: Event, d: Event)
    requires w.Wf() && |edits| == |w.sessions|
    ensures Run(edits, w, [a, b, c, d]) == Step(edits, Step(edits, Step(edits, Step(edits, w, a), b), c), d)
  {
    hide Step;
    assert [a, b, c, d][..3] == [a, b, c];
    assert [a, b, c][..2] == [a, b];
    assert [a, b][..1] == [a];
    assert [a][..0] == [];
    var w1 := Step(edits, w, a);
    assert Run(edits, w, [a]) == w1;
    assert Run(edits, w, [a, b]) == Step(edits, w1, b);
    assert Run(edits, w, [a, b, c]) == Step(edits, Step(edits, w1, b), c);
  }
}
