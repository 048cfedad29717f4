/** What holds over every sequence of commands on a connection. */
module SmtpRuns {
  import opened Text
  import opened Buffer
  import opened Smtp

  /** What each state says about the transaction. */
  predicate Settled(m: Mail) {
    && INIT <= m.state <= CRASHED
    && (m.state in {INIT, READY, DATA_END} ==> m.sender == "" && m.rcpts == {} && m.data == "")
    && (m.state == MAIL ==> m.sender != "" && m.rcpts == {} && m.data == "")
    && (m.state in {RCPT, DATA_START} ==> m.sender != "" && m.rcpts != {})
    && (m.data != "" ==> m.state in {DATA_START, CRASHED})
  }

  lemma {:induction false} LocalIsNotEmpty(mailbox: string)
    requires IsLocal(mailbox).Some?
    ensures mailbox != ""
  {
  }

  lemma {:induction false} ActSettles(m: Mail, buff: string)
    requires Settled(m) && m.state < QUIT && Find(buff, CRLF) != NPOS
    ensures Settled(Do(m, Act(m, buff)))
    ensures m.state == DATA_START ==>
              var a := Act(m, buff); a == Line(FullLine(buff)) || (buff == ".\r\n" && (a.End? || a.Crash?))
  {
    hide Find, Mailbox, RFind, StartsWithCI, IsLocal, TitleThrows, FullLine;
    if Act(m, buff).From? {
      LocalIsNotEmpty(Act(m, buff).mailbox);
    }
  }

  lemma {:induction false} CompleteFront(buffs: seq<string>)
    requires Complete(buffs) && buffs != []
    ensures Complete(buffs[..|buffs| - 1]) && Find(buffs[|buffs| - 1], CRLF) != NPOS
  {
    assert forall i :: 0 <= i < |buffs| - 1 ==> buffs[..|buffs| - 1][i] == buffs[i];
  }

  /** Every session is settled after every sequence of commands, and while a message is being
      entered no line is run as a command. */
  lemma {:induction false} SessionsSettle(buffs: seq<string>)
    requires Complete(buffs)
    ensures Settled(Run(buffs).mail)
    ensures buffs != [] ==>
              var m := Run(buffs[..|buffs| - 1]).mail;
              m.state == DATA_START ==> Act(m, buffs[|buffs| - 1]) in {Line(FullLine(buffs[|buffs| - 1])), End, Crash}
  {
    hide Find, Act, Do, FullLine, Complete;
    if buffs != [] {
      CompleteFront(buffs);
      var front := buffs[..|buffs| - 1];
      SessionsSettle(front);
      var m := Run(front).mail;
      if m.state < QUIT {
        ActSettles(m, buffs[|buffs| - 1]);
      }
    }
  }

  // ------------------------------------------------------------ the order of commands

  function RcptsIn(log: seq<Action>, lo: nat, hi: nat): set<string>
    requires hi <= |log|
  {
    if hi <= lo then {}
    else RcptsIn(log, lo, hi - 1) + if log[hi - 1].To? then {log[hi - 1].mailbox} else {}
  }

  function TextIn(log: seq<Action>, lo: nat, hi: nat): string
    requires hi <= |log|
  {
    if hi <= lo then ""
    else TextIn(log, lo, hi - 1) + if log[hi - 1].Line? then log[hi - 1].text else ""
  }

  /** HELO or RSET, then MAIL at `a`, then nothing but RCPTs up to `k`. */
  predicate Opening(log: seq<Action>, a: nat, k: nat, sender: string, rcpts: set<string>) {
    && 1 <= a < k <= |log|
    && (log[a - 1].Hello? || log[a - 1].Reset?)
    && log[a] == From(sender)
    && (forall i :: a < i < k ==> log[i].To?)
    && rcpts == RcptsIn(log, a + 1, k)
  }

  /** An opening with at least one RCPT, then DATA at `m`, then nothing but lines up to `n`. */
  predicate Message(log: seq<Action>, a: nat, m: nat, n: nat, d: Delivery) {
    && a + 1 < m < n <= |log|
    && Opening(log, a, m, d.sender, d.rcpts)
    && log[m].Start?
    && (forall i :: m < i < n ==> log[i].Line?)
    && d.data == TextIn(log, m + 1, n)
  }

  /** A message that was ended by a dot at `n`. */
  predicate Ended(log: seq<Action>, a: nat, m: nat, n: nat, d: Delivery) {
    n < |log| && log[n].End? && Message(log, a, m, n, d)
  }

  function Ends(log: seq<Action>): nat {
    if log == [] then 0 else Ends(log[..|log| - 1]) + if log[|log| - 1].End? then 1 else 0
  }

  ghost predicate Entered(log: seq<Action>, d: Delivery) {
    exists a: nat, m: nat, n: nat :: Ended(log, a, m, n, d)
  }

  ghost predicate Explained(t: Trace) {
    forall k :: 0 <= k < |t.deliveries| ==> Entered(t.log, t.deliveries[k])
  }

  /** What the state says about the actions so far. */
  ghost predicate Reached(m: Mail, log: seq<Action>) {
    && (m.state == INIT ==> log == [])
    && (m.state == READY ==> log != [] && (log[|log| - 1].Hello? || log[|log| - 1].Reset?))
    && (m.state == MAIL ==> exists a: nat :: Opening(log, a, |log|, m.sender, m.rcpts) && a + 1 == |log|)
    && (m.state == RCPT ==> exists a: nat :: Opening(log, a, |log|, m.sender, m.rcpts) && a + 1 < |log|)
    && (m.state == DATA_START ==>
          exists a: nat, k: nat :: Message(log, a, k, |log|, Delivery(m.sender, m.rcpts, m.data)))
  }

  lemma {:induction false} RcptsSame(log: seq<Action>, x: Action, lo: nat, hi: nat)
    requires hi <= |log|
    ensures RcptsIn(log + [x], lo, hi) == RcptsIn(log, lo, hi)
  {
    if lo < hi {
      RcptsSame(log, x, lo, hi - 1);
    }
  }

  lemma {:induction false} TextSame(log: seq<Action>, x: Action, lo: nat, hi: nat)
    requires hi <= |log|
    ensures TextIn(log + [x], lo, hi) == TextIn(log, lo, hi)
  {
    if lo < hi {
      TextSame(log, x, lo, hi - 1);
    }
  }

  lemma {:induction false} MessageSame(log: seq<Action>, x: Action, a: nat, m: nat, n: nat, d: Delivery)
    requires Message(log, a, m, n, d)
    ensures Message(log + [x], a, m, n, d)
  {
    RcptsSame(log, x, a + 1, m);
    TextSame(log, x, m + 1, n);
  }

  lemma {:induction false} OneMoreRcpt(log: seq<Action>, a: nat, sender: string, rcpts: set<string>, box: string)
    requires Opening(log, a, |log|, sender, rcpts)
    ensures Opening(log + [To(box)], a, |log| + 1, sender, rcpts + {box})
  {
    RcptsSame(log, To(box), a + 1, |log|);
  }

  lemma {:induction false} OneMoreLine(log: seq<Action>, a: nat, m: nat, d: Delivery, text: string)
    requires Message(log, a, m, |log|, d)
    ensures Message(log + [Line(text)], a, m, |log| + 1, d.(data := d.data + text))
  {
    RcptsSame(log, Line(text), a + 1, m);
    TextSame(log, Line(text), m + 1, |log|);
  }

  lemma {:induction false} NowData(log: seq<Action>, a: nat, sender: string, rcpts: set<string>)
    requires Opening(log, a, |log|, sender, rcpts) && a + 1 < |log|
    ensures Message(log + [Start], a, |log|, |log| + 1, Delivery(sender, rcpts, ""))
  {
    RcptsSame(log, Start, a + 1, |log|);
  }

  lemma {:induction false} ActReaches(m: Mail, log: seq<Action>, buff: string)
    requires Settled(m) && m.state < QUIT && Find(buff, CRLF) != NPOS && Reached(m, log)
    requires !Act(m, buff).Nothing?
    ensures Reached(Do(m, Act(m, buff)), log + [Act(m, buff)])
  {
    hide Find, Mailbox, RFind, StartsWithCI, IsLocal, TitleThrows, FullLine, Opening, Message;
    var x := Act(m, buff);
    match x
    case From(box) =>
      Opens(log, box);
    case To(box) =>
      var a: nat :| Opening(log, a, |log|, m.sender, m.rcpts);
      OneMoreRcpt(log, a, m.sender, m.rcpts, box);
      OpeningStarts(log, a, |log|, m.sender, m.rcpts);
    case Start =>
      var a: nat :| Opening(log, a, |log|, m.sender, m.rcpts) && a + 1 < |log|;
      NowData(log, a, m.sender, m.rcpts);
    case Line(text) =>
      var a: nat, k: nat :| Message(log, a, k, |log|, Delivery(m.sender, m.rcpts, m.data));
      OneMoreLine(log, a, k, Delivery(m.sender, m.rcpts, m.data), text);
    case _ =>
  }

  lemma {:induction false} OpeningStarts(log: seq<Action>, a: nat, k: nat, sender: string, rcpts: set<string>)
    requires Opening(log, a, k, sender, rcpts)
    ensures a < k <= |log|
  {
  }

  lemma {:induction false} Opens(log: seq<Action>, box: string)
    requires log != [] && (log[|log| - 1].Hello? || log[|log| - 1].Reset?)
    ensures Opening(log + [From(box)], |log|, |log| + 1, box, {})
  {
  }

  lemma {:induction false} EnteredStays(log: seq<Action>, x: Action, d: Delivery)
    requires Entered(log, d)
    ensures Entered(log + [x], d)
  {
    hide Message;
    var a: nat, m: nat, n: nat :| Ended(log, a, m, n, d);
    MessageSame(log, x, a, m, n, d);
    assert Ended(log + [x], a, m, n, d);
  }

  lemma {:induction false} EnteredNow(log: seq<Action>, x: Action, d: Delivery)
    requires x.End? && exists a: nat, m: nat :: Message(log, a, m, |log|, d)
    ensures Entered(log + [x], d)
  {
    hide Message;
    var a: nat, m: nat :| Message(log, a, m, |log|, d);
    MessageSame(log, x, a, m, |log|, d);
    assert Ended(log + [x], a, m, |log|, d);
  }

  /** One more action, with its delivery if it is a final dot. */
  lemma {:induction false} ActionExplains(t: Trace, x: Action, t': Trace, d: Delivery)
    requires Explained(t) && |t.deliveries| == Ends(t.log)
    requires t'.log == t.log + [x] && t'.deliveries == if x.End? then t.deliveries + [d] else t.deliveries
    requires x.End? ==> exists a: nat, m: nat :: Message(t.log, a, m, |t.log|, d)
    ensures Explained(t') && |t'.deliveries| == Ends(t'.log)
  {
    hide Message, Entered;
    assert t'.log[..|t'.log| - 1] == t.log;
    forall k | 0 <= k < |t'.deliveries|
      ensures Entered(t'.log, t'.deliveries[k])
    {
      if k < |t.deliveries| {
        EnteredStays(t.log, x, t.deliveries[k]);
      } else {
        EnteredNow(t.log, x, d);
      }
    }
  }

  lemma {:induction false} EndOnlyInData(m: Mail, buff: string)
    requires Find(buff, CRLF) != NPOS && Act(m, buff).End?
    ensures m.state == DATA_START
  {
    hide Find, Mailbox, StartsWithCI, IsLocal, TitleThrows, FullLine;
  }

  lemma {:induction false} StepExplains(t: Trace, buff: string)
    requires Settled(t.mail) && Find(buff, CRLF) != NPOS && Reached(t.mail, t.log)
    requires Explained(t) && |t.deliveries| == Ends(t.log)
    ensures Explained(Step(t, buff)) && |Step(t, buff).deliveries| == Ends(Step(t, buff).log)
  {
    hide Find, Act, Do, Message, Entered, Explained, Ends, Opening;
    if t.mail.state < QUIT && !Act(t.mail, buff).Nothing? {
      var x, d := Act(t.mail, buff), Delivery(t.mail.sender, t.mail.rcpts, t.mail.data);
      if x.End? {
        EndOnlyInData(t.mail, buff);
      }
      ActionExplains(t, x, Step(t, buff), d);
    } else {
      SameExplained(t, Step(t, buff));
    }
  }

  lemma {:induction false} SameExplained(t: Trace, t': Trace)
    requires Explained(t) && t'.log == t.log && t'.deliveries == t.deliveries
    ensures Explained(t')
  {
  }

  lemma {:induction false} RunReaches(buffs: seq<string>)
    requires Complete(buffs)
    ensures var t := Run(buffs);
            Settled(t.mail) && Reached(t.mail, t.log) && Explained(t) && |t.deliveries| == Ends(t.log)
  {
    hide Find, Act, Do, FullLine, Complete, Reached, Settled, Explained, Ends;
    if buffs == [] {
      Beginning();
    } else {
      CompleteFront(buffs);
      var front, last := buffs[..|buffs| - 1], buffs[|buffs| - 1];
      RunReaches(front);
      SessionsSettle(buffs);
      var t := Run(front);
      StepExplains(t, last);
      if t.mail.state < QUIT && !Act(t.mail, last).Nothing? {
        ActReaches(t.mail, t.log, last);
      } else {
        NothingDone(t.mail);
      }
    }
  }

  lemma {:induction false} Beginning()
    ensures Settled(OPENED.mail) && Reached(OPENED.mail, []) && Explained(OPENED) && Ends([]) == 0
  {
  }

  lemma {:induction false} NothingDone(m: Mail)
    ensures Do(m, Nothing) == m
  {
  }

  /** Every delivered message was entered as HELO or RSET, MAIL, at least one RCPT, DATA, its
      lines and the dot, with no other effective command in between; its sender, recipients
      and text are those of these commands; and there is one delivery per final dot. */
  lemma {:induction false} DeliveriesAreTransactions(buffs: seq<string>, k: nat)
    requires Complete(buffs) && k < |Run(buffs).deliveries|
    ensures var t := Run(buffs);
            && |t.deliveries| == Ends(t.log)
            && Entered(t.log, t.deliveries[k])
  {
    hide Act, Do, Complete, Settled, Reached, Entered, Ends;
    RunReaches(buffs);
  }
}
