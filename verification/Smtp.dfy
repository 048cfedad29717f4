/** The SMTP session of one connection: which command takes effect when, what a session holds
    in each state, and what is delivered. */
module Smtp {
  import opened Wrappers
  import opened Text
  import opened Buffer

  // replies
  const SERVICE_CLOSE := "221 localhost service closing transmission channel\r\n"
  const HELO := "250 localhost\r\n"
  const OK := "250 OK\r\n"
  const START_MAIL := "354 Start mail input; end with <CRLF>.\r\n"
  const UNKNOWN_CMD := "500 Syntax error, command unrecognized\r\n"
  const SYNTAX_ERR := "501 Syntax error in parameters or arguments\r\n"
  const BAD_SEQ := "503 Bad sequence of commands\r\n"
  const NO_SUBJECT := "email content must include Subject: \r\n"

  const CMD_SIZE := 5
  const MAILBOX_SIZE := 50

  // states; the program is gone in the last one
  const INIT := 0
  const READY := 1
  const MAIL := 2
  const RCPT := 3
  const DATA_START := 4
  const DATA_END := 5
  const QUIT := 6
  const CRASHED := 7

  /** What a session keeps between commands. */
  datatype Mail = Mail(state: int, sender: string, rcpts: set<string>, data: string)

  /** What a line of input does to the session. */
  datatype Action =
    | Nothing | Hello | From(mailbox: string) | To(mailbox: string) | Start
    | Line(text: string) | End | Reset | Leave | Crash

  // ------------------------------------------------------------ the pieces of a command

  /** Position of `c` at or after `i`, or the length. */
  function Next(s: string, c: char, i: nat): (k: nat)
    requires i <= |s|
    ensures i <= k <= |s| && (k < |s| ==> s[k] == c)
    ensures forall j :: i <= j < k ==> s[j] != c
    decreases |s| - i
  {
    if i == |s| || s[i] == c then i else Next(s, c, i + 1)
  }

  /** The text between the first '<' and the next '>'; `None` where the scan would run past the
      end of the buffer or the copy past the end of its destination. */
  function Mailbox(src: string): Option<string> {
    var i := Next(src, '<', 0);
    if i == |src| then None
    else
      var j := Next(src, '>', i + 1);
      if j == |src| || j - (i + 1) >= MAILBOX_SIZE then None else Some(src[i + 1..j])
  }

  /** The scan of `parse_mailbox` for one of the brackets. */
  method ScanFor(src: string, c: char, start: nat) returns (i: nat)
    requires start <= |src|
    ensures i == Next(src, c, start)
  {
    i := start;
    while i < |src| && src[i] != c
      invariant start <= i <= |src| && Next(src, c, start) == Next(src, c, i)
    {
      i := i + 1;
    }
  }

  /** The second scan of `parse_mailbox`, which copies what it passes. */
  method CopyTo(src: string, c: char, start: nat) returns (i: nat, text: string)
    requires start <= |src|
    ensures i == Next(src, c, start) && text == src[start..i]
  {
    i, text := start, "";
    while i < |src| && src[i] != c
      invariant start <= i <= |src| && Next(src, c, start) == Next(src, c, i)
      invariant text == src[start..i]
    {
      text := text + [src[i]];
      i := i + 1;
    }
  }

  /** `parse_mailbox`. */
  method ParseMailbox(src: string) returns (dest: Option<string>)
    ensures dest == Mailbox(src)
  {
    hide Next;
    var i := ScanFor(src, '<', 0);
    if i == |src| {
      return None;
    }
    var j, text := CopyTo(src, '>', i + 1);
    dest := if j == |src| || |text| >= MAILBOX_SIZE then None else Some(text);
  }

  /** The domain, from the last '@' on, starts with "@localhost"; `None` without an '@', where
      the comparison throws. */
  function IsLocal(mailbox: string): Option<bool> {
    var found := RFind(mailbox, "@");
    if found == NPOS then None else Some(At(mailbox, "@localhost", found))
  }

  /** Cutting out the title throws: there is no subject, and not eight characters. */
  predicate TitleThrows(data: string) {
    Find(data, "Subject: ") == NPOS && |data| < 8
  }

  /** `substr` throws exactly when its position is behind the end. */
  lemma {:induction false} TitleThrowsIff(data: string)
    ensures TitleThrows(data) <==> Find(data, "Subject: ") + 9 > |data|
  {
    hide FindFrom;
    if Find(data, "Subject: ") != NPOS {
      AtFoundSubject(data);
    }
  }

  lemma {:induction false} AtFoundSubject(data: string)
    requires Find(data, "Subject: ") != NPOS
    ensures 0 <= Find(data, "Subject: ") <= |data| - 9
  {
    hide FindFrom;
  }

  /** The mailbox of a command is what stands between its first '<' and the next '>', if that
      is short enough. */
  lemma {:induction false} MailboxIs(before: string, box: string, after: string)
    requires Free(before, '<') && Free(box, '>')
    ensures Mailbox(before + ("<" + (box + (">" + after)))) == if |box| < MAILBOX_SIZE then Some(box) else None
  {
    var s := before + ("<" + (box + (">" + after)));
    var i, j := |before|, |before| + 1 + |box|;
    assert s[..i] == before && s[i] == '<' && s[i + 1..j] == box && s[j] == '>';
    assert forall x :: 0 <= x < i ==> s[x] == before[x];
    assert forall x :: i + 1 <= x < j ==> s[x] == box[x - i - 1];
    NextIs(s, '<', 0, i);
    NextIs(s, '>', i + 1, j);
  }

  lemma {:induction false} NextIs(s: string, c: char, i: nat, k: nat)
    requires i <= k < |s| && s[k] == c && forall x :: i <= x < k ==> s[x] != c
    ensures Next(s, c, i) == k
  {
    hide Next;
    var n := Next(s, c, i);
  }

  /** Without a complete pair of brackets there is none. */
  lemma {:induction false} NoMailbox(before: string, after: string)
    requires Free(before, '<') && Free(after, '>')
    ensures Mailbox(before) == None && Mailbox(before + ("<" + after)) == None
  {
    var s := before + ("<" + after);
    assert forall x :: 0 <= x < |before| ==> s[x] == before[x];
    assert forall x :: |before| < x < |s| ==> s[x] == after[x - |before| - 1];
    assert s[|before|] == '<';
    NextIs(s, '<', 0, |before|);
    hide Next;
    var i, j := Next(before, '<', 0), Next(s, '>', |before| + 1);
  }

  /** A mailbox is local exactly if what follows its last '@' starts with "localhost". */
  lemma {:induction false} LocalIff(name: string, domain: string)
    requires Free(domain, '@')
    ensures IsLocal(name + ("@" + domain)) == Some("localhost" <= domain)
    ensures IsLocal(domain) == None
  {
    hide RFindFrom;
    var s := name + ("@" + domain);
    var k, x := RFind(s, "@"), RFind(domain, "@");
    AtIndex(s, "@", |name|);
    AtChar(s, "@", k, 0);
    assert forall i :: |name| < i < |s| ==> s[i] == domain[i - |name| - 1];
    assert k == |name|;
    if x != NPOS {
      AtChar(domain, "@", x, 0);
    }
    assert s[k..] == "@" + domain;
    assert "@localhost" == "@" + "localhost";
    if "localhost" <= domain {
      assert s[k..k + 10] == "@localhost";
    }
    if At(s, "@localhost", k) {
      assert s[k + 1..k + 10] == "localhost" == domain[..9];
    }
  }

  // ------------------------------------------------------------ the state machine

  /** What the text in the buffer makes the session do. */
  function Act(m: Mail, buff: string): Action
    requires Find(buff, CRLF) != NPOS
  {
    if StartsWithCI(buff, "data\r") || m.state == DATA_START then
      if m.state < RCPT || m.state > DATA_START then Nothing
      else if m.state == RCPT then Start
      else if buff != ".\r\n" then Line(FullLine(buff))
      else if TitleThrows(m.data) then Crash
      else End
    else if StartsWithCI(buff, "helo ") then
      if m.state > READY then Nothing else Hello
    else if StartsWithCI(buff, "mail ") then
      if m.state != READY then Nothing
      else if Mailbox(buff).None? || IsLocal(Mailbox(buff).value).None? then Crash
      else if IsLocal(Mailbox(buff).value).value then From(Mailbox(buff).value)
      else Nothing
    else if StartsWithCI(buff, "rcpt ") then
      if m.state < MAIL || m.state > RCPT then Nothing
      else if Mailbox(buff).None? then Crash
      else To(Mailbox(buff).value)
    else if StartsWithCI(buff, "rset\r") then
      if m.state == INIT then Nothing else Reset
    else if StartsWithCI(buff, "quit\r") then Leave
    else Nothing
  }

  function Do(m: Mail, a: Action): Mail {
    match a
    case Nothing => m
    case Hello => m.(state := READY)
    case From(mailbox) => m.(state := MAIL, sender := mailbox)
    case To(mailbox) => m.(state := RCPT, rcpts := m.rcpts + {mailbox})
    case Start => m.(state := DATA_START)
    case Line(text) => m.(data := m.data + text)
    case End => Mail(DATA_END, "", {}, "")
    case Reset => Mail(READY, "", {}, "")
    case Leave => m.(state := QUIT)
    case Crash => m.(state := CRASHED)
  }

  /** One accepted message. */
  datatype Delivery = Delivery(sender: string, rcpts: set<string>, data: string)

  /** A session with its history: the actions that took effect, and what was delivered. */
  datatype Trace = Trace(mail: Mail, log: seq<Action>, deliveries: seq<Delivery>)

  function Step(t: Trace, buff: string): Trace
    requires Find(buff, CRLF) != NPOS
  {
    if t.mail.state >= QUIT then t
    else
      var a := Act(t.mail, buff);
      Trace(Do(t.mail, a), if a.Nothing? then t.log else t.log + [a],
            if a.End? then t.deliveries + [Delivery(t.mail.sender, t.mail.rcpts, t.mail.data)] else t.deliveries)
  }

  const OPENED := Trace(Mail(INIT, "", {}, ""), [], [])

  predicate Complete(buffs: seq<string>) {
    forall i :: 0 <= i < |buffs| ==> Find(buffs[i], CRLF) != NPOS
  }

  /** Everything that happens on a connection: `buffs` are the contents of the buffer each time
      a command is taken from its front. */
  function Run(buffs: seq<string>): Trace
    requires Complete(buffs)
  {
    if buffs == [] then OPENED
    else
      var front := buffs[..|buffs| - 1];
      assert forall i :: 0 <= i < |front| ==> front[i] == buffs[i];
      Step(Run(front), buffs[|buffs| - 1])
  }

  /** The verbs that are understood. */
  predicate Known(buff: string) {
    exists v :: v in VERBS && StartsWithCI(buff, v)
  }

  const VERBS := ["data\r", "helo ", "mail ", "rcpt ", "rset\r", "noop\r", "quit\r"]

  /** No two verbs start a command alike. */
  lemma {:induction false} OneVerb(buff: string)
    ensures forall v, v' :: v in VERBS && v' in VERBS && StartsWithCI(buff, v) && StartsWithCI(buff, v') ==> v == v'
  {
    forall v, v' | v in VERBS && v' in VERBS && StartsWithCI(buff, v) && StartsWithCI(buff, v')
      ensures v == v'
    {
      assert Lower(v[0]) == Lower(buff[0]) == Lower(v'[0]) && Lower(v[1]) == Lower(buff[1]) == Lower(v'[1]);
    }
  }

  lemma {:induction false} KnownVerbs(buff: string)
    ensures Known(buff) <==>
            || StartsWithCI(buff, "data\r") || StartsWithCI(buff, "helo ") || StartsWithCI(buff, "mail ")
            || StartsWithCI(buff, "rcpt ") || StartsWithCI(buff, "rset\r") || StartsWithCI(buff, "noop\r")
            || StartsWithCI(buff, "quit\r")
    ensures StartsWithCI(buff, "noop\r") || StartsWithCI(buff, "quit\r") ==>
              && !StartsWithCI(buff, "data\r") && !StartsWithCI(buff, "helo ") && !StartsWithCI(buff, "mail ")
              && !StartsWithCI(buff, "rcpt ") && !StartsWithCI(buff, "rset\r")
    ensures !(StartsWithCI(buff, "noop\r") && StartsWithCI(buff, "quit\r"))
  {
    OneVerb(buff);
    assert "data\r" == VERBS[0] && "helo " == VERBS[1] && "mail " == VERBS[2] && "rcpt " == VERBS[3];
    assert "rset\r" == VERBS[4] && "noop\r" == VERBS[5] && "quit\r" == VERBS[6];
    hide StartsWithCI;
  }

  /** What HELO, MAIL, RCPT and RSET change. */
  predicate CommandEffect(m: Mail, buff: string, m': Mail) {
    && (StartsWithCI(buff, "helo ") ==> m' == if m.state > READY then m else m.(state := READY))
    && (StartsWithCI(buff, "rset\r") ==> m' == if m.state == INIT then m else Mail(READY, "", {}, ""))
    && (StartsWithCI(buff, "mail ") ==>
          var box := Mailbox(buff);
          if m.state != READY then m' == m
          else if box.None? || IsLocal(box.value).None? then m' == m.(state := CRASHED)
          else m' == if IsLocal(box.value).value then m.(state := MAIL, sender := box.value) else m)
    && (StartsWithCI(buff, "rcpt ") ==>
          if m.state !in {MAIL, RCPT} then m' == m
          else m' == if Mailbox(buff).None? then m.(state := CRASHED)
                     else m.(state := RCPT, rcpts := m.rcpts + {Mailbox(buff).value}))
  }

  /** What DATA, a line, or the final dot changes. */
  predicate DataEffect(m: Mail, buff: string, m': Mail, ds: seq<Delivery>, ds': seq<Delivery>)
    requires Find(buff, CRLF) != NPOS
  {
    if m.state == RCPT then m' == m.(state := DATA_START) && ds' == ds
    else if m.state != DATA_START then m' == m && ds' == ds
    else if buff != ".\r\n" then m' == m.(data := m.data + buff[..Find(buff, CRLF) + 2]) && ds' == ds
    else if Find(m.data, "Subject: ") + 9 > |m.data| then m' == m.(state := CRASHED) && ds' == ds
    else m' == Mail(DATA_END, "", {}, "") && ds' == ds + [Delivery(m.sender, m.rcpts, m.data)]
  }

  /** What an action does is what its command is for. */
  lemma {:induction false} ActEffect(m: Mail, buff: string, ds: seq<Delivery>)
    requires Find(buff, CRLF) != NPOS && m.state < QUIT
    ensures m.state != DATA_START ==> CommandEffect(m, buff, Do(m, Act(m, buff)))
    ensures m.state == DATA_START || StartsWithCI(buff, "data\r") ==>
              var a := Act(m, buff);
              DataEffect(m, buff, Do(m, a), ds, if a.End? then ds + [Delivery(m.sender, m.rcpts, m.data)] else ds)
  {
    OneVerb(buff);
    TitleThrowsIff(m.data);
    assert "data\r" == VERBS[0] && "helo " == VERBS[1] && "mail " == VERBS[2] && "rcpt " == VERBS[3];
    assert "rset\r" == VERBS[4];
    hide Find, Mailbox, IsLocal, StartsWithCI, TitleThrows, RFind;
  }

  // ------------------------------------------------------------ the session object

  class SmtpSession {
    var state: int
    var sender: string
    var rcpts: set<string>
    var data: string
    ghost var log: seq<Action>
    ghost var deliveries: seq<Delivery>

    constructor ()
      ensures Now() == OPENED
    {
      state, sender, rcpts, data := INIT, "", {}, "";
      log, deliveries := [], [];
    }

    function Held(): Mail
      reads this
    {
      Mail(state, sender, rcpts, data)
    }

    ghost function Now(): Trace
      reads this
    {
      Trace(Held(), log, deliveries)
    }

    /** `handle_helo`; a bare verb is answered twice. */
    method HandleHelo(buff: string) returns (replies: seq<string>)
      modifies `state
      ensures Held() == if old(state) > READY then old(Held()) else old(Held()).(state := READY)
      ensures replies == (if |buff| <= CMD_SIZE then [SYNTAX_ERR] else [])
                         + [if old(state) > READY then BAD_SEQ else HELO]
    {
      replies := [];
      if |buff| <= CMD_SIZE {
        replies := replies + [SYNTAX_ERR];
      }
      if state > READY {
        replies := replies + [BAD_SEQ];
      } else {
        state := READY;
        replies := replies + [HELO];
      }
    }

    /** `handle_from`; a wrong keyword after MAIL is answered, but the command goes on. */
    method HandleFrom(buff: string) returns (replies: seq<string>)
      requires |buff| >= CMD_SIZE
      modifies `state, `sender
      ensures var box := Mailbox(buff);
              Held() == if old(state) != READY then old(Held())
                        else if box.None? || IsLocal(box.value).None? then old(Held()).(state := CRASHED)
                        else if IsLocal(box.value).value then old(Held()).(state := MAIL, sender := box.value)
                        else old(Held())
      ensures replies == (if StartsWithCI(buff[CMD_SIZE..], "from:") then [] else [UNKNOWN_CMD])
                         + if old(state) != READY then [BAD_SEQ]
                           else if state == CRASHED then []
                           else if state == MAIL then [OK] else [SYNTAX_ERR]
    {
      replies := [];
      if !StartsWithCI(buff[CMD_SIZE..], "from:") {
        replies := [UNKNOWN_CMD];
      }
      if state != READY {
        replies := replies + [BAD_SEQ];
        return;
      }
      var domain := ParseMailbox(buff);
      if domain.None? {
        state := CRASHED;
        return;
      }
      var found := RFind(domain.value, "@");
      if found == NPOS {
        state := CRASHED;
        return;
      }
      if !At(domain.value, "@localhost", found) {
        replies := replies + [SYNTAX_ERR];
      } else {
        state := MAIL;
        sender := domain.value;
        replies := replies + [OK];
      }
    }

    /** `handle_to`. */
    method HandleTo(buff: string) returns (replies: seq<string>)
      requires |buff| >= CMD_SIZE
      modifies `state, `rcpts
      ensures var box := Mailbox(buff);
              Held() == if old(state) < MAIL || old(state) > RCPT then old(Held())
                        else if box.None? then old(Held()).(state := CRASHED)
                        else old(Held()).(state := RCPT, rcpts := old(rcpts) + {box.value})
      ensures replies == (if StartsWithCI(buff[CMD_SIZE..], "to:") then [] else [UNKNOWN_CMD])
                         + if old(state) < MAIL || old(state) > RCPT then [BAD_SEQ]
                           else if state == CRASHED then [] else [OK]
    {
      replies := [];
      if !StartsWithCI(buff[CMD_SIZE..], "to:") {
        replies := [UNKNOWN_CMD];
      }
      if state < MAIL || state > RCPT {
        replies := replies + [BAD_SEQ];
        return;
      }
      var rcpt := ParseMailbox(buff);
      if rcpt.None? {
        state := CRASHED;
        return;
      }
      state := RCPT;
      rcpts := rcpts + {rcpt.value};
      replies := replies + [OK];
    }

    /** `handle_data`. */
    method HandleData(buff: string) returns (replies: seq<string>)
      requires Find(buff, CRLF) != NPOS
      requires StartsWithCI(buff, "data\r") || state == DATA_START
      modifies this
      ensures Held() == Do(old(Held()), Act(old(Held()), buff))
      ensures log == old(log)
      ensures deliveries == if Act(old(Held()), buff).End?
                            then old(deliveries) + [Delivery(old(sender), old(rcpts), old(data))] else old(deliveries)
      ensures DataEffect(old(Held()), buff, Held(), old(deliveries), deliveries)
      ensures old(state) < RCPT || old(state) > DATA_START ==> replies == [BAD_SEQ]
      ensures old(state) == RCPT ==> replies == [START_MAIL]
      ensures old(state) == DATA_START && state != DATA_END ==> replies == []
      ensures old(state) == DATA_START && state == DATA_END ==>
                replies == (if Find(old(data), "Subject: ") == NPOS then [NO_SUBJECT] else []) + [OK]
    {
      replies := [];
      if state < RCPT || state > DATA_START {
        replies := [BAD_SEQ];
      } else if state == RCPT {
        state := DATA_START;
        replies := [START_MAIL];
      } else if buff != ".\r\n" {
        data := data + FullLine(buff);
      } else if TitleThrows(data) {
        state := CRASHED;
      } else {
        state := DATA_END;
        if Find(data, "Subject: ") == NPOS {
          replies := [NO_SUBJECT];
        }
        deliveries := deliveries + [Delivery(sender, rcpts, data)];
        data, sender, rcpts := "", "", {};
        replies := replies + [OK];
      }
    }

    /** `handle_rset`. */
    method HandleRset() returns (replies: seq<string>)
      modifies `state, `sender, `rcpts, `data
      ensures Held() == if old(state) == INIT then old(Held()) else Mail(READY, "", {}, "")
      ensures replies == [if old(state) == INIT then BAD_SEQ else OK]
    {
      if state == INIT {
        replies := [BAD_SEQ];
      } else {
        state, data, sender, rcpts := READY, "", "", {};
        replies := [OK];
      }
    }

    /** One round of the command loop: the buffer holds at least one full line. */
    method HandleCommand(buff: string) returns (replies: seq<string>)
      requires Find(buff, CRLF) != NPOS && state < QUIT
      modifies this
      ensures Now() == Step(old(Now()), buff)
      ensures old(state) == DATA_START || StartsWithCI(buff, "data\r") ==>
                DataEffect(old(Held()), buff, Held(), old(deliveries), deliveries)
      ensures old(state) != DATA_START ==> CommandEffect(old(Held()), buff, Held())
      ensures old(state) != DATA_START && StartsWithCI(buff, "noop\r") ==> replies == [OK] && Held() == old(Held())
      ensures old(state) != DATA_START && StartsWithCI(buff, "quit\r") ==> replies == [SERVICE_CLOSE] && state == QUIT
      ensures old(state) != DATA_START && !Known(buff) ==> replies == [UNKNOWN_CMD] && Held() == old(Held())
    {
      hide Find, Act, Do, DataEffect, CommandEffect, StartsWithCI, Known;
      ghost var a := Act(Held(), buff);
      ActEffect(Held(), buff, deliveries);
      replies := Dispatch(buff);
      log := if a.Nothing? then log else log + [a];
    }

    method Dispatch(buff: string) returns (replies: seq<string>)
      requires Find(buff, CRLF) != NPOS && state < QUIT
      modifies this
      ensures Held() == Do(old(Held()), Act(old(Held()), buff))
      ensures log == old(log)
      ensures deliveries == if Act(old(Held()), buff).End?
                            then old(deliveries) + [Delivery(old(sender), old(rcpts), old(data))] else old(deliveries)
      ensures old(state) != DATA_START && StartsWithCI(buff, "noop\r") ==> replies == [OK] && Held() == old(Held())
      ensures old(state) != DATA_START && StartsWithCI(buff, "quit\r") ==> replies == [SERVICE_CLOSE] && state == QUIT
      ensures old(state) != DATA_START && !Known(buff) ==> replies == [UNKNOWN_CMD] && Held() == old(Held())
    {
      KnownVerbs(buff);
      hide Known, VERBS;
      hide Find, RFind, Mailbox, IsLocal, TitleThrows, StartsWithCI, FullLine;
      VerbLength(buff);
      if StartsWithCI(buff, "data\r") || state == DATA_START {
        replies := HandleData(buff);
      } else if StartsWithCI(buff, "helo ") {
        replies := HandleHelo(buff);
      } else if StartsWithCI(buff, "mail ") {
        replies := HandleFrom(buff);
      } else if StartsWithCI(buff, "rcpt ") {
        replies := HandleTo(buff);
      } else if StartsWithCI(buff, "rset\r") {
        replies := HandleRset();
      } else if StartsWithCI(buff, "noop\r") {
        replies := [OK];
      } else if StartsWithCI(buff, "quit\r") {
        state := QUIT;
        replies := [SERVICE_CLOSE];
      } else {
        replies := [UNKNOWN_CMD];
      }
    }
  }

  lemma {:induction false} VerbLength(buff: string)
    ensures StartsWithCI(buff, "mail ") || StartsWithCI(buff, "rcpt ") ==> |buff| >= CMD_SIZE
    ensures StartsWithCI(buff, "noop\r") ==> !StartsWithCI(buff, "quit\r")
  {
    assert StartsWithCI(buff, "noop\r") ==> Lower(buff[0]) == Lower('n') != Lower('q');
  }
}
