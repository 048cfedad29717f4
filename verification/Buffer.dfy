/** The character buffer that the mail programs read replies into, shifted in place. */
module Buffer {
  import opened Text
  import opened Wire

  const NUL := '\0'
  const CRLF := "\r\n"
  const BUFF_SIZE := 5000

  function Zeros(n: nat): (s: string)
    ensures |s| == n && forall i :: 0 <= i < n ==> s[i] == NUL
  {
    seq(n, _ => NUL)
  }

  /** `s` is the C string `text` followed by zeros. */
  predicate Holds(s: string, text: string) {
    && |text| < |s| && Free(text, NUL)
    && s == text + Zeros(|s| - |text|)
  }

  /** `strlen`. */
  method StrLen(buff: array<char>) returns (n: nat)
    requires NUL in buff[..]
    ensures n < buff.Length && buff[n] == NUL && Free(buff[..n], NUL)
  {
    n := 0;
    while buff[n] != NUL
      invariant n < buff.Length && Free(buff[..n], NUL) && NUL in buff[n..]
      decreases buff.Length - n
    {
      assert buff[n..] == [buff[n]] + buff[n + 1..];
      n := n + 1;
    }
  }

  /** The first loop of `clear_buffer`: what follows `end`, up to the NUL at `n`, moves to the
      front, leaving zeros. */
  method MoveTail(buff: array<char>, end: nat, ghost n: nat) returns (curr: nat)
    requires 0 < end <= n < buff.Length && buff[n] == NUL && forall i :: 0 <= i < n ==> buff[i] != NUL
    modifies buff
    ensures curr == n - end
    ensures forall i :: 0 <= i < curr ==> buff[i] == old(buff[end + i])
    ensures forall i :: curr <= i < end ==> buff[i] == old(buff[i])
    ensures forall i :: end <= i < n && curr <= i ==> buff[i] == NUL
    ensures forall i :: n <= i < buff.Length ==> buff[i] == old(buff[i])
  {
    curr := 0;
    var e := end;
    while buff[e] != NUL
      invariant curr + end == e <= n
      invariant forall i :: 0 <= i < curr ==> buff[i] == old(buff[end + i])
      invariant forall i :: curr <= i < end ==> buff[i] == old(buff[i])
      invariant forall i :: end <= i < e && curr <= i ==> buff[i] == NUL
      invariant forall i :: e <= i < buff.Length ==> buff[i] == old(buff[i])
      decreases n - e
    {
      buff[curr] := buff[e];
      buff[e] := NUL;
      curr, e := curr + 1, e + 1;
    }
  }

  /** The second loop: what is left of the old text becomes zeros. */
  method ZeroRest(buff: array<char>, start: nat, ghost stop: nat)
    requires start <= stop < buff.Length && buff[stop] == NUL
    requires forall i, j :: start <= i <= j < stop && buff[i] == NUL ==> buff[j] == NUL
    modifies buff
    ensures forall i :: start <= i < stop ==> buff[i] == NUL
    ensures forall i :: 0 <= i < buff.Length && (i < start || stop <= i) ==> buff[i] == old(buff[i])
  {
    var curr := start;
    while buff[curr] != NUL
      invariant start <= curr <= stop
      invariant forall i :: start <= i < curr ==> buff[i] == NUL
      invariant forall i :: 0 <= i < buff.Length && (i < start || curr <= i) ==> buff[i] == old(buff[i])
      decreases stop - curr
    {
      buff[curr] := NUL;
      curr := curr + 1;
    }
  }

  /** `clear_buffer`: what follows `end`, up to the NUL at `n`, moves to the front, and the
      rest of the old text becomes zeros. The two parts may overlap. */
  method ClearBuffer(buff: array<char>, end: nat, ghost n: nat)
    requires 0 < end <= n < buff.Length && buff[n] == NUL && Free(buff[..n], NUL)
    modifies buff
    ensures buff[..] == old(buff[end..n]) + Zeros(end) + old(buff[n..])
  {
    ghost var was := buff[..];
    assert forall i :: 0 <= i < n ==> was[i] == was[..n][i] != NUL;
    var curr := MoveTail(buff, end, n);
    ZeroRest(buff, curr, n);
    Cleared(was, buff[..], end, n);
  }

  lemma {:induction false} Cleared(was: string, now: string, end: nat, n: nat)
    requires end <= n <= |was| == |now|
    requires forall i :: 0 <= i < n - end ==> now[i] == was[end + i]
    requires forall i :: n - end <= i < n ==> now[i] == NUL
    requires forall i :: n <= i < |was| ==> now[i] == was[i]
    ensures now == was[end..n] + Zeros(end) + was[n..]
  {
  }

  // ------------------------------------------------------------ reading a reply

  /** The state of `do_read`: the unread text in the buffer, whether the first line has been
      seen, and what will be returned. */
  datatype Reader = Reader(pending: string, inData: bool, response: string, quit: bool)

  function Lower(c: char): char {
    if 'A' <= c <= 'Z' then (c as int + 32) as char else c
  }

  /** `strncasecmp(s, p, |p|) == 0`. */
  predicate StartsWithCI(s: string, p: string) {
    |p| <= |s| && forall i :: 0 <= i < |p| ==> Lower(s[i]) == Lower(p[i])
  }

  predicate Letter(c: char) {
    'a' <= c <= 'z'
  }

  /** Character by character the text is that of `p`, or its upper case. */
  lemma {:induction false} AnyCase(s: string, p: string)
    requires forall i :: 0 <= i < |p| ==> !('A' <= p[i] <= 'Z')
    ensures StartsWithCI(s, p) <==>
            |p| <= |s| && forall i :: 0 <= i < |p| ==>
              s[i] == p[i] || (Letter(p[i]) && s[i] as int == p[i] as int - 32)
  {
    forall i | 0 <= i < |p| && i < |s|
      ensures Lower(s[i]) == Lower(p[i]) <==> s[i] == p[i] || (Letter(p[i]) && s[i] as int == p[i] as int - 32)
    {
    }
  }

  /** The text up to and with the first line end. */
  function FullLine(pending: string): string
    requires Find(pending, CRLF) != NPOS
  {
    pending[..Find(pending, CRLF) + 2]
  }

  /** The effect of one full line. Whether a data line is the final dot is decided on the whole
      buffer, not on the line. */
  function OnLine(r: Reader): Reader
    requires Find(r.pending, CRLF) != NPOS
  {
    var line := FullLine(r.pending);
    if r.inData then
      if r.pending != ".\r\n" then r.(response := r.response + line, pending := r.pending[|line|..])
      else r.(quit := true)
    else if StartsWithCI(r.pending, "DATA\r\n") then r.(inData := true, pending := r.pending[|line|..])
    else if StartsWithCI(r.pending, "-ERR") || StartsWithCI(r.pending, "+OK") || StartsWithCI(r.pending, "SERVER") then
      r.(response := line, quit := true)
    else r.(pending := r.pending[|line|..])
  }

  /** All full lines in the buffer. */
  function Drain(r: Reader): Reader
    decreases |r.pending|
  {
    if r.quit || Find(r.pending, CRLF) == NPOS then r
    else
      var next := OnLine(r);
      if next.quit then next else Drain(next)
  }

  /** How reading ends: with a response, waiting for more, or with a buffer too full to hold
      the NUL after the unread text. */
  datatype Result = Done(response: string) | Waiting | Overflow

  function ReadAll(r: Reader, pieces: seq<string>): Result
    decreases |pieces|
  {
    if r.quit then Done(r.response)
    else if pieces == [] then Waiting
    else if |r.pending| + |pieces[0]| >= BUFF_SIZE then Overflow
    else ReadAll(Drain(r.(pending := r.pending + pieces[0])), pieces[1..])
  }

  const EMPTY := Reader("", false, "", false)

  lemma {:induction false} HoldsText(s: string, text: string)
    requires Holds(s, text)
    ensures |text| < |s| && s[..|text|] == text && s[|text|] == NUL && Free(s[..|text|], NUL)
  {
  }

  /** What `clear_buffer` leaves holds the unread tail. */
  lemma {:induction false} TailHeld(s: string, text: string, end: nat, t: string)
    requires Holds(s, text) && end <= |text| && t == s[end..|text|] + Zeros(end) + s[|text|..]
    ensures Holds(t, text[end..])
  {
    assert s[end..|text|] == text[end..];
    assert s[|text|..] == Zeros(|s| - |text|);
    assert Zeros(end) + Zeros(|s| - |text|) == Zeros(|t| - |text[end..]|);
    assert t == text[end..] + (Zeros(end) + Zeros(|s| - |text|));
  }

  method TextOf(buff: array<char>, ghost pending: string) returns (text: string)
    requires Holds(buff[..], pending)
    ensures text == pending
  {
    HoldsText(buff[..], pending);
    var n := StrLen(buff);
    text := buff[..n];
  }

  /** The loop over the full lines in the buffer. */
  method TakeLines(buff: array<char>, inData: bool, response: string, ghost pending: string)
      returns (inData': bool, response': string, quit: bool, ghost pending': string)
    requires Holds(buff[..], pending)
    modifies buff
    ensures Reader(pending', inData', response', quit) == Drain(Reader(pending, inData, response, false))
    ensures Holds(buff[..], pending')
  {
    hide Holds, Drain, StartsWithCI, Find;
    inData', response', quit, pending' := inData, response, false, pending;
    var text := TextOf(buff, pending');
    while !quit && Find(text, CRLF) != NPOS
      invariant text == pending' && Holds(buff[..], pending')
      invariant Drain(Reader(pending', inData', response', quit)) == Drain(Reader(pending, inData, response, false))
      decreases |text|, !quit
    {
      ghost var now := Reader(pending', inData', response', false);
      DrainNext(now);
      var end := Find(text, CRLF) + 2;
      LineFits(text);
      var line := text[..end];
      if inData' {
        if text != ".\r\n" {
          response' := response' + line;
        } else {
          quit := true;
        }
      } else if StartsWithCI(text, "DATA\r\n") {
        inData' := true;
      } else if StartsWithCI(text, "-ERR") || StartsWithCI(text, "+OK") || StartsWithCI(text, "SERVER") {
        response', quit := line, true;
      }
      if quit {
        break;
      }
      HoldsText(buff[..], text);
      assert buff[..][..|text|] == buff[..|text|];
      TailHeld(buff[..], text, end, buff[end..|text|] + Zeros(end) + buff[|text|..]);
      ClearBuffer(buff, end, |text|);
      pending' := text[end..];
      text := TextOf(buff, pending');
    }
    DrainDone(Reader(pending', inData', response', quit));
  }

  lemma {:induction false} LineFits(text: string)
    requires Find(text, CRLF) != NPOS
    ensures 0 <= Find(text, CRLF) <= |text| - 2
  {
  }

  lemma {:induction false} DrainNext(r: Reader)
    requires !r.quit && Find(r.pending, CRLF) != NPOS
    ensures Drain(r) == Drain(OnLine(r))
  {
    hide OnLine;
  }

  lemma {:induction false} DrainDone(r: Reader)
    requires r.quit || Find(r.pending, CRLF) == NPOS
    ensures Drain(r) == r
  {
  }

  lemma {:induction false} HoldsMore(s: string, text: string, piece: string, t: string)
    requires Holds(s, text) && Free(piece, NUL) && |text| + |piece| < |s| == |t|
    requires t[..|text| + |piece|] == text + piece && t[|text| + |piece|..] == s[|text| + |piece|..]
    ensures Holds(t, text + piece)
  {
    assert t == (text + piece) + t[|text| + |piece|..];
    assert s[|text| + |piece|..] == Zeros(|s| - |text| - |piece|);
  }

  lemma {:induction false} NothingHeld(s: string)
    requires |s| > 0 && forall i :: 0 <= i < |s| ==> s[i] == NUL
    ensures Holds(s, "")
  {
    assert s == "" + Zeros(|s|);
  }

  /** `read`: the piece arrives behind the unread text. */
  method Receive(buff: array<char>, piece: string, ghost pending: string)
    requires Holds(buff[..], pending) && Free(piece, NUL) && |pending| + |piece| < buff.Length
    modifies buff
    ensures Holds(buff[..], pending + piece)
  {
    HoldsText(buff[..], pending);
    var n := StrLen(buff);
    ghost var was := buff[..];
    var j := 0;
    while j < |piece|
      invariant 0 <= j <= |piece|
      invariant buff[..n] == was[..n] && buff[n..n + j] == piece[..j] && buff[n + j..] == was[n + j..]
    {
      buff[n + j] := piece[j];
      j := j + 1;
    }
    assert buff[..][..n + |piece|] == buff[..n] + buff[n..n + j];
    assert buff[..][n + |piece|..] == was[n + |piece|..];
    HoldsMore(was, pending, piece, buff[..]);
  }

  /** `do_read` on the pieces that `read` delivers. */
  method DoRead(pieces: seq<string>) returns (r: Result)
    requires forall i :: 0 <= i < |pieces| ==> Free(pieces[i], NUL)
    ensures r == ReadAll(EMPTY, pieces)
  {
    hide Holds, Drain, Find, Free;
    var buff := new char[BUFF_SIZE](_ => NUL);
    NothingHeld(buff[..]);
    var response, inData, quit := "", false, false;
    ghost var pending := "";
    var i := 0;
    while i < |pieces| && !quit
      invariant 0 <= i <= |pieces| && fresh(buff) && buff.Length == BUFF_SIZE
      invariant Holds(buff[..], pending)
      invariant ReadAll(EMPTY, pieces) == ReadAll(Reader(pending, inData, response, quit), pieces[i..])
    {
      var text := TextOf(buff, pending);
      if |text| + |pieces[i]| >= BUFF_SIZE {
        return Overflow;
      }
      Receive(buff, pieces[i], pending);
      assert pieces[i..][1..] == pieces[i + 1..];
      inData, response, quit, pending := TakeLines(buff, inData, response, pending + pieces[i]);
      i := i + 1;
    }
    r := if quit then Done(response) else Waiting;
  }
}
