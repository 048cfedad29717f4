/** The text of a directory: one line per entry, the fields of an entry separated by "||". */
module Listing {
  import opened Wrappers
  import opened Text

  /** What `file_info` holds. */
  datatype Item = Item(isFile: bool, id: string, name: string, time: string, size: string)

  /** The line of an entry, without the line feed that ends it. */
  function ItemText(e: Item): string {
    (if e.isFile then "f:" else "o:") + Fields4(e.id, e.name, e.time, e.size)
  }

  function Fields4(a: string, b: string, c: string, d: string): string {
    a + ("||" + (b + ("||" + (c + ("||" + d)))))
  }

  // ------------------------------------------------------------ one entry

  predicate Bars(s: string, i: nat) {
    i + 1 < |s| && s[i] == '|' && s[i + 1] == '|'
  }

  /** What the field loop collects from position `i` on, the current field starting at
      `previous`. After a match it goes on at the second bar, so that "|||" matches twice. */
  function Split(s: string, i: nat, previous: nat): (r: seq<string>)
    requires previous <= |s|
    decreases |s| - i
  {
    if i + 1 >= |s| then [s[previous..]]
    else if Bars(s, i) then [Slice(s, previous, i)] + Split(s, i + 1, i + 2)
    else Split(s, i + 1, previous)
  }

  /** `parse_string_to_class`; `None` where it throws or reads past the end. */
  function Parse(str: string): Option<Item> {
    if |str| < 3 then None
    else
      var result := Split(str[2..], 0, 0);
      if |result| < 4 then None
      else Some(Item(str[..1] == "f", result[0], result[1], result[2], result[3]))
  }

  method ParseStringToClass(str: string) returns (res: Option<Item>)
    ensures res == Parse(str)
  {
    if |str| < 3 {
      return None;
    }
    var nameId := str[2..];
    var i, previous := 0, 0;
    var result: seq<string> := [];
    while i < |nameId| - 1
      invariant 0 <= i && 0 <= previous <= |nameId|
      invariant Split(nameId, 0, 0) == result + Split(nameId, i, previous)
    {
      if nameId[i] == '|' && nameId[i + 1] == '|' {
        result := result + [Slice(nameId, previous, i)];
        previous := i + 2;
      }
      i := i + 1;
    }
    result := result + [nameId[previous..]];
    if |result| < 4 {
      return None;
    }
    res := Some(Item(str[..1] == "f", result[0], result[1], result[2], result[3]));
  }

  predicate NoBars(e: Item) {
    Free(e.id, '|') && Free(e.name, '|') && Free(e.time, '|') && Free(e.size, '|')
  }

  lemma {:induction false} Skip(s: string, i: nat, k: nat, p: nat)
    requires i <= k && p <= |s| && forall x :: i <= x < k ==> !Bars(s, x)
    requires k < |s|
    ensures Split(s, i, p) == Split(s, k, p)
    decreases k - i
  {
    if i < k {
      Skip(s, i + 1, k, p);
    }
  }

  lemma {:induction false} FieldsAt(f: string, g: string, h: string, i: string)
    ensures var s, a := Fields4(f, g, h, i), |f|;
            var b := a + 2 + |g|;
            var c := b + 2 + |h|;
            && |s| == c + 2 + |i|
            && s[..a] == f && s[a + 2..b] == g && s[b + 2..c] == h && s[c + 2..] == i
            && s[a..a + 2] == "||" && s[b..b + 2] == "||" && s[c..c + 2] == "||"
  {
  }

  /** Where the bars of an entry are. */
  lemma {:induction false} BarsOf(e: Item)
    requires NoBars(e)
    ensures var s, a := Fields4(e.id, e.name, e.time, e.size), |e.id|;
            var b := a + 2 + |e.name|;
            var c := b + 2 + |e.time|;
            && |s| == c + 2 + |e.size|
            && (forall x :: 0 <= x < |s| ==> (s[x] == '|' <==> x in {a, a + 1, b, b + 1, c, c + 1}))
            && s[..a] == e.id && s[a + 2..b] == e.name && s[b + 2..c] == e.time && s[c + 2..] == e.size
  {
    var s, a := Fields4(e.id, e.name, e.time, e.size), |e.id|;
    var b := a + 2 + |e.name|;
    var c := b + 2 + |e.time|;
    FieldsAt(e.id, e.name, e.time, e.size);
    hide Fields4;
    forall x | 0 <= x < |s|
      ensures s[x] == '|' <==> x in {a, a + 1, b, b + 1, c, c + 1}
    {
      if x < a {
        assert s[x] == e.id[x];
      } else if x < a + 2 {
        assert s[x] == s[a..a + 2][x - a];
      } else if x < b {
        assert s[x] == e.name[x - (a + 2)];
      } else if x < b + 2 {
        assert s[x] == s[b..b + 2][x - b];
      } else if x < c {
        assert s[x] == e.time[x - (b + 2)];
      } else if x < c + 2 {
        assert s[x] == s[c..c + 2][x - c];
      } else {
        assert s[x] == e.size[x - (c + 2)];
      }
    }
  }

  /** An entry without bars in its fields is read back exactly if its name and its time are
      not empty. */
  lemma {:induction false} EntryRoundTripIff(e: Item)
    requires NoBars(e)
    ensures Parse(ItemText(e)) == Some(e) <==> e.name != "" && e.time != ""
  {
    hide Split, Fields4;
    BarsOf(e);
    var s, a := Fields4(e.id, e.name, e.time, e.size), |e.id|;
    var b := a + 2 + |e.name|;
    var c := b + 2 + |e.time|;
    assert ItemText(e)[2..] == s;
    assert ItemText(e)[..1] == if e.isFile then "f" else "o";
    FieldAt(s, 0, 0, a);
    if e.name == "" {
      EmptyField(s, a);
    } else {
      FieldAt(s, a + 1, a + 2, b);
      if e.time == "" {
        EmptyField(s, b);
      } else {
        FieldAt(s, b + 1, b + 2, c);
        LastField(s, c + 1, c + 2);
      }
    }
  }

  /** The next pair of bars ends the field that starts at `p`. */
  lemma {:induction false} FieldAt(s: string, i: nat, p: nat, k: nat)
    requires p <= |s| && i <= k && p <= k && Bars(s, k)
    requires forall x :: i <= x < k ==> !Bars(s, x)
    ensures Split(s, i, p) == [s[p..k]] + Split(s, k + 1, k + 2)
  {
    Skip(s, i, k, p);
  }

  lemma {:induction false} LastField(s: string, i: nat, p: nat)
    requires p <= |s| && i < |s|
    requires forall x :: i <= x < |s| ==> !Bars(s, x)
    ensures Split(s, i, p) == [s[p..]]
  {
    Skip(s, i, |s| - 1, p);
  }

  /** After an empty field the next one is everything that is left. */
  lemma {:induction false} EmptyField(s: string, k: nat)
    requires Bars(s, k) && Bars(s, k + 1)
    ensures Split(s, k + 1, k + 2)[0] == s[k + 2..]
  {
  }

  // ------------------------------------------------------------ the lines

  /** The text after the last line feed. */
  function Tail(t: string): string {
    if t == "" || t[|t| - 1] == '\n' then "" else Tail(t[..|t| - 1]) + [t[|t| - 1]]
  }

  /** The lines of a text; what follows the last line feed is dropped. */
  function Lines(t: string): seq<string> {
    if t == "" then []
    else
      var front := t[..|t| - 1];
      if t[|t| - 1] == '\n' then Lines(front) + [Tail(front)] else Lines(front)
  }

  /** `parse_content_fileNames`. */
  method ParseContentFileNames(str: string) returns (names: seq<string>)
    ensures names == Lines(str)
  {
    names := [];
    var i, previous := 0, 0;
    while i < |str|
      invariant 0 <= previous <= i <= |str|
      invariant names == Lines(str[..i]) && str[previous..i] == Tail(str[..i])
    {
      assert str[..i + 1][..i] == str[..i];
      if str[i] == '\n' {
        names := names + [str[previous..i]];
        previous := i + 1;
      }
      i := i + 1;
    }
    assert str[..i] == str;
  }

  function ListingText(es: seq<Item>): string {
    if es == [] then "" else ListingText(es[..|es| - 1]) + (ItemText(es[|es| - 1]) + "\n")
  }

  function Texts(es: seq<Item>): (ls: seq<string>)
    ensures |ls| == |es| && forall i :: 0 <= i < |es| ==> ls[i] == ItemText(es[i])
  {
    seq(|es|, i requires 0 <= i < |es| => ItemText(es[i]))
  }

  lemma {:induction false} LinesAppend(t: string, line: string)
    requires Tail(t) == "" && Free(line, '\n')
    ensures Lines(t + (line + "\n")) == Lines(t) + [line] && Tail(t + (line + "\n")) == ""
  {
    LinesSame(t, line);
    assert (t + (line + "\n"))[..|t| + |line|] == t + line;
  }

  lemma {:induction false} LinesSame(t: string, line: string)
    requires Tail(t) == "" && Free(line, '\n')
    ensures Lines(t + line) == Lines(t) && Tail(t + line) == line
  {
    if line == "" {
      assert t + line == t;
    } else {
      var front := line[..|line| - 1];
      LinesSame(t, front);
      assert (t + line)[..|t + line| - 1] == t + front;
    }
  }

  predicate NoLineFeed(e: Item) {
    Free(e.id, '\n') && Free(e.name, '\n') && Free(e.time, '\n') && Free(e.size, '\n')
  }

  /** The lines of a listing are the texts of its entries. */
  lemma {:induction false} ListingLines(es: seq<Item>)
    requires forall i :: 0 <= i < |es| ==> NoLineFeed(es[i])
    ensures Lines(ListingText(es)) == Texts(es) && Tail(ListingText(es)) == ""
  {
    hide Lines, Tail, ItemText;
    NoText();
    if es != [] {
      var front := es[..|es| - 1];
      ListingLines(front);
      var last := es[|es| - 1];
      ItemNoLineFeed(last);
      LinesAppend(ListingText(front), ItemText(last));
      assert Texts(es) == Texts(front) + [ItemText(last)];
    }
  }

  lemma {:induction false} NoText()
    ensures Lines("") == [] && Tail("") == ""
  {
  }

  lemma {:induction false} ItemNoLineFeed(e: Item)
    requires NoLineFeed(e)
    ensures Free(ItemText(e), '\n')
  {
  }

  /** Entries that survive the text of a directory. */
  predicate Plain(e: Item) {
    NoBars(e) && NoLineFeed(e) && e.name != "" && e.time != ""
  }

  predicate AllPlain(es: seq<Item>) {
    forall i :: 0 <= i < |es| ==> Plain(es[i])
  }

  /** A directory is determined by its text: every line is read back as its entry. */
  lemma {:induction false} ListingRoundTrip(es: seq<Item>)
    requires AllPlain(es)
    ensures var ls := Lines(ListingText(es));
            |ls| == |es| && forall i :: 0 <= i < |es| ==> Parse(ls[i]) == Some(es[i])
  {
    hide Parse, ItemText, NoBars, NoLineFeed, ListingText, Lines;
    ListingLines(es);
    forall i | 0 <= i < |es|
      ensures Parse(Texts(es)[i]) == Some(es[i])
    {
      EntryRoundTripIff(es[i]);
    }
  }
}
